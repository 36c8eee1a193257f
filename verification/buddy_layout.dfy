/** Where the tables of both pyramids lie in the block of memory that holds them. */
module BuddyLayout {
  import opened Machine
  import opened Shifts
  import opened BuddyGeometry
  import opened BitTables

  /** struct buddy: the word offset of each order's table, the page count and the order count. */
  datatype Buddy = Buddy(data: seq<nat>, order0Bits: nat, orders: nat)

  /** _determine_buddy_order_size, in words, summed over the orders from `order` on. */
  function TableWords(n: nat, order: nat, orders: nat): nat
    decreases orders - order
  {
    if order >= orders then 0 else OrderWords(n, order) + TableWords(n, order + 1, orders)
  }

  /** _determine_buddy_data_size, in words: one pointer an order, then the tables. */
  function DataWords(n: nat): nat {
    Orders(n) + TableWords(n, 0, Orders(n))
  }

  /** The bytes that the first pass asks for: two pyramids, four bytes a word. */
  function TotalDataSize(n: nat): nat {
    8 * DataWords(n)
  }

  /** Consecutive tables for the orders from `order` on, the first one at word `start`. */
  function TablesFrom(n: nat, order: nat, orders: nat, start: nat): (ts: seq<Table>)
    ensures |ts| == if order < orders then orders - order else 0
    ensures forall k :: 0 <= k < |ts| ==> ts[k].words == OrderWords(n, order + k)
    decreases orders - order
  {
    if order >= orders then []
    else [Table(start, OrderWords(n, order))] + TablesFrom(n, order + 1, orders, start + OrderWords(n, order))
  }

  /** The tables lie one after the other, from `start` to exactly `start` plus their summed size. */
  ghost predicate Consecutive(ts: seq<Table>, start: nat, end: nat) {
    if ts == [] then start == end
    else ts[0].off == start && Consecutive(ts[1..], start + ts[0].words, end)
  }

  lemma {:induction false} TablesConsecutive(n: nat, order: nat, orders: nat, start: nat)
    ensures Consecutive(TablesFrom(n, order, orders, start), start, start + TableWords(n, order, orders))
    decreases orders - order
  {
    if order < orders {
      var rest := TablesFrom(n, order + 1, orders, start + OrderWords(n, order));
      TablesConsecutive(n, order + 1, orders, start + OrderWords(n, order));
      assert TablesFrom(n, order, orders, start)[1..] == rest;
    }
  }

  lemma {:induction false} ConsecutiveAt(ts: seq<Table>, start: nat, end: nat, k: nat)
    requires Consecutive(ts, start, end) && k < |ts|
    ensures start <= ts[k].off && ts[k].off + ts[k].words <= end
  {
    if k > 0 {
      ConsecutiveAt(ts[1..], start + ts[0].words, end, k - 1);
    } else {
      ConsecutiveEnd(ts[1..], start + ts[0].words, end);
    }
  }

  lemma {:induction false} ConsecutiveEnd(ts: seq<Table>, start: nat, end: nat)
    requires Consecutive(ts, start, end)
    ensures start <= end
  {
    if ts != [] {
      ConsecutiveEnd(ts[1..], start + ts[0].words, end);
    }
  }

  lemma {:induction false} ConsecutiveApart(ts: seq<Table>, start: nat, end: nat, j: nat, k: nat)
    requires Consecutive(ts, start, end) && j < k < |ts|
    ensures ts[j].off + ts[j].words <= ts[k].off
  {
    if j > 0 {
      ConsecutiveApart(ts[1..], start + ts[0].words, end, j - 1, k - 1);
    } else {
      ConsecutiveAt(ts[1..], start + ts[0].words, end, k - 1);
    }
  }

  /** The tables of both pyramids, in the order in which they are laid out from word 0. */
  function DirtyTables(n: nat): (ts: seq<Table>)
    ensures |ts| == Orders(n)
  {
    TablesFrom(n, 0, Orders(n), Orders(n))
  }

  function SaturatedTables(n: nat): (ts: seq<Table>)
    ensures |ts| == Orders(n)
  {
    TablesFrom(n, 0, Orders(n), DataWords(n) + Orders(n))
  }

  /** Where the bit of block (order, m) lies: the bits of the memory are numbered from word 0 on. */
  function BitIndex(ts: seq<Table>, order: nat, m: nat): nat
    requires order < |ts|
  {
    WORD_BITS * ts[order].off + m
  }

  /** Every block that is counted has a bit to itself. */
  ghost predicate OwnBits(n: nat, ts: seq<Table>)
    requires |ts| == Orders(n)
  {
    forall o, m, p, k :: 0 <= o < Orders(n) && 0 <= m < OrderBits(n, o) && 0 <= p < Orders(n) && 0 <= k < OrderBits(n, p) ==>
      BitIndex(ts, o, m) == BitIndex(ts, p, k) ==> o == p && m == k
  }

  /**
   * The dirty bits of different blocks are different bits of the memory exactly when every table has room;
   * the last block of an order that is short shares its bit with the first block of the next order.
   */
  lemma RoomMeansOwnBits(n: nat)
    requires n > 0
    ensures Room(n) <==> OwnBits(n, DirtyTables(n))
  {
    hide DirtyTables, OrderBits, OrderWords, Orders, Short, Room, OwnBits, BitIndex;
    if Room(n) {
      RoomGivesOwnBits(n);
    } else {
      RoomExact(n);
      var o :| 0 <= o < Orders(n) && Short(n, o);
      ShortShares(n, o);
      Shared(n, DirtyTables(n), o, Shr(n, o), o + 1, 0);
    }
  }

  lemma Shared(n: nat, ts: seq<Table>, o: nat, m: nat, p: nat, k: nat)
    requires |ts| == Orders(n) && o < p < Orders(n) && m < OrderBits(n, o) && k < OrderBits(n, p)
    requires BitIndex(ts, o, m) == BitIndex(ts, p, k)
    ensures !OwnBits(n, ts)
  {
    hide OrderBits, Orders, BitIndex;
  }

  lemma RoomGivesOwnBits(n: nat)
    requires n > 0 && Room(n)
    ensures OwnBits(n, DirtyTables(n))
  {
    hide OrderBits, OrderWords, Orders, BitIndex;
    var ts := DirtyTables(n);
    forall o, m, p, k | 0 <= o < Orders(n) && 0 <= m < OrderBits(n, o) && 0 <= p < Orders(n) && 0 <= k < OrderBits(n, p)
      && BitIndex(ts, o, m) == BitIndex(ts, p, k)
      ensures o == p && m == k
    {
      if o < p {
        InLaterTable(n, o, m, p, k);
      } else if p < o {
        InLaterTable(n, p, k, o, m);
      } else {
        SameTable(ts, o, m, k);
      }
    }
  }

  lemma SameTable(ts: seq<Table>, o: nat, m: nat, k: nat)
    requires o < |ts| && BitIndex(ts, o, m) == BitIndex(ts, o, k)
    ensures m == k
  {
  }

  lemma InLaterTable(n: nat, o: nat, m: nat, p: nat, k: nat)
    requires o < p < Orders(n) && m < WORD_BITS * OrderWords(n, o)
    ensures BitIndex(DirtyTables(n), o, m) < BitIndex(DirtyTables(n), p, k)
  {
    var start := Orders(n);
    TablesConsecutive(n, 0, Orders(n), start);
    hide TablesFrom, TableWords, Consecutive, OrderWords, Orders;
    ConsecutiveApart(DirtyTables(n), start, start + TableWords(n, 0, Orders(n)), o, p);
  }

  lemma ShortShares(n: nat, o: nat)
    requires n > 0 && o < Orders(n) && Short(n, o)
    ensures o + 1 < Orders(n) && Shr(n, o) < OrderBits(n, o) && 0 < OrderBits(n, o + 1)
    ensures BitIndex(DirtyTables(n), o, Shr(n, o)) == BitIndex(DirtyTables(n), o + 1, 0)
  {
    hide Orders, Shr, WordsFor, TablesFrom;
    PartialIsRemainder(n, o);
    OrdersAbove(n, o);
    OrdersAbove(n, o + 1);
    ShrStep(n, o);
    FullWords(Shr(n, o));
    TableAfter(n, 0, Orders(n), Orders(n), o);
  }

  /** A multiple of the word size fills its words. */
  lemma FullWords(bits: nat)
    requires bits % 32 == 0
    ensures 32 * WordsFor(bits) == bits && (bits > 0 ==> bits >= 32)
  {
    WordsForIsRoundUp(bits);
    assert (bits + 31) / 32 == bits / 32;
  }

  /** Each table starts where the one before ends. */
  lemma {:induction false} TableAfter(n: nat, order: nat, orders: nat, start: nat, k: nat)
    requires order + k + 1 < orders
    ensures var ts := TablesFrom(n, order, orders, start); ts[k + 1].off == ts[k].off + ts[k].words
    decreases k
  {
    hide OrderWords;
    if k > 0 {
      TableAfter(n, order + 1, orders, start + OrderWords(n, order), k - 1);
    }
  }

  lemma TablesLaid(n: nat, len: nat)
    requires 2 * DataWords(n) <= len
    ensures Laid(DirtyTables(n) + SaturatedTables(n), len)
  {
    var d, s := DirtyTables(n), SaturatedTables(n);
    var w := DataWords(n);
    TablesConsecutive(n, 0, Orders(n), Orders(n));
    TablesConsecutive(n, 0, Orders(n), w + Orders(n));
    hide TablesFrom, TableWords, DataWords, DirtyTables, SaturatedTables, Consecutive;
    ConsecutiveLaid(d, Orders(n), w, s, w + Orders(n), 2 * w, len);
  }

  lemma ConsecutiveLaid(d: seq<Table>, dStart: nat, dEnd: nat, s: seq<Table>, sStart: nat, sEnd: nat, len: nat)
    requires Consecutive(d, dStart, dEnd) && Consecutive(s, sStart, sEnd)
    requires dEnd <= sStart && sEnd <= len
    ensures Laid(d + s, len)
  {
    ConsecutiveEnd(s, sStart, sEnd);
    forall o | 0 <= o < |d|
      ensures d[o].off + d[o].words <= dEnd
    {
      ConsecutiveAt(d, dStart, dEnd, o);
    }
    forall o | 0 <= o < |s|
      ensures sStart <= s[o].off && s[o].off + s[o].words <= sEnd
    {
      ConsecutiveAt(s, sStart, sEnd, o);
    }
    var ts := d + s;
    forall o, p | 0 <= o < p < |ts|
      ensures ts[o].off + ts[o].words <= ts[p].off
    {
      if p < |d| {
        ConsecutiveApart(d, dStart, dEnd, o, p);
      } else if o >= |d| {
        ConsecutiveApart(s, sStart, sEnd, o - |d|, p - |d|);
      }
    }
  }

  lemma {:induction false} WordsMono(a: nat, b: nat)
    requires a <= b
    ensures WordsFor(a) <= WordsFor(b)
    decreases b
  {
    if b > WORD_BITS {
      if a > WORD_BITS {
        WordsMono(a - WORD_BITS, b - WORD_BITS);
      }
    }
  }

  lemma {:induction false} OrdersMono(n: nat, m: nat)
    requires n <= m
    ensures Orders(n) <= Orders(m)
  {
    if n > 0 {
      OrdersMono(n / 2, m / 2);
    }
  }

  lemma {:induction false} TableWordsMono(n: nat, m: nat, order: nat, p: nat, q: nat)
    requires n <= m && p <= q
    ensures TableWords(n, order, p) <= TableWords(m, order, q)
    decreases q - order
  {
    if order < p {
      ShrMono(n, m, order);
      WordsMono(Shr(n, order), Shr(m, order));
      TableWordsMono(n, m, order + 1, p, q);
    }
  }

  /** A shorter heap never needs more table space: the second pass fits in what the first one sized. */
  lemma SecondPassFits(n: nat, m: nat)
    requires n <= m
    ensures TotalDataSize(n) <= TotalDataSize(m)
  {
    OrdersMono(n, m);
    TableWordsMono(n, m, 0, Orders(n), Orders(m));
  }

  /** ALIGN_U(i, PAGE_SIZE) */
  function AlignUp(i: nat): nat {
    (i + (PAGE_SIZE - 1)) / PAGE_SIZE * PAGE_SIZE
  }

  lemma AlignedAbove(i: nat)
    ensures AlignUp(i) % 4096 == 0 && i <= AlignUp(i) < i + 4096
  {
  }

  /** The last table ends with the words of both pyramids, and no table ends later. */
  lemma TablesEnd(n: nat)
    requires n > 0
    ensures var ts := DirtyTables(n) + SaturatedTables(n);
            && ts != [] && ts[|ts| - 1].off + ts[|ts| - 1].words == 2 * DataWords(n)
            && 4 * (ts[|ts| - 1].off + ts[|ts| - 1].words) == TotalDataSize(n)
            && forall t :: t in ts ==> t.off + t.words <= 2 * DataWords(n)
  {
    var d, s := DirtyTables(n), SaturatedTables(n);
    var w := DataWords(n);
    TablesLaid(n, 2 * w);
    TablesConsecutive(n, 0, Orders(n), w + Orders(n));
    ConsecutiveLast(s, w + Orders(n), 2 * w);
  }

  /** `first` is the first page address at or above the end of the tables, which start at address `base`. */
  ghost predicate FirstPageAbove(ts: seq<Table>, base: nat, first: nat) {
    && ts != [] && first > 0 && first % 4096 == 0
    && first < base + 4 * (ts[|ts| - 1].off + ts[|ts| - 1].words) + 4096
    && forall t :: t in ts ==> base + 4 * (t.off + t.words) <= first
  }

  lemma TablesEndBelow(n: nat, base: nat)
    requires n > 0 && base > 0
    ensures FirstPageAbove(DirtyTables(n) + SaturatedTables(n), base, AlignUp(base + 8 * DataWords(n)))
  {
    hide DirtyTables, SaturatedTables, DataWords, AlignUp;
    TablesEnd(n);
    AlignedAbove(base + 8 * DataWords(n));
  }

  lemma {:induction false} ConsecutiveLast(ts: seq<Table>, start: nat, end: nat)
    requires Consecutive(ts, start, end) && ts != []
    ensures ts[|ts| - 1].off + ts[|ts| - 1].words == end
  {
    if |ts| > 1 {
      ConsecutiveLast(ts[1..], start + ts[0].words, end);
    }
  }

  /** The tracked pages, from the aligned end of the tables on, end inside the heap. */
  lemma TrackedPagesFit(base: nat, length: nat, total: nat, used: nat)
    requires base % PAGE_SIZE == 0 && length % PAGE_SIZE == 0
    requires used <= total < length
    ensures base + used <= AlignUp(base + used)
    ensures AlignUp(base + used) + (length - total) / PAGE_SIZE * PAGE_SIZE <= base + length
  {
  }

  /** Pages left to track once the tables are taken out of the heap. */
  function TrackedPages(heapLength: nat): nat
    requires TotalDataSize(heapLength / PAGE_SIZE) <= heapLength
  {
    (heapLength - TotalDataSize(heapLength / PAGE_SIZE)) / PAGE_SIZE
  }

  /** Every whole page that the tables of the first pass leave is tracked. */
  lemma TrackedPagesExact(heapLength: nat)
    requires TotalDataSize(heapLength / PAGE_SIZE) <= heapLength
    ensures var left := heapLength - TotalDataSize(heapLength / 4096);
            4096 * TrackedPages(heapLength) <= left < 4096 * TrackedPages(heapLength) + 4096
  {
    hide TotalDataSize;
  }

  /** A heap length the set-up can work with: some page is left, and every order's table has room. */
  ghost predicate Usable(heapLength: nat) {
    && heapLength < 0x1_0000_0000
    && TotalDataSize(heapLength / PAGE_SIZE) < heapLength
    && Tracked(TrackedPages(heapLength))
    && Room(TrackedPages(heapLength))
  }

  /** Words of the pages that the set-up asks the boot allocator for. */
  function DataPagesWords(total: nat): nat {
    (total + (PAGE_SIZE - 1)) / PAGE_SIZE * (PAGE_SIZE / 4)
  }

  /** The layout of the second pass fits in the memory that the first pass asked for. */
  lemma LayoutFits(heapLength: nat)
    requires Usable(heapLength)
    ensures 2 * DataWords(TrackedPages(heapLength)) <= DataPagesWords(TotalDataSize(heapLength / PAGE_SIZE))
    ensures TotalDataSize(TrackedPages(heapLength)) <= TotalDataSize(heapLength / PAGE_SIZE)
  {
    var n, m := TrackedPages(heapLength), heapLength / PAGE_SIZE;
    SecondPassFits(n, m);
    hide DataWords;
    RoundPages(TotalDataSize(m));
  }

  lemma RoundPages(total: nat)
    ensures 4 * DataPagesWords(total) >= total
  {
  }
}
