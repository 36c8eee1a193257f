/** The older page allocator as the kernel ran it: 13 bitmaps in memory, searched a word at a time. */
module PageFrames {
  import opened Machine
  import opened Words
  import opened Shifts
  import opened BitTables
  import opened BuddyPaths
  import opened BuddyGeometry
  import opened BuddyLayout
  import opened PageBitmaps
  import opened PageRuns
  import opened PageClients

  /** struct order: the floor bit count and the word offset of the bitmap. */
  datatype Order = Order(bits: nat, off: nat)

  /** _fast_forward32: where to start looking for a clear bit. */
  function FastForward(word: Word): (start: nat)
    ensures start <= 24
  {
    if And(word, 0x0000_ffff) != 0x0000_ffff then
      if And(word, 0x0000_00ff) != 0x0000_00ff then 0 else 8
    else if And(word, 0x00ff_0000) != 0x00ff_0000 then 16
    else 24
  }

  /** The bits it skips are all set. */
  lemma FastForwardSkips(word: Word, i: nat)
    requires i < FastForward(word)
    ensures Test(word, i)
  {
    hide And, Bit;
    ByteMasks(i);
    if And(word, 0x0000_ffff) != 0x0000_ffff {
      MaskTest(word, 0x0000_00ff, i);
    } else if i < 16 {
      MaskTest(word, 0x0000_ffff, i);
    } else {
      MaskTest(word, 0x00ff_0000, i);
    }
  }

  function TablesOf(orders: seq<Order>): (ts: seq<Table>)
    requires |orders| == NB_ORDERS
    ensures |ts| == Levels(orders[0].bits)
    ensures forall o :: 0 <= o < |ts| ==> ts[o] == Table(orders[o].off, OrderWords(orders[0].bits, o))
  {
    var n := orders[0].bits;
    seq(Levels(n), o requires 0 <= o < Levels(n) => Table(orders[o].off, OrderWords(n, o)))
  }

  predicate BitAt(ts: seq<Table>, len: nat, order: nat, n: nat, i: nat, b: nat)
    requires order < |ts|
  {
    && n < WORD_BITS * ts[order].words && i == ts[order].off + n / WORD_BITS
    && i < len && b == n % WORD_BITS
  }

  lemma BitWritten(mem: seq<Word>, after: seq<Word>, ts: seq<Table>, order: nat, n: nat, i: nat, b: nat, v: bool)
    requires Laid(ts, |mem|) && order < |ts| && BitAt(ts, |mem|, order, n, i, b)
    requires after == mem[i := PutBit(mem[i], b, v)]
    ensures Laid(ts, |after|) && n < |Rows(mem, ts)[order]|
    ensures Rows(after, ts) == Put(Rows(mem, ts), order, n, v)
  {
    hide PutBit, Row;
    RowsPut(mem, ts, order, n, v);
  }

  class Buddy {
    var mem: array<Word>
    var orders: seq<Order>

    ghost function Pages(): nat
      reads this
      requires |orders| == NB_ORDERS
    {
      orders[0].bits
    }

    /** The bitmaps of the orders that have one. */
    ghost function Tables(): seq<Table>
      reads this
      requires |orders| == NB_ORDERS
    {
      TablesOf(orders)
    }

    ghost predicate Valid()
      reads this
    {
      && |orders| == NB_ORDERS
      && Tracked(Pages()) && RoomBelow(Pages())
      && (forall o :: 0 <= o < NB_ORDERS ==> orders[o].bits == Shr(Pages(), o))
      && Laid(Tables(), mem.Length)
    }

    ghost function View(): (p: Pyramid)
      reads this, mem
      requires Valid()
      ensures Sized(Pages(), p)
    {
      Rows(mem[..], Tables())
    }

    /** An order has bits exactly when it is among the levels. */
    lemma HasBits(order: nat)
      requires Valid() && order < NB_ORDERS
      ensures orders[order].bits > 0 <==> order < Levels(Pages())
    {
      OrdersAbove(Pages(), order);
    }

    /** Bit n of an order is bit b of word i of the memory. */
    lemma WordAt(order: nat, n: nat, i: nat, b: nat)
      requires Valid() && order < Levels(Pages()) && n < WORD_BITS * OrderWords(Pages(), order)
      requires i == orders[order].off + n / WORD_BITS && b == n % WORD_BITS
      ensures i < mem.Length && order < |Tables()| && BitAt(Tables(), mem.Length, order, n, i, b)
    {
      hide RoomBelow, Tracked, OrderWords;
      TableInside(Tables(), mem.Length, order, n);
    }

    /** p->p[n / WORDBITS], with bit n % WORDBITS set or cleared. */
    method PutBitOf(order: nat, n: nat, v: bool)
      requires Valid() && order < Levels(Pages()) && n < WORD_BITS * OrderWords(Pages(), order)
      modifies mem
      ensures View() == Put(old(View()), order, n, v)
    {
      hide PutBit, Rows, Laid, RoomBelow, Tracked, OrderWords, TablesOf, BitAt;
      var i, b := orders[order].off + n / WORD_BITS, n % WORD_BITS;
      WordAt(order, n, i, b);
      ghost var before := mem[..];
      mem[i] := PutBit(mem[i], b, v);
      BitWritten(before, mem[..], Tables(), order, n, i, b, v);
    }

    /** buddy_set_used */
    method BuddySetUsed(block0: nat, nb: nat)
      requires Valid() && (nb > 0 ==> block0 + nb <= Pages())
      modifies mem
      ensures View() == SetUsed(old(View()), 0, block0, nb)
    {
      hide Rows, Row, Laid, RoomBelow, Tracked, TablesOf, OrderWords, Sized, Orders, Touched;
      var block: nat, bits: nat, order := block0, nb, 0;
      ghost var start := View();
      TouchedAll(block0, nb);
      while order < NB_ORDERS
        invariant order <= Levels(Pages())
        invariant block == Shr(block0, order) && bits <= Touched(block0, nb, order) && (bits > 0 ==> nb > 0)
        invariant SetUsed(View(), order, block, bits) == SetUsed(start, 0, block0, nb)
      {
        HasBits(order);
        if orders[order].bits == 0 {
          break;
        }
        TouchedAtLeast(block0, nb, order);
        ShrStep(block0, order);
        TouchedInRow(Pages(), View(), block0, nb, order);
        FillOrder(order, block, bits, true);
        block, bits, order := block / 2, (bits + 1) / 2, order + 1;
      }
    }

    /** The inner loop of buddy_set_used and buddy_free: bits block .. block + bits - 1 of one order. */
    method FillOrder(order: nat, block: nat, bits: nat, v: bool)
      requires Valid() && order < Levels(Pages())
      requires bits > 0 ==> block + bits <= WORD_BITS * OrderWords(Pages(), order)
      modifies mem
      ensures View() == old(View())[order := FillRow(old(View())[order], block, bits, v)]
    {
      hide Rows, Row, Laid, RoomBelow, Tracked, TablesOf, OrderWords;
      ghost var start := View();
      var n := block;
      FillNone(start, order, block, v);
      while n < block + bits
        invariant block <= n <= block + bits
        invariant View() == start[order := FillRow(start[order], block, n - block, v)]
      {
        PutBitOf(order, n, v);
        FillMore(start, order, block, n - block, v);
        n := n + 1;
      }
    }

    /** One sweep of buddy_join_free, from order `order` to the next. */
    method JoinOrder(order: nat, first: nat, last: nat)
      requires Valid() && order + 1 < Levels(Pages()) && first % 2 == 0
      requires last < WORD_BITS * OrderWords(Pages(), order) && last / 2 < WORD_BITS * OrderWords(Pages(), order + 1)
      modifies mem
      ensures EvenRows(old(View()))
      ensures View() == old(View())[order + 1 := JoinRow(old(View())[order], old(View())[order + 1], first, last)]
    {
      hide Rows, Row, Laid, RoomBelow, Tracked, TablesOf, OrderWords, Shr, JoinRow, Orders, Levels;
      ghost var start := View();
      RowsEven(Pages(), start);
      ghost var upper := start[order + 1];
      var b0 := first;
      while b0 <= last
        invariant b0 % 2 == 0 && |upper| == |start[order + 1]|
        invariant View() == start[order + 1 := upper]
        invariant JoinRow(start[order], upper, b0, last) == JoinRow(start[order], start[order + 1], first, last)
        decreases last + 2 - b0
      {
        JoinRowStep(start[order], upper, b0, last);
        var clear := BothClear(order, b0);
        if clear {
          PutBitOf(order + 1, b0 / 2, false);
          upper := upper[b0 / 2 := false];
        }
        b0 := b0 + 2;
      }
      JoinRowEnd(start[order], upper, b0, last);
    }

    /** (p0->p[b0/WORDBITS] & (3 << (b0%WORDBITS))) == 0 */
    method BothClear(order: nat, b0: nat) returns (clear: bool)
      requires Valid() && order < Levels(Pages()) && b0 % 2 == 0 && b0 < WORD_BITS * OrderWords(Pages(), order)
      ensures b0 + 1 < WORD_BITS * OrderWords(Pages(), order)
      ensures clear == (!View()[order][b0] && !View()[order][b0 + 1])
    {
      hide Rows, Row, Laid, RoomBelow, Tracked, And, Or, Bit;
      ghost var ts := Tables();
      TableInside(ts, mem.Length, order, b0);
      PairInWord(b0, OrderWords(Pages(), order));
      RowsAt(mem[..], ts, order, b0);
      RowsAt(mem[..], ts, order, b0 + 1);
      var w, shift := mem[orders[order].off + b0 / WORD_BITS], b0 % WORD_BITS;
      Three(shift);
      TwoBits(w, shift, shift + 1);
      clear := And(w, (3 as Word) << shift) == 0;
    }

    /** buddy_join_free */
    method BuddyJoinFree(first0: nat, last0: nat)
      requires Valid() && Sweepable(View(), 0, last0) && EvenStart(first0, Levels(Pages()) - 1)
      modifies mem
      ensures View() == JoinFree(old(View()), 0, first0, last0)
    {
      hide Rows, Row, Laid, RoomBelow, TablesOf, OrderWords, Sweepable, EvenStart, Orders;
      OrdersPositive(Pages());
      var first, last, order := first0, last0, 0;
      ghost var start := View();
      while order < NB_ORDERS - 1
        invariant order <= Levels(Pages()) - 1
        invariant Sweepable(View(), order, last) && EvenStart(first, Levels(Pages()) - 1 - order)
        invariant JoinFree(View(), order, first, last) == JoinFree(start, 0, first0, last0)
      {
        HasBits(order + 1);
        if orders[order + 1].bits == 0 {
          break;
        }
        ghost var p := View();
        SweepNext(p, order, last);
        StartNext(first, Levels(Pages()) - 1 - order);
        JoinOrder(order, first, last);
        SweepShape(p, View(), order + 1, last / 2);
        first, last, order := first / 2, last / 2, order + 1;
      }
    }

    /** buddy_free */
    method BuddyFreeRange(block0: nat, nb: nat)
      requires Valid() && block0 + nb <= Pages()
      modifies mem
      ensures View() == BuddyFree(old(View()), Pages(), block0, nb)
    {
      hide Rows, Row, Laid, RoomBelow, TablesOf, OrderWords, JoinFree, Sweepable;
      var block, bits, order := block0, nb, 0;
      ghost var start := View();
      assert Shr(block0, 0) == block0 && Shr(nb, 0) == nb;
      while order < NB_ORDERS
        invariant order <= Levels(Pages())
        invariant block == Shr(block0, order) && bits == Shr(nb, order)
        invariant ClearInside(View(), order, block, bits) == ClearInside(start, 0, block0, nb)
      {
        HasBits(order);
        if orders[order].bits == 0 {
          break;
        }
        ShrStep(block0, order);
        ShrStep(nb, order);
        InsideRow(Pages(), View(), block0, nb, order);
        FillOrder(order, block, bits, false);
        block, bits, order := block / 2, bits / 2, order + 1;
        if bits == 0 {
          break;
        }
      }
      LastInRows(Pages(), View(), SweepLast(Pages(), block0, nb));
      FirstEven(block0, Levels(Pages()) - 1);
      BuddyJoinFree(SweepFirst(block0), SweepLast(orders[0].bits, block0, nb));
    }

    /** The word scan of buddy_alloc: the first clear bit of an order below its floor bit count. */
    method ScanOrder(order: nat) returns (g: nat)
      requires Valid() && order < Levels(Pages())
      ensures g == FirstClear(View()[order], 0, Shr(Pages(), order))
    {
      hide Rows, Row, Laid, RoomBelow, Tracked, TablesOf, Test, Full, WordShows, Orders, WordsFor, Shr;
      var bits, off := orders[order].bits, orders[order].off;
      ghost var row := View()[order];
      WordsForIsRoundUp(bits);
      var w, words := 0, (bits + (WORD_BITS - 1)) / WORD_BITS;
      while w < words
        invariant w <= words
        invariant forall k :: 0 <= k < w * WORD_BITS && k < bits ==> row[k]
      {
        WordOfRow(order, w);
        var word := mem[off + w];
        if !Full(word) {
          var max := WORD_BITS;
          if (w + 1) * WORD_BITS > bits {
            max := bits % WORD_BITS;
          }
          LastWord(w, bits, max);
          var b := ScanWord(word, max);
          WordPrefix(word, row, w, b, max, bits);
          if b < max {
            FirstClearIs(row, w * WORD_BITS + b, bits);
            return w * WORD_BITS + b;
          }
        } else {
          FullWordShows(word, row, w);
        }
        w := w + 1;
      }
      FirstClearIs(row, bits, bits);
      return bits;
    }

    /** The bits of word w of an order are the bits w * WORDBITS .. of its row. */
    lemma WordOfRow(order: nat, w: nat)
      requires Valid() && order < Levels(Pages()) && w < OrderWords(Pages(), order)
      ensures orders[order].off + w < mem.Length
      ensures WordShows(mem[orders[order].off + w], View()[order], w)
    {
      hide Row, WordShows, OrderWords, RoomBelow, Tracked;
      RowWord(mem[..], Tables()[order], w);
    }

    /** buddy_alloc */
    method BuddyAlloc(nb: nat) returns (block: int)
      requires Valid()
      modifies mem
      ensures (View(), block) == BuddyAllocate(old(View()), Pages(), nb)
    {
      hide Rows, Row, Laid, RoomBelow, TablesOf, OrderWords, Smooth;
      var order := BuddyOrderOf(nb);
      if order < 0 {
        return -1;
      }
      HasBits(order);
      if orders[order].bits == 0 {
        return -1;
      }
      var g := ScanOrder(order);
      if g == orders[order].bits {
        return -1;
      }
      BlockInHeap(Pages(), order, g, nb);
      block := Shl(g, order);
      BuddySetUsed(block, nb);
    }

    /** buddy_order */
    method BuddyOrderOf(nb: nat) returns (order: int)
      ensures order == if BuddyOrder(nb, 0) < NB_ORDERS then BuddyOrder(nb, 0) else -1
    {
      var i := 0;
      while i < NB_ORDERS
        invariant i <= NB_ORDERS && BuddyOrder(nb, i) == BuddyOrder(nb, 0)
      {
        if Pow2(i) >= nb {
          return i;
        }
        i := i + 1;
      }
      return -1;
    }

    /**
     * The bitmaps of _get_free_page_setup: they follow the order table in memory, zeroed, and the pages
     * they lie in are marked used.
     */
    constructor SetUpBuddy(pages: nat)
      requires Tracked(pages) && RoomBelow(pages)
      ensures Valid() && Pages() == pages && fresh(mem)
      ensures mem.Length == OwnWords(pages) && orders[0].off == 2 * 13
      ensures View() == SetUp(pages, ReservedPages(pages))
      ensures 4 * mem.Length <= 4096 * ReservedPages(pages) < 4 * mem.Length + 4096
    {
      hide Rows, Row, RoomBelow, TablesFrom, TableWords, Orders, OrderWords, SetUsed;
      var list, end := LayOrders(pages);
      orders := list;
      mem := new Word[end](_ => 0);
      new;
      OrdersLaid(pages, list, end);
      ZeroRows(mem[..], list);
      ReservedFits(pages);
      OwnBytesReserved(pages);
      NextTable(pages, 0, NB_ORDERS, HEADER_WORDS);
      var pagesUsed := (4 * end + (PAGE_SIZE - 1)) / PAGE_SIZE;
      BuddySetUsed(0, pagesUsed);
    }

    /** The loop over the orders: bit count and bitmap of each. */
    static method LayOrders(pages: nat) returns (list: seq<Order>, cur: nat)
      ensures |list| == NB_ORDERS
      ensures forall o :: 0 <= o < NB_ORDERS ==> list[o].bits == Shr(pages, o)
      ensures forall o :: 0 <= o < NB_ORDERS ==> list[o].off == TablesFrom(pages, 0, NB_ORDERS, HEADER_WORDS)[o].off
      ensures cur == OwnWords(pages)
    {
      hide OrderWords, TablesFrom, TableWords, WordsFor, Shr;
      list, cur := [], HEADER_WORDS;
      var order := 0;
      ghost var all := TablesFrom(pages, 0, NB_ORDERS, HEADER_WORDS);
      NoTable(pages, cur);
      while order < NB_ORDERS
        invariant order <= NB_ORDERS && |list| == order
        invariant all[order..] == TablesFrom(pages, order, NB_ORDERS, cur)
        invariant cur + TableWords(pages, order, NB_ORDERS) == OwnWords(pages)
        invariant forall o :: 0 <= o < order ==> list[o].bits == Shr(pages, o) && list[o].off == all[o].off
      {
        var bits := FloorBits(pages, order);
        WordsForIsRoundUp(bits);
        NextTable(pages, order, NB_ORDERS, cur);
        SplitFirst(all, order);
        list := list + [Order(bits, cur)];
        cur := cur + (bits + (WORD_BITS - 1)) / WORD_BITS;
        order := order + 1;
      }
      NoTable(pages, cur);
    }
  }

  /** pages / (1 << order) */
  method FloorBits(pages: nat, order: nat) returns (bits: nat)
    ensures bits == Shr(pages, order)
  {
    ShrDiv(pages, order);
    bits := pages / Pow2(order);
  }

  lemma SplitFirst(ts: seq<Table>, k: nat)
    requires k < |ts|
    ensures ts[k..][0] == ts[k] && ts[k..][1..] == ts[k + 1..]
  {
  }

  lemma NoTable(n: nat, cur: nat)
    ensures TableWords(n, NB_ORDERS, NB_ORDERS) == 0
    ensures forall ts: seq<Table> :: ts[0..] == ts
  {
  }

  /** A wholly free group lies inside the heap, and an aligned request inside the group. */
  lemma BlockInHeap(n: nat, order: nat, g: nat, nb: nat)
    requires g < Shr(n, order) && BuddyOrder(nb, 0) == order < NB_ORDERS
    ensures Shl(g, order) + nb <= n && Aligned(Shl(g, order), nb, order)
  {
    BuddyOrderLeast(nb, 0);
    ShrShl(g, order);
    ShlLess(g, order);
    ShlMono(g + 1, Shr(n, order), order);
    ShrInterval(n, order, Shr(n, order));
  }

  lemma LastWord(w: nat, bits: nat, max: nat)
    requires w < (bits + 31) / 32 && max == if (w + 1) * 32 > bits then bits % 32 else 32
    ensures max <= 32 && w * 32 + max <= bits
    ensures bits <= w * 32 + max || max == 32
  {
  }

  lemma {:induction false} FirstClearFrom(row: seq<bool>, bit: nat, r: nat, bits: nat)
    requires bit <= r <= bits <= |row| && (forall k :: bit <= k < r ==> row[k]) && (r < bits ==> !row[r])
    ensures FirstClear(row, bit, bits) == r
    decreases r - bit
  {
    if bit < r {
      FirstClearFrom(row, bit + 1, r, bits);
    }
  }

  lemma FirstClearIs(row: seq<bool>, r: nat, bits: nat)
    requires r <= bits <= |row| && (forall k :: 0 <= k < r ==> row[k]) && (r < bits ==> !row[r])
    ensures FirstClear(row, 0, bits) == r
  {
    FirstClearFrom(row, 0, r, bits);
  }

  lemma InsideRow(n: nat, p: Pyramid, block: nat, nb: nat, o: nat)
    requires Sized(n, p) && o < |p| && block + nb <= n
    ensures Shr(nb, o) > 0 ==> Shr(block, o) + Shr(nb, o) <= WORD_BITS * OrderWords(n, o)
  {
    if Shr(nb, o) > 0 {
      ShrBound(nb, o);
      PageCounted(n, o, block + nb - 1);
      ShiftSum(block, nb, o);
    }
  }

  /** Shifted parts never reach beyond the shifted last page. */
  lemma ShiftSum(a: nat, b: nat, o: nat)
    requires Shr(b, o) > 0 && b > 0
    ensures Shr(a, o) + Shr(b, o) <= Shr(a + b - 1, o) + 1
  {
    hide Shr, Shl;
    ShrInterval(a, o, Shr(a, o));
    ShrInterval(b, o, Shr(b, o));
    ShlAdd(Shr(a, o), Shr(b, o), o);
    var s := Shr(a, o) + Shr(b, o);
    var t := Shr(a + b - 1, o);
    ShrInterval(a + b - 1, o, t);
    if t + 1 < s {
      ShlMono(t + 1, s - 1, o);
      ShlLess(s - 1, o);
    }
  }

  lemma JoinRowStep(lower: seq<bool>, upper: seq<bool>, b: nat, last: nat)
    requires b <= last < |lower| && |lower| % 2 == 0 && b % 2 == 0 && last / 2 < |upper|
    ensures b + 1 < |lower| && b / 2 < |upper|
    ensures JoinRow(lower, upper, b, last)
            == JoinRow(lower, if !lower[b] && !lower[b + 1] then upper[b / 2 := false] else upper, b + 2, last)
  {
  }

  lemma JoinRowEnd(lower: seq<bool>, upper: seq<bool>, b: nat, last: nat)
    requires last < b && last < |lower| && |lower| % 2 == 0 && b % 2 == 0 && last / 2 < |upper|
    ensures JoinRow(lower, upper, b, last) == upper
  {
  }

  predicate EvenRows(p: Pyramid) {
    forall o :: 0 <= o < |p| ==> |p[o]| % 2 == 0
  }

  lemma RowsEven(n: nat, p: Pyramid)
    requires Sized(n, p)
    ensures EvenRows(p)
  {
    forall o | 0 <= o < |p|
      ensures |p[o]| % 2 == 0
    {
      EvenBits(OrderWords(n, o));
    }
  }

  lemma EvenBits(words: nat)
    ensures (32 * words) % 2 == 0
  {
  }

  lemma PairInWord(b: nat, words: nat)
    requires b % 2 == 0 && b < WORD_BITS * words
    ensures b + 1 < WORD_BITS * words && b % WORD_BITS + 1 < WORD_BITS
    ensures (b + 1) / WORD_BITS == b / WORD_BITS && (b + 1) % WORD_BITS == b % WORD_BITS + 1
  {
    var q, r := b / WORD_BITS, b % WORD_BITS;
    assert b == WORD_BITS * q + r && r % 2 == 0;
    NextInWord(q, r);
    assert q < words;
  }

  lemma NextInWord(q: nat, r: nat)
    requires r < 32 && r % 2 == 0
    ensures r + 1 < 32 && (32 * q + r + 1) / 32 == q && (32 * q + r + 1) % 32 == r + 1
  {
  }

  lemma SweepShape(p: Pyramid, q: Pyramid, o: nat, last: nat)
    requires SameShape(p, q) && Sweepable(p, o, last)
    ensures Sweepable(q, o, last)
  {
  }

  lemma NextTable(n: nat, order: nat, orders: nat, cur: nat)
    requires order < orders
    ensures OrderWords(n, order) == WordsFor(Shr(n, order))
    ensures TableWords(n, order, orders) == OrderWords(n, order) + TableWords(n, order + 1, orders)
    ensures var ts := TablesFrom(n, order, orders, cur);
            && ts[0] == Table(cur, OrderWords(n, order))
            && ts[1..] == TablesFrom(n, order + 1, orders, cur + OrderWords(n, order))
  {
  }

  lemma OrdersLaid(n: nat, list: seq<Order>, len: nat)
    requires |list| == NB_ORDERS && list[0].bits == n
    requires forall o :: 0 <= o < NB_ORDERS ==> list[o].off == TablesFrom(n, 0, NB_ORDERS, HEADER_WORDS)[o].off
    requires len == OwnWords(n)
    ensures Laid(TablesOf(list), len)
  {
    hide OrderWords, TableWords, TablesFrom, Consecutive;
    var all := TablesFrom(n, 0, NB_ORDERS, HEADER_WORDS);
    TablesConsecutive(n, 0, NB_ORDERS, HEADER_WORDS);
    forall o | 0 <= o < |all|
      ensures all[o].off + all[o].words <= len
    {
      ConsecutiveAt(all, HEADER_WORDS, len, o);
    }
    forall o, p | 0 <= o < p < |all|
      ensures all[o].off + all[o].words <= all[p].off
    {
      ConsecutiveApart(all, HEADER_WORDS, len, o, p);
    }
  }

  /** Zero words show clear bitmaps. */
  lemma ZeroRows(mem: seq<Word>, list: seq<Order>)
    requires |list| == NB_ORDERS && Tracked(list[0].bits) && Laid(TablesOf(list), |mem|)
    requires forall i :: 0 <= i < |mem| ==> mem[i] == 0
    ensures Rows(mem, TablesOf(list)) == ZeroPyramid(list[0].bits)
  {
    hide OrderWords, Test;
    var rows, zero := Rows(mem, TablesOf(list)), ZeroPyramid(list[0].bits);
    forall o | 0 <= o < |rows|
      ensures rows[o] == zero[o]
    {
      var t := TablesOf(list)[o];
      ZeroBits(mem[t.off..t.off + t.words]);
    }
  }

  lemma NoneAllocated(p: Pyramid, n: nat, nb: nat)
    requires Sized(n, p)
    ensures var (r, block) := BuddyAllocate(p, n, nb); block >= 0 || (block == -1 && r == p)
  {
  }

  /** get_free_pages and free_pages over the buddy set up for the heap. */
  class PageFrameAllocator {
    const buddy: Buddy
    const heapVirtBase: nat
    var totalAllocated: nat

    /** _get_free_page_setup */
    constructor (heapBase: nat, heapSize: nat)
      requires Tracked(heapSize / PAGE_SIZE) && RoomBelow(heapSize / PAGE_SIZE)
      ensures buddy.Valid() && fresh(buddy) && fresh(buddy.mem)
      ensures heapVirtBase == heapBase && totalAllocated == 0
      ensures buddy.Pages() == heapSize / PAGE_SIZE
      ensures buddy.View() == SetUp(buddy.Pages(), ReservedPages(buddy.Pages()))
      ensures buddy.mem.Length == OwnWords(buddy.Pages())
    {
      hide SetUp, RoomBelow, ReservedPages;
      heapVirtBase, totalAllocated := heapBase, 0;
      buddy := new Buddy.SetUpBuddy(heapSize / PAGE_SIZE);
    }

    /** get_free_pages: the address of the range taken, or null; only kernel requests are served. */
    method GetFreePages(pages: nat, kernel: bool) returns (address: nat)
      requires buddy.Valid()
      modifies this`totalAllocated, buddy.mem
      ensures buddy.Valid()
      ensures (buddy.View(), address) == GetAt(old(buddy.View()), buddy.Pages(), heapVirtBase, pages, kernel)
      ensures var (p, block) := BuddyAllocate(old(buddy.View()), buddy.Pages(), pages);
              if kernel && block >= 0 then
                && buddy.View() == p && address == heapVirtBase + 4096 * block
                && totalAllocated == (old(totalAllocated) + pages) % WORD_MODULUS
              else buddy.View() == old(buddy.View()) && address == 0 && totalAllocated == old(totalAllocated)
    {
      hide Rows, Laid, RoomBelow, Tracked, OrderWords, TablesOf, Sized, BuddyAllocate;
      NoneAllocated(buddy.View(), buddy.Pages(), pages);
      var block := -1;
      if kernel {
        block := buddy.BuddyAlloc(pages);
      }
      if block == -1 {
        return 0;
      }
      address := block * PAGE_SIZE + heapVirtBase;
      totalAllocated := (totalAllocated + pages) % WORD_MODULUS;
    }

    /** free_pages */
    method FreePages(address: nat, pages: nat)
      requires buddy.Valid()
      requires address != 0 ==>
        && heapVirtBase <= address && (address - heapVirtBase) / PAGE_SIZE + pages <= buddy.Pages()
      modifies this`totalAllocated, buddy.mem
      ensures buddy.Valid()
      ensures buddy.View() == GiveAt(old(buddy.View()), buddy.Pages(), heapVirtBase, address, pages)
      ensures address == 0 ==> buddy.View() == old(buddy.View()) && totalAllocated == old(totalAllocated)
      ensures address != 0 ==>
        && buddy.View() == BuddyFree(old(buddy.View()), buddy.Pages(), (address - heapVirtBase) / PAGE_SIZE, pages)
        && totalAllocated == (old(totalAllocated) - pages) % WORD_MODULUS
    {
      if address != 0 {
        totalAllocated := (totalAllocated - pages) % WORD_MODULUS;
        var block := (address - heapVirtBase) / PAGE_SIZE;
        buddy.BuddyFreeRange(block, pages);
      }
    }
  }

  /** The bits of a word are those of a row, from bit w * WORDBITS on. */
  ghost predicate WordShows(word: Word, row: seq<bool>, w: nat) {
    && (w + 1) * WORD_BITS <= |row|
    && forall i {:trigger Test(word, i)} :: 0 <= i < WORD_BITS ==> Test(word, i) == row[w * WORD_BITS + i]
  }

  lemma RowWord(mem: seq<Word>, t: Table, w: nat)
    requires Fits(mem, t) && w < t.words
    ensures WordShows(mem[t.off + w], Row(mem, t), w)
  {
    hide Test;
    var ws := mem[t.off..t.off + t.words];
    assert ws[w] == mem[t.off + w];
    forall i {:trigger Test(ws[w], i)} | 0 <= i < WORD_BITS
      ensures Test(ws[w], i) == Bits(ws)[w * WORD_BITS + i]
    {
      SplitIndex(w, i, t.words);
    }
  }

  lemma SplitIndex(w: nat, i: nat, words: nat)
    requires i < 32 && w < words
    ensures (w * 32 + i) / 32 == w && (w * 32 + i) % 32 == i && w * 32 + i < 32 * words
  {
  }

  /** The bit loop of buddy_alloc: the first clear bit of a word below `max`, or at least `max`. */
  method ScanWord(word: Word, max: nat) returns (b: nat)
    requires max <= WORD_BITS
    ensures b < max ==> !Test(word, b)
    ensures forall i :: 0 <= i < b && i < WORD_BITS ==> Test(word, i)
  {
    hide Test, And, FastForward;
    b := FastForward(word);
    forall i | 0 <= i < b
      ensures Test(word, i)
    {
      FastForwardSkips(word, i);
    }
    while b < max
      invariant forall i :: 0 <= i < b && i < WORD_BITS ==> Test(word, i)
    {
      if !Test(word, b) {
        return;
      }
      b := b + 1;
    }
  }

  /** What the bit loop saw of a word, said of the row. */
  lemma WordPrefix(word: Word, row: seq<bool>, w: nat, b: nat, max: nat, bits: nat)
    requires WordShows(word, row, w) && max <= WORD_BITS
    requires bits <= |row| && forall k :: 0 <= k < w * WORD_BITS && k < bits ==> row[k]
    requires b < max ==> !Test(word, b)
    requires forall i :: 0 <= i < b && i < WORD_BITS ==> Test(word, i)
    requires bits <= w * WORD_BITS + max || max == WORD_BITS
    ensures b < max ==> !row[w * WORD_BITS + b]
    ensures forall k :: 0 <= k < w * WORD_BITS + b && k < bits && k < w * WORD_BITS + max ==> row[k]
  {
    hide Test;
    forall k | w * WORD_BITS <= k < w * WORD_BITS + b && k < bits && k < w * WORD_BITS + max
      ensures row[k]
    {
      assert Test(word, k - w * WORD_BITS);
    }
  }

  lemma FullWordShows(word: Word, row: seq<bool>, w: nat)
    requires Full(word) && WordShows(word, row, w)
    ensures forall k :: w * WORD_BITS <= k < (w + 1) * WORD_BITS ==> row[k]
  {
    hide Test, Full;
    FullIsMax(word);
    forall k | w * WORD_BITS <= k < (w + 1) * WORD_BITS
      ensures row[k]
    {
      FullWord(k - w * WORD_BITS);
    }
  }

  /** Halving a range never yields more groups than it touches. */
  lemma TouchedAtLeast(block: nat, nb: nat, o: nat)
    ensures (Touched(block, nb, o) + 1) / 2 <= Touched(block, nb, o + 1)
  {
    ShrStep(block, o);
    if nb > 0 {
      ShrStep(block + nb - 1, o);
    }
  }

  lemma TouchedInRow(n: nat, p: Pyramid, block: nat, nb: nat, o: nat)
    requires Sized(n, p) && o < |p| && (nb > 0 ==> block + nb <= n)
    ensures Touched(block, nb, o) > 0 ==> Shr(block, o) + Touched(block, nb, o) <= WORD_BITS * OrderWords(n, o)
  {
    if nb > 0 {
      PageCounted(n, o, block + nb - 1);
    }
  }

  lemma FillNone(p: Pyramid, o: nat, block: nat, v: bool)
    requires o < |p|
    ensures p == p[o := FillRow(p[o], block, 0, v)]
  {
    assert FillRow(p[o], block, 0, v) == p[o];
  }

  lemma FillMore(p: Pyramid, o: nat, block: nat, bits: nat, v: bool)
    requires o < |p| && block + bits < |p[o]|
    ensures Put(p[o := FillRow(p[o], block, bits, v)], o, block + bits, v)
            == p[o := FillRow(p[o], block, bits + 1, v)]
  {
    assert FillRow(p[o], block, bits, v)[block + bits := v] == FillRow(p[o], block, bits + 1, v);
  }
}
