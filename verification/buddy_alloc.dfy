/** The buddy allocator as the kernel runs it: bitmaps in memory, updated in place. */
module BuddyAlloc {
  import opened Machine
  import opened Words
  import opened Shifts
  import opened BitTables
  import opened BuddyTree
  import opened BuddyPaths
  import opened BuddyGeometry
  import opened BuddyLayout
  import opened BuddyHeap
  import opened BuddyRuns
  import opened BuddyClients

  /** The tables of a buddy; the source keeps only their start and recomputes their size. */
  function TablesOf(b: Buddy): (ts: seq<Table>)
    ensures |ts| == |b.data|
    ensures forall o :: 0 <= o < |ts| ==> ts[o] == Table(b.data[o], OrderWords(b.order0Bits, o))
  {
    seq(|b.data|, o requires 0 <= o < |b.data| => Table(b.data[o], OrderWords(b.order0Bits, o)))
  }

  ghost predicate BuddyOk(b: Buddy) {
    && Tracked(b.order0Bits) && Room(b.order0Bits)
    && b.orders == Orders(b.order0Bits) == |b.data|
  }

  /** _twin_mask_from_shift */
  function TwinMask(shift: nat): (m: Word)
    requires shift < WORD_BITS
  {
    var s := if shift % 2 == 0 then shift + 1 else shift;
    Or(Bit(s), Bit(s - 1))
  }

  lemma TwinMaskBits(w: Word, shift: nat)
    requires shift < WORD_BITS
    ensures And(w, TwinMask(shift)) != 0 <==> Test(w, shift) || Test(w, Twin(shift))
    ensures And(w, TwinMask(shift)) == TwinMask(shift) <==> Test(w, shift) && Test(w, Twin(shift))
  {
    hide And, Or, Bit;
    var s := if shift % 2 == 0 then shift + 1 else shift;
    TwoBits(w, s, s - 1);
  }

  lemma LaidParts(d: seq<Table>, s: seq<Table>, len: nat)
    requires Laid(d + s, len)
    ensures Laid(d, len) && Laid(s, len)
    ensures forall o, p :: 0 <= o < |d| && 0 <= p < |s| ==> d[o].off + d[o].words <= s[p].off
  {
    var ts := d + s;
    assert forall o :: 0 <= o < |d| ==> ts[o] == d[o];
    assert forall p :: 0 <= p < |s| ==> ts[|d| + p] == s[p];
  }

  /** A write to a table of the first pyramid leaves the second one alone. */
  lemma WriteFirst(mem: seq<Word>, d: seq<Table>, s: seq<Table>, o: nat, n: nat, v: bool)
    requires Laid(d + s, |mem|) && o < |d| && n < WORD_BITS * d[o].words
    ensures Laid(d, |mem|) && Laid(s, |mem|)
    ensures var i := d[o].off + n / WORD_BITS;
            && i < |mem|
            && var m := mem[i := PutBit(mem[i], n % WORD_BITS, v)];
            && Rows(m, d) == Rows(mem, d)[o := Rows(mem, d)[o][n := v]]
            && Rows(m, s) == Rows(mem, s)
  {
    hide PutBit, Rows;
    LaidParts(d, s, |mem|);
    TableInside(d, |mem|, o, n);
    var i := d[o].off + n / WORD_BITS;
    RowsPut(mem, d, o, n, v);
    RowsOther(mem, s, i, PutBit(mem[i], n % WORD_BITS, v));
  }

  lemma WriteSecond(mem: seq<Word>, d: seq<Table>, s: seq<Table>, o: nat, n: nat, v: bool)
    requires Laid(d + s, |mem|) && o < |s| && n < WORD_BITS * s[o].words
    ensures Laid(d, |mem|) && Laid(s, |mem|)
    ensures var i := s[o].off + n / WORD_BITS;
            && i < |mem|
            && var m := mem[i := PutBit(mem[i], n % WORD_BITS, v)];
            && Rows(m, s) == Rows(mem, s)[o := Rows(mem, s)[o][n := v]]
            && Rows(m, d) == Rows(mem, d)
  {
    hide PutBit, Rows;
    LaidParts(d, s, |mem|);
    TableInside(s, |mem|, o, n);
    var i := s[o].off + n / WORD_BITS;
    RowsPut(mem, s, o, n, v);
    RowsOther(mem, d, i, PutBit(mem[i], n % WORD_BITS, v));
  }

  lemma TwinWord(bit: nat, words: nat)
    requires bit < WORD_BITS * words
    ensures Twin(bit) < WORD_BITS * words
    ensures Twin(bit) / WORD_BITS == bit / WORD_BITS && Twin(bit) % WORD_BITS == Twin(bit % WORD_BITS)
  {
    var q, r := bit / WORD_BITS, bit % WORD_BITS;
    TwinWithin(q, r);
    assert bit == WORD_BITS * q + r;
    assert q < words;
  }

  lemma TwinWithin(q: nat, r: nat)
    requires r < 32
    ensures Twin(32 * q + r) == 32 * q + Twin(r) && Twin(r) < 32
    ensures Twin(32 * q + r) / 32 == q && Twin(32 * q + r) % 32 == Twin(r)
  {
    assert (32 * q + r) % 2 == r % 2;
  }

  /** A bit and its twin lie in one word. */
  lemma TwinInWord(mem: seq<Word>, ts: seq<Table>, o: nat, n: nat)
    requires Laid(ts, |mem|) && o < |ts| && n < WORD_BITS * ts[o].words
    ensures var i := ts[o].off + n / WORD_BITS;
            && i < |mem| && Twin(n) < WORD_BITS * ts[o].words && Twin(n % WORD_BITS) < WORD_BITS
            && Test(mem[i], n % WORD_BITS) == Rows(mem, ts)[o][n]
            && Test(mem[i], Twin(n % WORD_BITS)) == Rows(mem, ts)[o][Twin(n)]
  {
    hide Test;
    TwinWord(n, ts[o].words);
    RowsAt(mem, ts, o, n);
    RowsAt(mem, ts, o, Twin(n));
  }

  /** struct buddies, with the block of memory its tables lie in. */
  class Buddies {
    var mem: array<Word>
    var dirty: Buddy
    var saturated: Buddy
    var totalPagesAllocated: nat
    var heapBase: nat

    ghost predicate Valid()
      reads this
    {
      && BuddyOk(dirty) && BuddyOk(saturated)
      && dirty.order0Bits == saturated.order0Bits
      && Laid(TablesOf(dirty) + TablesOf(saturated), mem.Length)
    }

    /** The allocator as a value. */
    ghost function View(): (h: Heap)
      reads this, mem
      requires Valid()
      ensures WellFormed(h)
    {
      LaidParts(TablesOf(dirty), TablesOf(saturated), mem.Length);
      Heap(dirty.order0Bits, Rows(mem[..], TablesOf(dirty)), Rows(mem[..], TablesOf(saturated)), totalPagesAllocated)
    }

    /** buddy_order_bits */
    method BuddyOrderBits(b: Buddy, order: nat) returns (bits: nat)
      ensures bits == OrderBits(b.order0Bits, order)
    {
      PartialIsRemainder(b.order0Bits, order);
      bits := Shr(b.order0Bits, order) + if b.order0Bits % Pow2(order) != 0 then 1 else 0;
    }

    /** Read one bit of the dirty pyramid. */
    method TestDirty(order: nat, bit: nat) returns (v: bool)
      requires Valid()
      requires order < dirty.orders && bit < WORD_BITS * OrderWords(dirty.order0Bits, order)
      ensures v == View().dirty[order][bit]
    {
      LaidParts(TablesOf(dirty), TablesOf(saturated), mem.Length);
      TableInside(TablesOf(dirty), mem.Length, order, bit);
      RowsAt(mem[..], TablesOf(dirty), order, bit);
      v := Test(mem[dirty.data[order] + bit / WORD_BITS], bit % WORD_BITS);
    }

    /** Read one bit of the saturated pyramid. */
    method TestSaturated(order: nat, bit: nat) returns (v: bool)
      requires Valid()
      requires order < saturated.orders && bit < WORD_BITS * OrderWords(saturated.order0Bits, order)
      ensures v == View().saturated[order][bit]
    {
      LaidParts(TablesOf(dirty), TablesOf(saturated), mem.Length);
      TableInside(TablesOf(saturated), mem.Length, order, bit);
      RowsAt(mem[..], TablesOf(saturated), order, bit);
      v := Test(mem[saturated.data[order] + bit / WORD_BITS], bit % WORD_BITS);
    }

    /** Write one bit of the dirty pyramid; `twinHeld` says whether the bit or its twin is set afterwards. */
    method PutDirty(order: nat, bit: nat, v: bool) returns (twinHeld: bool)
      requires Valid()
      requires order < dirty.orders && bit < WORD_BITS * OrderWords(dirty.order0Bits, order)
      modifies mem
      ensures View() == old(View()).(dirty := Put(old(View()).dirty, order, bit, v))
      ensures Twin(bit) < |View().dirty[order]|
      ensures twinHeld == (View().dirty[order][bit] || View().dirty[order][Twin(bit)])
    {
      hide Laid, PutBit, Rows, Room, Row, Tracked;
      ghost var d, s := TablesOf(dirty), TablesOf(saturated);
      WriteFirst(mem[..], d, s, order, bit, v);
      var word, shift := dirty.data[order] + bit / WORD_BITS, bit % WORD_BITS;
      var data := PutBit(mem[word], shift, v);
      mem[word] := data;
      assert mem[..] == old(mem[..])[word := data];
      TwinInWord(mem[..], d, order, bit);
      TwinMaskBits(data, shift);
      twinHeld := And(data, TwinMask(shift)) != 0;
    }

    /** Write one bit of the saturated pyramid; `bothSet` says whether the bit and its twin are set afterwards. */
    method PutSaturated(order: nat, bit: nat, v: bool) returns (bothSet: bool)
      requires Valid()
      requires order < saturated.orders && bit < WORD_BITS * OrderWords(saturated.order0Bits, order)
      modifies mem
      ensures View() == old(View()).(saturated := Put(old(View()).saturated, order, bit, v))
      ensures Twin(bit) < |View().saturated[order]|
      ensures bothSet == (View().saturated[order][bit] && View().saturated[order][Twin(bit)])
    {
      hide Laid, PutBit, Rows, Room, Row, Tracked;
      ghost var d, s := TablesOf(dirty), TablesOf(saturated);
      WriteSecond(mem[..], d, s, order, bit, v);
      var word, shift := saturated.data[order] + bit / WORD_BITS, bit % WORD_BITS;
      var data := PutBit(mem[word], shift, v);
      mem[word] := data;
      assert mem[..] == old(mem[..])[word := data];
      TwinInWord(mem[..], s, order, bit);
      TwinMaskBits(data, shift);
      bothSet := And(data, TwinMask(shift)) == TwinMask(shift);
    }

    /** buddy_set_dirty */
    method BuddySetDirty(order0: nat, bit0: nat)
      requires Valid() && PathOk(View().dirty, order0, bit0)
      modifies mem
      ensures View() == old(View()).(dirty := SetPath(old(View()).dirty, order0, bit0))
    {
      hide Room, Tracked, Laid, Rows, Row, TablesOf, OrderWords, Orders;
      ghost var start := View();
      var order, bit := order0, bit0;
      while order < dirty.orders
        invariant PathOk(View().dirty, order, bit)
        invariant View() == start.(dirty := View().dirty)
        invariant SetPath(View().dirty, order, bit) == SetPath(start.dirty, order0, bit0)
        decreases dirty.orders - order
      {
        ghost var p := View().dirty;
        var _ := PutDirty(order, bit, true);
        PathShape(p, View().dirty, order + 1, bit / 2);
        order, bit := order + 1, bit / 2;
      }
    }

    /** buddy_clear_dirty */
    method BuddyClearDirty(order0: nat, bit0: nat)
      requires Valid() && PathOk(View().dirty, order0, bit0)
      modifies mem
      ensures View() == old(View()).(dirty := ClearUntilTwin(old(View()).dirty, order0, bit0))
    {
      hide Room, Tracked, Laid, Rows, Row, TablesOf, OrderWords, Orders;
      ghost var start := View();
      var order, bit := order0, bit0;
      while order < dirty.orders
        invariant PathOk(View().dirty, order, bit)
        invariant View() == start.(dirty := View().dirty)
        invariant ClearUntilTwin(View().dirty, order, bit) == ClearUntilTwin(start.dirty, order0, bit0)
        decreases dirty.orders - order
      {
        ghost var p := View().dirty;
        var twinHeld := PutDirty(order, bit, false);
        PathShape(p, View().dirty, order + 1, bit / 2);
        if twinHeld {
          return;
        }
        order, bit := order + 1, bit / 2;
      }
    }

    /** buddy_set_saturated */
    method BuddySetSaturated(order0: nat, bit0: nat)
      requires Valid() && PathOk(View().saturated, order0, bit0)
      modifies mem
      ensures View() == old(View()).(saturated := SetWhileTwin(old(View()).saturated, order0, bit0))
    {
      hide Room, Tracked, Laid, Rows, Row, TablesOf, OrderWords, Orders;
      ghost var start := View();
      var order, bit := order0, bit0;
      while order < saturated.orders
        invariant PathOk(View().saturated, order, bit)
        invariant View() == start.(saturated := View().saturated)
        invariant SetWhileTwin(View().saturated, order, bit) == SetWhileTwin(start.saturated, order0, bit0)
        decreases saturated.orders - order
      {
        ghost var p := View().saturated;
        var bothSet := PutSaturated(order, bit, true);
        PathShape(p, View().saturated, order + 1, bit / 2);
        if !bothSet {
          return;
        }
        order, bit := order + 1, bit / 2;
      }
    }

    /** buddy_clear_saturated */
    method BuddyClearSaturated(order0: nat, bit0: nat)
      requires Valid() && PathOk(View().saturated, order0, bit0)
      modifies mem
      ensures View() == old(View()).(saturated := ClearPath(old(View()).saturated, order0, bit0))
    {
      hide Room, Tracked, Laid, Rows, Row, TablesOf, OrderWords, Orders;
      ghost var start := View();
      var order, bit := order0, bit0;
      while order < saturated.orders
        invariant PathOk(View().saturated, order, bit)
        invariant View() == start.(saturated := View().saturated)
        invariant ClearPath(View().saturated, order, bit) == ClearPath(start.saturated, order0, bit0)
        decreases saturated.orders - order
      {
        ghost var p := View().saturated;
        var _ := PutSaturated(order, bit, false);
        PathShape(p, View().saturated, order + 1, bit / 2);
        order, bit := order + 1, bit / 2;
      }
    }

    /** buddy_search_unsaturated */
    method BuddySearchUnsaturated(search: nat, target: nat, begin: nat, end: nat) returns (r: nat)
      requires Valid()
      requires search < saturated.orders && end <= OrderBits(saturated.order0Bits, search)
      ensures r == Search(View(), search, target, begin, end)
      decreases search
    {
      hide Tracked, Laid, Rows, Row, TablesOf, Orders, Partial, OrderBits, OrderWords, Room;
      var bit := begin;
      while bit < end
        invariant Search(View(), search, target, bit, end) == Search(View(), search, target, begin, end)
        decreases end - bit
      {
        BitInRow(saturated.order0Bits, search, bit);
        var full := TestSaturated(search, bit);
        if !full {
          if search > target {
            var maxBits := BuddyOrderBits(saturated, search - 1);
            var searchEnd := 2 * bit + 2;
            if searchEnd > maxBits {
              searchEnd := maxBits;
            }
            r := BuddySearchUnsaturated(search - 1, target, 2 * bit, searchEnd);
            return;
          }
          if search == target {
            var held := TestDirty(target, bit);
            if !held {
              return bit;
            }
          }
        }
        bit := bit + 1;
      }
      return WORD_T_MAX;
    }

    /** _pages_order */
    method PagesOrderOf(pages: nat) returns (order: nat)
      requires pages <= MAX_REQUEST
      ensures order == PagesOrder(pages)
    {
      order := 0;
      PagesOrderLeast(pages);
      LargestBlock();
      while Pow2(order) < pages
        invariant order <= 31 && PagesOrderFrom(pages, order) == PagesOrder(pages)
        decreases 31 - order
      {
        order := order + 1;
      }
    }

    /** The search of _get_free_pages, from the top order. */
    method SearchFromTop(targetOrder: nat) returns (result: nat)
      requires Valid()
      ensures result == Find(View(), targetOrder)
    {
      hide Tracked, Room, Laid, Rows, Row, TablesOf, Partial, Search;
      OrdersPositive(saturated.order0Bits);
      var topOrder := saturated.orders - 1;
      var topBits := BuddyOrderBits(saturated, topOrder);
      result := BuddySearchUnsaturated(topOrder, targetOrder, 0, topBits);
    }

    /** _get_free_pages */
    method GetFreePageNumber(pages: nat) returns (page: nat)
      requires Valid() && pages <= MAX_REQUEST
      modifies this`totalPagesAllocated, mem
      ensures Valid()
      ensures (View(), page) == GetFreePages(old(View()), pages)
    {
      hide Tracked, Room, Laid, Rows, Row, TablesOf, Partial, PagesOrder, Find, OrderWords;
      var targetOrder := PagesOrderOf(pages);
      var result := SearchFromTop(targetOrder);
      if result != WORD_T_MAX {
        ghost var h := View();
        PathInShape(h.pages, h.saturated, targetOrder, result);
        PathInShape(h.pages, h.dirty, targetOrder, result);
        BuddySetSaturated(targetOrder, result);
        BuddySetDirty(targetOrder, result);
        totalPagesAllocated := (totalPagesAllocated + Pow2(targetOrder)) % WORD_MODULUS;
        page := Shl(result, targetOrder);
      } else {
        page := result;
      }
    }

    /** _determine_allocated_page_order */
    method DetermineAllocatedPageOrder(page: nat) returns (order: nat)
      requires Valid() && page < dirty.order0Bits
      ensures order == OrderOf(View(), page)
    {
      hide Tracked, Laid, Rows, Row, TablesOf, Partial, Orders, OrderBits, Room;
      OrdersPositive(dirty.order0Bits);
      ghost var h := View();
      PageInShape(h.pages, h.dirty, page);
      order := dirty.orders - 1;
      while order > 0
        invariant order < dirty.orders
        invariant AllocatedOrder(h.dirty, page, order) == OrderOf(h, page)
      {
        var bit := Shr(page, order - 1);
        var held := TestDirty(order - 1, bit);
        if !held {
          return;
        }
        order := order - 1;
      }
    }

    /** _free_pages2 */
    method FreePageNumber(page: nat)
      requires Valid() && (page == WORD_T_MAX || page < dirty.order0Bits)
      modifies this`totalPagesAllocated, mem
      ensures Valid()
      ensures View() == FreePages(old(View()), page)
    {
      hide Tracked, Laid, Rows, Row, TablesOf, Partial;
      if page != WORD_T_MAX {
        ghost var h := View();
        var order := DetermineAllocatedPageOrder(page);
        var bit := Shr(page, order);
        PathInShape(h.pages, h.saturated, order, bit);
        PathInShape(h.pages, h.dirty, order, bit);
        BuddyClearSaturated(order, bit);
        BuddyClearDirty(order, bit);
        totalPagesAllocated := (totalPagesAllocated - Pow2(order)) % WORD_MODULUS;
      }
    }

    /** get_free_pages: the address of the first page, or null. */
    method GetFreePagesAt(pages: nat) returns (address: nat)
      requires Valid() && pages <= MAX_REQUEST
      modifies this`totalPagesAllocated, mem
      ensures Valid()
      ensures (View(), address) == GetAt(old(View()), heapBase, pages)
      ensures var page := GetFreePages(old(View()), pages).1;
              address == if page == WORD_T_MAX then 0 else heapBase + 4096 * page
    {
      hide Tracked, Room, Laid, Rows, Row, TablesOf, Partial, GetFreePages;
      var pn := GetFreePageNumber(pages);
      if pn == WORD_T_MAX {
        return 0;
      }
      address := pn * PAGE_SIZE + heapBase;
    }

    /** free_pages, free_pages2 and free_page: the address alone decides what is freed. */
    method FreePagesAt(address: nat)
      requires Valid() && InHeap(dirty.order0Bits, heapBase, address)
      modifies this`totalPagesAllocated, mem
      ensures Valid()
      ensures View() == GiveAt(old(View()), heapBase, address)
    {
      hide Tracked, Room, Laid, Rows, Row, TablesOf, Partial, FreePages;
      if address != 0 {
        FreePageNumber((address - heapBase) / PAGE_SIZE);
      }
    }

    /** _configure_geometry */
    method ConfigureGeometry(heapLength: nat)
      requires heapLength < WORD_MODULUS
      modifies this`dirty, this`saturated
      ensures var n := heapLength / PAGE_SIZE;
              && dirty == Buddy(old(dirty).data, n, if n > 0 then Orders(n) else old(dirty).orders)
              && saturated == Buddy(old(saturated).data, n, if n > 0 then Orders(n) else old(saturated).orders)
    {
      hide Orders, Shr;
      var n := heapLength / PAGE_SIZE;
      var orders := 31;
      dirty, saturated := dirty.(order0Bits := n), saturated.(order0Bits := n);
      if n > 0 {
        OrdersPositive(n);
      } else {
        NoOrders();
      }
      while orders > 0 && Shr(n, orders - 1) == 0
        invariant n > 0 ==> Orders(n) <= orders
        invariant dirty == Buddy(old(dirty).data, n, old(dirty).orders)
        invariant saturated == Buddy(old(saturated).data, n, old(saturated).orders)
      {
        OrdersAbove(n, orders - 1);
        orders := orders - 1;
      }
      if orders == 0 {
        return;
      }
      OrdersAbove(n, orders - 1);
      dirty, saturated := dirty.(orders := orders), saturated.(orders := orders);
    }

    /** Set up the zeroed table of one order: with `mark`, its partly populated block is set. */
    method LayTable(n: nat, order: nat, cur: nat, mark: bool)
      requires Tracked(n) && Room(n) && order < Orders(n)
      requires cur + OrderWords(n, order) <= mem.Length
      requires forall i :: cur <= i < mem.Length ==> mem[i] == 0
      modifies mem
      ensures FreshTable(mem[..], Table(cur, OrderWords(n, order)), n, order, mark)
      ensures forall i :: 0 <= i < cur ==> mem[i] == old(mem[i])
      ensures forall i :: cur + OrderWords(n, order) <= i < mem.Length ==> mem[i] == 0
    {
      hide Row, Room, Test, FreshRow, OrderWords, Set;
      PartialIsRemainder(n, order);
      MarkFits(mem[..], Table(cur, OrderWords(n, order)), n, order, mark);
      if mark && n % Pow2(order) != 0 {
        var bit := Shr(n, order);
        var word := cur + bit / WORD_BITS;
        ghost var before := mem[..];
        mem[word] := Set(mem[word], bit % WORD_BITS);
        assert mem[..] == before[word := Set(before[word], bit % WORD_BITS)];
      }
    }

    /**
     * Lay out the tables of one pyramid from word `start` on: room for the pointers, then one table an
     * order.
     */
    method LayTables(n: nat, orders: nat, start: nat, mark: bool) returns (data: seq<nat>, cur: nat)
      requires Tracked(n) && Room(n) && orders == Orders(n)
      requires start + orders + TableWords(n, 0, orders) <= mem.Length
      requires forall i :: start <= i < mem.Length ==> mem[i] == 0
      modifies mem
      ensures cur == start + orders + TableWords(n, 0, orders)
      ensures |data| == orders && TablesOf(Buddy(data, n, orders)) == TablesFrom(n, 0, orders, start + orders)
      ensures forall i :: 0 <= i < start ==> mem[i] == old(mem[i])
      ensures forall i :: cur <= i < mem.Length ==> mem[i] == 0
      ensures FreshTables(mem[..], data, n, orders, mark)
    {
      hide Room, OrderWords, FreshTables, Laying, TablesOf, TablesFrom, TableWords, Tracked, Orders;
      data, cur := [], start + orders;
      LayingStart(n, orders, start, mem[..], mark);
      var order := 0;
      while order < orders
        invariant order <= orders && Laying(data, cur, n, order, orders, start)
        invariant forall i :: 0 <= i < start ==> mem[i] == old(mem[i])
        invariant forall i :: cur <= i < mem.Length ==> mem[i] == 0
        invariant FreshTables(mem[..], data, n, order, mark)
      {
        ghost var before := mem[..];
        var words := OrderWords(n, order);
        LayingNext(data, cur, n, order, orders, start);
        LayTable(n, order, cur, mark);
        KeepTables(before, mem[..], data, n, order, mark, cur);
        FreshGrow(mem[..], data, cur, n, order, mark);
        data, cur, order := data + [cur], cur + words, order + 1;
      }
      LayingDone(data, cur, n, orders, start);
    }

    /**
     * buddy_alloc_data, with the address that the boot allocator returned. The memory behind a non-null
     * address is zeroed.
     */
    method BuddyAllocData(heapLength: nat, base: nat) returns (err: int)
      requires Usable(heapLength) && totalPagesAllocated == 0
      modifies this
      ensures base != 0 ==> Valid() && fresh(mem) && View() == FreshHeap(TrackedPages(heapLength))
      ensures base != 0 ==> heapBase == AlignUp(base + TotalDataSize(TrackedPages(heapLength)))
      ensures base != 0 ==> FirstPageAbove(TablesOf(dirty) + TablesOf(saturated), base, heapBase)
      ensures err == 0 <==>
              base != 0 && TotalDataSize(TrackedPages(heapLength)) == TotalDataSize(heapLength / PAGE_SIZE)
      ensures base != 0 && base % PAGE_SIZE == 0 && heapLength % PAGE_SIZE == 0 ==>
              base + TotalDataSize(TrackedPages(heapLength)) <= heapBase
              && heapBase + TrackedPages(heapLength) * PAGE_SIZE <= base + heapLength
    {
      hide Room, Orders, DataWords, TablesOf, OrderWords, Laid, AlignUp, DirtyTables, SaturatedTables, FreshHeap, Rows,
        FirstPageAbove;
      LayoutFits(heapLength);
      err := -1;
      ConfigureGeometry(heapLength);
      assert heapLength / PAGE_SIZE > 0;
      var dirtySz := DataSize(dirty);
      var saturatedSz := DataSize(saturated);
      var totalDataSz := dirtySz + saturatedSz;
      ConfigureGeometry(heapLength - totalDataSz);
      if base != 0 {
        mem := new Word[DataPagesWords(totalDataSz)](_ => 0);
        var cur1 := LayBothPyramids();
        if base + 4 * cur1 == base + totalDataSz {
          err := 0;
        }
        heapBase := AlignUp(base + 4 * cur1);
        TablesEndBelow(dirty.order0Bits, base);
        if base % PAGE_SIZE == 0 && heapLength % PAGE_SIZE == 0 {
          TrackedPagesFit(base, heapLength, totalDataSz, 4 * cur1);
        }
      }
    }

    /** Lay out the dirty tables, then the saturated ones, in zeroed memory. */
    method LayBothPyramids() returns (end: nat)
      requires var n := dirty.order0Bits;
               && Tracked(n) && Room(n) && saturated.order0Bits == n
               && dirty.orders == saturated.orders == Orders(n)
               && 2 * DataWords(n) <= mem.Length
      requires totalPagesAllocated == 0
      requires forall i :: 0 <= i < mem.Length ==> mem[i] == 0
      modifies this`dirty, this`saturated, mem
      ensures dirty.order0Bits == old(dirty.order0Bits) && end == 2 * DataWords(dirty.order0Bits)
      ensures TablesOf(dirty) == DirtyTables(dirty.order0Bits) && TablesOf(saturated) == SaturatedTables(dirty.order0Bits)
      ensures Valid() && View() == FreshHeap(dirty.order0Bits)
    {
      hide Room, Orders, TablesFrom, TableWords, TablesOf, OrderWords, Laid, FreshTables, Tracked, Rows;
      var n, orders := dirty.order0Bits, dirty.orders;
      var data, cur := LayTables(n, orders, 0, true);
      dirty := dirty.(data := data);
      ghost var before := mem[..];
      var data1, cur1 := LayTables(n, orders, cur, false);
      saturated := saturated.(data := data1);
      KeepFresh(before, mem[..], data, n, orders, cur);
      SetUpDone(mem[..], dirty, saturated);
      end := cur1;
    }

    /** _determine_buddy_data_size, in bytes. */
    method DataSize(b: Buddy) returns (bytes: nat)
      requires b.orders == Orders(b.order0Bits)
      ensures bytes == 4 * DataWords(b.order0Bits)
    {
      hide OrderWords, Orders;
      bytes := 4 * b.orders;
      var order := 0;
      while order < b.orders
        invariant order <= b.orders
        invariant bytes + 4 * TableWords(b.order0Bits, order, b.orders) == 4 * DataWords(b.order0Bits)
      {
        bytes := bytes + 4 * OrderWords(b.order0Bits, order);
        order := order + 1;
      }
    }
  }

  /** The tables of the second pyramid are written above those of the first. */
  lemma KeepFresh(mem: seq<Word>, after: seq<Word>, data: seq<nat>, n: nat, orders: nat, cur: nat)
    requires |mem| == |after| && orders == |data| && cur == orders + TableWords(n, 0, orders) <= |mem|
    requires TablesOf(Buddy(data, n, orders)) == TablesFrom(n, 0, orders, orders)
    requires forall i :: 0 <= i < cur ==> mem[i] == after[i]
    requires FreshTables(mem, data, n, orders, true)
    ensures FreshTables(after, data, n, orders, true)
  {
    hide FreshTables, OrderWords, TablesFrom, TableWords;
    var ts := TablesOf(Buddy(data, n, orders));
    TablesConsecutive(n, 0, orders, orders);
    forall o | 0 <= o < orders
      ensures data[o] + OrderWords(n, o) <= cur
    {
      ConsecutiveAt(ts, orders, cur, o);
    }
    KeepTables(mem, after, data, n, orders, true, cur);
  }

  /** Both pyramids of a heap just set up are those of the fresh heap. */
  lemma SetUpDone(mem: seq<Word>, dirty: Buddy, saturated: Buddy)
    requires BuddyOk(dirty) && BuddyOk(saturated) && dirty.order0Bits == saturated.order0Bits
    requires 2 * DataWords(dirty.order0Bits) <= |mem|
    requires TablesOf(dirty) == DirtyTables(dirty.order0Bits)
    requires TablesOf(saturated) == SaturatedTables(dirty.order0Bits)
    requires FreshTables(mem, dirty.data, dirty.order0Bits, dirty.orders, true)
    requires FreshTables(mem, saturated.data, dirty.order0Bits, dirty.orders, false)
    ensures Laid(TablesOf(dirty) + TablesOf(saturated), |mem|)
    ensures Laid(TablesOf(dirty), |mem|) && Laid(TablesOf(saturated), |mem|)
    ensures Rows(mem, TablesOf(dirty)) == FreshHeap(dirty.order0Bits).dirty
    ensures Rows(mem, TablesOf(saturated)) == FreshHeap(dirty.order0Bits).saturated
  {
    TablesLaid(dirty.order0Bits, |mem|);
    LaidParts(TablesOf(dirty), TablesOf(saturated), |mem|);
    hide Row, FreshRow, DirtyTables, SaturatedTables, DataWords, OrderWords, Room, Laid;
    FreshRows(mem, dirty, true);
    FreshRows(mem, saturated, false);
  }

  lemma FreshRows(mem: seq<Word>, b: Buddy, mark: bool)
    requires BuddyOk(b) && Laid(TablesOf(b), |mem|)
    requires FreshTables(mem, b.data, b.order0Bits, b.orders, mark)
    ensures Rows(mem, TablesOf(b)) == if mark then FreshHeap(b.order0Bits).dirty else FreshHeap(b.order0Bits).saturated
  {
    hide Row, FreshRow, OrderWords, Room;
    var rows := Rows(mem, TablesOf(b));
    forall o | 0 <= o < b.orders
      ensures rows[o] == FreshRow(b.order0Bits, o, mark)
    {
      assert FreshTable(mem, Table(b.data[o], OrderWords(b.order0Bits, o)), b.order0Bits, o, mark);
    }
  }

  ghost predicate FreshTables(mem: seq<Word>, data: seq<nat>, n: nat, orders: nat, mark: bool) {
    orders <= |data| && forall o :: 0 <= o < orders ==> FreshTable(mem, Table(data[o], OrderWords(n, o)), n, o, mark)
  }

  lemma FreshGrow(mem: seq<Word>, data: seq<nat>, cur: nat, n: nat, order: nat, mark: bool)
    requires order == |data| && FreshTables(mem, data, n, order, mark)
    requires FreshTable(mem, Table(cur, OrderWords(n, order)), n, order, mark)
    ensures FreshTables(mem, data + [cur], n, order + 1, mark)
  {
    hide FreshTable, OrderWords;
  }

  /** The tables below `order` are laid out, the next one starts at `cur`. */
  ghost predicate Laying(data: seq<nat>, cur: nat, n: nat, order: nat, orders: nat, start: nat) {
    && |data| == order && start + orders <= cur
    && cur + TableWords(n, order, orders) == start + orders + TableWords(n, 0, orders)
    && TablesOf(Buddy(data, n, orders)) + TablesFrom(n, order, orders, cur) == TablesFrom(n, 0, orders, start + orders)
    && forall o :: 0 <= o < order ==> data[o] + OrderWords(n, o) <= cur
  }

  lemma LayingStart(n: nat, orders: nat, start: nat, mem: seq<Word>, mark: bool)
    ensures Laying([], start + orders, n, 0, orders, start)
    ensures FreshTables(mem, [], n, 0, mark)
  {
  }

  lemma LayingDone(data: seq<nat>, cur: nat, n: nat, orders: nat, start: nat)
    requires Laying(data, cur, n, orders, orders, start)
    ensures |data| == orders && cur == start + orders + TableWords(n, 0, orders)
    ensures TablesOf(Buddy(data, n, orders)) == TablesFrom(n, 0, orders, start + orders)
  {
    assert TablesOf(Buddy(data, n, orders)) + [] == TablesOf(Buddy(data, n, orders));
  }

  lemma LayingNext(data: seq<nat>, cur: nat, n: nat, order: nat, orders: nat, start: nat)
    requires order < orders && Laying(data, cur, n, order, orders, start)
    ensures cur + OrderWords(n, order) <= start + orders + TableWords(n, 0, orders) && start + orders <= cur
    ensures |data| == order && forall o :: 0 <= o < order ==> data[o] + OrderWords(n, o) <= cur
    ensures Laying(data + [cur], cur + OrderWords(n, order), n, order + 1, orders, start)
  {
    hide OrderWords, TablesOf, TablesFrom, TableWords;
    TablesNext(data, cur, n, order, orders);
  }

  /** One table more among those laid out is one table fewer among those to come. */
  lemma TablesNext(data: seq<nat>, cur: nat, n: nat, order: nat, orders: nat)
    requires order == |data| < orders
    ensures var words := OrderWords(n, order);
            && TableWords(n, order, orders) == words + TableWords(n, order + 1, orders)
            && TablesOf(Buddy(data + [cur], n, orders)) + TablesFrom(n, order + 1, orders, cur + words)
               == TablesOf(Buddy(data, n, orders)) + TablesFrom(n, order, orders, cur)
  {
    hide OrderWords, TablesOf;
    var words := OrderWords(n, order);
    TablesGrow(data, cur, n, orders);
    TablesShift(TablesOf(Buddy(data, n, orders)), Table(cur, words), TablesFrom(n, order + 1, orders, cur + words));
  }

  lemma TablesShift(a: seq<Table>, t: Table, b: seq<Table>)
    ensures (a + [t]) + b == a + ([t] + b)
  {
  }

  /** The table holds what the set-up leaves in it. */
  ghost predicate FreshTable(mem: seq<Word>, t: Table, n: nat, order: nat, mark: bool) {
    Fits(mem, t) && t.words == OrderWords(n, order) && Row(mem, t) == FreshRow(n, order, mark)
  }

  /** Zero words, with the partial block's bit set where the source sets it, make a fresh table. */
  lemma MarkFits(mem: seq<Word>, t: Table, n: nat, order: nat, mark: bool)
    requires Tracked(n) && Room(n) && order < Orders(n)
    requires Fits(mem, t) && t.words == OrderWords(n, order)
    requires forall i :: t.off <= i < t.off + t.words ==> mem[i] == 0
    ensures !(mark && Partial(n, order)) ==> FreshTable(mem, t, n, order, mark)
    ensures mark && Partial(n, order) ==>
            var bit := Shr(n, order);
            var i := t.off + bit / WORD_BITS;
            InTable(t, i) && FreshTable(mem[i := Set(mem[i], bit % WORD_BITS)], t, n, order, mark)
  {
    hide Room, Test, PutBit, Tracked, OrderWords, Orders;
    var ws := mem[t.off..t.off + t.words];
    ZeroBits(ws);
    if mark && Partial(n, order) {
      FloorInRow(n, order);
      var bit := Shr(n, order);
      var i := t.off + bit / WORD_BITS;
      var w := Set(mem[i], bit % WORD_BITS);
      BitsPut(ws, bit, true);
      assert w == PutBit(mem[i], bit % WORD_BITS, true) by {
        PutIsSet(mem[i], bit % WORD_BITS);
      }
      assert mem[i := w][t.off..t.off + t.words] == ws[bit / WORD_BITS := w];
      assert Row(mem[i := w], t) == FreshRow(n, order, mark);
    } else {
      assert Row(mem, t) == FreshRow(n, order, mark);
    }
  }

  lemma PutIsSet(w: Word, b: nat)
    requires b < WORD_BITS
    ensures PutBit(w, b, true) == Set(w, b)
  {
  }

  /** Writes from `cur` on leave the tables below alone. */
  lemma KeepTables(mem: seq<Word>, after: seq<Word>, data: seq<nat>, n: nat, orders: nat, mark: bool, cur: nat)
    requires |mem| == |after| && orders <= |data| && cur <= |mem|
    requires forall i :: 0 <= i < cur ==> mem[i] == after[i]
    requires forall o :: 0 <= o < orders ==> data[o] + OrderWords(n, o) <= cur
    requires FreshTables(mem, data, n, orders, mark)
    ensures FreshTables(after, data, n, orders, mark)
  {
    hide OrderWords, FreshRow, Bits;
    forall o | 0 <= o < orders
      ensures FreshTable(after, Table(data[o], OrderWords(n, o)), n, o, mark)
    {
      var t := Table(data[o], OrderWords(n, o));
      assert FreshTable(mem, t, n, o, mark);
      assert mem[t.off..t.off + t.words] == after[t.off..t.off + t.words];
    }
  }

  lemma TablesGrow(data: seq<nat>, cur: nat, n: nat, orders: nat)
    ensures TablesOf(Buddy(data + [cur], n, orders))
            == TablesOf(Buddy(data, n, orders)) + [Table(cur, OrderWords(n, |data|))]
  {
  }

  lemma NoOrders()
    ensures Orders(0) == 0
  {
  }

  lemma FloorInRow(n: nat, order: nat)
    requires Tracked(n) && Room(n) && order < Orders(n) && Partial(n, order)
    ensures Shr(n, order) < WORD_BITS * OrderWords(n, order)
  {
  }

  lemma BitInRow(n: nat, order: nat, bit: nat)
    requires Tracked(n) && Room(n) && order < Orders(n) && bit < OrderBits(n, order)
    ensures bit < WORD_BITS * OrderWords(n, order)
  {
  }
}
