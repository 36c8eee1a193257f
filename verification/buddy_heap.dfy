/**
 * The page allocator as a value: both pyramids, the search, one allocation and
 * one free. Live blocks are what the bits are measured against; they are not
 * part of the allocator's state.
 */
module BuddyHeap {
  import opened Machine
  import opened Shifts
  import opened BuddyTree
  import opened BuddyPaths
  import opened BuddyGeometry

  const WORD_T_MAX: nat := 0xffff_ffff

  datatype Heap = Heap(pages: nat, dirty: Pyramid, saturated: Pyramid, total: nat)

  /** Both pyramids have one row an order, as long as the order's table. */
  ghost predicate Shape(n: nat, p: Pyramid) {
    && Tracked(n) && Room(n)
    && |p| == Orders(n)
    && forall o :: 0 <= o < |p| ==> |p[o]| == WORD_BITS * OrderWords(n, o)
  }

  ghost predicate WellFormed(h: Heap) {
    Shape(h.pages, h.dirty) && Shape(h.pages, h.saturated)
  }

  /** Start page of a block. */
  function Start(b: Block): nat {
    Shl(b.index, b.order)
  }

  /** Every live block has a bit of its own. */
  predicate Counted(n: nat, live: set<Block>) {
    forall b {:trigger b in live} :: b in live ==> b.order < Orders(n) && b.index < OrderBits(n, b.order)
  }

  /** The pages of all blocks lie inside the heap. */
  predicate Contained(n: nat, live: set<Block>) {
    forall b {:trigger b in live} :: b in live ==> Shl(b.index + 1, b.order) <= n
  }

  /**
   * The bits mean the live blocks. `tail` is what remains of the mark that the
   * set-up puts on the partly populated block at the end of the heap.
   */
  ghost predicate Means(h: Heap, live: set<Block>, tail: set<Block>) {
    && WellFormed(h)
    && NoOverlap(live)
    && Counted(h.pages, live)
    && tail <= Tail(h.pages)
    && (forall t, b {:trigger Within(t, b.order, b.index)} :: t in tail && b in live ==> !Within(t, b.order, b.index))
    && (tail == Tail(h.pages) ==> Contained(h.pages, live))
    && Shows(h, live, tail)
  }

  /* ---- Paths stay inside the tables ---- */

  lemma {:induction false} PathInShape(n: nat, p: Pyramid, o: nat, m: nat)
    requires Shape(n, p) && (o < |p| ==> m < OrderBits(n, o))
    ensures PathOk(p, o, m)
    decreases |p| - o
  {
    if o < |p| {
      OrderBitsUp(n, o, m);
      RowEven(OrderWords(n, o), OrderBits(n, o), m);
      PathInShape(n, p, o + 1, m / 2);
    }
  }

  lemma RowEven(words: nat, bits: nat, m: nat)
    requires bits <= WORD_BITS * words && m < bits
    ensures Twin(m) < WORD_BITS * words
  {
  }

  lemma ShapeSame(n: nat, p: Pyramid, q: Pyramid)
    requires Shape(n, p) && SameShape(p, q)
    ensures Shape(n, q)
  {
  }

  /* ---- Search ---- */

  /** buddy_search_unsaturated: it returns from the first unsaturated branch and never backtracks. */
  function Search(h: Heap, search: nat, target: nat, bit: nat, end: nat): (r: nat)
    requires WellFormed(h)
    requires search < Orders(h.pages) && end <= OrderBits(h.pages, search)
    ensures r == WORD_T_MAX || (target < Orders(h.pages) && r < OrderBits(h.pages, target))
    decreases search, end - bit
  {
    if bit >= end then WORD_T_MAX
    else if h.saturated[search][bit] then Search(h, search, target, bit + 1, end)
    else if search > target then
      var bits := OrderBits(h.pages, search - 1);
      Search(h, search - 1, target, 2 * bit, if 2 * bit + 2 > bits then bits else 2 * bit + 2)
    else if search == target && !h.dirty[target][bit] then bit
    else Search(h, search, target, bit + 1, end)
  }

  /** The bits show the live blocks; the dirty pyramid may show a mark on the tail as well. */
  ghost predicate Shows(h: Heap, live: set<Block>, tail: set<Block>) {
    ShowsDirty(h.dirty, live + tail) && ShowsSaturated(h.saturated, live)
  }

  /** A block the search returns meets no live block. */
  lemma {:induction false} SearchSound(h: Heap, live: set<Block>, tail: set<Block>, search: nat, target: nat, bit: nat, end: nat)
    requires WellFormed(h) && Shows(h, live, tail)
    requires search < Orders(h.pages) && end <= OrderBits(h.pages, search)
    requires forall k :: bit <= k < end ==> !Inside(live, search, k)
    ensures var r := Search(h, search, target, bit, end);
            r != WORD_T_MAX ==>
              && !DirtyNode(live + tail, target, r)
              && !SaturatedNode(live, target, r)
              && !Inside(live, target, r)
    decreases search, end - bit
  {
    if bit < end {
      if h.saturated[search][bit] {
        SearchSound(h, live, tail, search, target, bit + 1, end);
      } else if search > target {
        var bits := OrderBits(h.pages, search - 1);
        assert !SaturatedNode(live, search, bit);
        ChildNotInside(live, search, bit);
        SearchSound(h, live, tail, search - 1, target, 2 * bit, if 2 * bit + 2 > bits then bits else 2 * bit + 2);
      } else if !(search == target && !h.dirty[target][bit]) {
        SearchSound(h, live, tail, search, target, bit + 1, end);
      }
    }
  }

  /** Page u is the lowest page that no live block covers. */
  predicate LowestFree(live: set<Block>, u: nat) {
    !Covered(live, u) && forall p :: 0 <= p < u ==> Covered(live, p)
  }

  /** A node that ends before the lowest free page is saturated, the node of that page is not. */
  lemma NodeOfLowestFree(live: set<Block>, u: nat, q: nat, k: nat)
    requires LowestFree(live, u) && !Inside(live, q, k)
    ensures k < Shr(u, q) ==> SaturatedNode(live, q, k)
    ensures k == Shr(u, q) ==> !SaturatedNode(live, q, k)
  {
    if k < Shr(u, q) {
      forall p: nat | Shr(p, q) == k
        ensures Covered(live, p)
      {
        if p >= u {
          ShrMono(u, p, q);
        }
      }
      CoveredSaturated(live, q, k);
    }
    if k == Shr(u, q) && SaturatedNode(live, q, k) {
      SaturatedCovered(live, q, k, u);
    }
  }

  /** The bits the search examines at its target order: the two halves of one group, or all at the top. */
  function GroupBegin(n: nat, target: nat, u: nat): nat {
    if target + 1 >= Orders(n) then 0 else 2 * Shr(u, target + 1)
  }

  function GroupEnd(n: nat, target: nat, u: nat): nat {
    var e := GroupBegin(n, target, u) + 2;
    if e > OrderBits(n, target) then OrderBits(n, target) else e
  }

  /** The first of the examined bits that is neither saturated nor dirty. */
  function FirstClean(h: Heap, target: nat, bit: nat, end: nat): (r: nat)
    requires WellFormed(h) && target < Orders(h.pages) && end <= OrderBits(h.pages, target)
    decreases end - bit
  {
    if bit >= end then WORD_T_MAX
    else if !h.saturated[target][bit] && !h.dirty[target][bit] then bit
    else FirstClean(h, target, bit + 1, end)
  }

  lemma {:induction false} SearchAtTarget(h: Heap, target: nat, bit: nat, end: nat)
    requires WellFormed(h) && target < Orders(h.pages) && end <= OrderBits(h.pages, target)
    ensures Search(h, target, target, bit, end) == FirstClean(h, target, bit, end)
    decreases end - bit
  {
    if bit < end {
      SearchAtTarget(h, target, bit + 1, end);
    }
  }

  /** Saturated nodes are skipped: the search moves on to the node of the lowest free page. */
  lemma {:induction false} SearchSkips(h: Heap, search: nat, target: nat, bit: nat, k: nat, end: nat)
    requires WellFormed(h)
    requires search < Orders(h.pages) && bit <= k <= end <= OrderBits(h.pages, search)
    requires forall m :: bit <= m < k ==> h.saturated[search][m]
    ensures Search(h, search, target, bit, end) == Search(h, search, target, k, end)
    decreases k - bit
  {
    if bit < k {
      SearchSkips(h, search, target, bit + 1, k, end);
    }
  }

  function ChildEnd(n: nat, search: nat, k: nat): nat
    requires search > 0
  {
    if 2 * k + 2 > OrderBits(n, search - 1) then OrderBits(n, search - 1) else 2 * k + 2
  }

  /** One level of the descent. */
  lemma SearchDescendsOnce(h: Heap, live: set<Block>, tail: set<Block>, u: nat, search: nat, target: nat, bit: nat, end: nat)
    requires WellFormed(h) && Shows(h, live, tail) && LowestFree(live, u) && u < h.pages
    requires target < search < Orders(h.pages) && end <= OrderBits(h.pages, search)
    requires bit <= Shr(u, search) < end
    requires forall k :: bit <= k < end ==> !Inside(live, search, k)
    ensures var k := Shr(u, search);
            && Search(h, search, target, bit, end) == Search(h, search - 1, target, 2 * k, ChildEnd(h.pages, search, k))
            && !Inside(live, search - 1, 2 * k) && !Inside(live, search - 1, 2 * k + 1)
  {
    var k := Shr(u, search);
    forall m | bit <= m <= k
      ensures h.saturated[search][m] <==> m < k
    {
      NodeOfLowestFree(live, u, search, m);
    }
    SearchSkips(h, search, target, bit, k, end);
    ChildNotInside(live, search, k);
  }

  /** The search walks down the nodes of the lowest free page. */
  lemma {:induction false} SearchDescends(h: Heap, live: set<Block>, tail: set<Block>, u: nat, search: nat, target: nat, bit: nat, end: nat)
    requires WellFormed(h) && Shows(h, live, tail) && LowestFree(live, u) && u < h.pages
    requires target < search < Orders(h.pages) && end <= OrderBits(h.pages, search)
    requires bit <= Shr(u, search) < end
    requires forall k :: bit <= k < end ==> !Inside(live, search, k)
    ensures Search(h, search, target, bit, end)
            == FirstClean(h, target, GroupBegin(h.pages, target, u), GroupEnd(h.pages, target, u))
    decreases search
  {
    hide Room, Shows, LowestFree, OrderBits, Tracked, Inside;
    SearchDescendsOnce(h, live, tail, u, search, target, bit, end);
    var k := Shr(u, search);
    var b, e := 2 * k, ChildEnd(h.pages, search, k);
    if search - 1 == target {
      SearchAtTarget(h, target, b, e);
    } else {
      ShrStep(u, search - 1);
      PageCounted(h.pages, search - 1, u);
      SearchDescends(h, live, tail, u, search - 1, target, b, e);
    }
  }

  lemma TopOutside(h: Heap, live: set<Block>, tail: set<Block>, top: nat, k: nat)
    requires Means(h, live, tail) && top + 1 == Orders(h.pages)
    ensures !Inside(live, top, k)
  {
  }

  /** The largest block a 32-bit BIT() can express. */
  const MAX_REQUEST: nat := 0x8000_0000

  /** _pages_order, counting up from an order. */
  function PagesOrderFrom(pages: nat, order: nat): (r: nat)
    requires order <= 31
    ensures r <= 31
    decreases 31 - order
  {
    if order < 31 && Pow2(order) < pages then PagesOrderFrom(pages, order + 1) else order
  }

  function PagesOrder(pages: nat): (r: nat)
    ensures r <= 31
  {
    PagesOrderFrom(pages, 0)
  }

  /** The order found is the least one whose block holds the requested pages. */
  lemma PagesOrderLeast(pages: nat)
    requires pages <= MAX_REQUEST
    ensures Pow2(PagesOrder(pages)) >= pages
    ensures forall o :: 0 <= o < PagesOrder(pages) ==> Pow2(o) < pages
  {
    LargestBlock();
    PagesOrderFromLeast(pages, 0, 31);
  }

  lemma {:induction false} PagesOrderFromLeast(pages: nat, order: nat, last: nat)
    requires order <= last == 31 && pages <= Pow2(last)
    requires forall o :: 0 <= o < order ==> Pow2(o) < pages
    ensures Pow2(PagesOrderFrom(pages, order)) >= pages
    ensures forall o :: 0 <= o < PagesOrderFrom(pages, order) ==> Pow2(o) < pages
    decreases 31 - order
  {
    if order < 31 && Pow2(order) < pages {
      PagesOrderFromLeast(pages, order + 1, last);
    }
  }

  lemma LargestBlock()
    ensures Pow2(31) == MAX_REQUEST
  {
    assert Pow2(10) == 1024;
    assert Pow2(20) == 0x10_0000;
  }

  /** The search as _get_free_pages starts it. */
  function Find(h: Heap, target: nat): (r: nat)
    requires WellFormed(h)
    ensures r == WORD_T_MAX || (target < Orders(h.pages) && r < OrderBits(h.pages, target))
  {
    OrdersPositive(h.pages);
    var top := Orders(h.pages) - 1;
    Search(h, top, target, 0, OrderBits(h.pages, top))
  }

  /** Both pyramids after block (order, bit) is taken. */
  function Mark(h: Heap, order: nat, bit: nat): (r: Heap)
    requires WellFormed(h) && order < Orders(h.pages) && bit < OrderBits(h.pages, order)
    ensures WellFormed(r) && r.pages == h.pages
    ensures PathOk(h.saturated, order, bit) && r.saturated == SetWhileTwin(h.saturated, order, bit)
    ensures PathOk(h.dirty, order, bit) && r.dirty == SetPath(h.dirty, order, bit)
    ensures r.total == (h.total + Pow2(order)) % WORD_MODULUS
  {
    PathInShape(h.pages, h.saturated, order, bit);
    PathInShape(h.pages, h.dirty, order, bit);
    ShapeSame(h.pages, h.saturated, SetWhileTwin(h.saturated, order, bit));
    ShapeSame(h.pages, h.dirty, SetPath(h.dirty, order, bit));
    h.(saturated := SetWhileTwin(h.saturated, order, bit),
       dirty := SetPath(h.dirty, order, bit),
       total := (h.total + Pow2(order)) % WORD_MODULUS)
  }

  /** Both pyramids after block (order, bit) is released. */
  function Unmark(h: Heap, order: nat, bit: nat): (r: Heap)
    requires WellFormed(h) && order < Orders(h.pages) && bit < OrderBits(h.pages, order)
    ensures WellFormed(r) && r.pages == h.pages
    ensures PathOk(h.saturated, order, bit) && r.saturated == ClearPath(h.saturated, order, bit)
    ensures PathOk(h.dirty, order, bit) && r.dirty == ClearUntilTwin(h.dirty, order, bit)
    ensures r.total == (h.total - Pow2(order)) % WORD_MODULUS
  {
    PathInShape(h.pages, h.saturated, order, bit);
    PathInShape(h.pages, h.dirty, order, bit);
    ShapeSame(h.pages, h.saturated, ClearPath(h.saturated, order, bit));
    ShapeSame(h.pages, h.dirty, ClearUntilTwin(h.dirty, order, bit));
    h.(saturated := ClearPath(h.saturated, order, bit),
       dirty := ClearUntilTwin(h.dirty, order, bit),
       total := (h.total - Pow2(order)) % WORD_MODULUS)
  }

  /** _get_free_pages */
  function GetFreePages(h: Heap, pages: nat): (r: (Heap, nat))
    requires WellFormed(h) && pages <= MAX_REQUEST
    ensures WellFormed(r.0) && r.0.pages == h.pages
  {
    var order := PagesOrder(pages);
    var bit := Find(h, order);
    if bit == WORD_T_MAX then (h, WORD_T_MAX) else (Mark(h, order, bit), Shl(bit, order))
  }

  /** _determine_allocated_page_order: it reads the dirty pyramid only. */
  function AllocatedOrder(dirty: Pyramid, page: nat, order: nat): (r: nat)
    requires order <= |dirty|
    requires forall o :: 0 <= o < order ==> Shr(page, o) < |dirty[o]|
    ensures r <= order
  {
    if order == 0 then 0
    else if !dirty[order - 1][Shr(page, order - 1)] then order
    else AllocatedOrder(dirty, page, order - 1)
  }

  lemma PageInShape(n: nat, p: Pyramid, page: nat)
    requires Shape(n, p) && page < n
    ensures forall o :: 0 <= o < |p| ==> Shr(page, o) < |p[o]|
  {
    forall o | 0 <= o < |p|
      ensures Shr(page, o) < |p[o]|
    {
      PageCounted(n, o, page);
    }
  }

  /** The order that a free of this page finds. */
  function OrderOf(h: Heap, page: nat): (r: nat)
    requires WellFormed(h) && page < h.pages
    ensures r < Orders(h.pages) && Shr(page, r) < OrderBits(h.pages, r)
  {
    OrdersPositive(h.pages);
    PageInShape(h.pages, h.dirty, page);
    var r := AllocatedOrder(h.dirty, page, Orders(h.pages) - 1);
    PageCounted(h.pages, r, page);
    r
  }

  /** _free_pages2 */
  function FreePages(h: Heap, page: nat): (r: Heap)
    requires WellFormed(h) && (page == WORD_T_MAX || page < h.pages)
    ensures WellFormed(r) && r.pages == h.pages
  {
    if page == WORD_T_MAX then h else Unmark(h, OrderOf(h, page), Shr(page, OrderOf(h, page)))
  }
}
