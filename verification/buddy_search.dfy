/** Exactly what the search finds although it never backtracks, and where that falls short. */
module BuddySearch {
  import opened Shifts
  import opened BuddyTree
  import opened BuddyGeometry
  import opened BuddyHeap
  import opened BuddyTheorems
  import opened BuddyRuns

  /** No page of block (order, bit) is taken. */
  predicate BlockFree(live: set<Block>, order: nat, bit: nat) {
    !DirtyNode(live, order, bit) && !Inside(live, order, bit)
  }

  lemma BlockFreePages(live: set<Block>, order: nat, bit: nat)
    ensures BlockFree(live, order, bit) <==> forall p: nat :: Shr(p, order) == bit ==> !Covered(live, p)
  {
    var b := Block(order, bit);
    if BlockFree(live, order, bit) {
      forall p: nat | Shr(p, order) == bit
        ensures !Covered(live, p)
      {
        assert Covers(b, p);
        if Covered(live, p) {
          SharedPage(live, b, p);
          assert false;
        }
      }
    }
    if a :| a in live && Within(a, order, bit) {
      CoverWitness(a, b);
      assert Covered(live, Shl(a.index, a.order));
    }
    if a :| a in live && a.order > order && Within(b, a.order, a.index) {
      CoverWitness(b, a);
      assert Covered(live, Shl(bit, order));
    }
  }

  /** All of the search's work, once the lowest free page is known. */
  lemma FindExact(h: Heap, live: set<Block>, tail: set<Block>, u: nat, target: nat)
    requires Means(h, live, tail) && LowestFree(live, u) && u < h.pages && target < Orders(h.pages)
    ensures Find(h, target) == FirstClean(h, target, GroupBegin(h.pages, target, u), GroupEnd(h.pages, target, u))
  {
    hide Room, NoOverlap, Counted, Contained, Tail, OrderBits, Shows, LowestFree, Orders, Shr, Search, FirstClean;
    OrdersPositive(h.pages);
    var top := Orders(h.pages) - 1;
    var bits := OrderBits(h.pages, top);
    forall k | 0 <= k < bits
      ensures !Inside(live, top, k)
    {
      TopOutside(h, live, tail, top, k);
    }
    PageCounted(h.pages, top, u);
    if target == top {
      TopTwo(h.pages, target);
      SearchAtTarget(h, top, 0, bits);
    } else {
      SearchDescends(h, live, tail, u, top, target, 0, bits);
    }
  }

  /** No node of the examined group lies inside a live block. */
  lemma GroupOutside(h: Heap, live: set<Block>, tail: set<Block>, u: nat, target: nat, c: nat)
    requires Means(h, live, tail) && LowestFree(live, u) && target < Orders(h.pages)
    requires target + 1 < Orders(h.pages) ==> c / 2 == Shr(u, target + 1)
    ensures !Inside(live, target, c)
  {
    if target + 1 == Orders(h.pages) {
      TopOutside(h, live, tail, target, c);
    } else {
      var g := Block(target + 1, Shr(u, target + 1));
      ChildOutside(live, target + 1, g.index, c);
      assert Covers(g, u);
      forall b | b in live && b.order > target + 1
        ensures Within(g, b.order, b.index) ==> Covers(b, u)
      {
        ShrAdd(u, g.order, b.order - g.order);
      }
    }
  }

  /** The mark that is left on the end of the heap shows exactly on the counted blocks that reach past it. */
  lemma MarkShown(n: nat, tail: set<Block>, order: nat, c: nat)
    requires n > 0 && order < Orders(n) && c < OrderBits(n, order) && tail <= Tail(n)
    ensures DirtyNode(tail, order, c) <==> tail != {} && Shl(c + 1, order) > n
  {
    CountedContained(n, order, c);
    if order >= TailOrder(n) {
      TailAncestor(n, order);
    }
  }

  /** The dirty bit of the smallest block that runs past the end of the heap. */
  predicate Marked(h: Heap)
    requires WellFormed(h)
  {
    var f := TailOrder(h.pages);
    f < Orders(h.pages) && Shr(h.pages, f) < |h.dirty[f]| && h.dirty[f][Shr(h.pages, f)]
  }

  /** Block (order, c) is free and, when the end of the heap is marked, inside the heap. */
  predicate Servable(n: nat, live: set<Block>, marked: bool, order: nat, c: nat) {
    BlockFree(live, order, c) && (marked ==> Shl(c + 1, order) <= n)
  }

  /** On a free block past the end that one bit tells whether the mark remains. */
  lemma MarkedTells(h: Heap, live: set<Block>, tail: set<Block>, order: nat, c: nat)
    requires Means(h, live, tail) && order < Orders(h.pages) && c < OrderBits(h.pages, order)
    requires !DirtyNode(live, order, c) && Shl(c + 1, order) > h.pages
    ensures Marked(h) <==> tail != {}
  {
    var n := h.pages;
    var t := Block(TailOrder(n), Shr(n, TailOrder(n)));
    CountedContained(n, order, c);
    TailAncestor(n, order);
    WholeBelowTail(n, t.order);
    assert h.dirty[t.order][t.index] <==> DirtyNode(live + tail, t.order, t.index);
    forall b | b in live
      ensures !Within(b, t.order, t.index)
    {
      if Within(b, t.order, t.index) {
        WithinTrans(b, t, order, c);
      }
    }
    assert Within(t, t.order, t.index) && (tail != {} ==> t in tail);
  }

  /** A bit that is neither saturated nor dirty stands for a block that can be served. */
  lemma CleanServable(h: Heap, live: set<Block>, tail: set<Block>, target: nat, c: nat)
    requires Means(h, live, tail) && target < Orders(h.pages) && c < OrderBits(h.pages, target)
    requires !Inside(live, target, c)
    ensures !h.saturated[target][c] && !h.dirty[target][c] <==> Servable(h.pages, live, Marked(h), target, c)
  {
    MarkShown(h.pages, tail, target, c);
    if !DirtyNode(live, target, c) && Shl(c + 1, target) > h.pages {
      MarkedTells(h, live, tail, target, c);
    }
    if SaturatedNode(live, target, c) {
      SaturatedIsDirty(live, target, c);
    }
    assert DirtyNode(live + tail, target, c) <==> DirtyNode(live, target, c) || DirtyNode(tail, target, c);
  }

  /** What the first clean bit of the group is, read against the live blocks. */
  lemma {:induction false} FirstCleanMeans(h: Heap, live: set<Block>, tail: set<Block>, target: nat, bit: nat, end: nat)
    requires Means(h, live, tail) && target < Orders(h.pages) && end <= OrderBits(h.pages, target)
    requires forall c :: bit <= c < end ==> !Inside(live, target, c)
    ensures var r := FirstClean(h, target, bit, end);
            if r == WORD_T_MAX then forall c :: bit <= c < end ==> !Servable(h.pages, live, Marked(h), target, c)
            else
              && bit <= r < end && Servable(h.pages, live, Marked(h), target, r)
              && forall c :: bit <= c < r ==> !Servable(h.pages, live, Marked(h), target, c)
    decreases end - bit
  {
    hide Servable, OrderBits;
    BitsBound(h.pages, target);
    if bit < end {
      CleanServable(h, live, tail, target, bit);
      FirstCleanMeans(h, live, tail, target, bit + 1, end);
    }
  }

  /**
   * Any heap, any order: the search succeeds exactly when the group of two blocks that holds the lowest
   * free page (at the top order: the whole heap) contains a block that can be served, and then it takes
   * the lower such block.
   */
  lemma AllocationExact(h: Heap, live: set<Block>, tail: set<Block>, u: nat, target: nat)
    requires Means(h, live, tail) && LowestFree(live, u) && u < h.pages && target < Orders(h.pages)
    ensures var r := Find(h, target);
            var begin, end := GroupBegin(h.pages, target, u), GroupEnd(h.pages, target, u);
            if r == WORD_T_MAX then forall c :: begin <= c < end ==> !Servable(h.pages, live, Marked(h), target, c)
            else
              && begin <= r < end && Servable(h.pages, live, Marked(h), target, r)
              && forall c :: begin <= c < r ==> !Servable(h.pages, live, Marked(h), target, c)
  {
    hide LowestFree, Servable;
    var begin, end := GroupBegin(h.pages, target, u), GroupEnd(h.pages, target, u);
    FindExact(h, live, tail, u, target);
    TopTwo(h.pages, target);
    forall c | begin <= c < end
      ensures !Inside(live, target, c)
    {
      GroupOutside(h, live, tail, u, target, c);
    }
    FirstCleanMeans(h, live, tail, target, begin, end);
  }

  /* ---- The same, read against pages ---- */

  /** The heap counts block (order, c), none of its pages is taken, and it does not run past a marked end. */
  ghost predicate Available(n: nat, live: set<Block>, marked: bool, order: nat, c: nat) {
    && order < Orders(n) && c < OrderBits(n, order)
    && (forall p: nat :: Shr(p, order) == c ==> !Covered(live, p))
    && (marked ==> Shl(c + 1, order) <= n)
  }

  /** Block (order, c) and its twin share the lowest free page, or the order has no twins. */
  ghost predicate Examined(n: nat, live: set<Block>, order: nat, c: nat) {
    order + 1 == Orders(n) || exists u: nat :: u < n && LowestFree(live, u) && Shr(u, order + 1) == c / 2
  }

  lemma LowestUnique(live: set<Block>, u: nat, v: nat)
    requires LowestFree(live, u)
    ensures LowestFree(live, v) <==> v == u
  {
    assert v < u ==> Covered(live, v);
    assert LowestFree(live, v) && u < v ==> Covered(live, u);
  }

  lemma InGroup(n: nat, live: set<Block>, u: nat, order: nat, c: nat)
    requires Tracked(n) && LowestFree(live, u) && u < n && order < Orders(n) && c < OrderBits(n, order)
    ensures Examined(n, live, order, c) <==> GroupBegin(n, order, u) <= c < GroupEnd(n, order, u)
  {
    hide LowestFree, OrderBits;
    TopTwo(n, order);
    if v: nat :| v < n && LowestFree(live, v) && Shr(v, order + 1) == c / 2 {
      LowestUnique(live, u, v);
    }
  }

  lemma AvailableMeans(n: nat, live: set<Block>, marked: bool, order: nat, c: nat)
    ensures Available(n, live, marked, order, c)
            <==> order < Orders(n) && c < OrderBits(n, order) && Servable(n, live, marked, order, c)
  {
    hide BlockFree, Covered;
    BlockFreePages(live, order, c);
  }

  /** In a heap without a free page no block is available. */
  lemma NothingAvailable(n: nat, live: set<Block>, marked: bool, order: nat, c: nat)
    requires n > 0 && forall p :: 0 <= p < n ==> Covered(live, p)
    ensures !Available(n, live, marked, order, c)
  {
    if order < Orders(n) && c < OrderBits(n, order) {
      StartInHeap(n, order, c);
      ShrShl(c, order);
      assert Covered(live, Shl(c, order));
    }
  }

  /**
   * A request of any size on any heap: it fails exactly when the search examines no available block of the
   * least sufficient order, and otherwise takes the lowest one it examines.
   */
  lemma RequestExact(h: Heap, live: set<Block>, tail: set<Block>, pages: nat)
    requires Means(h, live, tail) && Accounts(h, live) && pages <= MAX_REQUEST
    ensures RequestAnswered(h, live, pages)
  {
    hide Available, Examined, Covered, LowestFree, Servable, Accounts;
    var n, order := h.pages, PagesOrder(pages);
    var u := FindLowest(live, n, 0);
    if u < n && order < Orders(n) {
      AllocationExact(h, live, tail, u, order);
      forall c: nat
        ensures Available(n, live, Marked(h), order, c) && Examined(n, live, order, c)
                <==> GroupBegin(n, order, u) <= c < GroupEnd(n, order, u) && Servable(n, live, Marked(h), order, c)
      {
        AvailableMeans(n, live, Marked(h), order, c);
        if c < OrderBits(n, order) {
          InGroup(n, live, u, order, c);
        }
      }
      var bit := Find(h, order);
      if bit != WORD_T_MAX {
        ShrShl(bit, order);
        PageIsNoError(n, order, bit);
      }
    } else {
      AllFails(h, live, tail, pages, u);
    }
  }

  lemma PageIsNoError(n: nat, order: nat, bit: nat)
    requires Tracked(n) && order < Orders(n) && bit < OrderBits(n, order)
    ensures Shl(bit, order) != WORD_T_MAX
  {
    StartInHeap(n, order, bit);
  }

  lemma AllFails(h: Heap, live: set<Block>, tail: set<Block>, pages: nat, u: nat)
    requires Means(h, live, tail) && Accounts(h, live) && pages <= MAX_REQUEST
    requires PagesOrder(pages) >= Orders(h.pages) || forall p :: 0 <= p < h.pages ==> Covered(live, p)
    ensures GetFreePages(h, pages).1 == WORD_T_MAX
    ensures forall c: nat :: !Available(h.pages, live, Marked(h), PagesOrder(pages), c)
  {
    hide Available, Covered;
    var n, order := h.pages, PagesOrder(pages);
    AllocationSound(h, live, tail, pages);
    forall c: nat
      ensures !Available(n, live, Marked(h), order, c)
    {
      if order < Orders(n) {
        NothingAvailable(n, live, Marked(h), order, c);
      } else {
        AvailableMeans(n, live, Marked(h), order, c);
      }
    }
    var page := GetFreePages(h, pages).1;
    assert page != WORD_T_MAX && order < Orders(n) ==> Covers(Block(order, Shr(page, order)), page);
  }

  /** A request returns the lowest available block that the search examines, and fails exactly when there is none. */
  ghost predicate RequestAnswered(h: Heap, live: set<Block>, pages: nat)
    requires WellFormed(h) && pages <= MAX_REQUEST
  {
    var n, order, page := h.pages, PagesOrder(pages), GetFreePages(h, pages).1;
    if page == WORD_T_MAX then
      forall c: nat :: Examined(n, live, order, c) ==> !Available(n, live, Marked(h), order, c)
    else
      var r := Shr(page, order);
      && page == Shl(r, order)
      && Examined(n, live, order, r) && Available(n, live, Marked(h), order, r)
      && forall c: nat :: c < r && Examined(n, live, order, c) ==> !Available(n, live, Marked(h), order, c)
  }

  /** After any run, for any heap whose tables have room. */
  lemma EveryRequest(n: nat, ops: seq<Op>, pages: nat)
    requires Tracked(n) && Room(n) && Legal(FreshHeap(n), {}, ops) && pages <= MAX_REQUEST
    ensures var (h, live) := Run(FreshHeap(n), {}, ops); RequestAnswered(h, live, pages)
  {
    FreshMeans(n);
    var tail := RunKeeps(FreshHeap(n), {}, Tail(n), ops);
    var (h, live) := Run(FreshHeap(n), {}, ops);
    RequestExact(h, live, tail, pages);
  }

  /** Where no mark remains, as always on a power-of-two heap, the free pages alone decide. */
  lemma UnmarkedAllocation(h: Heap, live: set<Block>, u: nat, target: nat)
    requires Means(h, live, {}) && LowestFree(live, u) && u < h.pages && target < Orders(h.pages)
    ensures var r := Find(h, target);
            var begin, end := GroupBegin(h.pages, target, u), GroupEnd(h.pages, target, u);
            if r == WORD_T_MAX then forall c :: begin <= c < end ==> !BlockFree(live, target, c)
            else begin <= r < end && BlockFree(live, target, r) && forall c :: begin <= c < r ==> !BlockFree(live, target, c)
  {
    hide LowestFree, BlockFree;
    AllocationExact(h, live, {}, u, target);
    forall c: nat | c < GroupEnd(h.pages, target, u)
      ensures Servable(h.pages, live, Marked(h), target, c) <==> BlockFree(live, target, c)
    {
      UnmarkedServable(h, live, target, c);
    }
  }

  lemma UnmarkedServable(h: Heap, live: set<Block>, order: nat, c: nat)
    requires Means(h, live, {}) && order < Orders(h.pages) && c < OrderBits(h.pages, order)
    ensures Servable(h.pages, live, Marked(h), order, c) <==> BlockFree(live, order, c)
  {
    if BlockFree(live, order, c) && Shl(c + 1, order) > h.pages {
      MarkedTells(h, live, {}, order, c);
    }
  }

  /** The top order never counts more than two blocks. */
  lemma TopTwo(n: nat, target: nat)
    requires Tracked(n)
    ensures target + 1 == Orders(n) ==> 1 <= OrderBits(n, target) <= 2
  {
    OrdersPositive(n);
  }

  /** Page u is free and every page below it is taken, or no page of the heap is free. */
  lemma {:induction false} FindLowest(live: set<Block>, n: nat, from: nat) returns (u: nat)
    requires from <= n && forall p :: 0 <= p < from ==> Covered(live, p)
    ensures u <= n && forall p :: 0 <= p < u ==> Covered(live, p)
    ensures u < n ==> LowestFree(live, u)
    decreases n - from
  {
    if from < n && Covered(live, from) {
      u := FindLowest(live, n, from + 1);
    } else {
      u := from;
    }
  }

  /** The first bit of a group of pages that is neither saturated nor dirty is the free page itself. */
  lemma SingleInGroup(h: Heap, live: set<Block>, tail: set<Block>, u: nat)
    requires Means(h, live, tail) && LowestFree(live, u) && u < h.pages
    ensures FirstClean(h, 0, GroupBegin(h.pages, 0, u), GroupEnd(h.pages, 0, u)) == u
  {
    OrdersPositive(h.pages);
    var begin, end := GroupBegin(h.pages, 0, u), GroupEnd(h.pages, 0, u);
    TopTwo(h.pages, 0);
    ShrStep(u, 0);
    PageCounted(h.pages, 0, u);
    if begin < u {
      GroupOutside(h, live, tail, u, 0, begin);
      NodeOfLowestFree(live, u, 0, begin);
    }
    GroupOutside(h, live, tail, u, 0, u);
    NodeOfLowestFree(live, u, 0, u);
    CoveredPage(live, u);
    forall b | b in live + tail && b.order == 0
      ensures b.index != u
    {
      assert b == Block(0, b.index);
    }
  }

  /**
   * One page, any heap whose tables have room, whatever larger blocks are live: the lowest free page
   * is returned, and the allocation fails exactly when every page is taken.
   */
  lemma SinglePageLowest(h: Heap, live: set<Block>, tail: set<Block>)
    requires Means(h, live, tail) && Accounts(h, live)
    ensures var page := GetFreePages(h, 1).1;
            if page == WORD_T_MAX then forall p :: 0 <= p < h.pages ==> Covered(live, p)
            else page < h.pages && LowestFree(live, page)
  {
    OrdersPositive(h.pages);
    assert PagesOrderFrom(1, 0) == 0;
    AllocationSound(h, live, tail, 1);
    var u := FindLowest(live, h.pages, 0);
    if u < h.pages {
      FindExact(h, live, tail, u, 0);
      SingleInGroup(h, live, tail, u);
    } else {
      assert forall p: nat :: Covers(Block(0, Shr(p, 0)), p);
    }
  }
}
