/** Every run of allocations and matching frees from a fresh heap. */
module BuddyRuns {
  import opened Machine
  import opened PageSets
  import opened Shifts
  import opened BuddyTree
  import opened BuddyPaths
  import opened BuddyGeometry
  import opened BuddyHeap
  import opened BuddyTheorems

  /* ---- The fresh heap ---- */

  function FreshRow(n: nat, order: nat, mark: bool): (row: seq<bool>)
    ensures |row| == WORD_BITS * OrderWords(n, order)
    ensures forall m :: 0 <= m < |row| ==> (row[m] <==> mark && Partial(n, order) && m == Shr(n, order))
  {
    seq(WORD_BITS * OrderWords(n, order), m => mark && Partial(n, order) && m == Shr(n, order))
  }

  /** Zeroed tables; the dirty pyramid marks the partly populated block of each order. */
  function FreshHeap(n: nat): (h: Heap)
    requires Tracked(n) && Room(n)
    ensures WellFormed(h) && h.pages == n && h.total == 0
  {
    Heap(n, seq(Orders(n), o requires 0 <= o => FreshRow(n, o, true)), seq(Orders(n), o requires 0 <= o => FreshRow(n, o, false)), 0)
  }

  /** A power-of-two heap always has room for its tables. */
  function FreshPow2(n: nat): (h: Heap)
    requires Tracked(n) && IsPow2(n)
    ensures WellFormed(h) && h.pages == n
  {
    Pow2HasRoom(n);
    FreshHeap(n)
  }

  lemma FreshMeans(n: nat)
    requires Tracked(n) && Room(n)
    ensures Means(FreshHeap(n), {}, Tail(n)) && Accounts(FreshHeap(n), {})
  {
    var h := FreshHeap(n);
    forall q, m | 0 <= q < |h.dirty| && 0 <= m < |h.dirty[q]|
      ensures h.dirty[q][m] <==> DirtyNode({} + Tail(n), q, m)
    {
      WholeBelowTail(n, q);
      var t := Block(TailOrder(n), Shr(n, TailOrder(n)));
      if q >= TailOrder(n) {
        TailAncestor(n, q);
        assert t in {} + Tail(n);
      }
    }
    forall q, m | 0 <= q < |h.saturated| && 0 <= m < |h.saturated[q]|
      ensures h.saturated[q][m] <==> SaturatedNode({}, q, m)
    {
      NothingSaturated(q, m);
    }
  }

  lemma NothingSaturated(q: nat, m: nat)
    ensures !SaturatedNode({}, q, m)
  {
    if SaturatedNode({}, q, m) {
      SaturatedIsDirty({}, q, m);
      assert false;
    }
  }

  /* ---- Runs ---- */

  /** A client's request: pages to allocate, or the start page of a block to free. */
  datatype Op = Alloc(pages: nat) | Free(page: nat)

  /** Requests stay within 32-bit blocks, frees give back a block that is live. */
  predicate Matched(n: nat, live: set<Block>, op: Op) {
    match op
    case Alloc(pages) => pages <= MAX_REQUEST
    case Free(page) => page < n && exists b :: b in live && Start(b) == page
  }

  function Apply(h: Heap, live: set<Block>, op: Op): (r: (Heap, set<Block>))
    requires WellFormed(h) && Matched(h.pages, live, op)
    ensures WellFormed(r.0) && r.0.pages == h.pages
  {
    match op
    case Alloc(pages) =>
      var (h1, page) := GetFreePages(h, pages);
      (h1, if page == WORD_T_MAX then live else live + {Block(PagesOrder(pages), Shr(page, PagesOrder(pages)))})
    case Free(page) =>
      (FreePages(h, page), set b | b in live && Start(b) != page)
  }

  predicate Legal(h: Heap, live: set<Block>, ops: seq<Op>)
    requires WellFormed(h)
    decreases |ops|
  {
    if ops == [] then true
    else if Matched(h.pages, live, ops[0]) then
      var r := Apply(h, live, ops[0]);
      Legal(r.0, r.1, ops[1..])
    else false
  }

  function Run(h: Heap, live: set<Block>, ops: seq<Op>): (r: (Heap, set<Block>))
    requires WellFormed(h) && Legal(h, live, ops)
    ensures WellFormed(r.0) && r.0.pages == h.pages
    decreases |ops|
  {
    if ops == [] then (h, live)
    else
      var r := Apply(h, live, ops[0]);
      Run(r.0, r.1, ops[1..])
  }

  /** Two live blocks never start at one page. */
  lemma StartUnique(live: set<Block>, a: Block, b: Block)
    requires NoOverlap(live) && a in live && b in live && Start(a) == Start(b)
    ensures a == b
  {
    ShrShl(a.index, a.order);
    ShrShl(b.index, b.order);
    OverlapShared(a, b);
    assert Covers(a, Start(a)) && Covers(b, Start(a));
  }

  lemma FreedSet(live: set<Block>, b: Block)
    requires NoOverlap(live) && b in live
    ensures (set c | c in live && Start(c) != Start(b)) == live - {b}
  {
    forall c | c in live && Start(c) == Start(b)
      ensures c == b
    {
      StartUnique(live, c, b);
    }
  }

  lemma StepKeeps(h: Heap, live: set<Block>, tail: set<Block>, op: Op) returns (rest: set<Block>)
    requires Means(h, live, tail) && Accounts(h, live) && Matched(h.pages, live, op)
    ensures rest <= tail
    ensures var (h1, live1) := Apply(h, live, op); Means(h1, live1, rest) && Accounts(h1, live1)
  {
    match op
    case Alloc(pages) =>
      AllocationSound(h, live, tail, pages);
      rest := tail;
    case Free(page) =>
      var b :| b in live && Start(b) == page;
      rest := FreeSound(h, live, tail, b);
      FreedSet(live, b);
  }

  /** The invariant holds after every legal run, for every heap size whose tables have room. */
  lemma {:induction false} RunKeeps(h: Heap, live: set<Block>, tail: set<Block>, ops: seq<Op>) returns (rest: set<Block>)
    requires Means(h, live, tail) && Accounts(h, live) && Legal(h, live, ops)
    ensures rest <= tail
    ensures var (h1, live1) := Run(h, live, ops); Means(h1, live1, rest) && Accounts(h1, live1)
    decreases |ops|
  {
    if ops == [] {
      rest := tail;
    } else {
      rest := StepKeeps(h, live, tail, ops[0]);
      var (h1, live1) := Apply(h, live, ops[0]);
      rest := RunKeeps(h1, live1, rest, ops[1..]);
    }
  }

  /* ---- What the bits say ---- */

  ghost predicate AllCovered(live: set<Block>, q: nat, m: nat) {
    forall p: nat :: Shr(p, q) == m ==> Covered(live, p)
  }

  /** The bits of both pyramids, read against the live blocks. */
  ghost predicate BitsExact(h: Heap, live: set<Block>)
    requires |h.dirty| == |h.saturated|
    requires forall q :: 0 <= q < |h.dirty| ==> |h.dirty[q]| == |h.saturated[q]|
  {
    forall q, m :: 0 <= q < |h.dirty| && 0 <= m < |h.dirty[q]| ==>
      && (h.dirty[q][m] <==> exists b :: b in live && Within(b, q, m))
      && (!Inside(live, q, m) ==> (h.saturated[q][m] <==> AllCovered(live, q, m)))
      && (Inside(live, q, m) ==> !h.dirty[q][m] && !h.saturated[q][m])
  }

  /** Live blocks share no page. */
  ghost predicate PagesDisjoint(live: set<Block>) {
    forall a, b, p :: a in live && b in live && Covers(a, p) && Covers(b, p) ==> a == b
  }

  lemma SaturatedExact(live: set<Block>, q: nat, m: nat)
    requires !Inside(live, q, m)
    ensures SaturatedNode(live, q, m) <==> AllCovered(live, q, m)
  {
    if SaturatedNode(live, q, m) {
      forall p: nat | Shr(p, q) == m
        ensures Covered(live, p)
      {
        SaturatedCovered(live, q, m, p);
      }
    }
    if AllCovered(live, q, m) {
      CoveredSaturated(live, q, m);
    }
  }

  lemma NoOverlapDisjoint(live: set<Block>)
    requires NoOverlap(live)
    ensures PagesDisjoint(live)
  {
    forall a, b, p | a in live && b in live && Covers(a, p) && Covers(b, p)
      ensures a == b
    {
      OverlapShared(a, b);
    }
  }

  lemma MeansExact(h: Heap, live: set<Block>)
    requires WellFormed(h) && NoOverlap(live) && Shows(h, live, {})
    ensures BitsExact(h, live)
  {
    assert live + {} == live;
    forall q, m | 0 <= q < |h.dirty| && 0 <= m < |h.dirty[q]|
      ensures && (h.dirty[q][m] <==> exists b :: b in live && Within(b, q, m))
              && (!Inside(live, q, m) ==> (h.saturated[q][m] <==> AllCovered(live, q, m)))
              && (Inside(live, q, m) ==> !h.dirty[q][m] && !h.saturated[q][m])
    {
      if Inside(live, q, m) {
        InsideClear(live, q, m);
      } else {
        SaturatedExact(live, q, m);
      }
    }
  }

  /* ---- Accounting ---- */

  /** The pages of a block, as many as its size. */
  lemma BlockPages(b: Block) returns (own: set<nat>)
    ensures forall p: nat :: p in own <==> Covers(b, p)
    ensures |own| == Pow2(b.order)
  {
    ShlLess(b.index, b.order);
    own := Range(Start(b), Pow2(b.order));
    RangeSize(Start(b), Pow2(b.order));
    forall p: nat
      ensures p in own <==> Covers(b, p)
    {
      ShrInterval(p, b.order, b.index);
    }
  }

  lemma PagesInside(n: nat, b: Block, own: set<nat>)
    requires Shl(b.index + 1, b.order) <= n && forall p: nat :: p in own <==> Covers(b, p)
    ensures own <= Range(0, n)
  {
    forall p | p in own
      ensures p < n
    {
      ShrInterval(p, b.order, b.index);
    }
  }

  /** Disjoint blocks inside the heap hold no more pages than the heap has. */
  lemma {:induction false} PagesFit(n: nat, live: set<Block>, pages: set<nat>)
    requires PagesDisjoint(live) && Contained(n, live)
    requires pages <= Range(0, n)
    requires forall b, p :: b in live && Covers(b, p) ==> p !in pages
    ensures |pages| + PagesOf(live) <= n
    decreases live
  {
    if live == {} {
      RangeSize(0, n);
      SubsetSize(pages, Range(0, n));
    } else {
      var b :| b in live;
      PagesOfRemove(live, b);
      var own := BlockPages(b);
      PagesInside(n, b, own);
      assert |pages + own| == |pages| + |own|;
      PagesFit(n, live - {b}, pages + own);
    }
  }

  /* ---- The main theorems ---- */

  /**
   * On every run of allocations and matching frees from a fresh power-of-two heap the bits are
   * exact, live blocks are aligned, pairwise disjoint and inside the heap, and the page counter is
   * the sum of their sizes.
   */
  lemma EveryRun(n: nat, ops: seq<Op>)
    requires Tracked(n) && IsPow2(n) && Legal(FreshPow2(n), {}, ops)
    ensures var (h, live) := Run(FreshPow2(n), {}, ops);
            && BitsExact(h, live)
            && PagesDisjoint(live) && Contained(n, live)
            && h.total == PagesOf(live) <= n
            && Means(h, live, {})
  {
    TailIffNotPow2(n);
    FreshMeans(n);
    var rest := RunKeeps(FreshPow2(n), {}, Tail(n), ops);
    var r := Run(FreshPow2(n), {}, ops);
    MeansSafe(r.0, r.1);
  }

  lemma MeansSafe(h: Heap, live: set<Block>)
    requires Means(h, live, {}) && Accounts(h, live) && IsPow2(h.pages)
    ensures BitsExact(h, live) && PagesDisjoint(live) && Contained(h.pages, live)
    ensures h.total == PagesOf(live) <= h.pages
  {
    TailIffNotPow2(h.pages);
    hide BitsExact, PagesDisjoint;
    MeansExact(h, live);
    NoOverlapDisjoint(live);
    TotalExact(h, live);
  }

  lemma TotalExact(h: Heap, live: set<Block>)
    requires PagesDisjoint(live) && Contained(h.pages, live) && Accounts(h, live)
    requires h.pages < WORD_MODULUS
    ensures h.total == PagesOf(live) <= h.pages
  {
    hide PagesDisjoint, Contained;
    NothingTaken(live);
    PagesFit(h.pages, live, {});
  }

  lemma NothingTaken(live: set<Block>)
    ensures forall b, p :: b in live && Covers(b, p) ==> p !in {}
  {
  }

  /** On a heap of any size whose tables have room, live blocks never share a page. */
  lemma EveryRunDisjoint(n: nat, ops: seq<Op>)
    requires Tracked(n) && Room(n) && Legal(FreshHeap(n), {}, ops)
    ensures PagesDisjoint(Run(FreshHeap(n), {}, ops).1)
  {
    FreshMeans(n);
    var rest := RunKeeps(FreshHeap(n), {}, Tail(n), ops);
    NoOverlapDisjoint(Run(FreshHeap(n), {}, ops).1);
  }

  /** Allocate, then free the returned page: both pyramids and the counter are restored bit for bit. */
  lemma AllocateFreeRestores(h: Heap, live: set<Block>, pages: nat)
    requires Means(h, live, {}) && Accounts(h, live) && pages <= MAX_REQUEST
    ensures var (r, page) := GetFreePages(h, pages);
            page != WORD_T_MAX ==>
              && page < r.pages && OrderOf(r, page) == PagesOrder(pages)
              && FreePages(r, page) == h
  {
    AllocationSound(h, live, {}, pages);
    var (r, page) := GetFreePages(h, pages);
    if page != WORD_T_MAX {
      var b := Block(PagesOrder(pages), Shr(page, PagesOrder(pages)));
      var rest := FreeSound(r, live + {b}, {}, b);
      assert live + {b} - {b} == live;
      var f := FreePages(r, page);
      ShowsUnique(f.dirty, h.dirty, live + {});
      ShowsUnique(f.saturated, h.saturated, live);
    }
  }
}
