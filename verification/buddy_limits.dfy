/** Runs that show the two limits of the buddy allocator, and exactly which heaps they affect. */
module BuddyLimits {
  import opened Shifts
  import opened BuddyTree
  import opened BuddyPaths
  import opened BuddyGeometry
  import opened BuddyHeap
  import opened BuddyTheorems
  import opened BuddyRuns
  import opened BuddySearch

  /* ---- Building runs ---- */

  /** Some legal run from the fresh heap ends in this state. */
  ghost predicate Reachable(n: nat, h: Heap, live: set<Block>)
    requires Tracked(n) && Room(n)
  {
    exists ops :: Legal(FreshHeap(n), {}, ops) && Run(FreshHeap(n), {}, ops) == (h, live)
  }

  /** A reachable state, with everything known about it. */
  ghost predicate Reached(n: nat, h: Heap, live: set<Block>, tail: set<Block>) {
    && Tracked(n) && Room(n)
    && Reachable(n, h, live)
    && h.pages == n
    && Means(h, live, tail) && Accounts(h, live)
  }

  lemma {:induction false} RunSnoc(h: Heap, live: set<Block>, ops: seq<Op>, op: Op)
    requires WellFormed(h) && Legal(h, live, ops)
    requires Matched(h.pages, Run(h, live, ops).1, op)
    ensures Legal(h, live, ops + [op])
    ensures Run(h, live, ops + [op]) == Apply(Run(h, live, ops).0, Run(h, live, ops).1, op)
    decreases |ops|
  {
    var all := ops + [op];
    if ops == [] {
      assert all == [op] && all[1..] == [];
    } else {
      var r := Apply(h, live, ops[0]);
      assert all[0] == ops[0] && all[1..] == ops[1..] + [op];
      RunSnoc(r.0, r.1, ops[1..], op);
    }
  }

  lemma ReachableStep(n: nat, h: Heap, live: set<Block>, op: Op)
    requires Tracked(n) && Room(n) && Reachable(n, h, live) && WellFormed(h) && h.pages == n && Matched(n, live, op)
    ensures Reachable(n, Apply(h, live, op).0, Apply(h, live, op).1)
  {
    var ops :| Legal(FreshHeap(n), {}, ops) && Run(FreshHeap(n), {}, ops) == (h, live);
    RunSnoc(FreshHeap(n), {}, ops, op);
  }

  lemma Extend(n: nat, h: Heap, live: set<Block>, tail: set<Block>, op: Op)
    returns (h1: Heap, live1: set<Block>, rest: set<Block>)
    requires Reached(n, h, live, tail) && Matched(n, live, op)
    ensures (h1, live1) == Apply(h, live, op) && rest <= tail
    ensures Reached(n, h1, live1, rest)
  {
    ReachableStep(n, h, live, op);
    rest := StepKeeps(h, live, tail, op);
    h1, live1 := Apply(h, live, op).0, Apply(h, live, op).1;
  }

  /** One more single page. */
  lemma TakePage(n: nat, h: Heap, live: set<Block>, tail: set<Block>, u: nat)
    returns (h1: Heap, rest: set<Block>)
    requires Reached(n, h, live, tail) && LowestFree(live, u) && u < n
    ensures Reached(n, h1, live + {Block(0, u)}, rest)
  {
    SinglePageLowest(h, live, tail);
    assert PagesOrderFrom(1, 0) == 0;
    var live1;
    h1, live1, rest := Extend(n, h, live, tail, Alloc(1));
    LowestUnique(live, u, GetFreePages(h, 1).1);
    assert Shr(u, 0) == u;
  }

  /** One live block given back. */
  lemma GiveBack(n: nat, h: Heap, live: set<Block>, tail: set<Block>, b: Block)
    returns (h1: Heap, rest: set<Block>)
    requires Reached(n, h, live, tail) && b in live
    ensures Reached(n, h1, live - {b}, rest) && rest <= tail
    ensures (live - {b}) + rest == ClearSet(live + tail, b.order, b.index, Orders(n))
  {
    var left := FreeSound(h, live, tail, b);
    ReachableStep(n, h, live, Free(Start(b)));
    FreedSet(live, b);
    h1, rest := FreePages(h, Start(b)), left;
  }

  lemma Begin(n: nat)
    requires Tracked(n) && Room(n)
    ensures Reached(n, FreshHeap(n), {}, Tail(n))
  {
    FreshMeans(n);
    assert Legal(FreshHeap(n), {}, []) && Run(FreshHeap(n), {}, []) == (FreshHeap(n), {});
  }

  /* ---- Larger blocks: the search can miss a free one ---- */

  /** Pages 0 and 2 of eight are taken; two pages are refused although pages 4 and 5 are free. */
  lemma SearchIncomplete() returns (h: Heap, live: set<Block>)
    ensures Tracked(8) && Room(8) && Reachable(8, h, live) && WellFormed(h)
    ensures GetFreePages(h, 2).1 == WORD_T_MAX && BlockFree(live, 1, 2)
  {
    var tail;
    h, tail := ThreePages();
    FirstPages();
    var b := Block(0, 1);
    h, tail := GiveBack(8, h, Singles(0, 3), tail, b);
    live := Singles(0, 3) - {b};
    EightPages();
    MissesPair(h, live);
  }

  lemma ThreePages() returns (h: Heap, tail: set<Block>)
    ensures Reached(8, h, Singles(0, 3), tail)
  {
    EightPages();
    Begin(8);
    FirstPages();
    h, tail := FreshHeap(8), Tail(8);
    h, tail := TakePage(8, h, Singles(0, 0), tail, 0);
    h, tail := TakePage(8, h, Singles(0, 1), tail, 1);
    h, tail := TakePage(8, h, Singles(0, 2), tail, 2);
  }

  lemma FirstPages()
    ensures Singles(0, 0) == {}
    ensures Singles(0, 0) + {Block(0, 0)} == Singles(0, 1) && LowestFree(Singles(0, 0), 0)
    ensures Singles(0, 1) + {Block(0, 1)} == Singles(0, 2) && LowestFree(Singles(0, 1), 1)
    ensures Singles(0, 2) + {Block(0, 2)} == Singles(0, 3) && LowestFree(Singles(0, 2), 2)
  {
    CoveredSingles(Singles(0, 0), 0);
    CoveredSingles(Singles(0, 1), 1);
    CoveredSingles(Singles(0, 2), 2);
  }

  lemma EightPages()
    ensures Tracked(8) && IsPow2(8) && Room(8) && Tail(8) == {} && Orders(8) == 4
  {
    assert Pow2(3) == 8;
    PowersOfTwo(8);
    Pow2HasRoom(8);
    TailIffNotPow2(8);
    assert Orders(8) == 4 by {
      assert Orders(1) == 1 && Orders(2) == 2 && Orders(4) == 3;
    }
  }

  /** With single-page blocks only, a page is covered exactly when its own block is live. */
  lemma CoveredSingles(live: set<Block>, u: nat)
    requires forall b :: b in live ==> b.order == 0
    requires forall p :: 0 <= p < u ==> Block(0, p) in live
    requires Block(0, u) !in live
    ensures LowestFree(live, u)
  {
    forall p | 0 <= p < u
      ensures Covered(live, p)
    {
      assert Covers(Block(0, p), p);
    }
    forall b | b in live
      ensures !Covers(b, u)
    {
      assert b == Block(0, b.index);
    }
  }

  /** Both pairs of the group of page 1 hold a taken page, the next pair holds none. */
  lemma PairsDirty(live: set<Block>)
    requires live == Singles(0, 3) - {Block(0, 1)}
    ensures LowestFree(live, 1) && DirtyNode(live, 1, 0) && DirtyNode(live, 1, 1) && BlockFree(live, 1, 2)
  {
    CoveredSingles(live, 1);
    assert Shr(0, 1) == 0 && Shr(2, 1) == 1;
    assert Within(Block(0, 0), 1, 0) && Block(0, 0) in live;
    assert Within(Block(0, 2), 1, 1) && Block(0, 2) in live;
    forall b | b in live
      ensures b == Block(0, 0) || b == Block(0, 2)
    {
      assert b == Block(0, b.index);
    }
  }

  lemma MissesPair(h: Heap, live: set<Block>)
    requires h.pages == 8 && Orders(8) == 4 && live == Singles(0, 3) - {Block(0, 1)}
    requires Means(h, live, {})
    ensures GetFreePages(h, 2).1 == WORD_T_MAX && BlockFree(live, 1, 2)
  {
    PairsDirty(live);
    assert Pow2(1) == 2 && Pow2(0) == 1;
    assert PagesOrderFrom(2, 0) == PagesOrderFrom(2, 1) == 1;
    UnmarkedAllocation(h, live, 1, 1);
    assert GroupBegin(8, 1, 1) == 0 by {
      assert Shr(1, 2) == 0;
    }
  }

  /* ---- Heaps that are no power of two ---- */

  function Singles(lo: nat, hi: nat): (r: set<Block>)
    ensures forall b :: b in r <==> b.order == 0 && lo <= b.index < hi
    decreases hi - lo
  {
    if lo < hi then {Block(0, lo)} + Singles(lo + 1, hi) else {}
  }

  /** The lower half of the top order is one block, pages lo..hi-1 above it are single pages. */
  function HalfAnd(k: nat, lo: nat, hi: nat): set<Block>
    decreases hi - lo
  {
    if lo < hi then {Block(0, lo)} + HalfAnd(k, lo + 1, hi) else {Block(k, 0)}
  }

  lemma {:induction false} HalfMember(k: nat, lo: nat, hi: nat)
    ensures forall b :: b in HalfAnd(k, lo, hi) <==> b == Block(k, 0) || (b.order == 0 && lo <= b.index < hi)
    decreases hi - lo
  {
    if lo < hi {
      HalfMember(k, lo + 1, hi);
    }
  }

  lemma HalfCovers(k: nat, lo: nat, hi: nat, p: nat)
    ensures Covered(HalfAnd(k, lo, hi), p) <==> p < Pow2(k) || lo <= p < hi
  {
    var live := HalfAnd(k, lo, hi);
    HalfMember(k, lo, hi);
    ShlPow(0, k);
    ShlPow(1, k);
    ShrInterval(p, k, 0);
    if p < Pow2(k) {
      assert Covers(Block(k, 0), p);
    }
    if lo <= p < hi {
      assert Covers(Block(0, p), p);
    }
    if b :| b in live && Covers(b, p) {
      assert b == Block(k, 0) || b == Block(0, p);
    }
  }

  /** The first request takes the lower half of the top order. */
  lemma TakeHalf(n: nat) returns (h: Heap, tail: set<Block>)
    requires Tracked(n) && Room(n)
    ensures Orders(n) > 0 && Pow2(Orders(n) - 1) <= n
    ensures Reached(n, h, HalfAnd(Orders(n) - 1, Pow2(Orders(n) - 1), Pow2(Orders(n) - 1)), tail)
  {
    OrdersPositive(n);
    TopSpan(n);
    Begin(n);
    var k := Orders(n) - 1;
    var h0 := FreshHeap(n);
    OrderOfPow2(k);
    FindHalf(h0, Tail(n), {}, 0, k);
    ShlPow(0, k);
    ShrShl(0, k);
    var live;
    h, live, tail := Extend(n, h0, {}, Tail(n), Alloc(Pow2(k)));
    assert live == HalfAnd(k, Pow2(k), Pow2(k));
  }

  lemma OrderOfPow2(k: nat)
    requires k <= 31
    ensures Pow2(k) <= MAX_REQUEST && PagesOrder(Pow2(k)) == k
  {
    LargestBlock();
    Pow2Mono(k, 31);
    PagesOrderLeast(Pow2(k));
    var o := PagesOrder(Pow2(k));
    if o < k {
      Pow2Less(o, k);
    }
  }

  lemma Pow2Less(a: nat, b: nat)
    requires a < b
    ensures Pow2(a) < Pow2(b)
  {
    Pow2Mono(a, b - 1);
  }

  /** A request for the top order takes its half c when the lower ones are saturated and c is clean. */
  lemma FindHalf(h: Heap, tail: set<Block>, live: set<Block>, c: nat, k: nat)
    requires Means(h, live, tail) && k + 1 == Orders(h.pages)
    requires (c == 0 && live == {}) || (c == 1 && live == {Block(k, 0)} && tail == {} && OrderBits(h.pages, k) == 2)
    ensures Find(h, k) == c
  {
    OrdersPositive(h.pages);
    var u := Shl(c, k);
    ShrShl(c, k);
    ShrInterval(u, k, c);
    TopTwo(h.pages, k);
    SearchAtTarget(h, k, 0, OrderBits(h.pages, k));
    forall t | t in tail
      ensures !Within(t, k, 0)
    {
      ShrAdd(h.pages, t.order, k - t.order);
    }
    if c == 1 {
      assert Within(Block(k, 0), k, 0);
      assert SaturatedNode(live, k, 0);
      if SaturatedNode(live, k, 1) {
        SaturatedIsDirty(live, k, 1);
      }
      assert !DirtyNode(live + tail, k, 1);
    } else {
      NothingSaturated(k, 0);
      assert !DirtyNode(live + tail, k, 0);
    }
  }

  lemma HalfLowest(k: nat, i: nat)
    requires Pow2(k) <= i
    ensures LowestFree(HalfAnd(k, Pow2(k), i), i)
    ensures HalfAnd(k, Pow2(k), i) + {Block(0, i)} == HalfAnd(k, Pow2(k), i + 1)
  {
    HalfMember(k, Pow2(k), i);
    HalfMember(k, Pow2(k), i + 1);
    forall p | 0 <= p <= i
      ensures Covered(HalfAnd(k, Pow2(k), i), p) <==> p < i
    {
      HalfCovers(k, Pow2(k), i, p);
    }
  }

  lemma HalfDrop(k: nat, i: nat, n: nat)
    requires k > 0 && i < n
    ensures Block(0, i) in HalfAnd(k, i, n)
    ensures HalfAnd(k, i, n) - {Block(0, i)} == HalfAnd(k, i + 1, n)
    ensures i == n - 1 ==> HalfAnd(k, i, n) - {Block(0, i)} == {Block(k, 0)}
  {
    HalfMember(k, i, n);
    HalfMember(k, i + 1, n);
  }

  lemma TakeNext(n: nat, h: Heap, tail: set<Block>, k: nat, i: nat) returns (h1: Heap, tail1: set<Block>)
    requires Pow2(k) <= i < n && Reached(n, h, HalfAnd(k, Pow2(k), i), tail)
    ensures Reached(n, h1, HalfAnd(k, Pow2(k), i + 1), tail1)
  {
    HalfLowest(k, i);
    h1, tail1 := TakePage(n, h, HalfAnd(k, Pow2(k), i), tail, i);
  }

  lemma GiveNext(n: nat, h: Heap, tail: set<Block>, k: nat, i: nat) returns (h1: Heap, tail1: set<Block>)
    requires i < n && k > 0 && Reached(n, h, HalfAnd(k, i, n), tail)
    ensures Reached(n, h1, HalfAnd(k, i + 1, n), tail1)
  {
    HalfDrop(k, i, n);
    h1, tail1 := GiveBack(n, h, HalfAnd(k, i, n), tail, Block(0, i));
  }

  /** Then every page above it, one by one. */
  lemma {:induction false} TakeRest(n: nat, h: Heap, tail: set<Block>, k: nat, i: nat)
    returns (h1: Heap, tail1: set<Block>)
    requires Pow2(k) <= i <= n && Reached(n, h, HalfAnd(k, Pow2(k), i), tail)
    ensures Reached(n, h1, HalfAnd(k, Pow2(k), n), tail1)
    decreases n - i
  {
    hide Reached;
    if i == n {
      h1, tail1 := h, tail;
    } else {
      h1, tail1 := TakeNext(n, h, tail, k, i);
      h1, tail1 := TakeRest(n, h1, tail1, k, i + 1);
    }
  }

  /** Then all of those but the last are given back. */
  lemma {:induction false} GiveRest(n: nat, h: Heap, tail: set<Block>, k: nat, i: nat)
    returns (h1: Heap, tail1: set<Block>)
    requires i < n && k > 0 && Reached(n, h, HalfAnd(k, i, n), tail)
    ensures Reached(n, h1, HalfAnd(k, n - 1, n), tail1)
    decreases n - i
  {
    hide Reached;
    if i == n - 1 {
      h1, tail1 := h, tail;
    } else {
      h1, tail1 := GiveNext(n, h, tail, k, i);
      h1, tail1 := GiveRest(n, h1, tail1, k, i + 1);
    }
  }

  /** Freeing the last page clears the marks on the tail all the way up. */
  lemma {:induction false} ClearsTail(n: nat, x: set<Block>, o: nat)
    requires Tracked(n) && !IsPow2(n) && o < Orders(n)
    requires var half := Block(Orders(n) - 1, 0);
             half in x && x <= {half, Block(o, Shr(n - 1, o))} + Tail(n)
    requires o > TailOrder(n) ==> x !! Tail(n)
    ensures ClearSet(x, o, Shr(n - 1, o), Orders(n)) == {Block(Orders(n) - 1, 0)}
    decreases Orders(n) - o
  {
    hide IsPow2, Tracked, OrderBits;
    var k := Orders(n) - 1;
    var m := Shr(n - 1, o);
    var rest := x - {Block(o, m)};
    TailIffNotPow2(n);
    LastInTail(n, o);
    ShrStep(n - 1, o);
    if o == k {
      assert Within(Block(k, 0), k, 0);
    } else {
      forall b | b in rest
        ensures b.order > o
      {
        assert b in x;
      }
      assert !DirtyNode(rest, o, Twin(m));
      ClearsTail(n, rest, o + 1);
    }
  }

  /** From the tail order on, the last page's node is the partly populated one. */
  lemma LastInTail(n: nat, o: nat)
    requires Tracked(n) && !IsPow2(n)
    ensures o >= TailOrder(n) ==> Shr(n - 1, o) == Shr(n, o)
    ensures o == Orders(n) - 1 ==> Shr(n - 1, o) == 1
    ensures TailOrder(n) < Orders(n)
  {
    TailIffNotPow2(n);
    OrdersPositive(n);
    WholeBelowTail(n, o);
    OrderBitsLast(n, o);
  }

  /** After the last page is freed only the lower half is live and no mark is left. */
  lemma MarkErased(n: nat) returns (h: Heap)
    requires Tracked(n) && Room(n) && !IsPow2(n)
    ensures Orders(n) > 0 && Reached(n, h, {Block(Orders(n) - 1, 0)}, {})
  {
    hide Reached;
    LastInTail(n, 0);
    var tail;
    h, tail := TakeHalf(n);
    var k := Orders(n) - 1;
    h, tail := TakeRest(n, h, tail, k, Pow2(k));
    NotFull(n, k);
    h, tail := GiveRest(n, h, tail, k, Pow2(k));
    HalfDrop(k, n - 1, n);
    h, tail := LastBack(n, h, HalfAnd(k, n - 1, n), tail, k);
  }

  lemma NotFull(n: nat, k: nat)
    requires Tracked(n) && !IsPow2(n) && k + 1 == Orders(n)
    ensures Pow2(k) < n && k > 0
  {
    TopSpan(n);
    assert Pow2(0) == 1;
  }

  lemma LastBack(n: nat, h: Heap, live: set<Block>, tail: set<Block>, k: nat)
    returns (h1: Heap, rest: set<Block>)
    requires Tracked(n) && !IsPow2(n) && k + 1 == Orders(n) && k > 0
    requires Block(0, n - 1) in live && live - {Block(0, n - 1)} == {Block(k, 0)}
    requires Reached(n, h, live, tail)
    ensures rest == {} && Reached(n, h1, {Block(k, 0)}, rest)
  {
    var last := Block(0, n - 1);
    h1, rest := GiveBack(n, h, live, tail, last);
    assert Shr(n - 1, 0) == n - 1;
    assert live == {Block(k, 0), last};
    ClearsTail(n, live + tail, 0);
    TailNotHalf(n, rest, k);
  }

  lemma TailNotHalf(n: nat, rest: set<Block>, k: nat)
    requires Tracked(n) && rest <= Tail(n) && k + 1 == Orders(n)
    requires {Block(k, 0)} + rest == {Block(k, 0)}
    ensures rest == {}
  {
    OrdersPositive(n);
    assert Block(k, 0) !in Tail(n);
    assert rest == ({Block(k, 0)} + rest) - {Block(k, 0)};
  }

  /** A heap whose page count is no power of two has a run that hands out pages beyond its end. */
  lemma ContainmentFails(n: nat) returns (h: Heap, live: set<Block>)
    requires Tracked(n) && Room(n) && !IsPow2(n)
    ensures Reachable(n, h, live) && !Contained(n, live)
  {
    h := MarkErased(n);
    h, live := TakeUpper(n, h);
  }

  lemma TakeUpper(n: nat, h: Heap) returns (h1: Heap, live1: set<Block>)
    requires Tracked(n) && !IsPow2(n) && Orders(n) > 0
    requires Reached(n, h, {Block(Orders(n) - 1, 0)}, {})
    ensures Reachable(n, h1, live1) && !Contained(n, live1)
  {
    var k := Orders(n) - 1;
    TopPart(n, k);
    FindHalf(h, {}, {Block(k, 0)}, 1, k);
    OrderOfPow2(k);
    UpperTaken(h, {Block(k, 0)}, k);
    ReachableStep(n, h, {Block(k, 0)}, Alloc(Pow2(k)));
    h1, live1 := Apply(h, {Block(k, 0)}, Alloc(Pow2(k))).0, Apply(h, {Block(k, 0)}, Alloc(Pow2(k))).1;
  }

  lemma UpperTaken(h: Heap, live: set<Block>, k: nat)
    requires WellFormed(h) && Find(h, k) == 1 && Pow2(k) <= MAX_REQUEST && PagesOrder(Pow2(k)) == k
    requires Shl(2, k) > h.pages
    ensures !Contained(h.pages, Apply(h, live, Alloc(Pow2(k))).1)
  {
    StartInHeap(h.pages, k, 1);
    ShrShl(1, k);
    assert Block(k, 1) in Apply(h, live, Alloc(Pow2(k))).1;
  }

  lemma TopPart(n: nat, k: nat)
    requires Tracked(n) && !IsPow2(n) && k + 1 == Orders(n)
    ensures OrderBits(n, k) == 2 && k <= 20 && Shl(2, k) > n
  {
    OrdersPositive(n);
    LastInTail(n, k);
    OrderBitsLast(n, k);
    TopSpan(n);
    ShlPow(2, k);
  }

  /** Every run keeps all live blocks inside the heap exactly when the page count is a power of two. */
  lemma ContainmentIffPow2(n: nat)
    requires Tracked(n) && Room(n)
    ensures IsPow2(n) <==> forall h, live :: Reachable(n, h, live) ==> Contained(n, live)
  {
    if IsPow2(n) {
      forall h, live | Reachable(n, h, live)
        ensures Contained(n, live)
      {
        var ops :| Legal(FreshHeap(n), {}, ops) && Run(FreshHeap(n), {}, ops) == (h, live);
        EveryRun(n, ops);
      }
    } else {
      var h, live := ContainmentFails(n);
    }
  }
}
