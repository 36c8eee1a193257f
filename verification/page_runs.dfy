/** Every run of the older page allocator: allocations and matching frees after the set-up. */
module PageRuns {
  import opened Machine
  import opened PageSets
  import opened Shifts
  import opened BuddyPaths
  import opened BuddyGeometry
  import opened PageBitmaps

  /** A range handed out and not yet given back. */
  datatype Extent = Extent(block: nat, nb: nat)

  /** Take `nb` pages, or give back the i-th live range. */
  datatype Op = Alloc(nb: nat) | Free(i: nat)

  /** The pages in use: the allocator's own at the bottom, and all live ranges. */
  function UsedBy(reserved: nat, live: seq<Extent>): set<nat> {
    if live == [] then Range(0, reserved)
    else UsedBy(reserved, live[..|live| - 1]) + Range(live[|live| - 1].block, live[|live| - 1].nb)
  }

  function Holds(e: Extent, p: nat): bool {
    e.block <= p < e.block + e.nb
  }

  lemma {:induction false} UsedByMember(reserved: nat, live: seq<Extent>, p: nat)
    ensures p in UsedBy(reserved, live) <==> p < reserved || exists i :: 0 <= i < |live| && Holds(live[i], p)
  {
    if live != [] {
      var m := |live| - 1;
      UsedByMember(reserved, live[..m], p);
      assert forall i :: 0 <= i < m ==> live[..m][i] == live[i];
      assert Holds(live[m], p) <==> p in Range(live[m].block, live[m].nb);
    }
  }

  /** Live ranges share no page with each other or with the allocator's own pages. */
  ghost predicate ExtentsDisjoint(reserved: nat, live: seq<Extent>) {
    && (forall i, p: nat :: 0 <= i < |live| && Holds(live[i], p) ==> p >= reserved)
    && (forall i, j, p: nat :: 0 <= i < |live| && 0 <= j < |live| && Holds(live[i], p) && Holds(live[j], p) ==> i == j)
  }

  /** Live ranges start on a multiple of their power-of-two size and end inside the heap. */
  ghost predicate ExtentsAligned(n: nat, live: seq<Extent>) {
    forall i {:trigger live[i]} :: 0 <= i < |live| ==>
      && BuddyOrder(live[i].nb, 0) < NB_ORDERS
      && Aligned(live[i].block, live[i].nb, BuddyOrder(live[i].nb, 0))
      && live[i].block + live[i].nb <= n
  }

  ghost predicate Invariant(p: Pyramid, n: nat, reserved: nat, live: seq<Extent>) {
    && Sized(n, p)
    && Exact(p, UsedBy(reserved, live))
    && ExtentsDisjoint(reserved, live)
    && ExtentsAligned(n, live)
  }

  function Without(live: seq<Extent>, i: nat): (r: seq<Extent>)
    requires i < |live|
    ensures |r| == |live| - 1
    ensures forall j :: 0 <= j < |r| ==> r[j] == live[if j < i then j else j + 1]
  {
    live[..i] + live[i + 1..]
  }

  lemma FreedUsed(reserved: nat, live: seq<Extent>, i: nat)
    requires ExtentsDisjoint(reserved, live) && i < |live|
    ensures UsedBy(reserved, live) - Range(live[i].block, live[i].nb) == UsedBy(reserved, Without(live, i))
  {
    var rest := Without(live, i);
    forall p: nat
      ensures p in UsedBy(reserved, live) && !Holds(live[i], p) <==> p in UsedBy(reserved, rest)
    {
      UsedByMember(reserved, live, p);
      UsedByMember(reserved, rest, p);
      if j :| 0 <= j < |live| && Holds(live[j], p) && j != i {
        assert rest[if j < i then j else j - 1] == live[j];
      }
      if j :| 0 <= j < |rest| && Holds(rest[j], p) {
        assert Holds(live[if j < i then j else j + 1], p);
      }
    }
  }

  lemma WithoutKeeps(n: nat, reserved: nat, live: seq<Extent>, i: nat)
    requires ExtentsDisjoint(reserved, live) && ExtentsAligned(n, live) && i < |live|
    ensures ExtentsDisjoint(reserved, Without(live, i)) && ExtentsAligned(n, Without(live, i))
  {
    hide BuddyOrder, Aligned;
  }

  predicate Matched(live: seq<Extent>, op: Op) {
    op.Free? ==> op.i < |live|
  }

  function Apply(p: Pyramid, n: nat, live: seq<Extent>, op: Op): (r: (Pyramid, seq<Extent>))
    requires Sized(n, p) && Matched(live, op)
    ensures Sized(n, r.0)
  {
    match op
    case Alloc(nb) =>
      var (p1, block) := BuddyAllocate(p, n, nb);
      (p1, if block >= 0 then live + [Extent(block, nb)] else live)
    case Free(i) =>
      (BuddyFree(p, n, live[i].block, live[i].nb), Without(live, i))
  }

  lemma FreeKeeps(p: Pyramid, n: nat, reserved: nat, live: seq<Extent>, i: nat)
    requires Invariant(p, n, reserved, live) && i < |live|
    ensures Invariant(BuddyFree(p, n, live[i].block, live[i].nb), n, reserved, Without(live, i))
  {
    hide Exact, Sized, BuddyOrder, Aligned, Range;
    var e := live[i];
    BuddyFreeExact(p, n, UsedBy(reserved, live), e.block, e.nb, BuddyOrder(e.nb, 0));
    FreedUsed(reserved, live, i);
    WithoutKeeps(n, reserved, live, i);
  }

  /** A wholly free group holds no page of a live range. */
  lemma NewExtentDisjoint(reserved: nat, live: seq<Extent>, e: Extent, k: nat)
    requires ExtentsDisjoint(reserved, live)
    requires Aligned(e.block, e.nb, k) && GroupFree(UsedBy(reserved, live), k, Shr(e.block, k))
    ensures ExtentsDisjoint(reserved, live + [e])
  {
    forall p: nat | Holds(e, p)
      ensures p !in UsedBy(reserved, live)
    {
      ShlLess(Shr(e.block, k), k);
      ShrInterval(p, k, Shr(e.block, k));
    }
    forall p: nat | Holds(e, p)
      ensures p >= reserved && forall i :: 0 <= i < |live| ==> !Holds(live[i], p)
    {
      UsedByMember(reserved, live, p);
    }
    var all := live + [e];
    assert forall i :: 0 <= i < |live| ==> all[i] == live[i];
  }

  lemma AllocKeeps(p: Pyramid, n: nat, reserved: nat, live: seq<Extent>, nb: nat)
    requires Invariant(p, n, reserved, live)
    ensures var (p1, live1) := Apply(p, n, live, Alloc(nb)); Invariant(p1, n, reserved, live1)
  {
    hide Exact, Range, BuddyAllocate, UsedBy, BuddyOrder, Aligned, ExtentsDisjoint, ExtentsAligned, GroupFree, Sized, Shr, Shl;
    BuddyAllocateExact(p, n, UsedBy(reserved, live), nb);
    var (p1, block) := BuddyAllocate(p, n, nb);
    if block >= 0 {
      var e := Extent(block, nb);
      AlignedMore(n, live, e);
      NewExtentDisjoint(reserved, live, e, BuddyOrder(nb, 0));
      UsedByMore(reserved, live, e);
    }
  }

  lemma UsedByMore(reserved: nat, live: seq<Extent>, e: Extent)
    ensures UsedBy(reserved, live + [e]) == UsedBy(reserved, live) + Range(e.block, e.nb)
  {
    assert (live + [e])[..|live|] == live;
  }

  lemma AlignedMore(n: nat, live: seq<Extent>, e: Extent)
    requires ExtentsAligned(n, live) && BuddyOrder(e.nb, 0) < NB_ORDERS && e.nb <= Pow2(BuddyOrder(e.nb, 0))
    requires var k := BuddyOrder(e.nb, 0); Shl(Shr(e.block, k), k) == e.block && e.block + Pow2(k) <= n
    ensures ExtentsAligned(n, live + [e]) && Aligned(e.block, e.nb, BuddyOrder(e.nb, 0))
  {
    hide BuddyOrder, Shr, Shl, Pow2;
  }

  ghost predicate Legal(p: Pyramid, n: nat, live: seq<Extent>, ops: seq<Op>)
    requires Sized(n, p)
    decreases |ops|
  {
    if ops == [] then true
    else if Matched(live, ops[0]) then
      var r := Apply(p, n, live, ops[0]);
      Legal(r.0, n, r.1, ops[1..])
    else false
  }

  ghost function Run(p: Pyramid, n: nat, live: seq<Extent>, ops: seq<Op>): (r: (Pyramid, seq<Extent>))
    requires Sized(n, p) && Legal(p, n, live, ops)
    ensures Sized(n, r.0)
    decreases |ops|
  {
    if ops == [] then (p, live)
    else
      var r := Apply(p, n, live, ops[0]);
      Run(r.0, n, r.1, ops[1..])
  }

  lemma {:induction false} RunKeeps(p: Pyramid, n: nat, reserved: nat, live: seq<Extent>, ops: seq<Op>)
    requires Invariant(p, n, reserved, live) && Legal(p, n, live, ops)
    ensures var (p1, live1) := Run(p, n, live, ops); Invariant(p1, n, reserved, live1)
    decreases |ops|
  {
    if ops != [] {
      var r := Apply(p, n, live, ops[0]);
      match ops[0]
      case Alloc(nb) =>
        AllocKeeps(p, n, reserved, live, nb);
        RunKeeps(r.0, n, reserved, r.1, ops[1..]);
      case Free(i) =>
        FreeKeeps(p, n, reserved, live, i);
        RunKeeps(r.0, n, reserved, r.1, ops[1..]);
    }
  }

  /** Zeroed bitmaps. */
  function ZeroPyramid(n: nat): (p: Pyramid)
    requires Tracked(n)
    ensures RoomBelow(n) ==> Sized(n, p)
    ensures forall o, m :: 0 <= o < |p| && 0 <= m < |p[o]| ==> !p[o][m]
  {
    seq(Levels(n), o requires 0 <= o => seq(WORD_BITS * OrderWords(n, o), _ => false))
  }

  /** The bitmaps after the set-up: the allocator's own pages are used. */
  function SetUp(n: nat, reserved: nat): (p: Pyramid)
    requires Tracked(n)
    ensures RoomBelow(n) ==> Sized(n, p)
  {
    SetUsed(ZeroPyramid(n), 0, 0, reserved)
  }

  lemma SetUpInvariant(n: nat, reserved: nat)
    requires Tracked(n) && RoomBelow(n)
    ensures Invariant(SetUp(n, reserved), n, reserved, [])
  {
    ZeroSmooth(reserved, Levels(n));
    SetUsedExact(ZeroPyramid(n), {}, 0, reserved);
    assert {} + Range(0, reserved) == UsedBy(reserved, []);
  }

  /**
   * After any run of allocations and matching frees the bit of a group is set, at every order, exactly
   * when some page of the group is used; live ranges are aligned, disjoint and inside the heap.
   */
  lemma EveryRun(n: nat, reserved: nat, ops: seq<Op>)
    requires Tracked(n) && RoomBelow(n) && Legal(SetUp(n, reserved), n, [], ops)
    ensures var (p, live) := Run(SetUp(n, reserved), n, [], ops);
            && Exact(p, UsedBy(reserved, live))
            && ExtentsDisjoint(reserved, live) && ExtentsAligned(n, live)
  {
    SetUpInvariant(n, reserved);
    RunKeeps(SetUp(n, reserved), n, reserved, [], ops);
  }

  /* ---- Accounting ---- */

  /** Pages in live ranges. */
  function Held(live: seq<Extent>): nat {
    if live == [] then 0 else Held(live[..|live| - 1]) + live[|live| - 1].nb
  }

  /** The counter of allocated pages after a request; it is an unsigned word. */
  function Counted(total: nat, p: Pyramid, n: nat, live: seq<Extent>, op: Op): nat
    requires Sized(n, p) && Matched(live, op)
  {
    match op
    case Alloc(nb) => if BuddyAllocate(p, n, nb).1 >= 0 then (total + nb) % WORD_MODULUS else total
    case Free(i) => (total - live[i].nb) % WORD_MODULUS
  }

  ghost function RunTotal(total: nat, p: Pyramid, n: nat, live: seq<Extent>, ops: seq<Op>): nat
    requires Sized(n, p) && Legal(p, n, live, ops)
    decreases |ops|
  {
    if ops == [] then total
    else
      var r := Apply(p, n, live, ops[0]);
      RunTotal(Counted(total, p, n, live, ops[0]), r.0, n, r.1, ops[1..])
  }

  lemma {:induction false} HeldWithout(live: seq<Extent>, i: nat)
    requires i < |live|
    ensures Held(Without(live, i)) + live[i].nb == Held(live)
    decreases |live|
  {
    var m := |live| - 1;
    if i < m {
      HeldWithout(live[..m], i);
      assert Without(live, i)[..m - 1] == Without(live[..m], i);
    } else {
      assert Without(live, i) == live[..m];
    }
  }

  /** Disjoint ranges clear of the reserved pages: the pages in use are as many as both together. */
  lemma {:induction false} UsedBySize(reserved: nat, live: seq<Extent>)
    requires ExtentsDisjoint(reserved, live)
    ensures |UsedBy(reserved, live)| == reserved + Held(live)
    decreases |live|
  {
    if live == [] {
      RangeSize(0, reserved);
    } else {
      var m := |live| - 1;
      var rest, own := UsedBy(reserved, live[..m]), Range(live[m].block, live[m].nb);
      assert forall i :: 0 <= i < m ==> live[..m][i] == live[i];
      UsedBySize(reserved, live[..m]);
      RangeSize(live[m].block, live[m].nb);
      forall p: nat | p in rest
        ensures p !in own
      {
        UsedByMember(reserved, live[..m], p);
        assert Holds(live[m], p) <==> p in own;
      }
      assert |rest + own| == |rest| + |own|;
    }
  }

  lemma HeldFits(n: nat, reserved: nat, live: seq<Extent>)
    requires ExtentsDisjoint(reserved, live) && ExtentsAligned(n, live) && reserved <= n
    ensures reserved + Held(live) <= n
  {
    hide BuddyOrder, Aligned;
    UsedBySize(reserved, live);
    forall p: nat | p in UsedBy(reserved, live)
      ensures p in Range(0, n)
    {
      UsedByMember(reserved, live, p);
    }
    RangeSize(0, n);
    SubsetSize(UsedBy(reserved, live), Range(0, n));
  }

  lemma HeldMore(live: seq<Extent>, e: Extent)
    ensures Held(live + [e]) == Held(live) + e.nb
  {
    assert (live + [e])[..|live|] == live;
  }

  lemma StepTotal(total: nat, p: Pyramid, n: nat, live: seq<Extent>, op: Op)
    requires Sized(n, p) && Matched(live, op) && total == Held(live) % WORD_MODULUS
    ensures Counted(total, p, n, live, op) == Held(Apply(p, n, live, op).1) % WORD_MODULUS
  {
    hide Sized, BuddyAllocate, BuddyFree, Held, Without;
    match op
    case Alloc(nb) =>
      var block := BuddyAllocate(p, n, nb).1;
      if block >= 0 {
        HeldMore(live, Extent(block, nb));
        AddWraps(Held(live), nb);
      }
    case Free(i) =>
      HeldWithout(live, i);
      SubtractWraps(Held(live), live[i].nb);
  }

  lemma AddWraps(x: nat, d: nat)
    ensures (x % 0x1_0000_0000 + d) % 0x1_0000_0000 == (x + d) % 0x1_0000_0000
  {
  }

  lemma SubtractWraps(x: nat, d: nat)
    requires d <= x
    ensures (x % 0x1_0000_0000 - d) % 0x1_0000_0000 == (x - d) % 0x1_0000_0000
  {
  }

  lemma {:induction false} RunTotalKeeps(total: nat, p: Pyramid, n: nat, live: seq<Extent>, ops: seq<Op>)
    requires Sized(n, p) && Legal(p, n, live, ops) && total == Held(live) % WORD_MODULUS
    ensures RunTotal(total, p, n, live, ops) == Held(Run(p, n, live, ops).1) % WORD_MODULUS
    decreases |ops|
  {
    hide Counted, Held, Apply, Sized;
    if ops != [] {
      StepTotal(total, p, n, live, ops[0]);
      var r := Apply(p, n, live, ops[0]);
      RunTotalKeeps(Counted(total, p, n, live, ops[0]), r.0, n, r.1, ops[1..]);
    }
  }

  /**
   * Over every run the counter is the number of pages in live ranges, and together with the allocator's
   * own pages they are never more than the heap has.
   */
  lemma EveryRunTotal(n: nat, reserved: nat, ops: seq<Op>)
    requires Tracked(n) && RoomBelow(n) && reserved <= n && Legal(SetUp(n, reserved), n, [], ops)
    ensures var live := Run(SetUp(n, reserved), n, [], ops).1;
            RunTotal(0, SetUp(n, reserved), n, [], ops) == Held(live) && reserved + Held(live) <= n
  {
    hide RoomBelow, SetUp, Held, Exact, ExtentsDisjoint, ExtentsAligned, Run, RunTotal, Legal, Sized, UsedBy, Tracked;
    EveryRun(n, reserved, ops);
    HeldNothing();
    RunTotalKeeps(0, SetUp(n, reserved), n, [], ops);
    HeldFits(n, reserved, Run(SetUp(n, reserved), n, [], ops).1);
    TrackedWord(n);
  }

  lemma TrackedWord(n: nat)
    requires Tracked(n)
    ensures forall x: nat :: x <= n ==> x % WORD_MODULUS == x
  {
  }

  lemma HeldNothing()
    ensures Held([]) == 0
  {
  }
}
