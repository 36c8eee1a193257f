/**
 * What the four path updates of the buddy allocator do to a bitmap pyramid, and
 * which set of blocks the pyramid stands for afterwards.
 */
module BuddyPaths {
  import opened Shifts
  import opened BuddyTree

  /** pyramid[order][bit] */
  type Pyramid = seq<seq<bool>>

  /** Every bit on the root path of (o, n), and its twin, has a place in the pyramid. */
  predicate PathOk(p: Pyramid, o: nat, n: nat)
    decreases |p| - o
  {
    o < |p| ==> n < |p[o]| && Twin(n) < |p[o]| && PathOk(p, o + 1, n / 2)
  }

  function Put(p: Pyramid, o: nat, n: nat, v: bool): (r: Pyramid)
    requires o < |p| && n < |p[o]|
    ensures |r| == |p| && forall q :: 0 <= q < |p| ==> |r[q]| == |p[q]|
  {
    p[o := p[o][n := v]]
  }

  predicate SameShape(a: Pyramid, b: Pyramid) {
    |a| == |b| && forall q :: 0 <= q < |a| ==> |a[q]| == |b[q]|
  }

  lemma {:induction false} PathShape(a: Pyramid, b: Pyramid, o: nat, n: nat)
    requires SameShape(a, b) && PathOk(a, o, n)
    ensures PathOk(b, o, n)
    decreases |a| - o
  {
    if o < |a| {
      PathShape(a, b, o + 1, n / 2);
    }
  }

  /** buddy_set_dirty: set the whole root path. */
  function SetPath(p: Pyramid, o: nat, n: nat): (r: Pyramid)
    requires PathOk(p, o, n)
    ensures SameShape(p, r)
    decreases |p| - o
  {
    if o >= |p| then p
    else
      var p1 := Put(p, o, n, true);
      PathShape(p, p1, o + 1, n / 2);
      SetPath(p1, o + 1, n / 2)
  }

  /** buddy_clear_saturated: clear the whole root path. */
  function ClearPath(p: Pyramid, o: nat, n: nat): (r: Pyramid)
    requires PathOk(p, o, n)
    ensures SameShape(p, r)
    decreases |p| - o
  {
    if o >= |p| then p
    else
      var p1 := Put(p, o, n, false);
      PathShape(p, p1, o + 1, n / 2);
      ClearPath(p1, o + 1, n / 2)
  }

  /** buddy_clear_dirty: clear upwards until the twin is dirty. */
  function ClearUntilTwin(p: Pyramid, o: nat, n: nat): (r: Pyramid)
    requires PathOk(p, o, n)
    ensures SameShape(p, r)
    decreases |p| - o
  {
    if o >= |p| then p
    else
      var p1 := Put(p, o, n, false);
      PathShape(p, p1, o + 1, n / 2);
      if p1[o][Twin(n)] then p1 else ClearUntilTwin(p1, o + 1, n / 2)
  }

  /** buddy_set_saturated: set upwards while the twin is saturated. */
  function SetWhileTwin(p: Pyramid, o: nat, n: nat): (r: Pyramid)
    requires PathOk(p, o, n)
    ensures SameShape(p, r)
    decreases |p| - o
  {
    if o >= |p| then p
    else
      var p1 := Put(p, o, n, true);
      PathShape(p, p1, o + 1, n / 2);
      if p1[o][Twin(n)] then SetWhileTwin(p1, o + 1, n / 2) else p1
  }

  /* ---- Meaning of a pyramid ---- */

  /** The bit of every node says whether a block lies at or below it. */
  ghost predicate ShowsDirty(p: Pyramid, live: set<Block>) {
    forall q, m :: 0 <= q < |p| && 0 <= m < |p[q]| ==> (p[q][m] <==> DirtyNode(live, q, m))
  }

  ghost predicate ShowsSaturated(p: Pyramid, live: set<Block>) {
    forall q, m :: 0 <= q < |p| && 0 <= m < |p[q]| ==> (p[q][m] <==> SaturatedNode(live, q, m))
  }

  /** Two pyramids of one shape that show the same set are the same bit for bit. */
  lemma ShowsUnique(a: Pyramid, b: Pyramid, live: set<Block>)
    requires SameShape(a, b)
    requires (ShowsDirty(a, live) && ShowsDirty(b, live)) || (ShowsSaturated(a, live) && ShowsSaturated(b, live))
    ensures a == b
  {
    forall q | 0 <= q < |a|
      ensures a[q] == b[q]
    {
      forall m | 0 <= m < |a[q]|
        ensures a[q][m] == b[q][m]
      {
      }
    }
  }

  /* ---- Setting dirty bits ---- */

  /** Rows below o already show `after`; rows from o on still show `before`. */
  ghost predicate HalfDirty(p: Pyramid, o: nat, before: set<Block>, after: set<Block>) {
    forall q, m :: 0 <= q < |p| && 0 <= m < |p[q]| ==>
      (p[q][m] <==> DirtyNode(if q < o then after else before, q, m))
  }

  lemma {:induction false} SetPathHalf(p: Pyramid, live: set<Block>, b: Block, o: nat, n: nat)
    requires PathOk(p, o, n) && Within(b, o, n)
    requires HalfDirty(p, o, live, live + {b})
    ensures ShowsDirty(SetPath(p, o, n), live + {b})
    decreases |p| - o
  {
    if o < |p| {
      var p1 := Put(p, o, n, true);
      PathShape(p, p1, o + 1, n / 2);
      WithinParent(b, o, n);
      SetPathHalf(p1, live, b, o + 1, n / 2);
    }
  }

  lemma SetPathShows(p: Pyramid, live: set<Block>, b: Block)
    requires PathOk(p, b.order, b.index) && ShowsDirty(p, live)
    ensures ShowsDirty(SetPath(p, b.order, b.index), live + {b})
  {
    assert HalfDirty(p, b.order, live, live + {b});
    SetPathHalf(p, live, b, b.order, b.index);
  }

  /* ---- Clearing dirty bits ---- */

  /** The block set left after clearing upwards from (o, n): path members go too, up to the first dirty twin. */
  ghost function ClearSet(live: set<Block>, o: nat, n: nat, top: nat): set<Block>
    decreases top - o
  {
    var rest := live - {Block(o, n)};
    if o >= top then live
    else if DirtyNode(rest, o, Twin(n)) then rest
    else ClearSet(rest, o + 1, n / 2, top)
  }

  /** Rows below o show the set; from o on the root path of (o, n) is set as well. */
  ghost predicate PathDirty(p: Pyramid, o: nat, n: nat, live: set<Block>) {
    forall q, m :: 0 <= q < |p| && 0 <= m < |p[q]| ==>
      (p[q][m] <==> DirtyNode(live, q, m) || (o <= q && Within(Block(o, n), q, m)))
  }

  lemma {:induction false} ClearHalf(p: Pyramid, live: set<Block>, o: nat, n: nat)
    requires PathOk(p, o, n)
    requires PathDirty(p, o, n, live)
    requires !DirtyNode(live - {Block(o, n)}, o, n)
    ensures ShowsDirty(ClearUntilTwin(p, o, n), ClearSet(live, o, n, |p|))
    decreases |p| - o
  {
    if o < |p| {
      var rest := live - {Block(o, n)};
      var p1 := Put(p, o, n, false);
      PathShape(p, p1, o + 1, n / 2);
      forall q, m | 0 <= q < |p1| && 0 <= m < |p1[q]|
        ensures p1[q][m] <==> DirtyNode(rest, q, m) || (o + 1 <= q && Within(Block(o + 1, n / 2), q, m))
      {
        PathDrop(live, o, n, q, m);
      }
      assert PathDirty(p1, o + 1, n / 2, rest);
      if p1[o][Twin(n)] {
        forall q, m | 0 <= q < |p1| && 0 <= m < |p1[q]| && o + 1 <= q && Within(Block(o + 1, n / 2), q, m)
          ensures DirtyNode(rest, q, m)
        {
          var t :| t in rest && Within(t, o, Twin(n));
          WithinParent(t, o, Twin(n));
          WithinTrans(t, Block(o + 1, n / 2), q, m);
        }
      } else {
        DirtyStep(rest - {Block(o + 1, n / 2)}, o, n / 2);
        ClearHalf(p1, rest, o + 1, n / 2);
      }
    }
  }

  /** Dropping the block at (o, n) costs a node its dirtiness only along the root path. */
  lemma PathDrop(live: set<Block>, o: nat, n: nat, q: nat, m: nat)
    ensures DirtyNode(live, q, m) || (o <= q && Within(Block(o, n), q, m)) <==>
            DirtyNode(live - {Block(o, n)}, q, m) || (q == o && m == n)
            || (o + 1 <= q && Within(Block(o + 1, n / 2), q, m))
  {
    var b := Block(o, n);
    if o + 1 <= q {
      ShrAdd(n, 1, q - o - 1);
      assert Shr(n, 1) == Shr(n / 2, 0);
    }
    if c :| c in live && Within(c, q, m) {
      assert c == b || c in live - {b};
    }
    if c :| c in live - {b} && Within(c, q, m) {
      assert c in live;
    }
  }

  lemma ClearShows(p: Pyramid, live: set<Block>, b: Block)
    requires PathOk(p, b.order, b.index) && ShowsDirty(p, live)
    requires b in live && !DirtyNode(live - {b}, b.order, b.index)
    ensures ShowsDirty(ClearUntilTwin(p, b.order, b.index), ClearSet(live, b.order, b.index, |p|))
  {
    forall q, m | 0 <= q < |p| && 0 <= m < |p[q]| && Within(b, q, m)
      ensures p[q][m]
    {
    }
    ClearHalf(p, live, b.order, b.index);
  }

  /* ---- Setting saturated bits ---- */

  ghost predicate HalfSaturated(p: Pyramid, o: nat, before: set<Block>, after: set<Block>) {
    forall q, m :: 0 <= q < |p| && 0 <= m < |p[q]| ==>
      (p[q][m] <==> SaturatedNode(if q < o then after else before, q, m))
  }

  /** No block of the set is the node (q, m) or an ancestor of it. */
  predicate NoneAbove(live: set<Block>, q: nat, m: nat) {
    forall b {:trigger b in live} :: b in live && b.order >= q ==> !Within(Block(q, m), b.order, b.index)
  }

  lemma NoneAboveParent(live: set<Block>, q: nat, m: nat)
    requires NoneAbove(live, q, m)
    ensures NoneAbove(live, q + 1, m / 2)
    ensures Block(q, m) !in live
  {
    assert Within(Block(q, m), q, m);
    forall b | b in live && b.order >= q + 1
      ensures !Within(Block(q + 1, m / 2), b.order, b.index)
    {
      assert Within(Block(q, m), b.order, b.index) <== Within(Block(q + 1, m / 2), b.order, b.index) by {
        ShrAdd(m, 1, b.order - q - 1);
        assert Shr(m, 1) == Shr(m / 2, 0);
      }
    }
  }

  /** If (q, m) is not saturated, no node above it is, when no block sits on the path. */
  lemma {:induction false} UnsaturatedUp(live: set<Block>, q: nat, m: nat, r: nat, k: nat)
    requires !SaturatedNode(live, q, m) && NoneAbove(live, q, m)
    requires Within(Block(q, m), r, k)
    ensures !SaturatedNode(live, r, k)
    decreases r - q
  {
    if r > q {
      NoneAboveParent(live, q, m);
      NoneAboveParent(live, q + 1, m / 2);
      ShrAdd(m, 1, r - q - 1);
      assert Shr(m, 1) == Shr(m / 2, 0);
      UnsaturatedUp(live, q + 1, m / 2, r, k);
    }
  }

  lemma {:induction false} SetHalf(p: Pyramid, live: set<Block>, b: Block, o: nat, n: nat)
    requires PathOk(p, o, n) && Within(b, o, n)
    requires HalfSaturated(p, o, live, live + {b})
    requires SaturatedNode(live + {b}, o, n)
    requires NoneAbove(live, o, n) && !SaturatedNode(live, o, n)
    ensures ShowsSaturated(SetWhileTwin(p, o, n), live + {b})
    decreases |p| - o
  {
    if o < |p| {
      var after := live + {b};
      var p1 := Put(p, o, n, true);
      PathShape(p, p1, o + 1, n / 2);
      forall m | 0 <= m < |p1[o]|
        ensures p1[o][m] <==> SaturatedNode(after, o, m)
      {
        if m != n {
          SaturatedFrame(live, b, o, m);
        }
      }
      assert HalfSaturated(p1, o + 1, live, after);
      WithinParent(b, o, n);
      NoneAboveParent(live, o, n);
      NoneAboveParent(live, o + 1, n / 2);
      UnsaturatedUp(live, o, n, o + 1, n / 2) by {
        ShrStep(n, 0);
      }
      if p1[o][Twin(n)] {
        SetHalf(p1, live, b, o + 1, n / 2);
      } else {
        SetStops(p1, live, b, o, n);
      }
    }
  }

  /** Where the twin is not saturated nothing above changes: the remaining rows show the larger set already. */
  lemma SetStops(p: Pyramid, live: set<Block>, b: Block, o: nat, n: nat)
    requires Within(b, o, n) && Within(b, o + 1, n / 2)
    requires o < |p| && Twin(n) < |p[o]| && !p[o][Twin(n)] && HalfSaturated(p, o + 1, live, live + {b})
    requires NoneAbove(live, o + 1, n / 2) && Block(o + 1, n / 2) !in live && !SaturatedNode(live, o + 1, n / 2)
    ensures ShowsSaturated(p, live + {b})
  {
    var after := live + {b};
    assert Block(o + 1, n / 2) !in after;
    assert !SaturatedNode(after, o, Twin(n)) && !SaturatedNode(after, o + 1, n / 2);
    forall q, m | o + 1 <= q < |p| && 0 <= m < |p[q]|
      ensures p[q][m] <==> SaturatedNode(after, q, m)
    {
      if Within(Block(o + 1, n / 2), q, m) {
        NoneAboveAdd(live, b, o + 1, n / 2);
        UnsaturatedUp(after, o + 1, n / 2, q, m);
        UnsaturatedUp(live, o + 1, n / 2, q, m);
      } else {
        if Within(b, q, m) {
          WithinComparable(b, Block(o + 1, n / 2), Block(q, m));
        }
        SaturatedFrame(live, b, q, m);
      }
    }
  }

  lemma NoneAboveAdd(live: set<Block>, b: Block, q: nat, m: nat)
    requires NoneAbove(live, q, m) && b.order < q
    ensures NoneAbove(live + {b}, q, m)
  {
  }

  lemma SetWhileTwinShows(p: Pyramid, live: set<Block>, b: Block)
    requires PathOk(p, b.order, b.index) && ShowsSaturated(p, live)
    requires NoneAbove(live, b.order, b.index) && !SaturatedNode(live, b.order, b.index)
    ensures ShowsSaturated(SetWhileTwin(p, b.order, b.index), live + {b})
  {
    forall q, m | 0 <= q < b.order && q < |p| && 0 <= m < |p[q]|
      ensures p[q][m] <==> SaturatedNode(live + {b}, q, m)
    {
      SaturatedFrame(live, b, q, m);
    }
    assert HalfSaturated(p, b.order, live, live + {b});
    SetHalf(p, live, b, b.order, b.index);
  }

  /* ---- Clearing saturated bits ---- */

  lemma {:induction false} ClearPathHalf(p: Pyramid, live: set<Block>, b: Block, o: nat, n: nat)
    requires PathOk(p, o, n) && Within(b, o, n)
    requires HalfSaturated(p, o, live, live - {b})
    requires NoneAbove(live - {b}, o, n) && !SaturatedNode(live - {b}, o, n)
    ensures ShowsSaturated(ClearPath(p, o, n), live - {b})
    decreases |p| - o
  {
    if o < |p| {
      var after := live - {b};
      var p1 := Put(p, o, n, false);
      PathShape(p, p1, o + 1, n / 2);
      forall m | 0 <= m < |p1[o]|
        ensures p1[o][m] <==> SaturatedNode(after, o, m)
      {
        if m != n {
          SaturatedFrame(live, b, o, m);
        }
      }
      assert HalfSaturated(p1, o + 1, live, after);
      WithinParent(b, o, n);
      NoneAboveParent(after, o, n);
      UnsaturatedUp(after, o, n, o + 1, n / 2) by {
        ShrStep(n, 0);
      }
      ClearPathHalf(p1, live, b, o + 1, n / 2);
    }
  }

  lemma ClearPathShows(p: Pyramid, live: set<Block>, b: Block)
    requires PathOk(p, b.order, b.index) && ShowsSaturated(p, live)
    requires NoneAbove(live - {b}, b.order, b.index) && !SaturatedNode(live - {b}, b.order, b.index)
    ensures ShowsSaturated(ClearPath(p, b.order, b.index), live - {b})
  {
    forall q, m | 0 <= q < b.order && q < |p| && 0 <= m < |p[q]|
      ensures p[q][m] <==> SaturatedNode(live - {b}, q, m)
    {
      SaturatedFrame(live, b, q, m);
    }
    assert HalfSaturated(p, b.order, live, live - {b});
    ClearPathHalf(p, live, b, b.order, b.index);
  }
}
