/**
 * The meaning of the two bitmap pyramids: a set of blocks in a binary tree of
 * page groups. Node (order, index) stands for the pages p with
 * p >> order == index.
 */
module BuddyTree {
  import opened Shifts

  datatype Block = Block(order: nat, index: nat)

  /** b lies in the subtree of node (q, m). */
  predicate Within(b: Block, q: nat, m: nat) {
    b.order <= q && Shr(b.index, q - b.order) == m
  }

  /** Page p belongs to block b. */
  predicate Covers(b: Block, p: nat) {
    Shr(p, b.order) == b.index
  }

  predicate Covered(live: set<Block>, p: nat) {
    exists b :: b in live && Covers(b, p)
  }

  /** No block of the set lies in the subtree of another one. */
  predicate NoOverlap(live: set<Block>) {
    forall a, b {:trigger Within(a, b.order, b.index)} ::
      a in live && b in live && a != b ==> !Within(a, b.order, b.index)
  }

  /** Some block of the set lies at or below node (q, m). */
  predicate DirtyNode(live: set<Block>, q: nat, m: nat) {
    exists b :: b in live && Within(b, q, m)
  }

  /** Node (q, m) is a block of the set, or both its halves are saturated. */
  predicate SaturatedNode(live: set<Block>, q: nat, m: nat) {
    Block(q, m) in live
    || (q > 0 && SaturatedNode(live, q - 1, 2 * m) && SaturatedNode(live, q - 1, 2 * m + 1))
  }

  /** Node (q, m) lies strictly inside some block of the set. */
  predicate Inside(live: set<Block>, q: nat, m: nat) {
    exists b :: b in live && b.order > q && Within(Block(q, m), b.order, b.index)
  }

  function Twin(n: nat): (t: nat)
    ensures t != n && t / 2 == n / 2
  {
    if n % 2 == 0 then n + 1 else n - 1
  }

  /* ---- Within is the tree order ---- */

  lemma WithinTrans(a: Block, b: Block, q: nat, m: nat)
    requires Within(a, b.order, b.index) && Within(b, q, m)
    ensures Within(a, q, m)
  {
    ShrAdd(a.index, b.order - a.order, q - b.order);
  }

  lemma WithinParent(b: Block, q: nat, m: nat)
    requires Within(b, q, m)
    ensures Within(b, q + 1, m / 2)
  {
    ShrStep(b.index, q - b.order);
  }

  lemma WithinChild(b: Block, q: nat, m: nat)
    requires Within(b, q + 1, m) && b.order <= q
    ensures Within(b, q, 2 * m) || Within(b, q, 2 * m + 1)
  {
    ShrStep(b.index, q - b.order);
  }

  /** A node has one ancestor-or-self at each order. */
  lemma WithinComparable(a: Block, b: Block, c: Block)
    requires Within(a, b.order, b.index) && Within(a, c.order, c.index)
    requires b.order <= c.order
    ensures Within(b, c.order, c.index)
  {
    ShrAdd(a.index, b.order - a.order, c.order - b.order);
  }

  /* ---- Dirty nodes ---- */

  lemma DirtyStep(live: set<Block>, q: nat, m: nat)
    ensures DirtyNode(live, q + 1, m) <==>
            Block(q + 1, m) in live || DirtyNode(live, q, 2 * m) || DirtyNode(live, q, 2 * m + 1)
  {
    if b :| b in live && Within(b, q + 1, m) {
      if b.order <= q {
        WithinChild(b, q, m);
      } else {
        assert b == Block(q + 1, m);
      }
    }
    if b :| b in live && Within(b, q, 2 * m) {
      WithinParent(b, q, 2 * m);
    }
    if b :| b in live && Within(b, q, 2 * m + 1) {
      WithinParent(b, q, 2 * m + 1);
    }
    if Block(q + 1, m) in live {
      assert Within(Block(q + 1, m), q + 1, m);
    }
  }

  /* ---- Saturated nodes ---- */

  lemma {:induction false} SaturatedIsDirty(live: set<Block>, q: nat, m: nat)
    requires SaturatedNode(live, q, m)
    ensures DirtyNode(live, q, m)
    decreases q
  {
    if Block(q, m) in live {
      assert Within(Block(q, m), q, m);
    } else {
      SaturatedIsDirty(live, q - 1, 2 * m);
      DirtyStep(live, q - 1, m);
    }
  }

  /** Adding or removing a block changes saturation only on its root path. */
  lemma {:induction false} SaturatedFrame(live: set<Block>, b: Block, q: nat, m: nat)
    requires !Within(b, q, m)
    ensures SaturatedNode(live + {b}, q, m) <==> SaturatedNode(live, q, m)
    ensures SaturatedNode(live - {b}, q, m) <==> SaturatedNode(live, q, m)
    decreases q
  {
    if q > 0 {
      if Within(b, q - 1, 2 * m) {
        WithinParent(b, q - 1, 2 * m);
      }
      if Within(b, q - 1, 2 * m + 1) {
        WithinParent(b, q - 1, 2 * m + 1);
      }
      SaturatedFrame(live, b, q - 1, 2 * m);
      SaturatedFrame(live, b, q - 1, 2 * m + 1);
    }
  }

  /** A saturated node has every page covered. */
  lemma {:induction false} SaturatedCovered(live: set<Block>, q: nat, m: nat, p: nat)
    requires SaturatedNode(live, q, m) && Shr(p, q) == m
    ensures Covered(live, p)
    decreases q
  {
    if Block(q, m) in live {
      assert Covers(Block(q, m), p);
    } else {
      ShrStep(p, q - 1);
      SaturatedCovered(live, q - 1, Shr(p, q - 1), p);
    }
  }

  /** A covered page is a one-page block or lies inside a larger one. */
  lemma CoveredPage(live: set<Block>, p: nat)
    ensures Covered(live, p) <==> Block(0, p) in live || Inside(live, 0, p)
  {
    if b :| b in live && Covers(b, p) {
      assert Within(Block(0, p), b.order, b.index);
      assert b.order == 0 ==> b == Block(0, p);
    }
    if Block(0, p) in live {
      assert Covers(Block(0, p), p);
    }
    if b :| b in live && b.order > 0 && Within(Block(0, p), b.order, b.index) {
      assert Covers(b, p);
    }
  }

  /** Conversely, a node whose pages are all covered is saturated unless it lies inside a block. */
  lemma {:induction false} CoveredSaturated(live: set<Block>, q: nat, m: nat)
    requires forall p :: Shr(p, q) == m ==> Covered(live, p)
    requires !Inside(live, q, m)
    ensures SaturatedNode(live, q, m)
    decreases q
  {
    if Block(q, m) !in live {
      if q == 0 {
        assert Shr(m, 0) == m;
        CoveredPage(live, m);
      } else {
        ChildNotInside(live, q, m);
        forall p | Shr(p, q - 1) == 2 * m || Shr(p, q - 1) == 2 * m + 1
          ensures Covered(live, p)
        {
          ShrStep(p, q - 1);
        }
        CoveredSaturated(live, q - 1, 2 * m);
        CoveredSaturated(live, q - 1, 2 * m + 1);
      }
    }
  }

  /** Neither child of an outside node that is no block lies inside a block. */
  lemma ChildNotInside(live: set<Block>, q: nat, m: nat)
    requires q > 0 && !Inside(live, q, m) && Block(q, m) !in live
    ensures !Inside(live, q - 1, 2 * m) && !Inside(live, q - 1, 2 * m + 1)
  {
    ChildOutside(live, q, m, 2 * m);
    ChildOutside(live, q, m, 2 * m + 1);
  }

  lemma ChildOutside(live: set<Block>, q: nat, m: nat, c: nat)
    requires q > 0 && c / 2 == m
    ensures Inside(live, q - 1, c) ==> Inside(live, q, m) || Block(q, m) in live
  {
    var n := Block(q - 1, c);
    if b :| b in live && b.order > q - 1 && Within(n, b.order, b.index) {
      ShrStep(c, 0);
      assert Within(n, q, m);
      WithinComparable(n, Block(q, m), b);
      assert b.order == q ==> b == Block(q, m);
    }
  }

  /** A node strictly inside a live block is clear in both pyramids. */
  lemma InsideClear(live: set<Block>, q: nat, m: nat)
    requires NoOverlap(live) && Inside(live, q, m)
    ensures !DirtyNode(live, q, m) && !SaturatedNode(live, q, m)
  {
    var b :| b in live && b.order > q && Within(Block(q, m), b.order, b.index);
    if DirtyNode(live, q, m) {
      var a :| a in live && Within(a, q, m);
      WithinTrans(a, Block(q, m), b.order, b.index);
      assert false;
    }
    if SaturatedNode(live, q, m) {
      SaturatedIsDirty(live, q, m);
      assert false;
    }
  }

  /** Blocks are disjoint page ranges exactly when neither lies in the other's subtree. */
  lemma OverlapShared(a: Block, b: Block)
    ensures (Within(a, b.order, b.index) || Within(b, a.order, a.index))
            <==> exists p :: Covers(a, p) && Covers(b, p)
  {
    if p :| Covers(a, p) && Covers(b, p) {
      if a.order <= b.order {
        ShrAdd(p, a.order, b.order - a.order);
      } else {
        ShrAdd(p, b.order, a.order - b.order);
      }
    }
    if Within(a, b.order, b.index) {
      CoverWitness(a, b);
    } else if Within(b, a.order, a.index) {
      CoverWitness(b, a);
    }
  }

  lemma CoverWitness(a: Block, b: Block)
    requires Within(a, b.order, b.index)
    ensures Covers(a, Shl(a.index, a.order)) && Covers(b, Shl(a.index, a.order))
  {
    ShrShl(a.index, a.order);
    ShrAdd(Shl(a.index, a.order), a.order, b.order - a.order);
  }

  /** Adding a block to a set none of whose members it meets keeps the set free of overlap. */
  lemma NoOverlapAdd(live: set<Block>, b: Block)
    requires NoOverlap(live) && b !in live
    requires !DirtyNode(live, b.order, b.index) && !Inside(live, b.order, b.index)
    ensures NoOverlap(live + {b})
  {
    forall x, y | x in live + {b} && y in live + {b} && x != y
      ensures !Within(x, y.order, y.index)
    {
      assert Within(b, y.order, y.index) && y.order == b.order ==> y == b;
      assert y in live && Within(b, y.order, y.index) && y.order > b.order ==> Inside(live, b.order, b.index);
    }
  }
}
