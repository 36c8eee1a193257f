/** What one allocation and one free do, for heaps of any size and any mix of live blocks. */
module BuddyTheorems {
  import opened Machine
  import opened Shifts
  import opened BuddyTree
  import opened BuddyPaths
  import opened BuddyGeometry
  import opened BuddyHeap

  /** Sum of the sizes of a set of blocks. */
  ghost function PagesOf(live: set<Block>): nat
  {
    if live == {} then 0
    else
      var b :| b in live;
      Pow2(b.order) + PagesOf(live - {b})
  }

  lemma {:induction false} PagesOfRemove(live: set<Block>, b: Block)
    requires b in live
    ensures PagesOf(live) == Pow2(b.order) + PagesOf(live - {b})
    decreases live
  {
    var c :| c in live && PagesOf(live) == Pow2(c.order) + PagesOf(live - {c});
    if c != b {
      PagesOfRemove(live - {c}, b);
      PagesOfRemove(live - {b}, c);
      assert live - {c} - {b} == live - {b} - {c};
    }
  }

  lemma PagesOfAdd(live: set<Block>, b: Block)
    requires b !in live
    ensures PagesOf(live + {b}) == PagesOf(live) + Pow2(b.order)
  {
    PagesOfRemove(live + {b}, b);
    assert live + {b} - {b} == live;
  }

  /** The counter holds the pages of all live blocks. */
  ghost predicate Accounts(h: Heap, live: set<Block>) {
    h.total == PagesOf(live) % WORD_MODULUS
  }

  /** A block that is clean in the dirty pyramid and no part of a live block meets none of them. */
  ghost predicate Fresh(live: set<Block>, tail: set<Block>, b: Block) {
    && !DirtyNode(live + tail, b.order, b.index)
    && !SaturatedNode(live, b.order, b.index)
    && !Inside(live, b.order, b.index)
  }

  lemma FreshClean(live: set<Block>, tail: set<Block>, b: Block)
    requires Fresh(live, tail, b)
    ensures !DirtyNode(live, b.order, b.index)
    ensures b !in live
    ensures forall t :: t in tail ==> !Within(t, b.order, b.index)
  {
    assert Within(b, b.order, b.index);
    forall a | a in live || a in tail
      ensures !Within(a, b.order, b.index)
    {
      assert a in live + tail;
    }
  }

  lemma FreshAbove(live: set<Block>, tail: set<Block>, b: Block)
    requires Fresh(live, tail, b)
    ensures NoneAbove(live, b.order, b.index)
  {
    FreshClean(live, tail, b);
    forall c | c in live && c.order >= b.order
      ensures !Within(Block(b.order, b.index), c.order, c.index)
    {
      assert c.order == b.order && Within(b, c.order, c.index) ==> c == b;
    }
  }

  lemma FreshPages(live: set<Block>, tail: set<Block>, b: Block)
    requires Fresh(live, tail, b)
    ensures forall p :: Covers(b, p) ==> !Covered(live, p)
  {
    FreshClean(live, tail, b);
    forall p | Covers(b, p)
      ensures !Covered(live, p)
    {
      if Covered(live, p) {
        SharedPage(live, b, p);
        assert false;
      }
    }
  }

  /** A page shared with a live block puts one of the two blocks inside the other. */
  lemma SharedPage(live: set<Block>, b: Block, p: nat)
    requires Covers(b, p) && Covered(live, p)
    ensures DirtyNode(live, b.order, b.index) || Inside(live, b.order, b.index)
  {
    var a :| a in live && Covers(a, p);
    OverlapShared(a, b);
    assert a.order <= b.order && Within(b, a.order, a.index) ==> a == b;
  }

  /** Marking a fresh block: both pyramids then mean the larger set. */
  lemma MarkShows(h: Heap, live: set<Block>, tail: set<Block>, b: Block, r: Heap)
    requires Shows(h, live, tail) && Fresh(live, tail, b)
    requires PathOk(h.saturated, b.order, b.index) && r.saturated == SetWhileTwin(h.saturated, b.order, b.index)
    requires PathOk(h.dirty, b.order, b.index) && r.dirty == SetPath(h.dirty, b.order, b.index)
    ensures Shows(r, live + {b}, tail)
  {
    FreshAbove(live, tail, b);
    SetWhileTwinShows(h.saturated, live, b);
    SetPathShows(h.dirty, live + tail, b);
    assert live + tail + {b} == live + {b} + tail;
  }

  /** While the tail keeps its mark, a fresh block lies wholly inside the heap. */
  lemma FreshContained(n: nat, live: set<Block>, tail: set<Block>, b: Block)
    requires n > 0 && b.order < Orders(n) && b.index < OrderBits(n, b.order)
    requires Fresh(live, tail, b) && tail == Tail(n)
    ensures Shl(b.index + 1, b.order) <= n
  {
    FreshClean(live, tail, b);
    CountedContained(n, b.order, b.index);
    if b.order >= TailOrder(n) {
      TailAncestor(n, b.order);
    }
  }

  lemma MarkMeans(h: Heap, live: set<Block>, tail: set<Block>, b: Block, r: Heap)
    requires Means(h, live, tail) && Fresh(live, tail, b)
    requires b.order < Orders(h.pages) && b.index < OrderBits(h.pages, b.order)
    requires WellFormed(r) && r.pages == h.pages && Shows(r, live + {b}, tail)
    ensures Means(r, live + {b}, tail)
  {
    FreshClean(live, tail, b);
    NoOverlapAdd(live, b);
    if tail == Tail(h.pages) {
      FreshContained(h.pages, live, tail, b);
    }
  }

  /** The search as it starts finds a block that meets no live one. */
  lemma FindSound(h: Heap, live: set<Block>, tail: set<Block>, target: nat)
    requires Means(h, live, tail)
    ensures var r := Find(h, target);
            r != WORD_T_MAX ==> Fresh(live, tail, Block(target, r))
  {
    hide Room, NoOverlap, Counted, Contained, Tail, OrderBits, Shows;
    OrdersPositive(h.pages);
    var top := Orders(h.pages) - 1;
    forall k | 0 <= k < OrderBits(h.pages, top)
      ensures !Inside(live, top, k)
    {
      TopOutside(h, live, tail, top, k);
    }
    SearchSound(h, live, tail, top, target, 0, OrderBits(h.pages, top));
  }

  /**
   * Allocation, on a heap of any tracked size: it fails without a change, or it hands out
   * a block of the least sufficient order none of whose pages was taken.
   */
  lemma AllocationSound(h: Heap, live: set<Block>, tail: set<Block>, pages: nat)
    requires Means(h, live, tail) && Accounts(h, live) && pages <= MAX_REQUEST
    ensures var (r, page) := GetFreePages(h, pages);
            var b := Block(PagesOrder(pages), Shr(page, PagesOrder(pages)));
            if page == WORD_T_MAX then r == h
            else
              && page == Start(b) && page < h.pages
              && (forall p :: Covers(b, p) ==> !Covered(live, p))
              && b !in live
              && Means(r, live + {b}, tail)
              && Accounts(r, live + {b})
  {
    var order := PagesOrder(pages);
    var bit := Find(h, order);
    FindSound(h, live, tail, order);
    if bit != WORD_T_MAX {
      var b := Block(order, bit);
      var r := Mark(h, order, bit);
      ShrShl(bit, order);
      StartInHeap(h.pages, order, bit);
      MarkShows(h, live, tail, b, r);
      MarkMeans(h, live, tail, b, r);
      FreshPages(live, tail, b);
      FreshClean(live, tail, b);
      MarkAccounts(h, live, b, r);
    }
  }

  lemma MarkAccounts(h: Heap, live: set<Block>, b: Block, r: Heap)
    requires Accounts(h, live) && b !in live
    requires r.total == (h.total + Pow2(b.order)) % WORD_MODULUS
    ensures Accounts(r, live + {b})
  {
    PagesOfAdd(live, b);
    AddMod(PagesOf(live), Pow2(b.order));
  }

  lemma UnmarkAccounts(h: Heap, live: set<Block>, b: Block, r: Heap)
    requires Accounts(h, live) && b in live
    requires r.total == (h.total - Pow2(b.order)) % WORD_MODULUS
    ensures Accounts(r, live - {b})
  {
    PagesOfRemove(live, b);
    AddMod(PagesOf(live - {b}), Pow2(b.order));
  }

  lemma AddMod(a: nat, b: nat)
    ensures (a % WORD_MODULUS + b) % WORD_MODULUS == (a + b) % WORD_MODULUS
    ensures ((a + b) % WORD_MODULUS - b) % WORD_MODULUS == a % WORD_MODULUS
  {
  }

  lemma StartInHeap(n: nat, order: nat, bit: nat)
    requires n > 0 && bit < OrderBits(n, order)
    ensures Shl(bit, order) < n
  {
    OrderBitsLast(n, order);
    ShlMono(bit, Shr(n - 1, order), order);
    ShrInterval(n - 1, order, Shr(n - 1, order));
  }

  /** The dirty pyramid alone tells the order of the block that starts at a page. */
  lemma {:induction false} OrderRecovered(h: Heap, live: set<Block>, tail: set<Block>, b: Block, order: nat)
    requires Means(h, live, tail) && b in live
    requires b.order <= order < Orders(h.pages)
    requires forall o :: 0 <= o < order ==> Shr(Start(b), o) < |h.dirty[o]|
    ensures AllocatedOrder(h.dirty, Start(b), order) == b.order
    decreases order
  {
    if order > b.order {
      ShrShl(b.index, b.order);
      ShrAdd(Start(b), b.order, order - 1 - b.order);
      assert b in live + tail && Within(b, order - 1, Shr(Start(b), order - 1));
      OrderRecovered(h, live, tail, b, order - 1);
    } else if order > 0 {
      ShrShl(b.index, b.order);
      var n := Block(order - 1, Shr(Start(b), order - 1));
      ShrAdd(Start(b), order - 1, 1);
      assert Shr(n.index, 1) == Shr(n.index / 2, 0);
      assert Within(n, b.order, b.index);
      NothingBelowLive(h, live, tail, b, n);
    }
  }

  /** Neither live blocks nor the tail lie strictly inside a live block. */
  lemma NothingBelowLive(h: Heap, live: set<Block>, tail: set<Block>, b: Block, n: Block)
    requires Means(h, live, tail) && b in live
    requires Within(n, b.order, b.index) && n.order < b.order
    ensures !DirtyNode(live + tail, n.order, n.index)
  {
    forall a | a in live + tail && Within(a, n.order, n.index)
      ensures Within(a, b.order, b.index) && a != b
    {
      WithinTrans(a, n, b.order, b.index);
    }
  }

  /** Clearing upwards removes the freed block and possibly the tail's mark, never another live block. */
  lemma {:induction false} ClearSetKeeps(live: set<Block>, b: Block, o: nat, n: nat, top: nat, left: set<Block>)
    requires NoOverlap(live) && b in live && Within(b, o, n) && left <= live - {b}
    requires o > b.order ==> left <= live - {b}
    ensures forall x: set<Block> :: left <= x ==> left <= ClearSet(x, o, n, top)
    ensures forall x: set<Block> :: ClearSet(x, o, n, top) <= x
    decreases top - o
  {
    if o < top {
      WithinParent(b, o, n);
      assert Block(o, n) in left ==> Within(b, Block(o, n).order, Block(o, n).index);
      ClearSetKeeps(live, b, o + 1, n / 2, top, left);
    }
  }

  lemma ClearedSet(h: Heap, live: set<Block>, tail: set<Block>, b: Block) returns (rest: set<Block>)
    requires Means(h, live, tail) && b in live
    ensures rest <= tail
    ensures ClearSet(live + tail, b.order, b.index, Orders(h.pages)) == (live - {b}) + rest
  {
    var top := Orders(h.pages);
    var c := ClearSet(live + tail, b.order, b.index, top);
    assert Within(b, b.order, b.index);
    ClearSetKeeps(live, b, b.order, b.index, top, live - {b});
    ClearSetDropsFirst(live + tail, b.order, b.index, top);
    rest := c - (live - {b});
  }

  lemma {:induction false} ClearSetDropsFirst(x: set<Block>, o: nat, n: nat, top: nat)
    requires o < top
    ensures Block(o, n) !in ClearSet(x, o, n, top)
  {
    var rest := x - {Block(o, n)};
    ClearSetShrinks(rest, o + 1, n / 2, top);
  }

  lemma {:induction false} ClearSetShrinks(x: set<Block>, o: nat, n: nat, top: nat)
    ensures ClearSet(x, o, n, top) <= x
    decreases top - o
  {
    if o < top {
      ClearSetShrinks(x - {Block(o, n)}, o + 1, n / 2, top);
    }
  }

  /** A live block starts inside the heap, and its start page yields its order. */
  lemma LiveOrder(h: Heap, live: set<Block>, tail: set<Block>, b: Block)
    requires Means(h, live, tail) && b in live
    ensures Start(b) < h.pages && OrderOf(h, Start(b)) == b.order && Shr(Start(b), b.order) == b.index
  {
    hide Room, NoOverlap, Contained, Tail, OrderBits, Shows, Orders, Shr, AllocatedOrder;
    StartInHeap(h.pages, b.order, b.index);
    OrdersPositive(h.pages);
    PageInShape(h.pages, h.dirty, Start(b));
    OrderRecovered(h, live, tail, b, Orders(h.pages) - 1);
    ShrShl(b.index, b.order);
  }

  lemma UnmarkShows(h: Heap, live: set<Block>, tail: set<Block>, b: Block) returns (rest: set<Block>)
    requires Means(h, live, tail) && b in live
    ensures rest <= tail
    ensures Shows(Unmark(h, b.order, b.index), live - {b}, rest)
    ensures (live - {b}) + rest == ClearSet(live + tail, b.order, b.index, Orders(h.pages))
  {
    OthersOutside(h, live, tail, b);
    assert live + tail - {b} == (live - {b}) + (tail - {b});
    rest := ClearedSet(h, live, tail, b);
    var r := Unmark(h, b.order, b.index);
    ClearShows(h.dirty, live + tail, b);
    ClearPathShows(h.saturated, live, b);
  }

  lemma UnmarkMeans(h: Heap, live: set<Block>, tail: set<Block>, b: Block, r: Heap, rest: set<Block>)
    requires Means(h, live, tail) && b in live && rest <= tail
    requires WellFormed(r) && r.pages == h.pages && Shows(r, live - {b}, rest)
    ensures Means(r, live - {b}, rest)
  {
  }

  /** Free by address alone: it recovers the order, drops exactly that block and keeps every other bit's meaning. */
  lemma FreeSound(h: Heap, live: set<Block>, tail: set<Block>, b: Block) returns (rest: set<Block>)
    requires Means(h, live, tail) && Accounts(h, live) && b in live
    ensures Start(b) < h.pages && OrderOf(h, Start(b)) == b.order && rest <= tail
    ensures Means(FreePages(h, Start(b)), live - {b}, rest)
    ensures Accounts(FreePages(h, Start(b)), live - {b})
    ensures (live - {b}) + rest == ClearSet(live + tail, b.order, b.index, Orders(h.pages))
  {
    LiveOrder(h, live, tail, b);
    rest := UnmarkShows(h, live, tail, b);
    UnmarkMeans(h, live, tail, b, Unmark(h, b.order, b.index), rest);
    UnmarkAccounts(h, live, b, Unmark(h, b.order, b.index));
  }

  lemma OthersOutside(h: Heap, live: set<Block>, tail: set<Block>, b: Block)
    requires Means(h, live, tail) && b in live
    ensures !DirtyNode((live - {b}) + (tail - {b}), b.order, b.index)
    ensures NoneAbove(live - {b}, b.order, b.index)
    ensures !SaturatedNode(live - {b}, b.order, b.index)
  {
    if SaturatedNode(live - {b}, b.order, b.index) {
      SaturatedIsDirty(live - {b}, b.order, b.index);
      assert false;
    }
  }
}
