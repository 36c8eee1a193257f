/**
 * The older page allocator as a value: one bit per aligned group of pages at each
 * of 13 orders, measured against the plain set of used pages.
 */
module PageBitmaps {
  import opened Machine
  import opened PageSets
  import opened Shifts
  import opened BuddyPaths
  import opened BuddyGeometry

  const NB_ORDERS: nat := 13

  /** Orders that have a bitmap: the source stops at the first order without a bit. */
  function Levels(n: nat): nat {
    if Orders(n) < NB_ORDERS then Orders(n) else NB_ORDERS
  }

  /** Every bitmap, sized by the floor count, has room for the partial group at the end. */
  ghost predicate RoomBelow(n: nat) {
    forall o :: 0 <= o < Levels(n) ==> OrderBits(n, o) <= WORD_BITS * OrderWords(n, o)
  }

  /** As for the other allocator, and for its exact condition: no order in use is short. */
  lemma RoomBelowExact(n: nat)
    requires n > 0
    ensures RoomBelow(n) <==> forall o :: 0 <= o < Levels(n) ==> !Short(n, o)
  {
    hide OrderBits, OrderWords, Short, Orders;
    forall o | 0 <= o < Levels(n)
      ensures Short(n, o) <==> !(OrderBits(n, o) <= WORD_BITS * OrderWords(n, o))
    {
      RoomShort(n, o);
    }
  }

  ghost predicate Sized(n: nat, p: Pyramid) {
    && Tracked(n) && RoomBelow(n)
    && |p| == Levels(n)
    && forall o :: 0 <= o < |p| ==> |p[o]| == WORD_BITS * OrderWords(n, o)
  }

  /** Some page of group n of order o is used. */
  predicate GroupUsed(used: set<nat>, o: nat, n: nat) {
    exists p :: p in used && Shr(p, o) == n
  }

  /** A bit is set exactly when some page of its group is used. */
  ghost predicate Exact(p: Pyramid, used: set<nat>) {
    forall o, n :: 0 <= o < |p| && 0 <= n < |p[o]| ==> (p[o][n] <==> GroupUsed(used, o, n))
  }

  /** The groups of order o that meet a range, counted. */
  function Touched(block: nat, nb: nat, o: nat): (c: nat)
  {
    if nb == 0 then 0
    else
      ShrMono(block, block + nb - 1, o);
      Shr(block + nb - 1, o) - Shr(block, o) + 1
  }

  /** They are exactly those from block >> o on. */
  lemma TouchedGroups(block: nat, nb: nat, o: nat, n: nat)
    ensures GroupUsed(Range(block, nb), o, n) <==> Shr(block, o) <= n < Shr(block, o) + Touched(block, nb, o)
  {
    if nb > 0 {
      var last := block + nb - 1;
      if p :| p in Range(block, nb) && Shr(p, o) == n {
        ShrMono(block, p, o);
        ShrMono(p, last, o);
      }
      if Shr(block, o) <= n <= Shr(last, o) {
        ShrInterval(block, o, n);
        ShrInterval(last, o, n);
        ShrInterval(Shl(n, o), o, n);
        ShlLess(n, o);
        ShrInterval(block, o, Shr(block, o));
        ShrInterval(last, o, Shr(last, o));
        ShlMono(n, Shr(last, o), o);
        ShlMono(Shr(block, o), n, o);
        if Shl(n, o) < block {
          ShrMono(Shl(n, o), block, o);
          assert Shr(block, o) == n;
          assert block in Range(block, nb);
        } else {
          assert Shl(n, o) in Range(block, nb);
        }
      }
    }
  }

  /* ---- buddy_set_used ---- */

  function FillRow(row: seq<bool>, block: nat, bits: nat, v: bool): (r: seq<bool>)
    ensures |r| == |row|
    ensures forall n :: 0 <= n < |row| ==> r[n] == if block <= n < block + bits then v else row[n]
  {
    seq(|row|, n requires 0 <= n < |row| => if block <= n < block + bits then v else row[n])
  }

  function SetUsed(p: Pyramid, o: nat, block: nat, bits: nat): (r: Pyramid)
    ensures SameShape(p, r)
    decreases |p| - o
  {
    if o >= |p| then p
    else SetUsed(p[o := FillRow(p[o], block, bits, true)], o + 1, block / 2, (bits + 1) / 2)
  }

  /** Halving the range follows the touched groups as long as an odd start meets at most one group. */
  predicate Smooth(block: nat, nb: nat, orders: nat) {
    forall o :: 0 <= o < orders ==> Shr(block, o) % 2 == 0 || Touched(block, nb, o) <= 1
  }

  lemma TouchedHalf(block: nat, nb: nat, o: nat)
    requires Shr(block, o) % 2 == 0 || Touched(block, nb, o) <= 1
    ensures (Touched(block, nb, o) + 1) / 2 == Touched(block, nb, o + 1)
  {
    ShrStep(block, o);
    if nb > 0 {
      ShrStep(block + nb - 1, o);
      ShrMono(block, block + nb - 1, o);
    }
  }

  /** Rows below o show `after`, rows from o on still show `before`. */
  ghost predicate HalfExact(p: Pyramid, o: nat, before: set<nat>, after: set<nat>) {
    forall q, n :: 0 <= q < |p| && 0 <= n < |p[q]| ==>
      (p[q][n] <==> GroupUsed(if q < o then after else before, q, n))
  }

  lemma GroupUsedUnion(a: set<nat>, b: set<nat>, o: nat, n: nat)
    ensures GroupUsed(a + b, o, n) <==> GroupUsed(a, o, n) || GroupUsed(b, o, n)
  {
    if p :| p in a && Shr(p, o) == n {
      assert p in a + b;
    }
    if p :| p in b && Shr(p, o) == n {
      assert p in a + b;
    }
  }

  lemma {:induction false} SetUsedHalf(p: Pyramid, used: set<nat>, block: nat, nb: nat, o: nat)
    requires Smooth(block, nb, |p|)
    requires HalfExact(p, o, used, used + Range(block, nb))
    ensures Exact(SetUsed(p, o, Shr(block, o), Touched(block, nb, o)), used + Range(block, nb))
    decreases |p| - o
  {
    if o < |p| {
      var after := used + Range(block, nb);
      var b, c := Shr(block, o), Touched(block, nb, o);
      var p1 := p[o := FillRow(p[o], b, c, true)];
      forall n | 0 <= n < |p1[o]|
        ensures p1[o][n] <==> GroupUsed(after, o, n)
      {
        GroupUsedUnion(used, Range(block, nb), o, n);
        TouchedGroups(block, nb, o, n);
      }
      assert HalfExact(p1, o + 1, used, after);
      TouchedHalf(block, nb, o);
      ShrStep(block, o);
      SetUsedHalf(p1, used, block, nb, o + 1);
    }
  }

  lemma NothingDone(p: Pyramid, before: set<nat>, after: set<nat>)
    requires Exact(p, before)
    ensures HalfExact(p, 0, before, after)
  {
    hide GroupUsed;
  }

  lemma TouchedAll(block: nat, nb: nat)
    ensures Shr(block, 0) == block && Touched(block, nb, 0) == nb
  {
  }

  /** Marking a smooth range used keeps every bit of every order exact. */
  lemma SetUsedExact(p: Pyramid, used: set<nat>, block: nat, nb: nat)
    requires Exact(p, used) && Smooth(block, nb, |p|)
    ensures Exact(SetUsed(p, 0, block, nb), used + Range(block, nb))
  {
    hide GroupUsed, Smooth, SetUsed;
    NothingDone(p, used, used + Range(block, nb));
    TouchedAll(block, nb);
    SetUsedHalf(p, used, block, nb, 0);
  }

  /** A range that an aligned block of order k holds. */
  predicate Aligned(block: nat, nb: nat, k: nat) {
    Shl(Shr(block, k), k) == block && nb <= Pow2(k)
  }

  lemma AlignedEven(block: nat, k: nat, o: nat)
    requires Shl(Shr(block, k), k) == block && o < k
    ensures Shr(block, o) % 2 == 0
    ensures Shl(Shr(block, o), o) == block
  {
    var c := Shr(block, k);
    ShlSplit(c, k - o, o);
    ShrShl(Shl(c, k - o), o);
    ShlDouble(c, k - o - 1);
  }

  lemma {:induction false} ShlSplit(x: nat, a: nat, b: nat)
    ensures Shl(x, a + b) == Shl(Shl(x, a), b)
    decreases a
  {
    if a > 0 {
      ShlSplit(2 * x, a - 1, b);
    }
  }

  lemma AlignedOne(block: nat, nb: nat, k: nat, o: nat)
    requires Aligned(block, nb, k) && k <= o
    ensures Touched(block, nb, o) <= 1
  {
    if nb > 0 {
      ShrInterval(block, k, Shr(block, k));
      ShlLess(Shr(block, k), k);
      ShrInterval(block + nb - 1, k, Shr(block, k));
      ShrAdd(block, k, o - k);
      ShrAdd(block + nb - 1, k, o - k);
    }
  }

  lemma AlignedSmooth(block: nat, nb: nat, k: nat, orders: nat)
    requires Aligned(block, nb, k)
    ensures Smooth(block, nb, orders)
  {
    forall o | 0 <= o < orders
      ensures Shr(block, o) % 2 == 0 || Touched(block, nb, o) <= 1
    {
      if o < k {
        AlignedEven(block, k, o);
      } else {
        AlignedOne(block, nb, k, o);
      }
    }
  }

  lemma ZeroSmooth(nb: nat, orders: nat)
    ensures Smooth(0, nb, orders)
  {
    forall o | 0 <= o < orders
      ensures Shr(0, o) % 2 == 0
    {
      ShrZero(o);
    }
  }

  /* ---- buddy_free ---- */

  /** Clear the groups wholly inside the range, order by order, until none is left. */
  function ClearInside(p: Pyramid, o: nat, block: nat, bits: nat): (r: Pyramid)
    ensures SameShape(p, r)
    decreases |p| - o
  {
    if o >= |p| then p
    else
      var p1 := p[o := FillRow(p[o], block, bits, false)];
      if bits / 2 == 0 then p1 else ClearInside(p1, o + 1, block / 2, bits / 2)
  }

  /** One sweep of buddy_join_free: groups whose two halves are both clear become clear. */
  function JoinRow(lower: seq<bool>, upper: seq<bool>, b: nat, last: nat): (r: seq<bool>)
    requires last < |lower| && |lower| % 2 == 0 && b % 2 == 0
    requires last / 2 < |upper|
    ensures |r| == |upper|
    ensures forall n :: 0 <= n < |upper| ==>
      r[n] == if b <= 2 * n <= last && !lower[2 * n] && !lower[2 * n + 1] then false else upper[n]
    decreases last + 2 - b
  {
    if b > last then upper
    else JoinRow(lower, if !lower[b] && !lower[b + 1] then upper[b / 2 := false] else upper, b + 2, last)
  }

  /** The shape that the sweep needs: even rows, each with a bit for the last page's group. */
  predicate Sweepable(p: Pyramid, o: nat, last: nat) {
    forall q :: o <= q < |p| ==> |p[q]| % 2 == 0 && Shr(last, q - o) < |p[q]|
  }

  predicate EvenStart(first: nat, m: int) {
    forall q :: 0 <= q < m ==> Shr(first, q) % 2 == 0
  }

  /** buddy_join_free */
  function JoinFree(p: Pyramid, o: nat, first: nat, last: nat): (r: Pyramid)
    requires Sweepable(p, o, last) && EvenStart(first, |p| - 1 - o)
    ensures SameShape(p, r)
    decreases |p| - o
  {
    if o + 1 >= |p| then p
    else
      SweepNext(p, o, last);
      StartNext(first, |p| - 1 - o);
      var p1 := p[o + 1 := JoinRow(p[o], p[o + 1], first, last)];
      JoinFree(p1, o + 1, first / 2, last / 2)
  }

  lemma SweepNext(p: Pyramid, o: nat, last: nat)
    requires Sweepable(p, o, last) && o + 1 < |p|
    ensures last < |p[o]| && last / 2 < |p[o + 1]|
    ensures Sweepable(p, o + 1, last / 2)
  {
    assert Shr(last, o - o) == last && Shr(last, o + 1 - o) == Shr(last / 2, 0);
    forall q | o + 1 <= q < |p|
      ensures Shr(last / 2, q - (o + 1)) < |p[q]|
    {
      assert Shr(last, q - o) == Shr(last / 2, q - (o + 1));
    }
  }

  lemma StartNext(first: nat, m: nat)
    requires EvenStart(first, m) && m > 0
    ensures first % 2 == 0 && EvenStart(first / 2, m - 1)
  {
    assert Shr(first, 0) == first;
    forall q | 0 <= q < m - 1
      ensures Shr(first / 2, q) % 2 == 0
    {
      assert Shr(first, q + 1) == Shr(first / 2, q);
    }
  }

  /** Bits from row o on are set where a page is still used, and only where one was used before. */
  ghost predicate Between(p: Pyramid, o: nat, after: set<nat>, before: set<nat>) {
    forall q, n :: o <= q < |p| && 0 <= n < |p[q]| ==>
      (GroupUsed(after, q, n) ==> p[q][n]) && (p[q][n] ==> GroupUsed(before, q, n))
  }

  ghost predicate RowExact(row: seq<bool>, o: nat, used: set<nat>) {
    forall n :: 0 <= n < |row| ==> (row[n] <==> GroupUsed(used, o, n))
  }

  lemma GroupUsedLess(a: set<nat>, b: set<nat>, o: nat, n: nat)
    requires a <= b && GroupUsed(a, o, n)
    ensures GroupUsed(b, o, n)
  {
    var p :| p in a && Shr(p, o) == n;
    assert p in b;
  }

  /** The groups that a free clears hold freed pages only. */
  lemma GroupInside(block: nat, nb: nat, k: nat, o: nat, n: nat, q: nat)
    requires Aligned(block, nb, k) && o <= k
    requires Shr(block, o) <= n < Shr(block, o) + Shr(nb, o) && Shr(q, o) == n
    ensures q in Range(block, nb)
  {
    hide Shr, Shl, Pow2;
    var b, c := Shr(block, o), Shr(nb, o);
    if o < k {
      AlignedEven(block, k, o);
    }
    ShrInterval(q, o, n);
    ShlMono(b, n, o);
    ShlMono(n + 1, b + c, o);
    ShrInterval(nb, o, c);
    ShlAdd(b, c, o);
  }

  lemma {:induction false} ShlAdd(a: nat, b: nat, k: nat)
    ensures Shl(a + b, k) == Shl(a, k) + Shl(b, k)
    decreases k
  {
    if k > 0 {
      ShlAdd(2 * a, 2 * b, k - 1);
    }
  }

  lemma {:induction false} SmallShift(nb: nat, k: nat, o: nat)
    requires nb <= Pow2(k) && Shr(nb, o) > 0
    ensures o <= k
    decreases o
  {
    if o > 0 {
      if k > 0 {
        SmallShift(nb / 2, k - 1, o - 1);
      } else {
        ShrZero(o - 1);
      }
    }
  }

  lemma {:induction false} ClearInsideBetween(p: Pyramid, used: set<nat>, block: nat, nb: nat, k: nat, o: nat)
    requires Aligned(block, nb, k) && o <= k
    requires forall q :: o <= q < |p| ==> RowExact(p[q], q, used)
    ensures var r := ClearInside(p, o, Shr(block, o), Shr(nb, o));
            && Between(r, o, used - Range(block, nb), used)
            && (forall q :: 0 <= q < o && q < |p| ==> r[q] == p[q])
    decreases |p| - o
  {
    if o < |p| {
      var after := used - Range(block, nb);
      var b, c := Shr(block, o), Shr(nb, o);
      var p1 := p[o := FillRow(p[o], b, c, false)];
      forall n | 0 <= n < |p1[o]|
        ensures (GroupUsed(after, o, n) ==> p1[o][n]) && (p1[o][n] ==> GroupUsed(used, o, n))
      {
        if q :| q in after && Shr(q, o) == n {
          assert q in used;
          assert b <= n < b + c ==> q in Range(block, nb) by {
            if b <= n < b + c {
              GroupInside(block, nb, k, o, n, q);
            }
          }
        }
      }
      ShrStep(block, o);
      ShrStep(nb, o);
      if c / 2 == 0 {
        StillBetween(p1, o + 1, after, used);
      } else {
        SmallShift(nb, k, o + 1);
        ClearInsideBetween(p1, used, block, nb, k, o + 1);
      }
    }
  }

  lemma StillBetween(p: Pyramid, o: nat, after: set<nat>, used: set<nat>)
    requires after <= used && forall q :: o <= q < |p| ==> RowExact(p[q], q, used)
    ensures Between(p, o, after, used)
  {
    forall q, n | o <= q < |p| && 0 <= n < |p[q]| && GroupUsed(after, q, n)
      ensures p[q][n]
    {
      GroupUsedLess(after, used, q, n);
    }
  }

  lemma GroupUsedHalves(used: set<nat>, o: nat, n: nat)
    ensures GroupUsed(used, o + 1, n) <==> GroupUsed(used, o, 2 * n) || GroupUsed(used, o, 2 * n + 1)
  {
    if p :| p in used && Shr(p, o + 1) == n {
      ShrStep(p, o);
      assert Shr(p, o) == 2 * n || Shr(p, o) == 2 * n + 1;
    }
    if p :| p in used && Shr(p, o) == 2 * n {
      ShrStep(p, o);
    }
    if p :| p in used && Shr(p, o) == 2 * n + 1 {
      ShrStep(p, o);
    }
  }

  /** Outside the window of groups that hold freed pages nothing changed. */
  lemma OutsideWindow(after: set<nat>, before: set<nat>, first: nat, last: nat, o: nat, n: nat)
    requires forall p :: p in before - after ==> first <= p <= last
    requires n < Shr(first, o) || Shr(last, o) < n
    ensures GroupUsed(before, o, n) ==> GroupUsed(after, o, n)
  {
    if p :| p in before && Shr(p, o) == n {
      if p in before - after {
        ShrMono(first, p, o);
        ShrMono(p, last, o);
        assert false;
      }
    }
  }

  /** The bottom-up sweep makes every order exact again. */
  lemma {:induction false} JoinExact(p: Pyramid, after: set<nat>, before: set<nat>, o: nat, first: nat, last: nat)
    requires Sweepable(p, o, Shr(last, o)) && EvenStart(Shr(first, o), |p| - 1 - o)
    requires after <= before && forall x :: x in before - after ==> first <= x <= last
    requires o < |p| && RowExact(p[o], o, after)
    requires Between(p, o + 1, after, before)
    ensures var r := JoinFree(p, o, Shr(first, o), Shr(last, o));
            && (forall q :: o <= q < |p| ==> RowExact(r[q], q, after))
            && (forall q :: 0 <= q < o ==> r[q] == p[q])
    decreases |p| - o
  {
    if o + 1 < |p| {
      var f, l := Shr(first, o), Shr(last, o);
      SweepNext(p, o, l);
      StartNext(f, |p| - 1 - o);
      ShrStep(first, o);
      ShrStep(last, o);
      var row := JoinRow(p[o], p[o + 1], f, l);
      var p1 := p[o + 1 := row];
      forall n | 0 <= n < |row|
        ensures row[n] <==> GroupUsed(after, o + 1, n)
      {
        GroupUsedHalves(after, o, n);
        if !(f <= 2 * n <= l) {
          OutsideWindow(after, before, first, last, o + 1, n);
        }
      }
      JoinExact(p1, after, before, o + 1, first, last);
    }
  }

  /* ---- Free ---- */

  const MULTIPLE: nat := 4096

  function SweepFirst(block: nat): nat {
    block / MULTIPLE * MULTIPLE
  }

  /** The last page to sweep, in unsigned arithmetic. */
  function SweepLast(n: nat, block: nat, nb: nat): (l: nat)
    requires n > 0
    ensures l < n
  {
    var l := ((block + nb + (MULTIPLE - 1)) / MULTIPLE * MULTIPLE - 1) % WORD_MODULUS;
    if l < n - 1 then l else n - 1
  }

  lemma FirstEven(block: nat, m: int)
    requires m <= 12
    ensures EvenStart(SweepFirst(block), m)
  {
    var first := SweepFirst(block);
    forall q | 0 <= q < m
      ensures Shr(first, q) % 2 == 0
    {
      TwelveBits();
      ShlPow(block / MULTIPLE, 12);
      ShrShl(block / MULTIPLE, 12);
      AlignedEven(first, 12, q);
    }
  }

  lemma TwelveBits()
    ensures Pow2(12) == MULTIPLE
  {
    assert Pow2(6) == 64;
  }

  lemma RowLength(n: nat, p: Pyramid, q: nat)
    requires Sized(n, p) && q < |p|
    ensures |p[q]| % 2 == 0 && OrderBits(n, q) <= |p[q]| && n > 0
  {
    hide OrderWords, OrderBits, Orders;
    assert |p[q]| == 2 * (16 * OrderWords(n, q));
  }

  lemma LastInRows(n: nat, p: Pyramid, last: nat)
    requires Sized(n, p) && last < n
    ensures Sweepable(p, 0, last)
  {
    hide OrderWords, OrderBits, Shr, Orders, Tracked, RoomBelow;
    forall q | 0 <= q < |p|
      ensures |p[q]| % 2 == 0 && Shr(last, q - 0) < |p[q]|
    {
      RowLength(n, p, q);
      PageCounted(n, q, last);
    }
  }

  /** buddy_free */
  function BuddyFree(p: Pyramid, n: nat, block: nat, nb: nat): (r: Pyramid)
    requires Sized(n, p)
    ensures Sized(n, r)
  {
    var p1 := ClearInside(p, 0, block, nb);
    LastInRows(n, p1, SweepLast(n, block, nb));
    FirstEven(block, |p1| - 1);
    JoinFree(p1, 0, SweepFirst(block), SweepLast(n, block, nb))
  }

  /** Freeing an aligned range: every bit of every order is exact again. */
  lemma BuddyFreeExact(p: Pyramid, n: nat, used: set<nat>, block: nat, nb: nat, k: nat)
    requires Sized(n, p) && Exact(p, used)
    requires Aligned(block, nb, k) && block + nb <= n
    ensures Exact(BuddyFree(p, n, block, nb), used - Range(block, nb))
  {
    hide RoomBelow, OrderWords, Exact, RowExact, Between, Sweepable, EvenStart, JoinFree, ClearInside, Aligned, SweepFirst,
      SweepLast;
    var after := used - Range(block, nb);
    assert Shr(block, 0) == block && Shr(nb, 0) == nb;
    ExactRows(p, used);
    ClearInsideBetween(p, used, block, nb, k, 0);
    var p1 := ClearInside(p, 0, block, nb);
    var first, last := SweepFirst(block), SweepLast(n, block, nb);
    LastInRows(n, p1, last);
    FirstEven(block, |p1| - 1);
    SweepCovers(n, block, nb);
    if |p1| > 0 {
      FirstRowExact(p, used, block, nb);
      assert Shr(first, 0) == first && Shr(last, 0) == last;
      JoinExact(p1, after, used, 0, first, last);
      RowsExact(BuddyFree(p, n, block, nb), after);
    }
  }

  lemma ExactRows(p: Pyramid, used: set<nat>)
    requires Exact(p, used)
    ensures forall q :: 0 <= q < |p| ==> RowExact(p[q], q, used)
  {
  }

  lemma RowsExact(p: Pyramid, used: set<nat>)
    requires forall q :: 0 <= q < |p| ==> RowExact(p[q], q, used)
    ensures Exact(p, used)
  {
  }

  /** The freed pages lie between the first and the last page swept. */
  lemma SweepCovers(n: nat, block: nat, nb: nat)
    requires Tracked(n) && block + nb <= n
    ensures forall x :: x in Range(block, nb) ==> SweepFirst(block) <= x <= SweepLast(n, block, nb)
  {
    if nb > 0 {
      var l := (block + nb + (MULTIPLE - 1)) / MULTIPLE * MULTIPLE - 1;
      assert block + nb - 1 <= l < WORD_MODULUS;
    }
  }

  /** The lowest row holds single pages: clearing the range makes it exact at once. */
  lemma FirstRowExact(p: Pyramid, used: set<nat>, block: nat, nb: nat)
    requires |p| > 0 && Exact(p, used)
    ensures RowExact(ClearInside(p, 0, block, nb)[0], 0, used - Range(block, nb))
  {
    var row := FillRow(p[0], block, nb, false);
    var p1 := p[0 := row];
    if nb / 2 != 0 {
      ClearInsideBelow(p1, 1, block / 2, nb / 2, 0);
    }
    forall n | 0 <= n < |row|
      ensures row[n] <==> GroupUsed(used - Range(block, nb), 0, n)
    {
      SinglePage(used, n);
      SinglePage(used - Range(block, nb), n);
    }
  }

  lemma SinglePage(used: set<nat>, n: nat)
    ensures GroupUsed(used, 0, n) <==> n in used
  {
    if n in used {
      assert Shr(n, 0) == n;
    }
  }

  lemma {:induction false} ClearInsideBelow(p: Pyramid, o: nat, block: nat, bits: nat, q: nat)
    requires q < o && q < |p|
    ensures ClearInside(p, o, block, bits)[q] == p[q]
    decreases |p| - o
  {
    if o < |p| && bits / 2 != 0 {
      ClearInsideBelow(p[o := FillRow(p[o], block, bits, false)], o + 1, block / 2, bits / 2, q);
    }
  }

  /* ---- buddy_alloc ---- */

  /** buddy_order: the least order whose block holds the request, or NB_ORDERS for none. */
  function BuddyOrder(nb: nat, i: nat): (r: nat)
    requires i <= NB_ORDERS
    ensures i <= r <= NB_ORDERS
    decreases NB_ORDERS - i
  {
    if i == NB_ORDERS || Pow2(i) >= nb then i else BuddyOrder(nb, i + 1)
  }

  lemma {:induction false} BuddyOrderLeast(nb: nat, i: nat)
    requires i <= NB_ORDERS && forall o :: 0 <= o < i ==> Pow2(o) < nb
    ensures var r := BuddyOrder(nb, i);
            (r < NB_ORDERS ==> Pow2(r) >= nb) && forall o :: 0 <= o < r ==> Pow2(o) < nb
    decreases NB_ORDERS - i
  {
    if i < NB_ORDERS && Pow2(i) < nb {
      BuddyOrderLeast(nb, i + 1);
    }
  }

  /** A request is refused outright exactly when it exceeds the largest block, of 4096 pages. */
  lemma LargestRequest(nb: nat)
    ensures BuddyOrder(nb, 0) < 13 <==> nb <= 4096
    ensures BuddyOrder(nb, 0) <= 13 == NB_ORDERS
  {
    BuddyOrderLeast(nb, 0);
    assert Pow2(12) == 4096 by {
      assert Pow2(6) == 64;
    }
    if BuddyOrder(nb, 0) < 13 {
      Pow2Mono(BuddyOrder(nb, 0), 12);
    }
  }

  /** The first clear bit of a row below `bits`, or `bits` if there is none. */
  function FirstClear(row: seq<bool>, bit: nat, bits: nat): (r: nat)
    requires bit <= bits <= |row|
    ensures bit <= r <= bits
    ensures r < bits ==> !row[r]
    ensures forall n :: bit <= n < r ==> row[n]
    decreases bits - bit
  {
    if bit == bits || !row[bit] then bit else FirstClear(row, bit + 1, bits)
  }

  /** buddy_alloc: the block taken, or -1. */
  function BuddyAllocate(p: Pyramid, n: nat, nb: nat): (r: (Pyramid, int))
    requires Sized(n, p)
    ensures Sized(n, r.0)
  {
    var order := BuddyOrder(nb, 0);
    var none: (Pyramid, int) := (p, -1);
    if order >= |p| then none
    else
      var g := FirstClear(p[order], 0, Shr(n, order));
      if g == Shr(n, order) then none
      else (SetUsed(p, 0, Shl(g, order), nb), Shl(g, order))
  }

  /** All pages of an aligned group are free. */
  predicate GroupFree(used: set<nat>, o: nat, g: nat) {
    forall p :: p in used ==> Shr(p, o) != g
  }

  /**
   * buddy_alloc returns the lowest wholly free aligned group of the least sufficient order, and fails
   * exactly when no such group lies inside the heap.
   */
  lemma BuddyAllocateExact(p: Pyramid, n: nat, used: set<nat>, nb: nat)
    requires Sized(n, p) && Exact(p, used)
    ensures var order := BuddyOrder(nb, 0);
            var (r, block) := BuddyAllocate(p, n, nb);
            if block == -1 then
              && r == p
              && (order < NB_ORDERS ==> forall g :: 0 <= g < Shr(n, order) ==> !GroupFree(used, order, g))
            else
              && order < NB_ORDERS && block >= 0 && nb <= Pow2(order)
              && block == Shl(Shr(block, order), order) && block + Pow2(order) <= n
              && GroupFree(used, order, Shr(block, order))
              && (forall g :: 0 <= g < Shr(block, order) ==> !GroupFree(used, order, g))
              && Exact(r, used + Range(block, nb))
  {
    hide RoomBelow, OrderWords, Exact, GroupFree, FirstClear, SetUsed, BuddyOrder, Smooth, Tracked;
    var order := BuddyOrder(nb, 0);
    BuddyOrderLeast(nb, 0);
    if order >= |p| {
      if order < NB_ORDERS {
        NoWholeBlock(n, order);
      }
    } else {
      var bits := Shr(n, order);
      var row := p[order];
      RowTells(p, used, order);
      FloorFits(n, order);
      var g := FirstClear(row, 0, bits);
      if g < bits {
        ShrShl(g, order);
        ShlLess(g, order);
        ShlMono(g + 1, bits, order);
        ShrInterval(n, order, bits);
        AlignedSmooth(Shl(g, order), nb, order, |p|);
        SetUsedExact(p, used, Shl(g, order), nb);
      }
    }
  }

  lemma FloorFits(n: nat, order: nat)
    ensures Shr(n, order) <= WORD_BITS * OrderWords(n, order)
  {
  }

  lemma RowTells(p: Pyramid, used: set<nat>, order: nat)
    requires Exact(p, used) && order < |p|
    ensures forall g :: 0 <= g < |p[order]| ==> (p[order][g] <==> !GroupFree(used, order, g))
  {
    forall g | 0 <= g < |p[order]|
      ensures p[order][g] <==> !GroupFree(used, order, g)
    {
      assert p[order][g] <==> GroupUsed(used, order, g);
    }
  }

  lemma NoWholeBlock(n: nat, order: nat)
    requires Tracked(n) && Levels(n) <= order < NB_ORDERS
    ensures Shr(n, order) == 0
  {
    OrdersPositive(n);
    ShrAdd(n, Orders(n), order - Orders(n));
    ShrZero(order - Orders(n));
  }
}
