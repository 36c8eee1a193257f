/** How many orders a heap has, how many bits each order needs and how many words it gets. */
module BuddyGeometry {
  import opened Machine
  import opened Shifts
  import opened BuddyTree

  /** The number of orders: the last one still has a whole block, a further one would not. */
  function Orders(n: nat): nat {
    if n == 0 then 0 else 1 + Orders(n / 2)
  }

  /** The number of words that hold so many bits. */
  function WordsFor(bits: nat): (w: nat)
    ensures bits <= WORD_BITS * w
  {
    if bits == 0 then 0
    else if bits <= WORD_BITS then 1
    else 1 + WordsFor(bits - WORD_BITS)
  }

  /** WordsFor is ALIGN_U(bits, WORD_BITS) / WORD_BITS. */
  lemma {:induction false} WordsForIsRoundUp(bits: nat)
    ensures WordsFor(bits) == (bits + (WORD_BITS - 1)) / WORD_BITS
  {
    if bits > WORD_BITS {
      WordsForIsRoundUp(bits - WORD_BITS);
    }
  }

  /** Words of an order's table: room for its floor bit count. */
  function OrderWords(n: nat, order: nat): nat {
    WordsFor(Shr(n, order))
  }

  /** !!(n % (1 << order)): the heap ends inside a block of this order. */
  predicate Partial(n: nat, order: nat)
    decreases order
  {
    order > 0 && (n % 2 == 1 || Partial(n / 2, order - 1))
  }

  /** buddy_order_bits: the ceiling bit count of an order. */
  function OrderBits(n: nat, order: nat): nat {
    Shr(n, order) + if Partial(n, order) then 1 else 0
  }

  /** A page count this allocator can track on a 32-bit machine. */
  predicate Tracked(n: nat) {
    0 < n < 0x10_0000
  }

  /** Every table, sized by the floor count, has room for the ceiling count. */
  predicate Room(n: nat) {
    forall o :: 0 <= o < Orders(n) ==> OrderBits(n, o) <= WORD_BITS * OrderWords(n, o)
  }

  predicate IsPow2(n: nat) {
    Orders(n) > 0 && n == Pow2(Orders(n) - 1)
  }

  /** Order of the smallest block of which the heap holds only a part. */
  function TailOrder(n: nat): (f: nat)
    requires n > 0
    ensures f > 0
  {
    if n % 2 == 1 then 1 else 1 + TailOrder(n / 2)
  }

  /** The partly populated block at the end of the heap, if some order has one. */
  function Tail(n: nat): set<Block>
    requires n > 0
  {
    if TailOrder(n) < Orders(n) then {Block(TailOrder(n), Shr(n, TailOrder(n)))} else {}
  }

  lemma OrdersPositive(n: nat)
    requires Tracked(n)
    ensures 0 < Orders(n) <= 20
    ensures Shr(n, Orders(n) - 1) == 1
    ensures Shr(n, Orders(n)) == 0
  {
    OrdersEdge(n);
    assert Pow2(20) == 0x10_0000 by {
      assert Pow2(10) == 1024;
    }
    OrdersBound(n, 20);
  }

  lemma {:induction false} OrdersEdge(n: nat)
    requires n > 0
    ensures Shr(n, Orders(n) - 1) == 1 && Shr(n, Orders(n)) == 0
  {
    if n > 1 {
      OrdersEdge(n / 2);
    }
  }

  lemma {:induction false} OrdersBound(n: nat, k: nat)
    requires n < Pow2(k)
    ensures Orders(n) <= k
    decreases k
  {
    if n > 0 {
      OrdersBound(n / 2, k - 1);
    }
  }

  lemma {:induction false} ShrZero(k: nat)
    ensures Shr(0, k) == 0
  {
    if k != 0 {
      ShrZero(k - 1);
    }
  }

  lemma {:induction false} OrdersAbove(n: nat, k: nat)
    ensures Shr(n, k) == 0 <==> Orders(n) <= k
  {
    if n == 0 {
      ShrZero(k);
    } else if k > 0 {
      OrdersAbove(n / 2, k - 1);
    }
  }

  /** The heap ends on a block boundary exactly below the tail order. */
  lemma {:induction false} WholeBelowTail(n: nat, o: nat)
    requires n > 0
    ensures Partial(n, o) <==> o >= TailOrder(n)
  {
    if o > 0 {
      if n % 2 == 0 {
        WholeBelowTail(n / 2, o - 1);
      }
    }
  }

  /** Partial is the remainder test of the source. */
  lemma {:induction false} PartialIsRemainder(n: nat, o: nat)
    ensures Partial(n, o) <==> n % Pow2(o) != 0
    decreases o
  {
    if o > 0 {
      ModHalf(n, o - 1);
      PartialIsRemainder(n / 2, o - 1);
    }
  }

  lemma ModHalf(n: nat, k: nat)
    ensures n % Pow2(k + 1) == 0 <==> n % 2 == 0 && (n / 2) % Pow2(k) == 0
  {
    var d := Pow2(k);
    var e := Pow2(k + 1);
    if n % e == 0 {
      var c := Quotient(n, e);
      Reassociate(c, d);
      IsMultiple(n / 2, c, d);
    }
    if n % 2 == 0 && (n / 2) % d == 0 {
      var c := Quotient(n / 2, d);
      Reassociate(c, d);
      IsMultiple(n, c, e);
    }
  }

  lemma Reassociate(c: nat, d: nat)
    ensures c * (2 * d) == 2 * (c * d)
  {
  }

  lemma Quotient(n: nat, d: nat) returns (c: nat)
    requires d > 0 && n % d == 0
    ensures n == c * d
  {
    c := n / d;
  }

  lemma IsMultiple(n: nat, c: nat, d: nat)
    requires d > 0 && n == c * d
    ensures n % d == 0
  {
    DivUnique(n, d, c);
    assert n == (n / d) * d + n % d;
  }

  /** The ceiling bit count is one more than the index of the block holding the last page. */
  lemma {:induction false} OrderBitsLast(n: nat, o: nat)
    requires n > 0
    ensures OrderBits(n, o) == Shr(n - 1, o) + 1
  {
    if o > 0 {
      if n % 2 == 0 {
        OrderBitsLast(n / 2, o - 1);
        assert (n - 1) / 2 == n / 2 - 1;
      } else {
        assert (n - 1) / 2 == n / 2;
      }
    }
  }

  lemma BitsBound(n: nat, o: nat)
    requires n > 0
    ensures OrderBits(n, o) <= n
  {
    OrderBitsLast(n, o);
    ShrBound(n - 1, o);
  }

  lemma {:induction false} ShrBound(x: nat, k: nat)
    ensures Shr(x, k) <= x
  {
    if k > 0 {
      ShrBound(x / 2, k - 1);
    }
  }

  /** Page p < n lies in a block that order o counts; the parent of a counted block is counted. */
  lemma OrderBitsUp(n: nat, o: nat, m: nat)
    requires n > 0 && m < OrderBits(n, o)
    ensures m / 2 < OrderBits(n, o + 1)
  {
    OrderBitsLast(n, o);
    OrderBitsLast(n, o + 1);
    ShrStep(n - 1, o);
  }

  lemma PageCounted(n: nat, o: nat, p: nat)
    requires p < n
    ensures Shr(p, o) < OrderBits(n, o)
  {
    OrderBitsLast(n, o);
    ShrMono(p, n - 1, o);
  }

  /** A counted block that is not part of the tail lies wholly inside the heap, and no other does. */
  lemma CountedContained(n: nat, o: nat, m: nat)
    requires n > 0 && m < OrderBits(n, o)
    ensures Shl(m + 1, o) <= n <==> !(o >= TailOrder(n) && m == Shr(n, o))
  {
    WholeBelowTail(n, o);
    var k := Shr(n, o);
    ShrInterval(n, o, k);
    if m < k {
      ShlMono(m + 1, k, o);
    }
  }

  /** The tail of a heap whose page count is no power of two is a real node. */
  lemma TailAncestor(n: nat, o: nat)
    requires n > 0 && o >= TailOrder(n)
    ensures Within(Block(TailOrder(n), Shr(n, TailOrder(n))), o, Shr(n, o))
  {
    ShrAdd(n, TailOrder(n), o - TailOrder(n));
  }

  lemma TopSpan(n: nat)
    requires Tracked(n)
    ensures Orders(n) > 0
    ensures Pow2(Orders(n) - 1) <= n < 2 * Pow2(Orders(n) - 1)
  {
    OrdersPositive(n);
    var k := Orders(n) - 1;
    ShrInterval(n, k, 1);
    ShlPow(1, k);
    ShlPow(2, k);
  }

  /** IsPow2 says what its name says. */
  lemma PowersOfTwo(n: nat)
    requires Tracked(n)
    ensures IsPow2(n) <==> exists k :: n == Pow2(k)
  {
    TopSpan(n);
    if k: nat :| n == Pow2(k) {
      if k < Orders(n) - 1 {
        Pow2Mono(k + 1, Orders(n) - 1);
      } else {
        Pow2Mono(Orders(n) - 1, k);
        if k > Orders(n) - 1 {
          Pow2Mono(Orders(n), k);
        }
      }
    }
  }

  /** Only a power-of-two heap has no partly populated block. */
  lemma TailIffNotPow2(n: nat)
    requires Tracked(n)
    ensures Tail(n) == {} <==> IsPow2(n)
  {
    OrdersPositive(n);
    TopSpan(n);
    var k := Orders(n) - 1;
    WholeBelowTail(n, k);
    PartialIsRemainder(n, k);
    ShrDiv(n, k);
    assert n == 1 * Pow2(k) + n % Pow2(k);
  }

  /** The shortage of room, as a caller can check it. */
  lemma RoomShort(n: nat, o: nat)
    requires n > 0 && o < Orders(n)
    ensures OrderBits(n, o) <= WORD_BITS * OrderWords(n, o)
            <==> !Short(n, o)
  {
    PartialIsRemainder(n, o);
    WordsForIsRoundUp(Shr(n, o));
    RoundUp(Shr(n, o), Partial(n, o));
  }

  lemma RoundUp(s: nat, partial: bool)
    ensures s + (if partial then 1 else 0) <= 32 * ((s + 31) / 32) <==> !(partial && s % 32 == 0)
  {
  }

  /** A remainder on a floor count that is a multiple of the word size. */
  predicate Short(n: nat, o: nat) {
    n % Pow2(o) != 0 && Shr(n, o) % WORD_BITS == 0
  }

  /** Every table has room exactly when no order is short. */
  lemma RoomExact(n: nat)
    requires n > 0
    ensures Room(n) <==> forall o :: 0 <= o < Orders(n) ==> !Short(n, o)
  {
    hide OrderBits, OrderWords, Short, Orders;
    forall o | 0 <= o < Orders(n)
      ensures Short(n, o) <==> !(OrderBits(n, o) <= WORD_BITS * OrderWords(n, o))
    {
      RoomShort(n, o);
    }
  }

  /** 65 pages lack room: order 1 counts 33 blocks in a table of 32 bits. */
  lemma SixtyFivePages()
    ensures Tracked(65) && OrderBits(65, 1) == 33 && WORD_BITS * OrderWords(65, 1) == 32
    ensures !Room(65)
  {
    assert Shr(65, 1) == 32 && Partial(65, 1);
    assert 1 < Orders(65);
  }

  lemma Pow2HasRoom(n: nat)
    requires Tracked(n) && IsPow2(n)
    ensures Room(n)
  {
    TailIffNotPow2(n);
    forall o | 0 <= o < Orders(n)
      ensures OrderBits(n, o) <= WORD_BITS * OrderWords(n, o)
    {
      WholeBelowTail(n, o);
      PartialIsRemainder(n, o);
      RoomShort(n, o);
    }
  }
}
