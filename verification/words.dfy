/** Machine words and their single-bit operations (WORD_BITS == 32). */
module Words {
  import opened Machine

  type Word = bv32

  const WORD_MAX: Word := 0xffff_ffff

  function And(a: Word, b: Word): Word { a & b }

  function Or(a: Word, b: Word): Word { a | b }

  function AndNot(a: Word, b: Word): Word { a & !b }

  /** BIT(i) */
  function Bit(i: nat): Word
    requires i < WORD_BITS
  {
    (1 as Word) << i
  }

  predicate Test(w: Word, i: nat)
    requires i < WORD_BITS
  {
    And(w, Bit(i)) != 0
  }

  function Set(w: Word, i: nat): Word
    requires i < WORD_BITS
  {
    Or(w, Bit(i))
  }

  function Clear(w: Word, i: nat): Word
    requires i < WORD_BITS
  {
    AndNot(w, Bit(i))
  }

  lemma BitDisjoint(i: nat, j: nat)
    requires i < WORD_BITS && j < WORD_BITS
    ensures Bit(i) != 0
    ensures i != j ==> And(Bit(i), Bit(j)) == 0
  {
  }

  lemma OrMask(w: Word, b: Word, c: Word)
    ensures And(Or(w, b), c) == Or(And(w, c), And(b, c))
  {
  }

  lemma OrZero(x: Word, y: Word)
    ensures Or(x, y) == 0 <==> x == 0 && y == 0
  {
  }

  lemma AndSelf(b: Word)
    ensures And(b, b) == b
  {
  }

  lemma AndNotOther(w: Word, b: Word, c: Word)
    requires And(b, c) == 0
    ensures And(AndNot(w, b), c) == And(w, c)
  {
  }

  lemma AndNotSelf(w: Word, b: Word)
    ensures And(AndNot(w, b), b) == 0
  {
  }

  lemma SetTest(w: Word, i: nat, j: nat)
    requires i < WORD_BITS && j < WORD_BITS
    ensures Test(Set(w, i), j) <==> (i == j || Test(w, j))
  {
    hide And, Or, Bit;
    BitDisjoint(i, j);
    OrMask(w, Bit(i), Bit(j));
    OrZero(And(w, Bit(j)), And(Bit(i), Bit(j)));
    AndSelf(Bit(i));
  }

  lemma ClearTest(w: Word, i: nat, j: nat)
    requires i < WORD_BITS && j < WORD_BITS
    ensures Test(Clear(w, i), j) <==> (i != j && Test(w, j))
  {
    hide And, AndNot, Bit;
    BitDisjoint(i, j);
    if i == j {
      AndNotSelf(w, Bit(i));
    } else {
      AndNotOther(w, Bit(i), Bit(j));
    }
  }

  /** A word whose bits are all set. */
  lemma FullWord(i: nat)
    requires i < WORD_BITS
    ensures Test(WORD_MAX, i)
  {
    BitDisjoint(i, i);
    AndMax(Bit(i));
  }

  lemma AndMax(b: Word)
    ensures And(WORD_MAX, b) == b
  {
  }

  /** A word that holds all bits of a mask has each of its bits. */
  lemma MaskTest(w: Word, m: Word, i: nat)
    requires i < WORD_BITS && And(w, m) == m && And(m, Bit(i)) == Bit(i)
    ensures Test(w, i)
  {
    hide And, Bit;
    BitDisjoint(i, i);
    MaskBit(w, m, Bit(i));
  }

  lemma MaskBit(w: Word, m: Word, b: Word)
    requires And(w, m) == m && And(m, b) == b
    ensures And(w, b) == b
  {
  }

  lemma ByteMasks(i: nat)
    requires i < WORD_BITS
    ensures i < 8 ==> And(0xff, Bit(i)) == Bit(i)
    ensures i < 16 ==> And(0xffff, Bit(i)) == Bit(i)
    ensures 16 <= i < 24 ==> And(0x00ff_0000, Bit(i)) == Bit(i)
  {
  }

  lemma TwoBits(w: Word, i: nat, j: nat)
    requires i < WORD_BITS && j < WORD_BITS && i != j
    ensures And(w, Or(Bit(i), Bit(j))) != 0 <==> Test(w, i) || Test(w, j)
    ensures And(w, Or(Bit(i), Bit(j))) == Or(Bit(i), Bit(j)) <==> Test(w, i) && Test(w, j)
  {
    hide Bit, Test, And, Or;
    BitDisjoint(i, j);
    BitDisjoint(j, i);
    BitSingle(w, i);
    BitSingle(w, j);
    AndOr(w, Bit(i), Bit(j));
  }

  /** A single bit is either held wholly or not at all. */
  lemma BitSingle(w: Word, i: nat)
    requires i < WORD_BITS
    ensures And(w, Bit(i)) == 0 || And(w, Bit(i)) == Bit(i)
    ensures Test(w, i) <==> And(w, Bit(i)) == Bit(i)
  {
    BitDisjoint(i, i);
  }

  lemma AndOr(w: Word, b: Word, c: Word)
    requires b != 0 && c != 0 && And(b, c) == 0
    requires And(w, b) == 0 || And(w, b) == b
    requires And(w, c) == 0 || And(w, c) == c
    ensures And(w, Or(b, c)) != 0 <==> And(w, b) == b || And(w, c) == c
    ensures And(w, Or(b, c)) == Or(b, c) <==> And(w, b) == b && And(w, c) == c
  {
    hide And, Or;
    AndDistributes(w, b, c);
    OrUnit(b);
    OrUnit(c);
    OrUnit(0);
    OrZero(b, c);
    AndSwap(b, c);
    OrSwap(b, c);
    OrGrows(b, c);
    OrGrows(c, b);
  }

  lemma AndDistributes(w: Word, b: Word, c: Word)
    ensures And(w, Or(b, c)) == Or(And(w, b), And(w, c))
  {
    hide And, Or;
    AndSwap(w, Or(b, c));
    OrMask(b, c, w);
    AndSwap(b, w);
    AndSwap(c, w);
  }

  lemma OrUnit(b: Word)
    ensures Or(b, 0) == b && Or(0, b) == b
  {
  }

  lemma AndSwap(b: Word, c: Word)
    ensures And(b, c) == And(c, b)
  {
  }

  lemma OrSwap(b: Word, c: Word)
    ensures Or(b, c) == Or(c, b)
  {
  }

  lemma OrGrows(b: Word, c: Word)
    requires c != 0 && And(b, c) == 0
    ensures Or(b, c) != b
  {
  }

  /** 3 << s is the bit s and the one above it. */
  lemma Three(s: nat)
    requires s + 1 < WORD_BITS
    ensures (3 as Word) << s == Or(Bit(s), Bit(s + 1))
  {
    hide Bit, Or;
    if s < 8 {
      ThreeFrom0(s);
    } else if s < 16 {
      ThreeFrom8(s);
    } else if s < 24 {
      ThreeFrom16(s);
    } else {
      ThreeFrom24(s);
    }
  }

  lemma ThreeFrom0(s: nat)
    requires 0 <= s < 8
    ensures (3 as Word) << s == Or(Bit(s), Bit(s + 1))
  {
    hide Bit;
    BitValues();
    assert s == 0 || s == 1 || s == 2 || s == 3 || s == 4 || s == 5 || s == 6 || s == 7;
  }

  lemma ThreeFrom8(s: nat)
    requires 8 <= s < 16
    ensures (3 as Word) << s == Or(Bit(s), Bit(s + 1))
  {
    hide Bit;
    BitValues();
    assert s == 8 || s == 9 || s == 10 || s == 11 || s == 12 || s == 13 || s == 14 || s == 15;
  }

  lemma ThreeFrom16(s: nat)
    requires 16 <= s < 24
    ensures (3 as Word) << s == Or(Bit(s), Bit(s + 1))
  {
    hide Bit;
    BitValues();
    assert s == 16 || s == 17 || s == 18 || s == 19 || s == 20 || s == 21 || s == 22 || s == 23;
  }

  lemma ThreeFrom24(s: nat)
    requires 24 <= s < 31
    ensures (3 as Word) << s == Or(Bit(s), Bit(s + 1))
  {
    hide Bit;
    BitValues();
    assert s == 24 || s == 25 || s == 26 || s == 27 || s == 28 || s == 29 || s == 30;
  }

  /** !~w: the word has no clear bit. */
  predicate Full(w: Word) { !w == 0 }

  lemma FullIsMax(w: Word)
    ensures Full(w) <==> w == WORD_MAX
  {
  }

  lemma ZeroWord(i: nat)
    requires i < WORD_BITS
    ensures !Test(0, i)
  {
    AndZero(Bit(i));
  }

  lemma AndZero(b: Word)
    ensures And(0, b) == 0
  {
  }

  /** A word in which every bit is set has no clear bit left. */
  lemma AllBits(w: Word)
    requires forall i :: 0 <= i < WORD_BITS ==> Test(w, i)
    ensures w == WORD_MAX
  {
    hide Bit, And;
    BitValues();
    assert Test(w, 0) && Test(w, 1) && Test(w, 2) && Test(w, 3) && Test(w, 4) && Test(w, 5) && Test(w, 6) && Test(w, 7);
    assert Test(w, 8) && Test(w, 9) && Test(w, 10) && Test(w, 11) && Test(w, 12) && Test(w, 13) && Test(w, 14) && Test(w, 15);
    assert Test(w, 16) && Test(w, 17) && Test(w, 18) && Test(w, 19) && Test(w, 20) && Test(w, 21) && Test(w, 22) && Test(w, 23);
    assert Test(w, 24) && Test(w, 25) && Test(w, 26) && Test(w, 27) && Test(w, 28) && Test(w, 29) && Test(w, 30) && Test(w, 31);
    EveryBit(w);
  }

  lemma EveryBit(w: Word)
    requires
      And(w, 0x1) != 0 && And(w, 0x2) != 0 && And(w, 0x4) != 0 && And(w, 0x8) != 0 &&
      And(w, 0x10) != 0 && And(w, 0x20) != 0 && And(w, 0x40) != 0 && And(w, 0x80) != 0 &&
      And(w, 0x100) != 0 && And(w, 0x200) != 0 && And(w, 0x400) != 0 && And(w, 0x800) != 0 &&
      And(w, 0x1000) != 0 && And(w, 0x2000) != 0 && And(w, 0x4000) != 0 && And(w, 0x8000) != 0 &&
      And(w, 0x10000) != 0 && And(w, 0x20000) != 0 && And(w, 0x40000) != 0 && And(w, 0x80000) != 0 &&
      And(w, 0x100000) != 0 && And(w, 0x200000) != 0 && And(w, 0x400000) != 0 && And(w, 0x800000) != 0 &&
      And(w, 0x1000000) != 0 && And(w, 0x2000000) != 0 && And(w, 0x4000000) != 0 && And(w, 0x8000000) != 0 &&
      And(w, 0x10000000) != 0 && And(w, 0x20000000) != 0 && And(w, 0x40000000) != 0 && And(w, 0x80000000) != 0
    ensures w == WORD_MAX
  {
  }

  lemma BitValues()
    ensures Bit(0) == 0x1 && Bit(1) == 0x2 && Bit(2) == 0x4 && Bit(3) == 0x8
    ensures Bit(4) == 0x10 && Bit(5) == 0x20 && Bit(6) == 0x40 && Bit(7) == 0x80
    ensures Bit(8) == 0x100 && Bit(9) == 0x200 && Bit(10) == 0x400 && Bit(11) == 0x800
    ensures Bit(12) == 0x1000 && Bit(13) == 0x2000 && Bit(14) == 0x4000 && Bit(15) == 0x8000
    ensures Bit(16) == 0x10000 && Bit(17) == 0x20000 && Bit(18) == 0x40000 && Bit(19) == 0x80000
    ensures Bit(20) == 0x100000 && Bit(21) == 0x200000 && Bit(22) == 0x400000 && Bit(23) == 0x800000
    ensures Bit(24) == 0x1000000 && Bit(25) == 0x2000000 && Bit(26) == 0x4000000 && Bit(27) == 0x8000000
    ensures Bit(28) == 0x10000000 && Bit(29) == 0x20000000 && Bit(30) == 0x40000000 && Bit(31) == 0x80000000
  {
  }
}
