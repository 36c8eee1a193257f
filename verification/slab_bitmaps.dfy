/** The bitmap of one slab: four words, one bit for each chunk in use. */
module SlabBitmaps {
  import opened Machine
  import opened PageSets
  import opened Words

  const MAX_BITMAP_WORDS: nat := 4
  const MAX_CHUNKS: nat := 128

  predicate Used(b: seq<Word>, c: nat) {
    c / WORD_BITS < |b| && Test(b[c / WORD_BITS], c % WORD_BITS)
  }

  function SetChunk(b: seq<Word>, c: nat): (r: seq<Word>)
    requires c / WORD_BITS < |b|
    ensures |r| == |b|
  {
    b[c / WORD_BITS := Set(b[c / WORD_BITS], c % WORD_BITS)]
  }

  function ClearChunk(b: seq<Word>, c: nat): (r: seq<Word>)
    requires c / WORD_BITS < |b|
    ensures |r| == |b|
  {
    b[c / WORD_BITS := Clear(b[c / WORD_BITS], c % WORD_BITS)]
  }

  lemma SetChunkUsed(b: seq<Word>, c: nat, d: nat)
    requires c / WORD_BITS < |b|
    ensures Used(SetChunk(b, c), d) <==> d == c || Used(b, d)
  {
    hide Test, Set;
    if c / WORD_BITS == d / WORD_BITS {
      SetTest(b[c / WORD_BITS], c % WORD_BITS, d % WORD_BITS);
      SameChunk(c, d);
    }
  }

  lemma ClearChunkUsed(b: seq<Word>, c: nat, d: nat)
    requires c / WORD_BITS < |b|
    ensures Used(ClearChunk(b, c), d) <==> d != c && Used(b, d)
  {
    hide Test, Clear;
    if c / WORD_BITS == d / WORD_BITS {
      ClearTest(b[c / WORD_BITS], c % WORD_BITS, d % WORD_BITS);
      SameChunk(c, d);
    }
  }

  lemma SameChunk(c: nat, d: nat)
    requires c / WORD_BITS == d / WORD_BITS
    ensures c == d <==> c % WORD_BITS == d % WORD_BITS
  {
  }

  /** The chunks in use among the first n. */
  function UsedSet(b: seq<Word>, n: nat): set<nat> {
    set c: nat | 0 <= c < n && Used(b, c)
  }

  /** Counting bits: none, all, or something in between. */
  lemma UsedCount(b: seq<Word>, n: nat)
    ensures |UsedSet(b, n)| <= n
    ensures |UsedSet(b, n)| == n <==> forall c: nat :: c < n ==> Used(b, c)
    ensures |UsedSet(b, n)| == 0 <==> forall c: nat :: c < n ==> !Used(b, c)
  {
    hide Used;
    var u := UsedSet(b, n);
    RangeSize(0, n);
    SubsetSize(u, Range(0, n));
    if |u| == n {
      forall c: nat | c < n
        ensures Used(b, c)
      {
        assert c in Range(0, n);
      }
    }
    if forall c: nat :: c < n ==> Used(b, c) {
      assert u == Range(0, n);
    }
    if |u| == 0 {
      forall c: nat | c < n
        ensures !Used(b, c)
      {
        assert c !in u;
      }
    }
    if forall c: nat :: c < n ==> !Used(b, c) {
      assert u == {};
    }
  }

  lemma SetCount(b: seq<Word>, c: nat, n: nat)
    requires c / WORD_BITS < |b| && c < n && !Used(b, c)
    ensures |UsedSet(SetChunk(b, c), n)| == |UsedSet(b, n)| + 1
  {
    hide Used, SetChunk;
    forall d: nat
      ensures Used(SetChunk(b, c), d) <==> d == c || Used(b, d)
    {
      SetChunkUsed(b, c, d);
    }
    assert UsedSet(SetChunk(b, c), n) == UsedSet(b, n) + {c};
  }

  lemma ClearCount(b: seq<Word>, c: nat, n: nat)
    requires c / WORD_BITS < |b| && c < n && Used(b, c)
    ensures |UsedSet(ClearChunk(b, c), n)| == |UsedSet(b, n)| - 1
  {
    hide Used, ClearChunk;
    forall d: nat
      ensures Used(ClearChunk(b, c), d) <==> d != c && Used(b, d)
    {
      ClearChunkUsed(b, c, d);
    }
    assert UsedSet(b, n) == UsedSet(ClearChunk(b, c), n) + {c};
  }

  function BlankBitmap(): (b: seq<Word>)
    ensures |b| == MAX_BITMAP_WORDS
  {
    [0, 0, 0, 0]
  }

  lemma BlankUnused(c: nat)
    ensures !Used(BlankBitmap(), c)
  {
    hide Test;
    if c / WORD_BITS < MAX_BITMAP_WORDS {
      ZeroWord(c % WORD_BITS);
    }
  }

  /** The lowest unused chunk from `c` on, or n. */
  function FirstUnused(b: seq<Word>, n: nat, c: nat): (r: nat)
    requires c <= n
    ensures c <= r <= n
    ensures r < n ==> !Used(b, r)
    ensures forall d :: c <= d < r ==> Used(b, d)
    decreases n - c
  {
    if c == n || !Used(b, c) then c else FirstUnused(b, n, c + 1)
  }

  /** __find_zero_bit_in_word, with -1 for no clear bit among the first `max`. */
  method FindZeroBitInWord(w: Word, max: nat) returns (r: int)
    requires max <= WORD_BITS
    ensures r == -1 ==> forall i :: 0 <= i < max ==> Test(w, i)
    ensures r != -1 ==> 0 <= r < max && !Test(w, r) && forall i :: 0 <= i < r ==> Test(w, i)
  {
    hide Bit, And;
    for b := 0 to max
      invariant forall i :: 0 <= i < b ==> Test(w, i)
    {
      if And(w, Bit(b)) == 0 {
        return b;
      }
    }
    return -1;
  }

  /** The part of __find_unallocated that looks at one slab: a whole word at a time, then the odd bits. */
  method FindUnallocatedIn(bitmap: seq<Word>, chunks: nat) returns (found: bool, word: nat, bit: nat)
    requires |bitmap| == MAX_BITMAP_WORDS && chunks <= MAX_CHUNKS
    ensures found == (FirstUnused(bitmap, chunks, 0) < chunks)
    ensures found ==> bit < WORD_BITS && word * WORD_BITS + bit == FirstUnused(bitmap, chunks, 0)
  {
    hide Test, Full, FirstUnused;
    var wholeWords := chunks / WORD_BITS;
    var extraBits := chunks % WORD_BITS;
    found, bit := true, 0;
    word := 0;
    while word < wholeWords
      invariant word <= wholeWords
      invariant forall c :: 0 <= c < word * WORD_BITS ==> Used(bitmap, c)
    {
      if !Full(bitmap[word]) {
        var b := FindZeroBitInWord(bitmap[word], WORD_BITS);
        NotFull(bitmap[word]);
        assert b != -1;
        bit := b;
        FoundFirst(bitmap, chunks, word, bit);
        return;
      }
      FullUsed(bitmap, word);
      word := word + 1;
    }
    if extraBits != 0 {
      var zb := FindZeroBitInWord(bitmap[word], extraBits);
      if zb != -1 {
        bit := zb;
        FoundFirst(bitmap, chunks, word, bit);
        return;
      }
    }
    found := false;
    NoneFirst(bitmap, chunks);
  }

  lemma NotFull(w: Word)
    requires !Full(w)
    ensures exists i :: 0 <= i < WORD_BITS && !Test(w, i)
  {
    FullIsMax(w);
    if forall i :: 0 <= i < WORD_BITS ==> Test(w, i) {
      AllBits(w);
    }
  }

  lemma FullUsed(bitmap: seq<Word>, w: nat)
    requires w < |bitmap| && Full(bitmap[w])
    ensures forall c :: w * WORD_BITS <= c < (w + 1) * WORD_BITS ==> Used(bitmap, c)
  {
    FullIsMax(bitmap[w]);
    forall c: nat | w * WORD_BITS <= c < (w + 1) * WORD_BITS
      ensures Used(bitmap, c)
    {
      FullWord(c % WORD_BITS);
    }
  }

  lemma FoundFirst(bitmap: seq<Word>, chunks: nat, w: nat, b: nat)
    requires w < |bitmap| && b < WORD_BITS && w * WORD_BITS + b < chunks && !Test(bitmap[w], b)
    requires forall c :: 0 <= c < w * WORD_BITS ==> Used(bitmap, c)
    requires forall i :: 0 <= i < b ==> Test(bitmap[w], i)
    ensures FirstUnused(bitmap, chunks, 0) == w * WORD_BITS + b
  {
    hide Test;
    var r := w * WORD_BITS + b;
    assert !Used(bitmap, r);
    forall c: nat | c < r
      ensures Used(bitmap, c)
    {
      if w * WORD_BITS <= c {
        assert c / WORD_BITS == w && c % WORD_BITS == c - w * WORD_BITS;
      }
    }
  }

  lemma NoneFirst(bitmap: seq<Word>, chunks: nat)
    requires forall c :: 0 <= c < chunks ==> Used(bitmap, c)
    ensures FirstUnused(bitmap, chunks, 0) == chunks
  {
  }
}
