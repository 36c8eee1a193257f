/** Bitmaps carved out of one block of words, one table an order. */
module BitTables {
  import opened Machine
  import opened Words

  /** A table of `words` words that starts at word `off` of the memory. */
  datatype Table = Table(off: nat, words: nat)

  /** The bits of a run of words, lowest bit first. */
  function Bits(ws: seq<Word>): (r: seq<bool>)
    ensures |r| == WORD_BITS * |ws|
    ensures forall n :: 0 <= n < |r| ==> r[n] == Test(ws[n / WORD_BITS], n % WORD_BITS)
  {
    seq(WORD_BITS * |ws|, n requires 0 <= n < WORD_BITS * |ws| => Test(ws[n / WORD_BITS], n % WORD_BITS))
  }

  predicate Fits(mem: seq<Word>, t: Table) {
    t.off + t.words <= |mem|
  }

  /** Tables lie one after the other inside the memory. */
  ghost predicate Laid(ts: seq<Table>, len: nat) {
    && (forall o :: 0 <= o < |ts| ==> ts[o].off + ts[o].words <= len)
    && (forall o, p :: 0 <= o < p < |ts| ==> ts[o].off + ts[o].words <= ts[p].off)
  }

  function Row(mem: seq<Word>, t: Table): (r: seq<bool>)
    requires Fits(mem, t)
    ensures |r| == WORD_BITS * t.words
  {
    Bits(mem[t.off..t.off + t.words])
  }

  function Rows(mem: seq<Word>, ts: seq<Table>): (r: seq<seq<bool>>)
    requires Laid(ts, |mem|)
    ensures |r| == |ts|
    ensures forall o :: 0 <= o < |ts| ==> r[o] == Row(mem, ts[o])
  {
    seq(|ts|, o requires 0 <= o < |ts| => Row(mem, ts[o]))
  }

  predicate InTable(t: Table, i: nat) {
    t.off <= i < t.off + t.words
  }

  lemma RowOther(mem: seq<Word>, t: Table, i: nat, w: Word)
    requires Fits(mem, t) && i < |mem| && !InTable(t, i)
    ensures Row(mem[i := w], t) == Row(mem, t)
  {
    assert mem[i := w][t.off..t.off + t.words] == mem[t.off..t.off + t.words];
  }

  /** A write outside all tables changes no bit. */
  lemma RowsOther(mem: seq<Word>, ts: seq<Table>, i: nat, w: Word)
    requires Laid(ts, |mem|) && i < |mem| && forall o :: 0 <= o < |ts| ==> !InTable(ts[o], i)
    ensures Rows(mem[i := w], ts) == Rows(mem, ts)
  {
    forall o | 0 <= o < |ts|
      ensures Row(mem[i := w], ts[o]) == Row(mem, ts[o])
    {
      RowOther(mem, ts[o], i, w);
    }
  }

  /** One word with bit b set or cleared. */
  function PutBit(w: Word, b: nat, v: bool): Word
    requires b < WORD_BITS
  {
    if v then Set(w, b) else Clear(w, b)
  }

  lemma PutBitTest(w: Word, b: nat, v: bool, j: nat)
    requires b < WORD_BITS && j < WORD_BITS
    ensures Test(PutBit(w, b, v), j) == if j == b then v else Test(w, j)
  {
    hide Test, Set, Clear;
    SetTest(w, b, j);
    ClearTest(w, b, j);
  }

  lemma BitsPut(ws: seq<Word>, n: nat, v: bool)
    requires n < WORD_BITS * |ws|
    ensures Bits(ws[n / WORD_BITS := PutBit(ws[n / WORD_BITS], n % WORD_BITS, v)]) == Bits(ws)[n := v]
  {
    hide Test, PutBit;
    var k, b := n / WORD_BITS, n % WORD_BITS;
    var vs := ws[k := PutBit(ws[k], b, v)];
    forall m | 0 <= m < WORD_BITS * |ws|
      ensures Bits(vs)[m] == Bits(ws)[n := v][m]
    {
      if m / WORD_BITS == k {
        PutBitTest(ws[k], b, v, m % WORD_BITS);
      }
    }
  }

  /** A one-bit write to table o changes exactly that bit of all tables. */
  lemma RowsPut(mem: seq<Word>, ts: seq<Table>, o: nat, n: nat, v: bool)
    requires Laid(ts, |mem|) && o < |ts| && n < WORD_BITS * ts[o].words
    ensures var i := ts[o].off + n / WORD_BITS;
            var changed := mem[i := PutBit(mem[i], n % WORD_BITS, v)];
            Rows(changed, ts) == Rows(mem, ts)[o := Rows(mem, ts)[o][n := v]]
  {
    hide PutBit, Bits;
    var t := ts[o];
    var k := n / WORD_BITS;
    var i := t.off + k;
    var w := PutBit(mem[i], n % WORD_BITS, v);
    var changed := mem[i := w];
    var ws := mem[t.off..t.off + t.words];
    assert changed[t.off..t.off + t.words] == ws[k := w];
    BitsPut(ws, n, v);
    forall p | 0 <= p < |ts| && p != o
      ensures Row(changed, ts[p]) == Row(mem, ts[p])
    {
      RowOther(mem, ts[p], i, w);
    }
  }

  /** Reading one bit of a table. */
  lemma RowsAt(mem: seq<Word>, ts: seq<Table>, o: nat, n: nat)
    requires Laid(ts, |mem|) && o < |ts| && n < WORD_BITS * ts[o].words
    ensures Test(mem[ts[o].off + n / WORD_BITS], n % WORD_BITS) == Rows(mem, ts)[o][n]
  {
    hide Test;
    var ws := mem[ts[o].off..ts[o].off + ts[o].words];
    assert ws[n / WORD_BITS] == mem[ts[o].off + n / WORD_BITS];
  }

  lemma TableInside(ts: seq<Table>, len: nat, o: nat, n: nat)
    requires Laid(ts, len) && o < |ts| && n < WORD_BITS * ts[o].words
    ensures InTable(ts[o], ts[o].off + n / WORD_BITS) && ts[o].off + n / WORD_BITS < len
  {
  }

  /** A run of zero words holds no bit. */
  lemma ZeroBits(ws: seq<Word>)
    requires forall k :: 0 <= k < |ws| ==> ws[k] == 0
    ensures forall n :: 0 <= n < WORD_BITS * |ws| ==> !Bits(ws)[n]
  {
    hide Test;
    forall n | 0 <= n < WORD_BITS * |ws|
      ensures !Bits(ws)[n]
    {
      ZeroWord(n % WORD_BITS);
    }
  }
}
