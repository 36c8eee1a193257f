/** A slab cache on values: three lists of slabs, and the set of live chunks that they stand for. */
module Slabs {
  import opened Machine
  import opened Division
  import opened Words
  import opened SlabBitmaps

  /** sizeof(struct slab) is 28: two pointers, four bitmap words and the counter. */
  const SLABS_PER_PAGE: nat := PAGE_SIZE / 28

  /** The slabs of a page fit in it, and one more would not: two pointers, the bitmap and the counter, four bytes each. */
  lemma SlabsFillPage()
    ensures var bytes := 4 * (2 + MAX_BITMAP_WORDS + 1);
            SLABS_PER_PAGE * bytes <= 4096 < (SLABS_PER_PAGE + 1) * bytes
    ensures MAX_CHUNKS == 32 * MAX_BITMAP_WORDS && MAX_BITMAP_WORDS == 4
  {
  }

  /** struct slab without its link; a page of 0 is no page. */
  datatype Slab = Slab(page: nat, bitmap: seq<Word>, count: nat)

  /** The settings of a cache; `atomic` is GFP_ATOMIC among its flags. */
  datatype Config = Config(pagesPerSlab: nat, chunkSz: nat, atomic: bool)

  datatype Cache = Cache(full: seq<Slab>, partial: seq<Slab>, free: seq<Slab>)

  /** Bytes in the pages of a slab. */
  function Extent(cfg: Config): nat { cfg.pagesPerSlab * PAGE_SIZE }

  /** Chunk sizes divide the page, which makes them powers of two, and the bitmap has room for all chunks. */
  predicate Sized(cfg: Config) {
    && cfg.pagesPerSlab > 0 && cfg.chunkSz > 0
    && PAGE_SIZE % cfg.chunkSz == 0
    && Extent(cfg) / cfg.chunkSz <= MAX_CHUNKS
  }

  /** CHUNKS_PER_SLAB */
  function Chunks(cfg: Config): (n: nat)
    requires Sized(cfg)
    ensures 1 <= n <= MAX_CHUNKS
  {
    ChunksPositive(cfg);
    Extent(cfg) / cfg.chunkSz
  }

  /** The chunks of a slab fill its pages exactly. */
  lemma ChunksFill(cfg: Config)
    requires Sized(cfg)
    ensures Chunks(cfg) * cfg.chunkSz == 4096 * cfg.pagesPerSlab
  {
    ChunksPositive(cfg);
  }

  lemma ChunksPositive(cfg: Config)
    requires cfg.pagesPerSlab > 0 && cfg.chunkSz > 0 && PAGE_SIZE % cfg.chunkSz == 0
    ensures Extent(cfg) / cfg.chunkSz >= 1
    ensures Extent(cfg) == Extent(cfg) / cfg.chunkSz * cfg.chunkSz
  {
    var k := PAGE_SIZE / cfg.chunkSz;
    assert PAGE_SIZE == k * cfg.chunkSz;
    assert k >= 1 by { if k == 0 { assert false; } }
    assert Extent(cfg) == cfg.pagesPerSlab * (k * cfg.chunkSz) == (cfg.pagesPerSlab * k) * cfg.chunkSz;
    ExactQuotient(cfg.pagesPerSlab * k, cfg.chunkSz);
    assert cfg.pagesPerSlab * k >= 1;
  }

  /** __chunk_address */
  function Address(cfg: Config, v: Slab, c: nat): nat { v.page + c * cfg.chunkSz }

  /** `a` is the address of a chunk in use of the slab. */
  predicate Holds(cfg: Config, v: Slab, c: nat, a: nat)
    requires Sized(cfg)
  {
    c < Chunks(cfg) && Used(v.bitmap, c) && a == Address(cfg, v, c)
  }

  ghost predicate Live(cfg: Config, slabs: multiset<Slab>, a: nat)
    requires Sized(cfg)
  {
    exists v, c {:trigger Holds(cfg, v, c, a)} :: v in slabs && Holds(cfg, v, c, a)
  }

  predicate Disjoint(cfg: Config, v: Slab, w: Slab) {
    v.page + Extent(cfg) <= w.page || w.page + Extent(cfg) <= v.page
  }

  /** One slab by itself: the counter counts the bits, and a slab with chunks in use has page-aligned pages. */
  predicate SlabSound(cfg: Config, v: Slab)
    requires Sized(cfg)
  {
    && |v.bitmap| == MAX_BITMAP_WORDS
    && v.count == |UsedSet(v.bitmap, Chunks(cfg))|
    && v.page % PAGE_SIZE == 0
    && (v.count > 0 ==> v.page != 0)
  }

  /** No two slabs own overlapping pages. */
  ghost predicate Apart(cfg: Config, slabs: multiset<Slab>) {
    forall v :: v in slabs && v.page != 0 ==>
      slabs[v] == 1 && forall w :: w in slabs && w.page != 0 && w != v ==> Disjoint(cfg, v, w)
  }

  ghost predicate AllSound(cfg: Config, slabs: multiset<Slab>)
    requires Sized(cfg)
  {
    (forall v :: v in slabs ==> SlabSound(cfg, v)) && Apart(cfg, slabs)
  }

  function All(s: Cache): multiset<Slab> {
    multiset(s.partial) + multiset(s.full) + multiset(s.free)
  }

  /** The structure of a cache: full slabs have every chunk in use, partial ones some, free ones none. */
  ghost predicate Sound(cfg: Config, s: Cache)
    requires Sized(cfg)
  {
    && AllSound(cfg, All(s))
    && (forall i :: 0 <= i < |s.full| ==> s.full[i].count == Chunks(cfg))
    && (forall i :: 0 <= i < |s.partial| ==> 0 < s.partial[i].count < Chunks(cfg))
    && (forall i :: 0 <= i < |s.free| ==> s.free[i].count == 0)
  }

  /* ---- Addresses ---- */

  lemma AddressExact(cfg: Config, v: Slab, c: nat)
    requires Sized(cfg) && v.page % PAGE_SIZE == 0 && c < Chunks(cfg)
    ensures var a := Address(cfg, v, c);
            && a % cfg.chunkSz == 0
            && v.page <= a && a + cfg.chunkSz <= v.page + Extent(cfg)
            && (a - v.page) / cfg.chunkSz == c
  {
    PageMultiple(cfg, v.page);
    ChunksPositive(cfg);
    var k := v.page / cfg.chunkSz;
    assert Address(cfg, v, c) == (k + c) * cfg.chunkSz;
    ExactQuotient(k + c, cfg.chunkSz);
    ExactQuotient(c, cfg.chunkSz);
    MulMono(c + 1, Chunks(cfg), cfg.chunkSz);
  }

  lemma PageMultiple(cfg: Config, page: nat)
    requires cfg.chunkSz > 0 && PAGE_SIZE % cfg.chunkSz == 0 && page % PAGE_SIZE == 0
    ensures page == page / cfg.chunkSz * cfg.chunkSz
  {
    var k := PAGE_SIZE / cfg.chunkSz;
    assert PAGE_SIZE == k * cfg.chunkSz;
    var p := page / PAGE_SIZE;
    assert page == p * (k * cfg.chunkSz) == (p * k) * cfg.chunkSz;
    ExactQuotient(p * k, cfg.chunkSz);
  }

  /** __page_contains_address */
  predicate Contains(cfg: Config, v: Slab, a: nat) {
    v.page <= a < v.page + Extent(cfg)
  }

  /** An aligned address inside a slab is the address of exactly one of its chunks. */
  lemma ChunkOf(cfg: Config, v: Slab, a: nat)
    requires Sized(cfg) && v.page % PAGE_SIZE == 0 && a % cfg.chunkSz == 0 && Contains(cfg, v, a)
    ensures var c := (a - v.page) / cfg.chunkSz;
            c < Chunks(cfg) && Address(cfg, v, c) == a
  {
    PageMultiple(cfg, v.page);
    ExactQuotient(v.page / cfg.chunkSz, cfg.chunkSz);
    ChunksPositive(cfg);
    MultipleDifference(v.page, a, cfg.chunkSz);
    Cancel(Chunks(cfg), (a - v.page) / cfg.chunkSz, cfg.chunkSz);
  }

  /* ---- One slab of a cache changes ---- */

  /** Some chunk in use of the slab has this address. */
  ghost predicate HoldsAny(cfg: Config, v: Slab, a: nat)
    requires Sized(cfg)
  {
    exists c :: Holds(cfg, v, c, a)
  }

  ghost predicate Owns(slabs: multiset<Slab>, page: nat) {
    page != 0 && exists v :: v in slabs && v.page == page
  }

  function Replace(slabs: multiset<Slab>, v: Slab, w: Slab): multiset<Slab> {
    slabs - multiset{v} + multiset{w}
  }

  /** Pages that overlap none of the slabs' own. */
  ghost predicate FreshPage(cfg: Config, slabs: multiset<Slab>, page: nat) {
    page % PAGE_SIZE == 0 && forall u :: u in slabs && u.page != 0 ==> Disjoint(cfg, Slab(page, [], 0), u)
  }

  /** Slabs with the same pages are one slab. */
  lemma OnePerPage(cfg: Config, slabs: multiset<Slab>, u: Slab, v: Slab)
    requires Sized(cfg) && Apart(cfg, slabs) && u in slabs && v in slabs && u.page == v.page != 0
    ensures u == v && slabs[u] == 1
  {
    ExtentPositive(cfg);
  }

  lemma ReplaceNew(cfg: Config, slabs: multiset<Slab>, v: Slab, w: Slab)
    requires Sized(cfg) && Apart(cfg, slabs) && v in slabs && w.page != 0 && w != v
    requires w.page == v.page || FreshPage(cfg, slabs, w.page)
    ensures w !in slabs
  {
    ExtentPositive(cfg);
    if w in slabs && w.page == v.page {
      OnePerPage(cfg, slabs, w, v);
    }
  }

  lemma ReplaceDisjoint(cfg: Config, slabs: multiset<Slab>, v: Slab, w: Slab, y: Slab)
    requires Apart(cfg, slabs) && v in slabs && y in slabs && y != v && w.page != 0 && y.page != 0
    requires w.page == v.page || FreshPage(cfg, slabs, w.page)
    ensures Disjoint(cfg, w, y) && Disjoint(cfg, y, w)
  {
    if w.page == v.page {
      assert Disjoint(cfg, v, y);
    } else {
      assert Disjoint(cfg, Slab(w.page, [], 0), y);
    }
  }

  lemma ReplaceSound(cfg: Config, slabs: multiset<Slab>, v: Slab, w: Slab)
    requires Sized(cfg) && AllSound(cfg, slabs) && v in slabs && SlabSound(cfg, w)
    requires w.page == 0 || w.page == v.page || FreshPage(cfg, slabs, w.page)
    ensures AllSound(cfg, Replace(slabs, v, w))
  {
    hide SlabSound, Chunks, Sized, Disjoint, FreshPage;
    var r := Replace(slabs, v, w);
    if w.page != 0 && w != v {
      ReplaceNew(cfg, slabs, v, w);
    }
    forall x | x in r && x.page != 0
      ensures r[x] == 1
    {
    }
    forall x, y | x in r && x.page != 0 && y in r && y.page != 0 && y != x
      ensures Disjoint(cfg, x, y)
    {
      if x == w {
        ReplaceDisjoint(cfg, slabs, v, w, y);
      } else if y == w {
        ReplaceDisjoint(cfg, slabs, v, w, x);
      }
    }
  }

  lemma ExtentPositive(cfg: Config)
    requires Sized(cfg)
    ensures Extent(cfg) > 0
  {
  }

  /** Two slabs never hold the same address. */
  lemma HeldOnce(cfg: Config, slabs: multiset<Slab>, u: Slab, v: Slab, c: nat, d: nat, a: nat)
    requires Sized(cfg) && AllSound(cfg, slabs) && u in slabs && v in slabs
    requires Holds(cfg, u, c, a) && Holds(cfg, v, d, a)
    ensures u == v && slabs[u] == 1
  {
    hide Chunks, Sized, Used, Address;
    HeldInPages(cfg, u, c, a);
    HeldInPages(cfg, v, d, a);
  }

  lemma HeldInPages(cfg: Config, v: Slab, c: nat, a: nat)
    requires Sized(cfg) && SlabSound(cfg, v) && Holds(cfg, v, c, a)
    ensures v.page != 0 && v.page <= a && a + cfg.chunkSz <= v.page + Extent(cfg) && cfg.chunkSz > 0
  {
    hide Chunks, Used, Address, UsedSet;
    UsedCount(v.bitmap, Chunks(cfg));
    AddressExact(cfg, v, c);
  }

  lemma ReplaceLive(cfg: Config, slabs: multiset<Slab>, v: Slab, w: Slab, a: nat)
    requires Sized(cfg) && AllSound(cfg, slabs) && v in slabs
    ensures Live(cfg, Replace(slabs, v, w), a) <==> HoldsAny(cfg, w, a) || (Live(cfg, slabs, a) && !HoldsAny(cfg, v, a))
  {
    hide Holds, AllSound, Sized;
    var r := Replace(slabs, v, w);
    if Live(cfg, r, a) && !HoldsAny(cfg, w, a) {
      var u, c :| u in r && Holds(cfg, u, c, a);
      assert u != w;
      assert u in slabs && Holds(cfg, u, c, a);
      if HoldsAny(cfg, v, a) {
        var d :| Holds(cfg, v, d, a);
        HeldOnce(cfg, slabs, u, v, c, d, a);
      }
    }
    if HoldsAny(cfg, w, a) {
      var c :| Holds(cfg, w, c, a);
      assert w in r;
    }
    if Live(cfg, slabs, a) && !HoldsAny(cfg, v, a) {
      var u, c :| u in slabs && Holds(cfg, u, c, a);
      assert u != v;
      assert u in r;
    }
  }

  lemma ReplaceOwns(cfg: Config, slabs: multiset<Slab>, v: Slab, w: Slab, page: nat)
    requires Sized(cfg) && AllSound(cfg, slabs) && v in slabs
    ensures Owns(Replace(slabs, v, w), page) <==> page != 0 && (page == w.page || (Owns(slabs, page) && page != v.page))
  {
    hide SlabSound, Sized;
    var r := Replace(slabs, v, w);
    if page != 0 && page == w.page {
      assert w in r;
    }
    if Owns(slabs, page) && page != v.page {
      var u :| u in slabs && u.page == page;
      assert u in r;
    }
    if Owns(r, page) && page != w.page {
      var u :| u in r && u.page == page;
      assert u in slabs;
      if page == v.page {
        OnePerPage(cfg, slabs, u, v);
      }
    }
  }

  function Take(v: Slab, c: nat): Slab
    requires c / WORD_BITS < |v.bitmap|
  {
    Slab(v.page, SetChunk(v.bitmap, c), v.count + 1)
  }

  function Drop(v: Slab, c: nat): Slab
    requires c / WORD_BITS < |v.bitmap| && v.count > 0
  {
    Slab(v.page, ClearChunk(v.bitmap, c), v.count - 1)
  }

  lemma TakeExact(cfg: Config, v: Slab, c: nat)
    requires Sized(cfg) && SlabSound(cfg, v) && v.page != 0 && c < Chunks(cfg) && !Used(v.bitmap, c)
    ensures c / WORD_BITS < |v.bitmap| && SlabSound(cfg, Take(v, c))
    ensures forall a :: HoldsAny(cfg, Take(v, c), a) <==> HoldsAny(cfg, v, a) || a == Address(cfg, v, c)
    ensures !HoldsAny(cfg, v, Address(cfg, v, c))
  {
    hide Used, UsedSet, Address, SetChunk, Sized;
    var w := Take(v, c);
    SetCount(v.bitmap, c, Chunks(cfg));
    forall a
      ensures HoldsAny(cfg, w, a) <==> HoldsAny(cfg, v, a) || a == Address(cfg, v, c)
    {
      forall d: nat
        ensures Used(w.bitmap, d) <==> d == c || Used(v.bitmap, d)
        ensures Address(cfg, w, d) == Address(cfg, v, d)
      {
        SetChunkUsed(v.bitmap, c, d);
        SameAddress(cfg, v, w, d);
      }
      HoldsGrow(cfg, v, w, c, a);
    }
    if HoldsAny(cfg, v, Address(cfg, v, c)) {
      var d :| Holds(cfg, v, d, Address(cfg, v, c));
      AddressExact(cfg, v, c);
      AddressExact(cfg, v, d);
    }
  }

  lemma SameAddress(cfg: Config, v: Slab, w: Slab, d: nat)
    requires v.page == w.page
    ensures Address(cfg, v, d) == Address(cfg, w, d)
  {
  }

  lemma HoldsGrow(cfg: Config, v: Slab, w: Slab, c: nat, a: nat)
    requires Sized(cfg) && c < Chunks(cfg)
    requires forall d: nat :: Used(w.bitmap, d) <==> d == c || Used(v.bitmap, d)
    requires forall d: nat :: Address(cfg, w, d) == Address(cfg, v, d)
    ensures HoldsAny(cfg, w, a) <==> HoldsAny(cfg, v, a) || a == Address(cfg, v, c)
  {
    hide Used, Address, Sized, Chunks;
    if HoldsAny(cfg, v, a) {
      var d :| Holds(cfg, v, d, a);
      assert Holds(cfg, w, d, a);
    }
    if a == Address(cfg, v, c) {
      assert Holds(cfg, w, c, a);
    }
    if HoldsAny(cfg, w, a) {
      var d :| Holds(cfg, w, d, a);
      assert d != c ==> Holds(cfg, v, d, a);
    }
  }

  lemma DropExact(cfg: Config, v: Slab, c: nat)
    requires Sized(cfg) && SlabSound(cfg, v) && c < Chunks(cfg) && Used(v.bitmap, c)
    ensures c / WORD_BITS < |v.bitmap| && v.count > 0 && v.page != 0 && SlabSound(cfg, Drop(v, c))
    ensures forall a :: HoldsAny(cfg, Drop(v, c), a) <==> HoldsAny(cfg, v, a) && a != Address(cfg, v, c)
    ensures HoldsAny(cfg, v, Address(cfg, v, c))
  {
    hide Used, UsedSet, Address, ClearChunk, Sized;
    UsedCount(v.bitmap, Chunks(cfg));
    assert c / WORD_BITS < |v.bitmap|;
    var w := Drop(v, c);
    ClearCount(v.bitmap, c, Chunks(cfg));
    forall d: nat
      ensures Used(w.bitmap, d) <==> d != c && Used(v.bitmap, d)
    {
      ClearChunkUsed(v.bitmap, c, d);
    }
    assert Holds(cfg, v, c, Address(cfg, v, c));
    forall a
      ensures HoldsAny(cfg, w, a) <==> HoldsAny(cfg, v, a) && a != Address(cfg, v, c)
    {
      HoldsShrink(cfg, v, w, c, a);
    }
  }

  lemma HoldsShrink(cfg: Config, v: Slab, w: Slab, c: nat, a: nat)
    requires Sized(cfg) && c < Chunks(cfg) && v.page % PAGE_SIZE == 0 && w.page == v.page
    requires forall d: nat :: Used(w.bitmap, d) <==> d != c && Used(v.bitmap, d)
    ensures HoldsAny(cfg, w, a) <==> HoldsAny(cfg, v, a) && a != Address(cfg, v, c)
  {
    hide Used, Address, Sized, Chunks;
    if HoldsAny(cfg, w, a) {
      var d :| Holds(cfg, w, d, a);
      SameAddress(cfg, v, w, d);
      assert Holds(cfg, v, d, a);
      AddressExact(cfg, v, c);
      AddressExact(cfg, v, d);
    }
    if HoldsAny(cfg, v, a) && a != Address(cfg, v, c) {
      var d :| Holds(cfg, v, d, a);
      SameAddress(cfg, v, w, d);
      assert Holds(cfg, w, d, a);
    }
  }
}
