/** Allocating from and freeing into a slab cache, on values: the cache refines a set of live chunks. */
module SlabCaches {
  import opened Machine
  import opened SlabBitmaps
  import opened Slabs

  function BlankSlab(): Slab { Slab(0, BlankBitmap(), 0) }

  /** _more_slabs(1): a zeroed page of linked slabs. */
  function BlankSlabs(): (s: seq<Slab>)
    ensures |s| == SLABS_PER_PAGE
  {
    seq(SLABS_PER_PAGE, _ => BlankSlab())
  }

  function Remove(list: seq<Slab>, i: nat): seq<Slab>
    requires i < |list|
  {
    list[..i] + list[i + 1..]
  }

  /** More slabs when there are neither free nor partial ones; `more` says that a page is to be had. */
  function Stocked(s: Cache, more: bool): Cache {
    if s.free == [] && s.partial == [] && more then s.(free := BlankSlabs()) else s
  }

  /** Allocation has to pluck a slab from the free list and that one has no pages yet. */
  predicate NeedsPages(s: Cache) {
    s.partial == [] && s.free != [] && s.free[0].page == 0
  }

  /** Allocation cannot go on: no slabs, or no pages for the first free slab. */
  predicate OutOfMemory(s: Cache, page: nat) {
    s.partial == [] && (s.free == [] || (s.free[0].page == 0 && page == 0))
  }

  /** The first free slab becomes the partial list. */
  function Plucked(s: Cache, page: nat): Cache
    requires !OutOfMemory(s, page)
  {
    if s.partial != [] then s
    else
      var f := s.free[0];
      Cache(s.full, [if f.page == 0 then f.(page := page) else f], s.free[1..])
  }

  /** The lowest unused chunk of the first partial slab is taken. */
  function TakeFirst(cfg: Config, s: Cache): (Cache, nat)
    requires Sized(cfg) && s.partial != [] && |s.partial[0].bitmap| == MAX_BITMAP_WORDS
  {
    var v := s.partial[0];
    var c := FirstUnused(v.bitmap, Chunks(cfg), 0);
    if c >= MAX_CHUNKS then (s, 0)
    else
      var w := Take(v, c);
      if w.count == Chunks(cfg) then (Cache([w] + s.full, s.partial[1..], s.free), Address(cfg, v, c))
      else (s.(partial := s.partial[0 := w]), Address(cfg, v, c))
  }

  /** mem_cache_alloc; `more` and `page` are what the page allocator answers if it is asked. */
  function Alloc(cfg: Config, s: Cache, more: bool, page: nat): (Cache, nat)
    requires Sized(cfg) && Sound(cfg, s)
  {
    var s1 := Stocked(s, more);
    if OutOfMemory(s1, page) then (s1, 0)
    else
      PluckedBitmap(cfg, s, more, page);
      TakeFirst(cfg, Plucked(s1, page))
  }

  lemma PluckedBitmap(cfg: Config, s: Cache, more: bool, page: nat)
    requires Sized(cfg) && Sound(cfg, s) && !OutOfMemory(Stocked(s, more), page)
    ensures |Plucked(Stocked(s, more), page).partial[0].bitmap| == MAX_BITMAP_WORDS
  {
    var s1 := Stocked(s, more);
    if s.partial != [] {
      assert s.partial[0] in All(s);
    } else if s.free != [] {
      assert s.free[0] in All(s);
    }
  }

  /* ---- Lists as multisets ---- */

  lemma MultisetAt(list: seq<Slab>, i: nat)
    requires i < |list|
    ensures multiset(Remove(list, i)) == multiset(list) - multiset{list[i]} && list[i] in multiset(list)
  {
    assert list == list[..i] + [list[i]] + list[i + 1..];
  }

  lemma MultisetPut(list: seq<Slab>, i: nat, w: Slab)
    requires i < |list|
    ensures multiset(list[i := w]) == multiset(list) - multiset{list[i]} + multiset{w}
  {
    assert list == list[..i] + [list[i]] + list[i + 1..];
    assert list[i := w] == list[..i] + [w] + list[i + 1..];
  }

  lemma MultisetPush(list: seq<Slab>, w: Slab)
    ensures multiset([w] + list) == multiset(list) + multiset{w}
  {
  }

  lemma InAll(s: Cache, v: Slab)
    ensures v in s.partial || v in s.full || v in s.free <==> v in All(s)
  {
  }

  /* ---- Allocation ---- */

  /** Between plucking and taking: the first partial slab may still be empty. */
  ghost predicate Ready(cfg: Config, s: Cache)
    requires Sized(cfg)
  {
    && AllSound(cfg, All(s))
    && s.partial != [] && s.partial[0].page != 0 && s.partial[0].count < Chunks(cfg)
    && (forall i :: 0 <= i < |s.full| ==> s.full[i].count == Chunks(cfg))
    && (forall i :: 1 <= i < |s.partial| ==> 0 < s.partial[i].count < Chunks(cfg))
    && (forall i :: 0 <= i < |s.free| ==> s.free[i].count == 0)
  }

  lemma BlankSound(cfg: Config)
    requires Sized(cfg)
    ensures SlabSound(cfg, BlankSlab())
    ensures forall c, a :: !Holds(cfg, BlankSlab(), c, a)
  {
    forall c: nat
      ensures !Used(BlankBitmap(), c)
    {
      BlankUnused(c);
    }
    UsedCount(BlankBitmap(), Chunks(cfg));
  }

  /** A blank slab more changes nothing that clients see. */
  lemma AddBlank(cfg: Config, slabs: multiset<Slab>)
    requires Sized(cfg) && AllSound(cfg, slabs)
    ensures AllSound(cfg, slabs + multiset{BlankSlab()})
    ensures forall a :: Live(cfg, slabs + multiset{BlankSlab()}, a) <==> Live(cfg, slabs, a)
    ensures forall p :: Owns(slabs + multiset{BlankSlab()}, p) <==> Owns(slabs, p)
  {
    hide Holds, SlabSound, Sized, Disjoint;
    BlankSound(cfg);
    var r := slabs + multiset{BlankSlab()};
    assert forall v :: v in r <==> v == BlankSlab() || v in slabs;
    assert forall v: Slab :: v.page != 0 ==> r[v] == slabs[v];
    forall a
      ensures Live(cfg, r, a) <==> Live(cfg, slabs, a)
    {
      if Live(cfg, r, a) {
        var v, c :| v in r && Holds(cfg, v, c, a);
        assert v in slabs && Holds(cfg, v, c, a);
      }
      if Live(cfg, slabs, a) {
        var v, c :| v in slabs && Holds(cfg, v, c, a);
        assert v in r && Holds(cfg, v, c, a);
      }
    }
  }

  lemma {:induction false} AddBlanks(cfg: Config, slabs: multiset<Slab>, more: seq<Slab>)
    requires Sized(cfg) && AllSound(cfg, slabs) && forall i :: 0 <= i < |more| ==> more[i] == BlankSlab()
    ensures AllSound(cfg, slabs + multiset(more))
    ensures forall a :: Live(cfg, slabs + multiset(more), a) <==> Live(cfg, slabs, a)
    ensures forall p :: Owns(slabs + multiset(more), p) <==> Owns(slabs, p)
    decreases |more|
  {
    hide AllSound, Live, Owns, Sized, BlankSlab;
    if more == [] {
      assert slabs + multiset(more) == slabs;
    } else {
      AddBlank(cfg, slabs);
      AddBlanks(cfg, slabs + multiset{BlankSlab()}, more[1..]);
      assert more == [more[0]] + more[1..];
      assert slabs + multiset(more) == slabs + multiset{BlankSlab()} + multiset(more[1..]);
    }
  }

  lemma StockedExact(cfg: Config, s: Cache, more: bool)
    requires Sized(cfg) && Sound(cfg, s)
    ensures Sound(cfg, Stocked(s, more))
    ensures forall a :: Live(cfg, All(Stocked(s, more)), a) <==> Live(cfg, All(s), a)
    ensures forall p :: Owns(All(Stocked(s, more)), p) <==> Owns(All(s), p)
  {
    hide AllSound, Live, Owns, Sized, Chunks;
    if s.free == [] && s.partial == [] && more {
      AddBlanks(cfg, All(s), BlankSlabs());
      assert All(Stocked(s, more)) == All(s) + multiset(BlankSlabs());
    }
  }

  /** A free slab that gets pages, or has them, still holds nothing. */
  lemma PluckedExact(cfg: Config, s: Cache, page: nat)
    requires Sized(cfg) && Sound(cfg, s) && !OutOfMemory(s, page)
    requires NeedsPages(s) ==> FreshPage(cfg, All(s), page)
    ensures Ready(cfg, Plucked(s, page))
    ensures forall a :: Live(cfg, All(Plucked(s, page)), a) <==> Live(cfg, All(s), a)
    ensures forall p :: Owns(All(Plucked(s, page)), p) <==> Owns(All(s), p) || (NeedsPages(s) && p == page)
  {
    hide AllSound, Live, Owns, Sized, Chunks, FreshPage, All, Replace;
    if s.partial != [] {
      FirstOwns(cfg, s);
    } else {
      var f := s.free[0];
      InAll(s, f);
      var w := if f.page == 0 then f.(page := page) else f;
      FreeRepaged(cfg, All(s), f, w);
      PluckedAll(s, f, w);
      assert Plucked(s, page) == Cache(s.full, [w], s.free[1..]);
      if !NeedsPages(s) {
        PageOwned(All(s), w.page);
      }
    }
  }

  lemma PluckedAll(s: Cache, f: Slab, w: Slab)
    requires s.partial == [] && s.free != [] && s.free[0] == f
    ensures All(Cache(s.full, [w], s.free[1..])) == Replace(All(s), f, w)
  {
    MultisetAt(s.free, 0);
    assert Remove(s.free, 0) == s.free[1..];
  }

  lemma FirstOwns(cfg: Config, s: Cache)
    requires Sized(cfg) && Sound(cfg, s) && s.partial != []
    ensures s.partial[0].page != 0
  {
    InAll(s, s.partial[0]);
  }

  lemma FreeRepaged(cfg: Config, slabs: multiset<Slab>, f: Slab, w: Slab)
    requires Sized(cfg) && AllSound(cfg, slabs) && f in slabs && f.count == 0
    requires w == f.(page := w.page)
    requires w.page == f.page || (f.page == 0 && FreshPage(cfg, slabs, w.page))
    ensures AllSound(cfg, Replace(slabs, f, w))
    ensures forall a :: Live(cfg, Replace(slabs, f, w), a) <==> Live(cfg, slabs, a)
    ensures forall p :: Owns(Replace(slabs, f, w), p) <==> Owns(slabs, p) || (p != 0 && p == w.page)
  {
    hide Apart, Live, Owns, Sized, Chunks, Used, UsedSet, Replace, Holds;
    NothingHeld(cfg, f);
    NothingHeld(cfg, w);
    ReplaceSound(cfg, slabs, f, w);
    forall a
      ensures Live(cfg, Replace(slabs, f, w), a) <==> Live(cfg, slabs, a)
    {
      ReplaceLive(cfg, slabs, f, w, a);
    }
    forall p
      ensures Owns(Replace(slabs, f, w), p) <==> Owns(slabs, p) || (p != 0 && p == w.page)
    {
      ReplaceOwns(cfg, slabs, f, w, p);
      PageOwned(slabs, p);
    }
  }

  lemma PageOwned(slabs: multiset<Slab>, p: nat)
    ensures Owns(slabs, p) ==> p != 0
    ensures forall v :: v in slabs && v.page == p != 0 ==> Owns(slabs, p)
  {
  }

  lemma NothingHeld(cfg: Config, v: Slab)
    requires Sized(cfg) && SlabSound(cfg, v) && v.count == 0
    ensures forall a :: !HoldsAny(cfg, v, a)
  {
    UsedCount(v.bitmap, Chunks(cfg));
  }

  lemma SoundIn(cfg: Config, slabs: multiset<Slab>, v: Slab)
    requires Sized(cfg) && AllSound(cfg, slabs) && v in slabs
    ensures SlabSound(cfg, v) && v.page % PAGE_SIZE == 0
  {
  }

  lemma RoomLeft(cfg: Config, v: Slab)
    requires Sized(cfg) && SlabSound(cfg, v) && v.count < Chunks(cfg)
    ensures FirstUnused(v.bitmap, Chunks(cfg), 0) < Chunks(cfg)
  {
    hide Used;
    UsedCount(v.bitmap, Chunks(cfg));
  }

  lemma TakeFirstAll(cfg: Config, s: Cache, v: Slab, w: Slab)
    requires s.partial != [] && v == s.partial[0]
    ensures All(Cache([w] + s.full, s.partial[1..], s.free)) == Replace(All(s), v, w)
    ensures All(s.(partial := s.partial[0 := w])) == Replace(All(s), v, w)
  {
    MultisetAt(s.partial, 0);
    assert Remove(s.partial, 0) == s.partial[1..];
    MultisetPush(s.full, w);
    MultisetPut(s.partial, 0, w);
  }

  lemma ReplaceIn(slabs: multiset<Slab>, v: Slab, w: Slab)
    ensures w in Replace(slabs, v, w)
  {
  }

  lemma HeldLive(cfg: Config, slabs: multiset<Slab>, v: Slab, a: nat)
    requires Sized(cfg) && v in slabs
    ensures HoldsAny(cfg, v, a) ==> Live(cfg, slabs, a)
  {
  }

  /** A chunk that its own slab does not hold is held by no slab. */
  lemma AddressNotLive(cfg: Config, slabs: multiset<Slab>, v: Slab, c: nat)
    requires Sized(cfg) && AllSound(cfg, slabs) && v in slabs && v.page != 0 && c < Chunks(cfg)
    requires !HoldsAny(cfg, v, Address(cfg, v, c))
    ensures !Live(cfg, slabs, Address(cfg, v, c))
  {
    hide Sized, Chunks, Address, Used, UsedSet, Holds;
    var a := Address(cfg, v, c);
    if Live(cfg, slabs, a) {
      var u, d :| u in slabs && Holds(cfg, u, d, a);
      HeldInPages(cfg, u, d, a);
      AddressExact(cfg, v, c);
    }
  }

  /** Taking the lowest unused chunk of the first partial slab. */
  lemma TakeFirstExact(cfg: Config, s: Cache)
    requires Sized(cfg) && Ready(cfg, s) && |s.partial[0].bitmap| == MAX_BITMAP_WORDS
    ensures var (r, addr) := TakeFirst(cfg, s);
            && Sound(cfg, r)
            && addr != 0 && addr % cfg.chunkSz == 0
            && (exists v :: v in All(r) && v.page != 0 && v.page <= addr && addr + cfg.chunkSz <= v.page + Extent(cfg))
            && !Live(cfg, All(s), addr)
            && (forall a :: Live(cfg, All(r), a) <==> Live(cfg, All(s), a) || a == addr)
            && (forall p :: Owns(All(r), p) <==> Owns(All(s), p))
  {
    hide AllSound, SlabSound, Live, Owns, Sized, Chunks, Used, UsedSet, Replace, Holds, Address, FirstUnused, HoldsAny, All;
    var v := s.partial[0];
    InAll(s, v);
    SoundIn(cfg, All(s), v);
    RoomLeft(cfg, v);
    var c := FirstUnused(v.bitmap, Chunks(cfg), 0);
    TakeExact(cfg, v, c);
    AddressExact(cfg, v, c);
    var w := Take(v, c);
    var (r, addr) := TakeFirst(cfg, s);
    ReplaceSound(cfg, All(s), v, w);
    TakeFirstAll(cfg, s, v, w);
    ReplaceIn(All(s), v, w);
    AddressNotLive(cfg, All(s), v, c);
    forall a
      ensures Live(cfg, All(r), a) <==> Live(cfg, All(s), a) || a == addr
    {
      ReplaceLive(cfg, All(s), v, w, a);
      HeldLive(cfg, All(s), v, a);
    }
    forall p
      ensures Owns(All(r), p) <==> Owns(All(s), p)
    {
      ReplaceOwns(cfg, All(s), v, w, p);
      PageOwned(All(s), p);
    }
  }

  /** The page allocator is asked only when needed, and then answers with pages that no slab has. */
  ghost predicate PageGiven(cfg: Config, s: Cache, more: bool, page: nat) {
    NeedsPages(Stocked(s, more)) && page != 0 ==> FreshPage(cfg, All(s), page)
  }

  /**
   * Allocation returns an aligned chunk of an owned slab that was not live, and exactly that chunk becomes
   * live; or null, exactly when there is no partial slab and the page allocator refused, and then nothing
   * live changes.
   */
  lemma AllocExact(cfg: Config, s: Cache, more: bool, page: nat)
    requires Sized(cfg) && Sound(cfg, s) && PageGiven(cfg, s, more, page)
    ensures var (r, addr) := Alloc(cfg, s, more, page);
            && Sound(cfg, r)
            && (addr == 0 <==> OutOfMemory(Stocked(s, more), page))
            && (addr != 0 ==> addr % cfg.chunkSz == 0 && !Live(cfg, All(s), addr))
            && (addr != 0 ==> exists v :: v in All(r) && v.page != 0 && v.page <= addr && addr + cfg.chunkSz <= v.page + Extent(cfg))
            && (forall a :: Live(cfg, All(r), a) <==> Live(cfg, All(s), a) || (addr != 0 && a == addr))
            && (forall p :: Owns(All(r), p) <==>
                  Owns(All(s), p) || (NeedsPages(Stocked(s, more)) && page != 0 && p == page))
  {
    hide AllSound, SlabSound, Live, Owns, Sized, Chunks, Used, UsedSet, All, Stocked, TakeFirst, FreshPage, Extent, Plucked;
    var s1 := Stocked(s, more);
    StockedExact(cfg, s, more);
    if !OutOfMemory(s1, page) {
      if NeedsPages(s1) {
        StockedFresh(cfg, s, more, page);
      }
      PluckedBitmap(cfg, s, more, page);
      PluckedExact(cfg, s1, page);
      TakeFirstExact(cfg, Plucked(s1, page));
    }
  }

  lemma BlankPage()
    ensures BlankSlab().page == 0 && BlankSlab().count == 0
  {
  }

  /** Blank slabs own no pages, so what is fresh for the cache is fresh for the restocked cache. */
  lemma StockedFresh(cfg: Config, s: Cache, more: bool, page: nat)
    requires FreshPage(cfg, All(s), page)
    ensures FreshPage(cfg, All(Stocked(s, more)), page)
  {
    hide Disjoint, BlankSlab;
    BlankPage();
    forall u | u in All(Stocked(s, more)) && u.page != 0
      ensures u in All(s)
    {
      assert u != BlankSlab();
      InAll(Stocked(s, more), u);
      InAll(s, u);
    }
  }

  /* ---- Freeing ---- */

  /** The first slab of the list that contains the address. */
  function FindIn(cfg: Config, list: seq<Slab>, a: nat, i: nat): (r: nat)
    requires i <= |list|
    ensures i <= r <= |list|
    ensures r < |list| ==> Contains(cfg, list[r], a)
    ensures forall j :: i <= j < r ==> !Contains(cfg, list[j], a)
    decreases |list| - i
  {
    if i == |list| || Contains(cfg, list[i], a) then i else FindIn(cfg, list, a, i + 1)
  }

  /** The chunk of the slab that the address lies in. */
  function ChunkIndex(cfg: Config, v: Slab, a: nat): nat
    requires cfg.chunkSz > 0 && v.page <= a
  {
    (a - v.page) / cfg.chunkSz
  }

  datatype Freed = Freed(cache: Cache, result: int, released: nat)

  /** The slab, out of its list with one chunk fewer, goes to the head of the partial or of the free list. */
  function Relink(cfg: Config, rest: Cache, w: Slab): Freed {
    if w.count != 0 then Freed(rest.(partial := [w] + rest.partial), 0, 0)
    else if cfg.atomic then Freed(rest.(free := [w] + rest.free), 0, 0)
    else Freed(rest.(free := [w.(page := 0)] + rest.free), 0, w.page)
  }

  /** mem_cache_free; `released` is the address of the pages given back, or 0. */
  function Free(cfg: Config, s: Cache, a: nat): Freed
    requires Sized(cfg)
  {
    if a == 0 then Freed(s, 0, 0)
    else if a % cfg.chunkSz != 0 then Freed(s, -1, 0)
    else
      var i := FindIn(cfg, s.partial, a, 0);
      if i < |s.partial| then FreeAt(cfg, s, s.(partial := Remove(s.partial, i)), s.partial[i], a)
      else
        var j := FindIn(cfg, s.full, a, 0);
        if j < |s.full| then FreeAt(cfg, s, s.(full := Remove(s.full, j)), s.full[j], a)
        else Freed(s, -1, 0)
  }

  /** The address lies in slab v, and `rest` is the cache without that slab. */
  function FreeAt(cfg: Config, s: Cache, rest: Cache, v: Slab, a: nat): Freed
    requires cfg.chunkSz > 0 && Contains(cfg, v, a)
  {
    var c := ChunkIndex(cfg, v, a);
    if Used(v.bitmap, c) && v.count > 0 then Relink(cfg, rest, Drop(v, c)) else Freed(s, -1, 0)
  }

  /** The slab's pages are released exactly when the chunk at `a` was its last one and the cache is not atomic. */
  ghost predicate ReleasesEmpty(cfg: Config, s: Cache, released: nat, a: nat)
    requires Sized(cfg)
  {
    exists v, c {:trigger Holds(cfg, v, c, a)} :: v in All(s) && Holds(cfg, v, c, a) && v.page != 0
      && released == if v.count == 1 && !cfg.atomic then v.page else 0
  }

  lemma DropReleases(cfg: Config, s: Cache, rest: Cache, v: Slab, c: nat)
    requires Sized(cfg) && v in All(s) && v.page != 0 && v.count > 0
    requires c < Chunks(cfg) && Used(v.bitmap, c) && c / WORD_BITS < |v.bitmap|
    ensures ReleasesEmpty(cfg, s, Relink(cfg, rest, Drop(v, c)).released, Address(cfg, v, c))
  {
    hide Sized, Chunks, Used, Address, All;
    assert Holds(cfg, v, c, Address(cfg, v, c));
  }

  /** What a free that succeeds does: exactly the chunk at `a` dies, and exactly an empty slab loses its pages. */
  ghost predicate Frees(cfg: Config, s: Cache, f: Freed, a: nat)
    requires Sized(cfg)
  {
    && f.result == 0 && Sound(cfg, f.cache)
    && (forall x :: Live(cfg, All(f.cache), x) <==> Live(cfg, All(s), x) && x != a)
    && ReleasesEmpty(cfg, s, f.released, a)
    && (f.released != 0 ==> Owns(All(s), f.released))
    && (forall p :: Owns(All(f.cache), p) <==> Owns(All(s), p) && p != f.released)
  }

  /** Relinking on multisets of slabs. */
  lemma RelinkAll(cfg: Config, s: Cache, rest: Cache, v: Slab, w: Slab)
    requires All(rest) == All(s) - multiset{v} && v in All(s)
    ensures var f := Relink(cfg, rest, w);
            All(f.cache) == Replace(All(s), v, if w.count == 0 && !cfg.atomic then w.(page := 0) else w)
  {
    MultisetPush(rest.partial, w);
    MultisetPush(rest.free, w);
    MultisetPush(rest.free, w.(page := 0));
  }

  lemma RelinkSound(cfg: Config, s: Cache, rest: Cache, w: Slab)
    requires Sized(cfg) && Sound(cfg, s) && AllSound(cfg, All(Relink(cfg, rest, w).cache)) && w.count < Chunks(cfg)
    requires forall i :: 0 <= i < |rest.full| ==> rest.full[i] in s.full
    requires forall i :: 0 <= i < |rest.partial| ==> rest.partial[i] in s.partial
    requires rest.free == s.free
    ensures Sound(cfg, Relink(cfg, rest, w).cache)
  {
    hide AllSound, Sized, Chunks;
  }

  lemma FreeAtExact(cfg: Config, s: Cache, rest: Cache, v: Slab, a: nat)
    requires Sized(cfg) && Sound(cfg, s) && v in All(s) && Contains(cfg, v, a) && v.page != 0 && a % cfg.chunkSz == 0
    requires All(rest) == All(s) - multiset{v} && rest.free == s.free
    requires forall i :: 0 <= i < |rest.full| ==> rest.full[i] in s.full
    requires forall i :: 0 <= i < |rest.partial| ==> rest.partial[i] in s.partial
    ensures var f := FreeAt(cfg, s, rest, v, a);
            if Live(cfg, All(s), a) then Frees(cfg, s, f, a) else f == Freed(s, -1, 0)
  {
    hide AllSound, SlabSound, Live, Owns, Sized, Chunks, Used, UsedSet, Replace, Holds, Address, HoldsAny, All, Relink,
      Contains, Drop, Sound, Frees;
    SoundParts(cfg, s);
    SoundIn(cfg, All(s), v);
    ChunkOf(cfg, v, a);
    ContainsStarts(cfg, v, a);
    var c := ChunkIndex(cfg, v, a);
    if Used(v.bitmap, c) {
      DropExact(cfg, v, c);
      HeldLive(cfg, All(s), v, a);
      DroppedFrees(cfg, s, rest, v, c);
    } else {
      NotUsedNotHeld(cfg, v, c);
      AddressNotLive(cfg, All(s), v, c);
    }
  }

  lemma SoundParts(cfg: Config, s: Cache)
    requires Sized(cfg) && Sound(cfg, s)
    ensures AllSound(cfg, All(s))
  {
  }

  lemma ContainsStarts(cfg: Config, v: Slab, a: nat)
    requires Sized(cfg) && Contains(cfg, v, a)
    ensures v.page <= a && cfg.chunkSz > 0
  {
  }

  lemma NotUsedNotHeld(cfg: Config, v: Slab, c: nat)
    requires Sized(cfg) && v.page % PAGE_SIZE == 0 && c < Chunks(cfg) && !Used(v.bitmap, c)
    ensures !HoldsAny(cfg, v, Address(cfg, v, c))
  {
    hide Sized, Chunks, Used, Address;
    if HoldsAny(cfg, v, Address(cfg, v, c)) {
      var d :| Holds(cfg, v, d, Address(cfg, v, c));
      AddressExact(cfg, v, c);
      AddressExact(cfg, v, d);
    }
  }

  /** The slab that goes back on a list. */
  function Kept(cfg: Config, w: Slab): Slab {
    if w.count == 0 && !cfg.atomic then w.(page := 0) else w
  }

  lemma KeptExact(cfg: Config, w: Slab)
    requires Sized(cfg) && SlabSound(cfg, w)
    ensures SlabSound(cfg, Kept(cfg, w)) && (Kept(cfg, w).page == 0 || Kept(cfg, w).page == w.page)
    ensures forall x :: HoldsAny(cfg, Kept(cfg, w), x) <==> HoldsAny(cfg, w, x)
  {
    hide Sized, Chunks, HoldsAny, UsedSet;
    if w.count == 0 && !cfg.atomic {
      NothingHeld(cfg, w);
      NothingHeld(cfg, Kept(cfg, w));
    }
  }

  lemma DroppedFrees(cfg: Config, s: Cache, rest: Cache, v: Slab, c: nat)
    requires Sized(cfg) && Sound(cfg, s) && v in All(s) && SlabSound(cfg, v) && v.page != 0
    requires c < Chunks(cfg) && Used(v.bitmap, c) && c / WORD_BITS < |v.bitmap| && v.count > 0
    requires All(rest) == All(s) - multiset{v} && rest.free == s.free
    requires forall i :: 0 <= i < |rest.full| ==> rest.full[i] in s.full
    requires forall i :: 0 <= i < |rest.partial| ==> rest.partial[i] in s.partial
    ensures Frees(cfg, s, Relink(cfg, rest, Drop(v, c)), Address(cfg, v, c))
  {
    hide AllSound, SlabSound, Live, Owns, Sized, Chunks, Used, UsedSet, Replace, Holds, Address, HoldsAny, All, Sound,
      ReleasesEmpty;
    var w := Drop(v, c);
    var k := Kept(cfg, w);
    var f := Relink(cfg, rest, w);
    var a := Address(cfg, v, c);
    SoundParts(cfg, s);
    DropExact(cfg, v, c);
    KeptExact(cfg, w);
    RelinkAll(cfg, s, rest, v, w);
    ReplaceSound(cfg, All(s), v, k);
    CountBound(cfg, v);
    RelinkSound(cfg, s, rest, w);
    PageOwned(All(s), v.page);
    DropReleases(cfg, s, rest, v, c);
    forall x
      ensures Live(cfg, All(f.cache), x) <==> Live(cfg, All(s), x) && x != a
    {
      ReplaceLive(cfg, All(s), v, k, x);
      HeldLive(cfg, All(s), v, x);
    }
    forall p
      ensures Owns(All(f.cache), p) <==> Owns(All(s), p) && p != f.released
    {
      ReplaceOwns(cfg, All(s), v, k, p);
      PageOwned(All(s), p);
    }
  }

  lemma CountBound(cfg: Config, v: Slab)
    requires Sized(cfg) && SlabSound(cfg, v)
    ensures v.count <= Chunks(cfg)
  {
    UsedCount(v.bitmap, Chunks(cfg));
  }

  /**
   * Freeing: null is accepted and does nothing; a live chunk, and only a live chunk, is freed and nothing
   * else dies; every other address, be it unaligned, foreign or already free, is rejected and changes nothing.
   */
  lemma FreeExact(cfg: Config, s: Cache, a: nat)
    requires Sized(cfg) && Sound(cfg, s)
    ensures !Live(cfg, All(s), 0)
    ensures a == 0 ==> Free(cfg, s, a) == Freed(s, 0, 0)
    ensures a != 0 && Live(cfg, All(s), a) ==> Frees(cfg, s, Free(cfg, s, a), a)
    ensures a != 0 && !Live(cfg, All(s), a) ==> Free(cfg, s, a) == Freed(s, -1, 0)
  {
    hide AllSound, SlabSound, Live, Owns, Sized, Chunks, Used, All, Contains, Frees, FreeAt, Sound;
    LiveWhere(cfg, s, 0);
    LiveWhere(cfg, s, a);
    var i := FindIn(cfg, s.partial, a, 0);
    var j := FindIn(cfg, s.full, a, 0);
    if a != 0 && AlignedTo(cfg, a) {
      if i < |s.partial| {
        PartialOut(cfg, s, i);
        FreeAtExact(cfg, s, s.(partial := Remove(s.partial, i)), s.partial[i], a);
      } else if j < |s.full| {
        FullOut(cfg, s, j);
        FreeAtExact(cfg, s, s.(full := Remove(s.full, j)), s.full[j], a);
      }
    }
  }

  predicate AlignedTo(cfg: Config, a: nat)
    requires Sized(cfg)
  {
    a % cfg.chunkSz == 0
  }

  ghost predicate InSome(cfg: Config, list: seq<Slab>, a: nat) {
    exists i :: 0 <= i < |list| && Contains(cfg, list[i], a)
  }

  /** A live address is aligned and lies in a partial or full slab. */
  lemma LiveWhere(cfg: Config, s: Cache, a: nat)
    requires Sized(cfg) && Sound(cfg, s)
    ensures Live(cfg, All(s), a) ==> a != 0 && AlignedTo(cfg, a) && (InSome(cfg, s.partial, a) || InSome(cfg, s.full, a))
  {
    hide Chunks, Used, Address, UsedSet, Extent;
    if Live(cfg, All(s), a) {
      var v, c :| v in All(s) && Holds(cfg, v, c, a);
      HeldInPages(cfg, v, c, a);
      AddressExact(cfg, v, c);
      UsedCount(v.bitmap, Chunks(cfg));
      InAll(s, v);
    }
  }

  lemma RemoveIn(list: seq<Slab>, i: nat)
    requires i < |list|
    ensures forall k :: 0 <= k < |Remove(list, i)| ==> Remove(list, i)[k] in list
  {
  }

  lemma CountedOwns(cfg: Config, s: Cache, v: Slab)
    requires Sized(cfg) && AllSound(cfg, All(s)) && v in All(s) && v.count > 0
    ensures v.page != 0
  {
  }

  lemma PartialOut(cfg: Config, s: Cache, i: nat)
    requires Sized(cfg) && Sound(cfg, s) && i < |s.partial|
    ensures var v, rest := s.partial[i], s.(partial := Remove(s.partial, i));
            && v in All(s) && v.page != 0 && All(rest) == All(s) - multiset{v}
            && forall k :: 0 <= k < |rest.partial| ==> rest.partial[k] in s.partial
  {
    hide Chunks, AllSound, Remove;
    InAll(s, s.partial[i]);
    CountedOwns(cfg, s, s.partial[i]);
    MultisetAt(s.partial, i);
    RemoveIn(s.partial, i);
  }

  lemma FullOut(cfg: Config, s: Cache, j: nat)
    requires Sized(cfg) && Sound(cfg, s) && j < |s.full|
    ensures var v, rest := s.full[j], s.(full := Remove(s.full, j));
            && v in All(s) && v.page != 0 && All(rest) == All(s) - multiset{v}
            && forall k :: 0 <= k < |rest.full| ==> rest.full[k] in s.full
  {
    hide AllSound, Remove;
    InAll(s, s.full[j]);
    CountedOwns(cfg, s, s.full[j]);
    MultisetAt(s.full, j);
    RemoveIn(s.full, j);
  }

  /* ---- Every run ---- */

  datatype Event =
    | Allocate(more: bool, page: nat)
    | Release(a: nat)

  ghost function Step(cfg: Config, s: Cache, e: Event): Cache
    requires Sized(cfg) && Sound(cfg, s)
  {
    match e
    case Allocate(more, page) => Alloc(cfg, s, more, page).0
    case Release(a) => Free(cfg, s, a).cache
  }

  /** The set of live chunks that the same calls leave: an allocation adds what it returns, a free removes its chunk. */
  ghost function StepLive(cfg: Config, s: Cache, live: set<nat>, e: Event): set<nat>
    requires Sized(cfg) && Sound(cfg, s)
  {
    match e
    case Allocate(more, page) => var addr := Alloc(cfg, s, more, page).1; if addr == 0 then live else live + {addr}
    case Release(a) => live - {a}
  }

  ghost predicate Refines(cfg: Config, s: Cache, live: set<nat>)
    requires Sized(cfg)
  {
    forall a :: Live(cfg, All(s), a) <==> a in live
  }

  /** The page allocator only ever gives pages that no slab has. */
  ghost predicate Legal(cfg: Config, s: Cache, e: Event)
    requires Sized(cfg) && Sound(cfg, s)
  {
    e.Allocate? ==> PageGiven(cfg, s, e.more, e.page)
  }

  lemma StepRefines(cfg: Config, s: Cache, live: set<nat>, e: Event)
    requires Sized(cfg) && Sound(cfg, s) && Legal(cfg, s, e) && Refines(cfg, s, live)
    ensures Sound(cfg, Step(cfg, s, e)) && Refines(cfg, Step(cfg, s, e), StepLive(cfg, s, live, e))
  {
    hide Sized, Sound, Live, All, Owns, Alloc, Free, PageGiven;
    match e
    case Allocate(more, page) => AllocExact(cfg, s, more, page);
    case Release(a) => FreeExact(cfg, s, a);
  }

  ghost predicate Allowed(cfg: Config, s: Cache, live: set<nat>, events: seq<Event>)
    requires Sized(cfg) && Sound(cfg, s) && Refines(cfg, s, live)
    decreases |events|
  {
    events == [] || (
      Legal(cfg, s, events[0]) && (
        StepRefines(cfg, s, live, events[0]);
        Allowed(cfg, Step(cfg, s, events[0]), StepLive(cfg, s, live, events[0]), events[1..])
      )
    )
  }

  ghost function Run(cfg: Config, s: Cache, live: set<nat>, events: seq<Event>): (Cache, set<nat>)
    requires Sized(cfg) && Sound(cfg, s) && Refines(cfg, s, live) && Allowed(cfg, s, live, events)
    decreases |events|
  {
    if events == [] then (s, live) else
      StepRefines(cfg, s, live, events[0]);
      Run(cfg, Step(cfg, s, events[0]), StepLive(cfg, s, live, events[0]), events[1..])
  }

  /** Over every run the cache stays sound and stands for exactly the chunks allocated and not freed. */
  lemma {:induction false} EveryRun(cfg: Config, s: Cache, live: set<nat>, events: seq<Event>)
    requires Sized(cfg) && Sound(cfg, s) && Refines(cfg, s, live) && Allowed(cfg, s, live, events)
    ensures var (r, l) := Run(cfg, s, live, events);
            Sound(cfg, r) && Refines(cfg, r, l)
    decreases |events|
  {
    hide Sized, Sound, Refines, Legal, Step, StepLive;
    if events != [] {
      StepRefines(cfg, s, live, events[0]);
      EveryRun(cfg, Step(cfg, s, events[0]), StepLive(cfg, s, live, events[0]), events[1..]);
    }
  }

  /** mem_cache_new leaves three empty lists and nothing live. */
  lemma NewCache(cfg: Config)
    requires Sized(cfg)
    ensures Sound(cfg, Cache([], [], [])) && Refines(cfg, Cache([], [], []), {})
  {
  }
}
