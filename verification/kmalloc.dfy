/** kmalloc and kfree: seven slab caches, from 32 to 2048 bytes, created when they are first needed. */
module Kmalloc {
  import opened Machine
  import opened Shifts
  import opened Division
  import opened MemoryFlags
  import opened SlabBitmaps
  import opened Slabs
  import opened SlabCaches
  import opened MemCaches

  /** The chunk sizes of the pools; all have one page to a slab and the flag GFP_KERNEL. */
  const POOLS: seq<nat> := [32, 64, 128, 256, 512, 1024, 2048]
  const COUNT: nat := 7

  function PoolSize(i: nat): (r: nat)
    requires i < COUNT
    ensures 32 <= r <= 2048 && PAGE_SIZE % r == 0
  {
    POOLS[i]
  }

  /** The seven sizes are the powers of two from 32 to 2048. */
  lemma PoolSizes(i: nat)
    requires i < COUNT
    ensures COUNT == 7 && PoolSize(i) == 32 * Pow2(i)
    ensures PoolConfig(i) == Config(1, 32 * Pow2(i), false)
  {
    assert Pow2(1) == 2 && Pow2(2) == 4 && Pow2(3) == 8 && Pow2(4) == 16 && Pow2(5) == 32 && Pow2(6) == 64;
  }

  function PoolConfig(i: nat): Config
    requires i < COUNT
  {
    Config(1, PoolSize(i), false)
  }

  lemma PoolSized(i: nat)
    requires i < COUNT
    ensures Sized(PoolConfig(i))
  {
  }

  /** The smallest pool whose chunks are large enough, from the i-th on. */
  function PoolFor(size: nat, i: nat): (r: nat)
    requires i <= COUNT
    ensures i <= r <= COUNT
    ensures r < COUNT ==> PoolSize(r) >= size
    ensures forall k :: i <= k < r ==> PoolSize(k) < size
    decreases COUNT - i
  {
    if i == COUNT || PoolSize(i) >= size then i else PoolFor(size, i + 1)
  }

  /** A request fits some pool exactly up to 2048 bytes; the pool used is the tightest one. */
  lemma TightestPool(size: nat)
    ensures var k := PoolFor(size, 0);
            && (k < 7 <==> size <= 2048)
            && (k < 7 ==> size <= PoolSize(k) && forall j :: 0 <= j < 7 && size <= PoolSize(j) ==> PoolSize(k) <= PoolSize(j))
            && (k < 7 && size > 32 ==> PoolSize(k) < 2 * size)
            && (size <= 32 ==> PoolSize(k) == 32)
  {
    var k := PoolFor(size, 0);
    PoolSizes(6);
    PoolSizes(0);
    assert Pow2(5) == 32;
    if k < 7 {
      PoolSizes(k);
      if k > 0 {
        PoolSizes(k - 1);
      }
      forall j | 0 <= j < 7 && size <= PoolSize(j)
        ensures PoolSize(k) <= PoolSize(j)
      {
        PoolSizes(j);
        Pow2Mono(k, j);
      }
    }
  }

  /** BITMAP_WORDS, in words of four bytes. */
  function BitmapWords(pages: nat, chunkSz: nat): nat
    requires chunkSz > 0
  {
    (((pages * PAGE_SIZE + (chunkSz - 1)) / chunkSz + 7) / 8 + 3) / 4
  }

  /** The lists and slabs of a cache, and its value. */
  datatype Extent = Extent(lists: set<SlabList>, nodes: set<SlabNode>, state: Cache)

  /** The objects of a cache that its methods write. */
  function Objects(e: Extent): set<object> {
    var lists: set<object>, nodes: set<object> := e.lists, e.nodes;
    lists + nodes
  }

  ghost function AllObjects(e: seq<Extent>): set<object>
    requires |e| == COUNT
  {
    set i, o: object | 0 <= i < COUNT && o in Objects(e[i]) :: o
  }

  lemma InAllObjects(e: seq<Extent>, i: nat)
    requires i < COUNT == |e|
    ensures Objects(e[i]) <= AllObjects(e)
  {
  }

  function NoExtent(): Extent { Extent({}, {}, Cache([], [], [])) }

  ghost function ExtentOf(c: MemCache): Extent
    reads c.full, c.partial, c.free, c.full.nodes, c.partial.nodes, c.free.nodes
  {
    Extent({c.full, c.partial, c.free}, c.Nodes(), c.State())
  }

  /** Two caches share neither lists, nor slabs, nor pages. */
  ghost predicate Separate(a: Extent, b: Extent) {
    && a.lists !! b.lists && a.nodes !! b.nodes
    && forall p {:trigger Owns(All(a.state), p)} {:trigger Owns(All(b.state), p)} ::
         !(Owns(All(a.state), p) && Owns(All(b.state), p))
  }

  /** `a` is a live chunk of a pool of the i-th size. */
  ghost predicate ChunkLive(i: nat, e: Extent, a: nat)
    requires i < COUNT
  {
    PoolSized(i);
    Live(PoolConfig(i), All(e.state), a)
  }

  lemma NoChunkLive(i: nat, e: Extent)
    requires i < COUNT && e.state == Cache([], [], [])
    ensures forall a :: !ChunkLive(i, e, a)
  {
  }

  /** None of the first i pools has a live chunk at `mem`. */
  ghost predicate NoneLive(before: seq<Extent>, i: nat, mem: nat)
    requires i <= COUNT == |before|
  {
    forall k :: 0 <= k < i ==> !ChunkLive(k, before[k], mem)
  }

  /** Exactly the chunk at `mem` of the k-th pool is no longer live. */
  ghost predicate Released(k: nat, before: seq<Extent>, after: seq<Extent>, mem: nat)
    requires k < COUNT == |before| == |after|
  {
    && ChunkLive(k, before[k], mem) && after == before[k := after[k]]
    && forall a :: ChunkLive(k, after[k], a) <==> ChunkLive(k, before[k], a) && a != mem
  }

  /** Null and live chunks are accepted; a live chunk is released in its pool, all else changes nothing. */
  ghost predicate FreeOutcome(before: seq<Extent>, after: seq<Extent>, mem: nat, r: int)
    requires |before| == COUNT == |after|
  {
    && r == (if mem == 0 || !NoneLive(before, COUNT, mem) then 0 else -1)
    && (mem == 0 || r != 0 ==> after == before)
    && (mem != 0 && r == 0 ==> exists k :: 0 <= k < COUNT && NoneLive(before, k, mem) && Released(k, before, after, mem))
  }

  lemma NullOutcome(before: seq<Extent>)
    requires |before| == COUNT
    ensures FreeOutcome(before, before, 0, 0)
  {
  }

  lemma NoneLiveYet(before: seq<Extent>, mem: nat)
    requires |before| == COUNT
    ensures NoneLive(before, 0, mem)
  {
  }

  lemma NoneLiveNext(before: seq<Extent>, i: nat, mem: nat)
    requires i < COUNT == |before| && NoneLive(before, i, mem) && !ChunkLive(i, before[i], mem)
    ensures NoneLive(before, i + 1, mem)
  {
  }

  lemma FreedOutcome(i: nat, before: seq<Extent>, after: seq<Extent>, mem: nat)
    requires i < COUNT == |before| == |after| && mem != 0 && NoneLive(before, i, mem)
    requires ChunkLive(i, before[i], mem) && after == before[i := after[i]]
    requires forall a :: ChunkLive(i, after[i], a) <==> ChunkLive(i, before[i], a) && a != mem
    ensures FreeOutcome(before, after, mem, 0)
  {
    hide ChunkLive;
    assert Released(i, before, after, mem);
  }

  lemma NotFreedOutcome(before: seq<Extent>, mem: nat)
    requires |before| == COUNT && mem != 0 && NoneLive(before, COUNT, mem)
    ensures FreeOutcome(before, before, mem, -1)
  {
  }

  /** Chunks of one pool, and chunks of separate pools, do not overlap. */
  lemma Overlap(i: nat, e: Extent, a: nat, j: nat, f: Extent, b: nat)
    requires i < COUNT && j < COUNT && ChunkLive(i, e, a) && ChunkLive(j, f, b)
    requires Sized(PoolConfig(i)) && AllSound(PoolConfig(i), All(e.state))
    requires Sized(PoolConfig(j)) && AllSound(PoolConfig(j), All(f.state))
    requires Separate(e, f) || (i == j && e == f && a != b)
    ensures a + PoolSize(i) <= b || b + PoolSize(j) <= a
  {
    hide AllSound, SlabSound, Used, Address, Chunks, Sized, PoolSize, All;
    var u, c :| u in All(e.state) && Holds(PoolConfig(i), u, c, a);
    var v, d :| v in All(f.state) && Holds(PoolConfig(j), v, d, b);
    Inside(i, All(e.state), u, c, a);
    Inside(j, All(f.state), v, d, b);
    if Separate(e, f) {
      assert Owns(All(e.state), u.page) && Owns(All(f.state), v.page);
      PagesApart2(u.page, v.page);
    } else {
      MultiplesApart(a, b, PoolSize(i));
    }
  }

  lemma Inside(i: nat, slabs: multiset<Slab>, v: Slab, c: nat, a: nat)
    requires i < COUNT && Sized(PoolConfig(i)) && AllSound(PoolConfig(i), slabs) && v in slabs && Holds(PoolConfig(i), v, c, a)
    ensures v.page != 0 && v.page % PAGE_SIZE == 0 && v.page <= a && a + PoolSize(i) <= v.page + PAGE_SIZE
    ensures a % PoolSize(i) == 0
  {
    hide Used, Address, Chunks, Sized, UsedSet, Apart;
    HeldInPages(PoolConfig(i), v, c, a);
    AddressExact(PoolConfig(i), v, c);
  }

  lemma PagesApart2(p: nat, q: nat)
    requires p % PAGE_SIZE == 0 && q % PAGE_SIZE == 0 && p != q
    ensures p + PAGE_SIZE <= q || q + PAGE_SIZE <= p
  {
  }

  /** Different multiples lie at least the factor apart. */
  lemma MultiplesApart(a: nat, b: nat, d: nat)
    requires d > 0 && a % d == 0 && b % d == 0 && a != b
    ensures a + d <= b || b + d <= a
  {
    var x, y := a / d, b / d;
    assert a == x * d && b == y * d;
    if x < y {
      MulMono(x + 1, y, d);
    } else {
      assert x != y;
      MulMono(y + 1, x, d);
    }
  }

  lemma PoolBitmaps(i: nat)
    requires i < COUNT
    ensures BitmapWords(1, PoolSize(i)) <= MAX_BITMAP_WORDS
  {
  }

  /** A cache just created shares nothing. */
  lemma NewSeparate(c: Extent, d: Extent)
    requires c.lists !! d.lists && c.nodes == {} && c.state == Cache([], [], [])
    ensures Separate(c, d) && Separate(d, c)
  {
  }

  lemma SeparateParts(a: Extent, b: Extent)
    requires Separate(a, b) || Separate(b, a)
    ensures a.lists !! b.lists && a.nodes !! b.nodes && Separate(a, b) && Separate(b, a)
  {
  }

  /** A cache that grew by new slabs and by pages that nobody owned is still separate from another one. */
  lemma GrownSeparate(a: Extent, grown: Extent, b: Extent, cfg: Config, owned: set<nat>)
    requires Separate(a, b) && grown.lists == a.lists && (grown.nodes - a.nodes) !! b.nodes
    requires forall p {:trigger Owns(All(grown.state), p)} ::
               Owns(All(grown.state), p) ==> Owns(All(a.state), p) || PagesFrom(p, cfg.pagesPerSlab) !! owned
    requires cfg.pagesPerSlab > 0 && PagesOwned(cfg, All(b.state), owned)
    ensures Separate(grown, b) && Separate(b, grown)
  {
    hide Owns, All, PagesFrom;
    forall p | Owns(All(grown.state), p) && Owns(All(b.state), p)
      ensures false
    {
      FirstPage(p, cfg.pagesPerSlab);
    }
  }

  lemma FirstPage(p: nat, n: nat)
    requires n > 0
    ensures p in PagesFrom(p, n)
  {
    assert Aligned(p, p);
  }

  /** Pages that one cache gives back are not those of another, which stays separate. */
  lemma OthersKeepPages(a: Extent, after: Extent, b: Extent, cfgA: Config, cfgB: Config, owned: set<nat>, now: set<nat>)
    requires Separate(a, b) && cfgA.pagesPerSlab == cfgB.pagesPerSlab == 1 && PagesOwned(cfgB, All(b.state), owned)
    requires GivesBack(cfgA, All(a.state), All(after.state), owned, now) && after.lists == a.lists && after.nodes == a.nodes
    ensures PagesOwned(cfgB, All(b.state), now) && Separate(after, b) && Separate(b, after)
  {
    hide Owns, All, PagesFrom;
    forall p | Owns(All(b.state), p)
      ensures PagesFrom(p, 1) <= now
    {
      forall q | q in PagesFrom(p, 1)
        ensures q in now
      {
        OnePage(p, q);
        if q !in now {
          var r :| Owns(All(a.state), r) && q in PagesFrom(r, 1);
          OnePage(r, q);
        }
      }
    }
  }

  lemma OnePage(p: nat, q: nat)
    requires q in PagesFrom(p, 1)
    ensures q == p
  {
  }

  class Pools {
    const pools: array<MemCache?>
    const source: PageSource
    const cachesTotal: nat
    var cachesUsed: nat

    /** kmalloc's pools before any is created; `cachesTotal` is the room that mem_cache_setup found. */
    constructor (source: PageSource, cachesTotal: nat)
      ensures Valid() && forall i :: 0 <= i < COUNT ==> pools[i] == null
    {
      pools := new MemCache?[COUNT](_ => null);
      this.source := source;
      this.cachesTotal := cachesTotal;
      cachesUsed := 0;
    }

    ghost predicate PoolOk(i: nat)
      requires i < pools.Length == COUNT
      reads *
    {
      pools[i] == null || (pools[i].Valid() && pools[i].source == source && pools[i].cfg == PoolConfig(i))
    }

    ghost predicate Apart(i: nat, j: nat)
      requires i < pools.Length && j < pools.Length
      reads *
    {
      pools[i] == null || pools[j] == null || Separate(ExtentOf(pools[i]), ExtentOf(pools[j]))
    }

    ghost predicate Valid()
      reads *
    {
      && pools.Length == COUNT
      && (forall i {:trigger PoolOk(i)} :: 0 <= i < COUNT ==> PoolOk(i))
      && (forall i, j {:trigger Apart(i, j)} :: 0 <= i < j < COUNT ==> Apart(i, j))
    }

    /** mem_cache_new, for the i-th pool. */
    method NewPool(i: nat) returns (e: int)
      requires Valid() && i < COUNT && pools[i] == null
      modifies pools, this`cachesUsed
      ensures Valid() && forall k :: 0 <= k < COUNT && k != i ==> pools[k] == old(pools[k])
      ensures e == if old(cachesUsed) < cachesTotal then 0 else -1
      ensures e == 0 ==> pools[i] != null && fresh(Footprint(i)) && Extents()[i].state == Cache([], [], [])
      ensures e != 0 ==> pools[i] == null
      ensures Extents() == old(Extents())[i := Extents()[i]]
    {
      hide MemCache.Valid, MemCache.Shape, MemCache.State, Separate, Extents, BitmapWords, PoolSize, Sized;
      ExtentsAre();
      if cachesUsed < cachesTotal {
        PoolBitmaps(i);
        if BitmapWords(1, PoolSize(i)) > MAX_BITMAP_WORDS {
          return -1;
        }
        cachesUsed := cachesUsed + 1;
        PoolSized(i);
        var c := new MemCache(source, 1, PoolSize(i), false);
        label Created:
        pools[i] := c;
        c.Untouched@Created();
        forall k | 0 <= k < COUNT && k != i && pools[k] != null
          ensures PoolOk(k) && ExtentOf(pools[k]) == old(ExtentOf(pools[k]))
          ensures Separate(ExtentOf(pools[k]), ExtentOf(c)) && Separate(ExtentOf(c), ExtentOf(pools[k]))
        {
          assert old(PoolOk(k));
          pools[k].Untouched();
          NewSeparate(ExtentOf(c), ExtentOf(pools[k]));
        }
        forall j, k | 0 <= j < k < COUNT
          ensures Apart(j, k)
        {
          assert old(Apart(j, k));
        }
        ExtentsAre();
        return 0;
      }
      return -1;
    }

    /** What each pool has now. */
    ghost function Extents(): (e: seq<Extent>)
      requires pools.Length == COUNT
      reads *
      ensures |e| == COUNT
    {
      seq(COUNT, k requires 0 <= k < COUNT reads * =>
        if pools[k] == null then NoExtent() else ExtentOf(pools[k]))
    }

    lemma ExtentsAre()
      requires pools.Length == COUNT
      ensures forall k :: 0 <= k < COUNT ==> Extents()[k] == if pools[k] == null then NoExtent() else ExtentOf(pools[k])
    {
    }

    ghost function Footprint(i: nat): set<object>
      requires i < pools.Length == COUNT
      reads *
    {
      Objects(Extents()[i])
    }

    lemma AllPagesOwned()
      requires Valid()
      ensures forall k :: 0 <= k < COUNT && pools[k] != null ==> PagesOwned(PoolConfig(k), All(Extents()[k].state), source.owned)
    {
      hide MemCache.Valid, PagesOwned, Extents;
      ExtentsAre();
      forall k | 0 <= k < COUNT && pools[k] != null
        ensures PagesOwned(PoolConfig(k), All(Extents()[k].state), source.owned)
      {
        assert PoolOk(k);
        pools[k].PagesOf();
      }
    }

    /** The other pools are as they were and separate from the i-th: all pools are still sound and separate. */
    twostate lemma Reassembled(i: nat)
      requires old(Valid()) && i < COUNT && pools[..] == old(pools[..])
      requires PoolOk(i) && pools[i] != null
      requires forall k :: 0 <= k < COUNT && k != i && pools[k] != null ==> KeptApart(k, i)
      ensures Valid() && Extents() == old(Extents())[i := ExtentOf(pools[i])]
      ensures pools[i] == old(pools[i]) ==> old(Extents())[i] == old(ExtentOf(pools[i]))
    {
      hide MemCache.Valid, Separate, ExtentOf;
      forall j, k | 0 <= j < k < COUNT
        ensures Apart(j, k)
      {
        assert old(Apart(j, k));
      }
    }

    twostate predicate KeptApart(k: nat, i: nat)
      requires k < COUNT == pools.Length && i < COUNT && pools[k] != null && pools[i] != null
      requires pools[k] == old(pools[k])
      reads *
    {
      && PoolOk(k) && ExtentOf(pools[k]) == old(ExtentOf(pools[k]))
      && Separate(ExtentOf(pools[k]), ExtentOf(pools[i])) && Separate(ExtentOf(pools[i]), ExtentOf(pools[k]))
    }

    /** An allocation from one pool; all other pools stay as they are. */
    method PoolAlloc(i: nat) returns (r: nat)
      requires Valid() && i < COUNT && pools[i] != null
      modifies Footprint(i), source
      ensures Valid() && fresh(Footprint(i) - old(Footprint(i)))
      ensures Extents() == old(Extents())[i := Extents()[i]]
      ensures forall a :: ChunkLive(i, Extents()[i], a) <==> ChunkLive(i, old(Extents())[i], a) || (r != 0 && a == r)
      ensures r != 0 ==> r % PoolSize(i) == 0 && !ChunkLive(i, old(Extents())[i], r)
      ensures source.refusals == old(source.refusals) + if r == 0 then 1 else 0
      ensures old(Extents())[i].state.partial != [] ==> r != 0
    {
      hide MemCache.Valid, MemCache.Shape, MemCache.State, Separate, Live, Owns, All, PagesFrom, Sized, SlabCaches.Alloc, PageGiven,
        PagesOwned, Extents;
      assert PoolOk(i);
      ExtentsAre();
      AllPagesOwned();
      ghost var more, page;
      r, more, page := pools[i].Alloc();
      forall k | 0 <= k < COUNT && k != i && pools[k] != null
        ensures KeptApart(k, i)
      {
        assert old(PoolOk(k));
        ghost var a, b := old(ExtentOf(pools[i])), old(ExtentOf(pools[k]));
        assert if i < k then old(Apart(i, k)) else old(Apart(k, i));
        SeparateParts(a, b);
        pools[k].Untouched();
        GrownSeparate(a, ExtentOf(pools[i]), b, PoolConfig(k), old(source.owned));
      }
      Reassembled(i);
    }

    /** A free in one pool; all other pools stay as they are. */
    method PoolFree(i: nat, mem: nat) returns (r: int)
      requires Valid() && i < COUNT && pools[i] != null && mem != 0
      modifies Footprint(i), source
      ensures Valid() && Footprint(i) == old(Footprint(i))
      ensures Extents() == old(Extents())[i := Extents()[i]]
      ensures r == if ChunkLive(i, old(Extents())[i], mem) then 0 else -1
      ensures forall a :: ChunkLive(i, Extents()[i], a) <==> ChunkLive(i, old(Extents())[i], a) && a != mem
      ensures r != 0 ==> Extents() == old(Extents()) && source.owned == old(source.owned)
    {
      hide MemCache.Valid, MemCache.Shape, MemCache.State, Separate, Live, Owns, All, PagesFrom, Sized, SlabCaches.Free, GivesBack,
        PagesOwned, Extents;
      assert PoolOk(i);
      ExtentsAre();
      AllPagesOwned();
      r := pools[i].Free(mem);
      forall k | 0 <= k < COUNT && k != i && pools[k] != null
        ensures KeptApart(k, i)
      {
        assert old(PoolOk(k));
        ghost var a, b := old(ExtentOf(pools[i])), old(ExtentOf(pools[k]));
        assert if i < k then old(Apart(i, k)) else old(Apart(k, i));
        SeparateParts(a, b);
        OthersKeepPages(a, ExtentOf(pools[i]), b, PoolConfig(i), PoolConfig(k), old(source.owned), source.owned);
        pools[k].Untouched();
      }
      Reassembled(i);
    }

    /** The i-th pool does not exist and there is no room to create it. */
    ghost predicate NoCacheFor(i: nat)
      requires i < pools.Length
      reads this, pools
    {
      pools[i] == null && cachesUsed >= cachesTotal
    }

    /** What the i-th pool does for kmalloc: it is created if need be, and a chunk is taken from it. */
    method TakeFrom(i: nat) returns (p: nat)
      requires Valid() && i < COUNT
      modifies this`cachesUsed, pools, Footprint(i), source
      ensures Valid() && Extents() == old(Extents())[i := Extents()[i]]
      ensures forall a :: ChunkLive(i, Extents()[i], a) <==> ChunkLive(i, old(Extents())[i], a) || (p != 0 && a == p)
      ensures p != 0 ==> p % PoolSize(i) == 0 && !ChunkLive(i, old(Extents())[i], p)
      ensures p == 0 <==> old(NoCacheFor(i)) || source.refusals > old(source.refusals)
      ensures source.refusals <= old(source.refusals) + 1
      ensures old(Extents())[i].state.partial != [] ==> p != 0
    {
      hide Valid, ChunkLive, Extents, Footprint;
      Seven();
      if pools[i] == null {
        NoChunkLive(i, Extents()[i]);
        var e := NewPool(i);
        if e != 0 {
          Seven();
          return 0;
        }
        NoChunkLive(i, Extents()[i]);
      }
      p := PoolAlloc(i);
    }

    lemma Seven()
      requires Valid()
      ensures pools.Length == COUNT
      ensures forall k :: 0 <= k < COUNT && pools[k] == null ==> Extents()[k] == NoExtent() && Footprint(k) == {}
    {
    }

    /** All that kmalloc and kfree may write in the pools. */
    ghost function Repr(): set<object>
      requires pools.Length == COUNT
      reads *
    {
      AllObjects(Extents())
    }

    /**
     * kmalloc without its memset. The chunk comes from the smallest pool that fits, it is aligned to its
     * size and was not live, and it becomes live in that pool alone; null changes nothing that is live. Null
     * means no such pool, no room to create it, or no pages; while a slab of the pool is partial it cannot happen.
     */
    method Kmalloc(size: nat, gfpFlags: nat) returns (p: nat)
      requires pools.Length == COUNT && Valid()
      modifies this`cachesUsed, pools, Repr(), source
      ensures Valid()
      ensures var k := PoolFor(size, 0);
              if HasKernel(gfpFlags) && size <= 2048 then
                && k < COUNT
                && Extents() == old(Extents())[k := Extents()[k]]
                && size <= PoolSize(k) == 32 * Pow2(k) && (size > 32 ==> PoolSize(k) < 2 * size)
                && (forall j :: 0 <= j < 7 && size <= PoolSize(j) ==> PoolSize(k) <= PoolSize(j))
                && (p != 0 ==> p % PoolSize(k) == 0 && !ChunkLive(k, old(Extents())[k], p))
                && (forall a :: ChunkLive(k, Extents()[k], a) <==> ChunkLive(k, old(Extents())[k], a) || (p != 0 && a == p))
                && (p == 0 <==> old(NoCacheFor(k)) || source.refusals > old(source.refusals))
                && (old(Extents())[k].state.partial != [] ==> p != 0)
              else p == 0 && Extents() == old(Extents()) && source.refusals == old(source.refusals)
    {
      hide Valid, ChunkLive, Extents, Objects, AllObjects, PoolSize;
      Seven();
      TightestPool(size);
      if size <= 2048 {
        PoolSizes(PoolFor(size, 0));
      }
      for i := 0 to COUNT
        invariant HasKernel(gfpFlags) ==> PoolFor(size, 0) == PoolFor(size, i)
      {
        if HasKernel(gfpFlags) {
          if PoolSize(i) >= size {
            InAllObjects(Extents(), i);
            p := TakeFrom(i);
            return p;
          }
        }
      }
      return 0;
    }

    lemma Within(e: seq<Extent>, i: nat)
      requires pools.Length == COUNT && i < COUNT && Extents() == e
      ensures Footprint(i) <= Repr() == AllObjects(e)
    {
      InAllObjects(e, i);
    }

    /** What the i-th pool, if it exists, does for kfree. */
    method TryFree(i: nat, mem: nat) returns (r: int)
      requires Valid() && i < COUNT && mem != 0
      modifies Footprint(i), source
      ensures Valid() && Extents() == old(Extents())[i := Extents()[i]]
      ensures r == if ChunkLive(i, old(Extents())[i], mem) then 0 else -1
      ensures forall a :: ChunkLive(i, Extents()[i], a) <==> ChunkLive(i, old(Extents())[i], a) && a != mem
      ensures r != 0 ==> Extents() == old(Extents())
    {
      hide Valid, ChunkLive, Extents, Objects;
      Seven();
      r := -1;
      if pools[i] != null {
        r := PoolFree(i, mem);
      } else {
        NoChunkLive(i, Extents()[i]);
      }
    }

    /**
     * kfree. Null is accepted; a chunk that is live in some pool is released there, the pools before it
     * having rejected it unchanged; everything else is rejected and changes nothing.
     */
    method Kfree(mem: nat) returns (r: int)
      requires pools.Length == COUNT && Valid()
      modifies Repr(), source
      ensures Valid()
      ensures FreeOutcome(old(Extents()), Extents(), mem, r)
    {
      hide Valid, ChunkLive, Extents, Objects, AllObjects, FreeOutcome, NoneLive, Footprint, Repr;
      ghost var before := Extents();
      if mem == 0 {
        NullOutcome(before);
        return 0;
      }
      NoneLiveYet(before, mem);
      Within(before, 0);
      for i := 0 to COUNT
        invariant Valid() && Extents() == before && NoneLive(before, i, mem)
      {
        Within(before, i);
        r := TryFree(i, mem);
        if r == 0 {
          FreedOutcome(i, before, Extents(), mem);
          return 0;
        }
        NoneLiveNext(before, i, mem);
      }
      r := -1;
      NotFreedOutcome(before, mem);
    }

    /** Two live chunks, of the same pool or of different ones, never overlap. */
    lemma ChunksDisjoint(i: nat, a: nat, j: nat, b: nat)
      requires Valid() && i < COUNT && j < COUNT && (i != j || a != b)
      requires ChunkLive(i, Extents()[i], a) && ChunkLive(j, Extents()[j], b)
      ensures a + PoolSize(i) <= b || b + PoolSize(j) <= a
    {
      hide MemCache.Valid, Separate, ChunkLive, Extents, PoolSize;
      Seven();
      PoolValue(i);
      PoolValue(j);
      NoChunkLive(i, NoExtent());
      NoChunkLive(j, NoExtent());
      assert i < j ==> Apart(i, j);
      assert j < i ==> Apart(j, i);
      if i != j {
        SeparateParts(Extents()[i], Extents()[j]);
      }
      Overlap(i, Extents()[i], a, j, Extents()[j], b);
    }

    lemma PoolValue(i: nat)
      requires Valid() && i < COUNT
      ensures Extents()[i] == NoExtent() || (pools[i] != null && Extents()[i] == ExtentOf(pools[i]))
      ensures Sized(PoolConfig(i)) && AllSound(PoolConfig(i), All(Extents()[i].state))
    {
      PoolSized(i);
      NewCache(PoolConfig(i));
      assert PoolOk(i);
    }
  }
}
