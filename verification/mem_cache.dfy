/** The slab cache as linked structures: slabs on three singly linked lists, searched through slab ** cursors. */
module MemCaches {
  import opened Machine
  import opened Words
  import opened SlabBitmaps
  import opened Slabs
  import opened SlabCaches

  lemma ChunkPosition(c: nat, word: nat, bit: nat)
    requires bit < WORD_BITS && word * WORD_BITS + bit == c
    ensures c / WORD_BITS == word && c % WORD_BITS == bit
  {
  }

  /** struct slab */
  class SlabNode {
    var next: SlabNode?
    var page: nat
    var bitmap: seq<Word>
    var allocatedChunks: nat

    /** A slab in a page that was zeroed. */
    constructor ()
      ensures next == null && Value() == BlankSlab()
    {
      next, page, bitmap, allocatedChunks := null, 0, BlankBitmap(), 0;
    }

    function Value(): Slab
      reads this
    {
      Slab(page, bitmap, allocatedChunks)
    }

    /** Sets a bit and counts it. */
    method SetBit(word: nat, bit: nat)
      requires word < |bitmap| && bit < WORD_BITS
      modifies this`bitmap, this`allocatedChunks
      ensures (word * WORD_BITS + bit) / WORD_BITS == word
      ensures Value() == Take(old(Value()), word * WORD_BITS + bit)
    {
      hide Set;
      ChunkPosition(word * WORD_BITS + bit, word, bit);
      bitmap := bitmap[word := Set(bitmap[word], bit)];
      allocatedChunks := allocatedChunks + 1;
    }

    /** Clears a bit and counts it off. */
    method ClearBit(word: nat, bit: nat)
      requires word < |bitmap| && bit < WORD_BITS && allocatedChunks > 0
      modifies this`bitmap, this`allocatedChunks
      ensures (word * WORD_BITS + bit) / WORD_BITS == word
      ensures Value() == Drop(old(Value()), word * WORD_BITS + bit) && page == old(page)
    {
      hide Clear;
      ChunkPosition(word * WORD_BITS + bit, word, bit);
      bitmap := bitmap[word := Clear(bitmap[word], bit)];
      allocatedChunks := allocatedChunks - 1;
    }
  }

  ghost predicate Chain(head: SlabNode?, nodes: seq<SlabNode>)
    reads nodes
  {
    && head == (if nodes == [] then null else nodes[0])
    && forall i {:trigger nodes[i].next} :: 0 <= i < |nodes| ==> nodes[i].next == After(nodes, i)
  }

  ghost predicate NoDup(nodes: seq<SlabNode>) {
    forall i, j :: 0 <= i < j < |nodes| ==> nodes[i] != nodes[j]
  }

  lemma RemovedNodes(was: seq<SlabNode>, i: nat)
    requires NoDup(was) && i < |was|
    ensures var now := was[..i] + was[i + 1..];
            && NoDup(now)
            && (forall n :: n in now <==> n in was && n != was[i])
            && (i > 0 ==> was[i - 1] in now)
  {
    var now := was[..i] + was[i + 1..];
    forall n | n in was && n != was[i]
      ensures n in now
    {
      var j :| 0 <= j < |was| && was[j] == n;
      assert now[if j < i then j else j - 1] == n;
    }
    if i > 0 {
      assert now[i - 1] == was[i - 1];
    }
  }

  /** What follows a slab of the list. */
  ghost function After(nodes: seq<SlabNode>, k: nat): SlabNode? {
    if k + 1 < |nodes| then nodes[k + 1] else null
  }

  lemma AfterRemoved(was: seq<SlabNode>, i: nat)
    requires i < |was|
    ensures var now := was[..i] + was[i + 1..];
            && (forall k: nat {:trigger After(now, k)} :: k < |now| ==>
                  After(now, k) == if k + 1 < i then After(was, k) else if k + 1 == i then After(was, i) else After(was, k + 1))
            && (forall k: nat {:trigger now[k]} :: k < |now| ==> now[k] == was[if k < i then k else k + 1])
            && (i == 0 ==> After(was, 0) == if now == [] then null else now[0])
            && (i > 0 ==> now != [] && now[0] == was[0])
  {
  }

  ghost function ValuesOf(nodes: seq<SlabNode>): (s: seq<Slab>)
    reads nodes
    ensures |s| == |nodes| && forall i :: 0 <= i < |s| ==> s[i] == nodes[i].Value()
  {
    seq(|nodes|, i requires 0 <= i < |nodes| reads nodes => nodes[i].Value())
  }

  lemma ValuesRemoved(was: seq<SlabNode>, i: nat)
    requires i < |was|
    ensures ValuesOf(was[..i] + was[i + 1..]) == Remove(ValuesOf(was), i)
  {
  }

  /** When the link that led to the i-th slab skips it, the other slabs are a chain. */
  lemma ChainRemoved(was: seq<SlabNode>, i: nat, head: SlabNode?)
    requires i < |was| && head == if i == 0 then After(was, 0) else was[0]
    requires forall k {:trigger was[k].next} :: 0 <= k < |was| ==>
               was[k].next == if k == i - 1 then After(was, i) else After(was, k)
    ensures Chain(head, was[..i] + was[i + 1..])
  {
    var now := was[..i] + was[i + 1..];
    AfterRemoved(was, i);
    forall k | 0 <= k < |now|
      ensures now[k].next == After(now, k)
    {
      var j := if k < i then k else k + 1;
      assert now[k] == was[j];
      assert was[j].next == if j == i - 1 then After(was, i) else After(was, j);
    }
  }

  /** slab **: the head of a list, or the next field of a slab. */
  datatype Cursor = Head(list: SlabList) | NextOf(node: SlabNode)

  function Deref(cursor: Cursor): SlabNode?
    reads if cursor.Head? then {cursor.list} else {}, if cursor.NextOf? then {cursor.node} else {}
  {
    match cursor
    case Head(list) => list.head
    case NextOf(node) => node.next
  }

  /** One of the list heads of struct mem_cache. */
  class SlabList {
    var head: SlabNode?
    ghost var nodes: seq<SlabNode>

    ghost predicate Valid()
      reads this, nodes
    {
      Chain(head, nodes) && NoDup(nodes)
    }

    ghost function Values(): (s: seq<Slab>)
      reads this, nodes
      ensures |s| == |nodes| && forall i :: 0 <= i < |s| ==> s[i] == nodes[i].Value()
    {
      ValuesOf(nodes)
    }

    ghost function Members(): set<SlabNode>
      reads this
    {
      set n | n in nodes
    }

    /** A list none of whose slabs were written. */
    twostate lemma Unchanged()
      requires old(Valid()) && head == old(head) && nodes == old(nodes)
      requires forall n :: n in old(nodes) ==> n.next == old(n.next) && n.Value() == old(n.Value())
      ensures Valid() && Values() == old(Values())
    {
    }

    /** A list of which the contents of one slab were written. */
    twostate lemma OneChanged(k: nat)
      requires old(Valid()) && head == old(head) && nodes == old(nodes) && k < |nodes|
      requires forall n :: n in nodes ==> n.next == old(n.next) && (n != nodes[k] ==> n.Value() == old(n.Value()))
      ensures Valid() && Values() == old(Values())[k := nodes[k].Value()]
    {
    }

    lemma HeadIs()
      requires Valid()
      ensures head == if nodes == [] then null else nodes[0]
    {
    }

    constructor ()
      ensures Valid() && nodes == []
    {
      head := null;
      nodes := [];
    }

    /** The cursor that points to the i-th slab of the list, or to its end. */
    ghost predicate PointsTo(cursor: Cursor, i: nat)
      reads this
    {
      i <= |nodes| && cursor == if i == 0 then Head(this) else NextOf(nodes[i - 1])
    }

    /** The head of an empty list is set to a chain of slabs. */
    method Become(first: SlabNode?, ghost slabs: seq<SlabNode>)
      requires Chain(first, slabs) && NoDup(slabs)
      modifies this
      ensures Valid() && head == first && nodes == slabs && Values() == ValuesOf(slabs)
    {
      head := first;
      nodes := slabs;
    }

    /** *cursor = slab->next; no slab's contents change. */
    method Skip(cursor: Cursor, ghost i: nat) returns (slab: SlabNode)
      requires Valid() && i < |nodes| && PointsTo(cursor, i)
      modifies this`head, nodes
      ensures slab == nodes[i]
      ensures head == if i == 0 then After(nodes, 0) else nodes[0]
      ensures forall k {:trigger nodes[k].next} :: 0 <= k < |nodes| ==>
                nodes[k].next == if k == i - 1 then After(nodes, i) else After(nodes, k)
      ensures forall n :: n in nodes ==> n.Value() == old(n.Value())
    {
      assert i > 0 ==> nodes[i - 1].next == nodes[i];
      slab := Deref(cursor);
      assert nodes[i].next == After(nodes, i);
      if cursor.Head? {
        cursor.list.head := slab.next;
      } else {
        cursor.node.next := slab.next;
      }
    }

    /** After *cursor = slab->next the i-th slab is no longer on the list. */
    method Unlink(cursor: Cursor, ghost i: nat) returns (slab: SlabNode)
      requires Valid() && i < |nodes| && PointsTo(cursor, i)
      modifies this, nodes
      ensures Valid() && slab == old(nodes[i]) && slab in old(nodes)
      ensures forall n :: n in nodes <==> n in old(nodes) && n != slab
      ensures forall n :: n in old(nodes) ==> n.Value() == old(n.Value())
      ensures Values() == Remove(old(Values()), i)
    {
      hide NoDup, Remove;
      ghost var was := nodes;
      RemovedNodes(was, i);
      slab := Skip(cursor, i);
      ChainRemoved(was, i, head);
      ValuesRemoved(was, i);
      assert ValuesOf(was) == old(ValuesOf(nodes));
      nodes := was[..i] + was[i + 1..];
    }

    /** The i-th slab becomes the first. */
    method Front(cursor: Cursor, ghost i: nat)
      requires Valid() && i < |nodes| && PointsTo(cursor, i)
      modifies this, nodes
      ensures Valid() && Members() == old(Members())
      ensures forall n :: n in nodes <==> n in old(nodes)
      ensures Values() == [old(Values())[i]] + Remove(old(Values()), i)
    {
      hide SlabList.Valid, SlabList.Values, Remove;
      var slab := Unlink(cursor, i);
      Push(slab);
    }

    /** slab->next = head; head = slab */
    method Push(slab: SlabNode)
      requires Valid() && slab !in nodes
      modifies this, slab`next
      ensures Valid() && nodes == [slab] + old(nodes)
      ensures forall n :: n in nodes <==> n in old(nodes) || n == slab
      ensures Values() == [slab.Value()] + old(Values()) && slab.Value() == old(slab.Value())
    {
      slab.next := head;
      head := slab;
      ghost var was := nodes;
      nodes := [slab] + was;
      forall k | 0 <= k < |nodes|
        ensures nodes[k].next == if k + 1 < |nodes| then nodes[k + 1] else null
      {
        if k > 0 {
          assert was[k - 1] in was;
          assert was[k - 1].next == if k - 1 + 1 < |was| then was[k - 1 + 1] else null;
        }
      }
    }
  }

  /** The addresses of n pages from p on. */
  function PagesFrom(p: nat, n: nat): set<nat> {
    set q: nat {:trigger Aligned(p, q)} | p <= q < p + n * PAGE_SIZE && Aligned(p, q)
  }

  predicate Aligned(p: nat, q: nat) { p <= q && (q - p) % PAGE_SIZE == 0 }

  /** The page allocator, of which only this is known: it never gives out a page that somebody owns. */
  class PageSource {
    var owned: set<nat>

    /** How often it had no pages to give. */
    ghost var refusals: nat

    method GetFreePages(pages: nat) returns (p: nat)
      modifies this
      ensures p % PAGE_SIZE == 0
      ensures refusals == old(refusals) + if p == 0 then 1 else 0
      ensures p == 0 ==> owned == old(owned)
      ensures p != 0 ==> PagesFrom(p, pages) !! old(owned) && owned == old(owned) + PagesFrom(p, pages)
    {
      p := *;
      if p % PAGE_SIZE != 0 || !(PagesFrom(p, pages) !! owned) {
        p := 0;
      }
      if p != 0 {
        owned := owned + PagesFrom(p, pages);
      } else {
        refusals := refusals + 1;
      }
    }

    method FreePages(p: nat, pages: nat)
      modifies this
      ensures owned == old(owned) - PagesFrom(p, pages) && refusals == old(refusals)
    {
      owned := owned - PagesFrom(p, pages);
    }
  }

  /** Page runs without a common page do not overlap, and the other way round. */
  lemma PagesApart(cfg: Config, p: nat, q: nat)
    requires cfg.pagesPerSlab > 0 && p % PAGE_SIZE == 0 && q % PAGE_SIZE == 0
    ensures PagesFrom(p, cfg.pagesPerSlab) !! PagesFrom(q, cfg.pagesPerSlab) <==> p + Extent(cfg) <= q || q + Extent(cfg) <= p
  {
    var n := cfg.pagesPerSlab;
    if p <= q < p + Extent(cfg) {
      PageInside(p, q, n);
    }
    if q <= p < q + Extent(cfg) {
      PageInside(q, p, n);
    }
    forall x | x in PagesFrom(p, n) && x in PagesFrom(q, n)
      ensures !(p + Extent(cfg) <= q || q + Extent(cfg) <= p)
    {
      PageBounds(p, n, x);
      PageBounds(q, n, x);
    }
  }

  lemma PageInside(p: nat, q: nat, n: nat)
    requires p % PAGE_SIZE == 0 && q % PAGE_SIZE == 0 && p <= q < p + n * PAGE_SIZE
    ensures q in PagesFrom(p, n) && q in PagesFrom(q, n)
  {
    assert Aligned(p, q) && Aligned(q, q);
  }

  lemma PageBounds(p: nat, n: nat, x: nat)
    requires x in PagesFrom(p, n)
    ensures p <= x && x + PAGE_SIZE <= p + n * PAGE_SIZE
  {
    var i := (x - p) / PAGE_SIZE;
    assert x == p + i * PAGE_SIZE;
  }

  /** Every slab's pages are owned. */
  ghost predicate PagesOwned(cfg: Config, slabs: multiset<Slab>, owned: set<nat>) {
    forall p {:trigger Owns(slabs, p)} :: Owns(slabs, p) ==> PagesFrom(p, cfg.pagesPerSlab) <= owned
  }

  /** So pages that nobody owned are fresh for the cache. */
  lemma NotOwnedFresh(cfg: Config, slabs: multiset<Slab>, owned: set<nat>, page: nat)
    requires Sized(cfg) && AllSound(cfg, slabs) && PagesOwned(cfg, slabs, owned)
    requires page % PAGE_SIZE == 0 && PagesFrom(page, cfg.pagesPerSlab) !! owned
    ensures FreshPage(cfg, slabs, page)
  {
    hide PagesFrom, Chunks, UsedSet;
    forall u | u in slabs && u.page != 0
      ensures Disjoint(cfg, Slab(page, [], 0), u)
    {
      assert Owns(slabs, u.page);
      PagesApart(cfg, page, u.page);
    }
  }

  /** When one slab gives its pages back the others still own theirs. */
  lemma ReleasedOwned(cfg: Config, slabs: multiset<Slab>, after: multiset<Slab>, owned: set<nat>, released: nat)
    requires Sized(cfg) && AllSound(cfg, slabs) && PagesOwned(cfg, slabs, owned) && Owns(slabs, released)
    requires forall p :: Owns(after, p) <==> Owns(slabs, p) && p != released
    ensures PagesOwned(cfg, after, owned - PagesFrom(released, cfg.pagesPerSlab))
  {
    hide PagesFrom, Chunks, UsedSet;
    forall p | Owns(after, p)
      ensures PagesFrom(p, cfg.pagesPerSlab) <= owned - PagesFrom(released, cfg.pagesPerSlab)
    {
      assert Owns(slabs, p);
      var u :| u in slabs && u.page == p;
      var v :| v in slabs && v.page == released;
      assert Disjoint(cfg, u, v);
      PagesApart(cfg, p, released);
    }
  }

  /** _more_slabs(1): a page of zeroed slabs, each linked to the next. */
  method MoreSlabs(source: PageSource) returns (first: SlabNode?, ghost nodes: seq<SlabNode>)
    modifies source
    ensures old(source.owned) <= source.owned
    ensures Chain(first, nodes) && NoDup(nodes)
    ensures forall n :: n in nodes ==> fresh(n) && n.Value() == BlankSlab()
    ensures |nodes| == if first == null then 0 else SLABS_PER_PAGE
    ensures source.refusals == old(source.refusals) + if first == null then 1 else 0
  {
    nodes := [];
    var page := source.GetFreePages(1);
    ghost var refusals := source.refusals;
    if page == 0 {
      return null, [];
    }
    var slabs: seq<SlabNode> := [];
    while |slabs| < SLABS_PER_PAGE
      invariant |slabs| <= SLABS_PER_PAGE && NoDup(slabs)
      invariant old(source.owned) <= source.owned && source.refusals == refusals
      invariant forall i :: 0 <= i < |slabs| ==> fresh(slabs[i]) && slabs[i].Value() == BlankSlab() && slabs[i].next == null
    {
      var slab := new SlabNode();
      slabs := slabs + [slab];
    }
    first := slabs[0];
    var last := slabs[0];
    for s := 1 to SLABS_PER_PAGE
      invariant last == slabs[s - 1]
      invariant old(source.owned) <= source.owned && source.refusals == refusals
      invariant forall i :: 0 <= i < |slabs| ==> slabs[i].Value() == BlankSlab()
      invariant forall i {:trigger slabs[i].next} :: 0 <= i < |slabs| ==>
                  slabs[i].next == if i < s - 1 then slabs[i + 1] else null
    {
      last.next := slabs[s];
      last := last.next;
    }
    nodes := slabs;
  }

  ghost predicate Unshared(a: SlabList, b: SlabList)
    reads a, b
  {
    a != b && forall n {:trigger n in a.nodes} {:trigger n in b.nodes} :: !(n in a.nodes && n in b.nodes)
  }

  /** A slab leaves one list and becomes the head of another; a third list is not touched. */
  method Transfer(a: SlabList, b: SlabList, ghost c: SlabList, cursor: Cursor, ghost i: nat)
    requires a.Valid() && b.Valid() && c.Valid() && Unshared(a, b) && Unshared(a, c) && Unshared(b, c)
    requires i < |a.nodes| && a.PointsTo(cursor, i)
    modifies a, b, a.nodes
    ensures a.Valid() && b.Valid() && c.Valid() && Unshared(a, b) && Unshared(a, c) && Unshared(b, c)
    ensures a.Members() + b.Members() == old(a.Members() + b.Members())
    ensures b.nodes == [old(a.nodes[i])] + old(b.nodes)
    ensures a.Values() == Remove(old(a.Values()), i)
    ensures b.Values() == [old(a.Values())[i]] + old(b.Values())
    ensures c.Values() == old(c.Values())
    ensures forall n :: n in old(a.nodes) ==> n.Value() == old(n.Value())
  {
    hide SlabList.Valid, SlabList.Values;
    var slab := a.Unlink(cursor, i);
    b.Unchanged();
    b.Push(slab);
    c.Unchanged();
  }

  /** One slab's bitmap changes; its list keeps its shape, and two other lists are not touched. */
  method ClearIn(a: SlabList, ghost b: SlabList, ghost c: SlabList, ghost i: nat, slab: SlabNode, word: nat, bit: nat)
    requires a.Valid() && b.Valid() && c.Valid() && Unshared(a, b) && Unshared(a, c)
    requires i < |a.nodes| && slab == a.nodes[i]
    requires word < |slab.bitmap| && bit < WORD_BITS && slab.allocatedChunks > 0
    modifies slab
    ensures a.Valid() && b.Valid() && c.Valid()
    ensures (word * WORD_BITS + bit) / WORD_BITS == word
    ensures slab.Value() == Drop(old(slab.Value()), word * WORD_BITS + bit) && slab.page == old(slab.page)
    ensures a.Values() == old(a.Values())[i := slab.Value()]
    ensures b.Values() == old(b.Values()) && c.Values() == old(c.Values())
  {
    hide Drop;
    slab.ClearBit(word, bit);
    b.Unchanged();
    c.Unchanged();
  }

  /** What __find_allocated answers. */
  datatype Found = FarFound | FarNotFound | FarCorrupt | FarDoubleFree

  /** struct mem_cache */
  class MemCache {
    const cfg: Config
    const full: SlabList
    const partial: SlabList
    const free: SlabList
    const source: PageSource

    ghost predicate Shape()
      reads full, partial, free, full.nodes, partial.nodes, free.nodes
    {
      && full.Valid() && partial.Valid() && free.Valid()
      && Unshared(partial, full) && Unshared(partial, free) && Unshared(full, free)
    }

    /** The cache on values. */
    ghost function State(): Cache
      reads full, partial, free, full.nodes, partial.nodes, free.nodes
    {
      Cache(full.Values(), partial.Values(), free.Values())
    }

    ghost predicate Valid()
      reads full, partial, free, full.nodes, partial.nodes, free.nodes, source
    {
      Shape() && Sized(cfg) && Sound(cfg, State()) && PagesOwned(cfg, All(State()), source.owned)
    }

    ghost function Nodes(): set<SlabNode>
      reads full, partial, free
    {
      full.Members() + partial.Members() + free.Members()
    }

    lemma PagesOf()
      requires Valid()
      ensures Sized(cfg) && PagesOwned(cfg, All(State()), source.owned)
    {
    }

    ghost predicate OwnsIn(s: Cache, owned: set<nat>) {
      PagesOwned(cfg, All(s), owned)
    }

    /** A cache none of whose lists and slabs were written, and whose pages are still owned. */
    twostate lemma Untouched()
      requires old(Valid()) && unchanged(full) && unchanged(partial) && unchanged(free)
      requires forall n :: n in Nodes() ==> n.next == old(n.next) && n.Value() == old(n.Value())
      requires old(source.owned) <= source.owned || OwnsIn(old(State()), source.owned)
      ensures Valid() && State() == old(State()) && Nodes() == old(Nodes())
    {
      hide Sized, Sound, PagesOwned, All;
      full.Unchanged();
      partial.Unchanged();
      free.Unchanged();
      if old(source.owned) <= source.owned {
        StillOwned(cfg, All(old(State())), old(source.owned), source.owned);
      }
    }

    /** mem_cache_new for a size that mem_cache_new accepts. */
    constructor (source: PageSource, pagesPerSlab: nat, chunkSz: nat, atomic: bool)
      requires Sized(Config(pagesPerSlab, chunkSz, atomic))
      ensures cfg == Config(pagesPerSlab, chunkSz, atomic) && this.source == source
      ensures Valid() && State() == Cache([], [], []) && Nodes() == {} && fresh(full) && fresh(partial) && fresh(free)
    {
      cfg := Config(pagesPerSlab, chunkSz, atomic);
      this.source := source;
      full := new SlabList();
      partial := new SlabList();
      free := new SlabList();
      new;
      NewCache(cfg);
      assert State() == Cache([], [], []);
    }

    /** The first lines of mem_cache_alloc: more slabs when there are neither free nor partial ones. */
    method Restock() returns (ok: bool)
      requires Valid()
      modifies free, source
      ensures Valid() && State() == Stocked(old(State()), ok)
      ensures old(source.owned) <= source.owned && fresh(Nodes() - old(Nodes()))
      ensures ok <==> State().partial != [] || State().free != []
      ensures source.refusals == old(source.refusals) + if ok then 0 else 1
      ensures partial.nodes == old(partial.nodes)
      ensures forall i :: 0 <= i < |free.nodes| ==> free.nodes[i] in old(free.nodes) || fresh(free.nodes[i])
    {
      hide Sound, Sized, Owns, SlabList.Valid, SlabList.Values, NoDup, All, PagesOwned;
      Heads();
      ok := true;
      if free.head == null && partial.head == null {
        var first, slabs := MoreSlabs(source);
        free.Become(first, slabs);
        ok := first != null;
        assert ok ==> free.Values() == BlankSlabs() && free.Values() != [];
        assert !ok ==> free.Values() == [];
        full.Unchanged();
        partial.Unchanged();
      }
      StockedExact(cfg, old(State()), ok);
      StockedOwned(cfg, old(State()), ok, old(source.owned), source.owned);
    }

    /** Pages for the first free slab, if it has none. */
    method PageFirst() returns (ghost page: nat)
      requires Shape() && free.nodes != []
      modifies free.nodes, source
      ensures Shape() && full.Values() == old(full.Values()) && partial.Values() == old(partial.Values())
      ensures free.Values() == old(free.Values())[0 := Repaged(old(free.Values())[0], page)]
      ensures old(source.owned) <= source.owned
      ensures source.refusals == old(source.refusals) + if old(free.Values())[0].page == 0 && page == 0 then 1 else 0
      ensures old(free.Values())[0].page == 0 && page != 0 ==>
                page % PAGE_SIZE == 0 && PagesFrom(page, cfg.pagesPerSlab) !! old(source.owned)
                && PagesFrom(page, cfg.pagesPerSlab) <= source.owned
    {
      hide PagesFrom, Shape, SlabList.Values;
      page := 0;
      Heads();
      if free.head.page == 0 {
        var pages := source.GetFreePages(cfg.pagesPerSlab);
        page := pages;
        free.head.page := pages;
        FirstChanged();
      }
    }

    /** Only the contents of the first free slab were written. */
    twostate lemma FirstChanged()
      requires old(Shape()) && unchanged(full) && unchanged(partial) && unchanged(free) && free.nodes != []
      requires forall n :: n in Nodes() ==> n.next == old(n.next) && (n != free.nodes[0] ==> n.Value() == old(n.Value()))
      ensures Shape() && full.Values() == old(full.Values()) && partial.Values() == old(partial.Values())
      ensures free.Values() == old(free.Values())[0 := free.nodes[0].Value()]
    {
      hide SlabList.Valid, SlabList.Values;
      full.Unchanged();
      partial.Unchanged();
      free.OneChanged(0);
    }

    lemma Heads()
      requires Shape()
      ensures free.head == if free.nodes == [] then null else free.nodes[0]
      ensures partial.head == if partial.nodes == [] then null else partial.nodes[0]
    {
      free.HeadIs();
      partial.HeadIs();
    }

    /** The first free slab becomes the partial list. */
    method MoveToPartial()
      requires Shape() && free.nodes != [] && partial.nodes == []
      modifies partial, free, free.nodes
      ensures Shape() && Nodes() == old(Nodes())
      ensures partial.nodes == [old(free.nodes[0])]
      ensures State() == FirstMoved(old(State()))
    {
      hide SlabList.Valid, SlabList.Values, SlabList.Members, Remove;
      FirstRemoved(old(free.Values()));
      Transfer(free, partial, full, Head(free), 0);
    }

    /** Its middle lines: without a partial slab the first free one becomes partial, and gets pages if it has none. */
    method Pluck() returns (ok: bool, ghost page: nat)
      requires Shape()
      modifies partial, free, free.nodes, source
      ensures Shape() && Nodes() == old(Nodes())
      ensures forall i :: 0 <= i < |partial.nodes| ==>
                partial.nodes[i] in old(partial.nodes) || partial.nodes[i] in old(free.nodes)
      ensures ok == !OutOfMemory(old(State()), page)
      ensures State() == if ok then Plucked(old(State()), page) else old(State())
      ensures Answered(cfg, old(State()), page, old(source.owned), source.owned)
      ensures old(State()).partial != [] || old(State()).free != [] ==>
                source.refusals == old(source.refusals) + if ok then 0 else 1
    {
      hide PagesFrom, Shape, SlabList.Values;
      page := 0;
      ok := true;
      Heads();
      if partial.head == null {
        if free.head == null {
          return false, 0;
        }
        page := PageFirst();
        Heads();
        if free.head.page == 0 {
          assert free.Values() == old(free.Values());
          return false, page;
        }
        PluckedIs(old(State()), page);
        MoveToPartial();
      }
    }

    /** __find_unallocated on the partial list. */
    method FindUnallocated() returns (found: bool, cursor: Cursor, word: nat, bit: nat, ghost i: nat)
      requires partial.Valid() && Sized(cfg)
      requires forall n :: n in partial.nodes ==> |n.bitmap| == MAX_BITMAP_WORDS
      ensures partial.PointsTo(cursor, i)
      ensures found <==> i < |partial.nodes|
      ensures found ==>
                && bit < WORD_BITS
                && word * WORD_BITS + bit == FirstUnused(partial.nodes[i].bitmap, Chunks(cfg), 0) < Chunks(cfg)
      ensures forall j :: 0 <= j < i ==> FirstUnused(partial.nodes[j].bitmap, Chunks(cfg), 0) == Chunks(cfg)
    {
      hide FirstUnused, Sized, Chunks, Used;
      cursor, i := Head(partial), 0;
      found, word, bit := false, 0, 0;
      var slab := Deref(cursor);
      while slab != null
        invariant i <= |partial.nodes| && partial.PointsTo(cursor, i)
        invariant slab == if i < |partial.nodes| then partial.nodes[i] else null
        invariant forall j :: 0 <= j < i ==> FirstUnused(partial.nodes[j].bitmap, Chunks(cfg), 0) == Chunks(cfg)
        decreases |partial.nodes| - i
      {
        found, word, bit := FindUnallocatedIn(slab.bitmap, Chunks(cfg));
        if found {
          return;
        }
        assert slab.next == partial.nodes[i].next;
        cursor := NextOf(slab);
        slab := slab.next;
        i := i + 1;
      }
    }

    /** A chunk of the first partial slab is marked. */
    method MarkFirst(slab: SlabNode, word: nat, bit: nat)
      requires Shape() && partial.nodes != [] && slab == partial.nodes[0]
      requires word < |slab.bitmap| && bit < WORD_BITS
      modifies slab
      ensures Shape() && (word * WORD_BITS + bit) / WORD_BITS == word && Nodes() == old(Nodes())
      ensures slab.Value() == Take(old(slab.Value()), word * WORD_BITS + bit)
      ensures State() == Marked(old(State()), slab.Value())
    {
      hide Take;
      slab.SetBit(word, bit);
      full.Unchanged();
      free.Unchanged();
      assert partial.Values() == old(partial.Values())[0 := slab.Value()];
    }

    /** The first partial slab moves to the full list. */
    method MoveToFull(cursor: Cursor)
      requires Shape() && partial.nodes != [] && partial.PointsTo(cursor, 0)
      modifies partial, full, partial.nodes
      ensures Shape() && Nodes() == old(Nodes())
      ensures State() == Filled(old(State()))
      ensures old(partial.nodes[0]).Value() == old(partial.nodes[0].Value())
    {
      hide SlabList.Valid, SlabList.Values, SlabList.Members;
      Transfer(partial, full, free, cursor, 0);
    }

    /** The last lines of mem_cache_alloc: take a chunk of the partial list; a slab that is now full moves. */
    method TakeChunk() returns (r: nat)
      requires Shape() && Sized(cfg) && Ready(cfg, State())
      requires |State().partial[0].bitmap| == MAX_BITMAP_WORDS
      modifies full, partial, partial.nodes
      ensures Shape() && Nodes() == old(Nodes())
      ensures (State(), r) == TakeFirst(cfg, old(State()))
    {
      hide Sized, Chunks, UsedSet, Used, FirstUnused, Address, SlabList.Valid, SlabList.Values, Shape, Ready, Nodes, TakeFirst,
        ReadyToTake, Take, State, Marked, Filled;
      ReadyParts(cfg, State());
      var cursor, slab, word, bit := FindFirst();
      MarkFirst(slab, word, bit);
      ghost var w := slab.Value();
      if slab.allocatedChunks == Chunks(cfg) {
        MoveToFull(cursor);
      }
      TakenIs(cfg, old(State()), w);
      r := ChunkAddress(slab, word, bit);
    }

    /** The first partial slab and its lowest unused chunk are what __find_unallocated finds. */
    method FindFirst() returns (cursor: Cursor, slab: SlabNode, word: nat, bit: nat)
      requires Shape() && Sized(cfg) && ReadyToTake(cfg, State())
      ensures partial.nodes != [] && slab == partial.nodes[0] && partial.PointsTo(cursor, 0)
      ensures State().partial != [] && slab.Value() == State().partial[0] && |slab.bitmap| == MAX_BITMAP_WORDS
      ensures word < |slab.bitmap| && bit < WORD_BITS
      ensures word * WORD_BITS + bit == FirstUnused(slab.bitmap, Chunks(cfg), 0)
    {
      hide FirstUnused, Sized, Chunks, SlabList.Valid;
      var found, at, w, b, i := FindUnallocated();
      assert i == 0;
      partial.HeadIs();
      cursor, slab, word, bit := at, Deref(at), w, b;
      ChunkPosition(word * WORD_BITS + bit, word, bit);
    }

    /** __chunk_address */
    method ChunkAddress(slab: SlabNode, word: nat, bit: nat) returns (r: nat)
      ensures r == Address(cfg, slab.Value(), word * WORD_BITS + bit)
    {
      r := slab.page + (word * WORD_BITS + bit) * cfg.chunkSz;
    }

    /**
     * mem_cache_alloc: the pure Alloc on the cache's value, with `more` and `page` for what the page
     * allocator answered; so by AllocExact it returns a chunk that was not live and makes it live, or null.
     * Null means that the page allocator had no pages, which it is not asked for while a slab is partial.
     */
    method Alloc() returns (r: nat, ghost more: bool, ghost page: nat)
      requires Valid()
      modifies full, partial, free, full.nodes, partial.nodes, free.nodes, source
      ensures Valid() && fresh(Nodes() - old(Nodes()))
      ensures PageGiven(cfg, old(State()), more, page)
      ensures (State(), r) == SlabCaches.Alloc(cfg, old(State()), more, page)
      ensures forall a :: Live(cfg, All(State()), a) <==> Live(cfg, old(All(State())), a) || (r != 0 && a == r)
      ensures r != 0 ==> r % cfg.chunkSz == 0 && !Live(cfg, old(All(State())), r)
      ensures source.refusals == old(source.refusals) + if r == 0 then 1 else 0
      ensures old(State()).partial != [] ==> r != 0
      ensures old(source.owned) <= source.owned
      ensures forall p {:trigger Owns(All(State()), p)} ::
                Owns(All(State()), p) ==> Owns(old(All(State())), p) || PagesFrom(p, cfg.pagesPerSlab) !! old(source.owned)
    {
      hide Sized, Sound, Shape, All, Live, Owns, PagesOwned, Answered, OutOfMemory, Stocked, Plucked, SlabCaches.Alloc,
        PageGiven, Ready, TakeFirst, SlabList.Values, Nodes;
      ghost var s, owned := State(), source.owned;
      page := 0;
      var ok := Restock();
      more := ok;
      ghost var owned1 := source.owned;
      NotAnswered(cfg, Stocked(s, more), owned1);
      if ok {
        ghost var asked;
        ok, asked := Pluck();
        page := asked;
      }
      AllocIs(cfg, s, more, page, owned, owned1, source.owned);
      if ok {
        r := TakeChunk();
      } else {
        r := 0;
      }
      AllocExact(cfg, s, more, page);
      PartialServes(s, more, page);
      AllocOwned(cfg, s, more, page, owned, owned1, source.owned);
    }

    /** __find_allocated on one list. */
    method FindAllocated(list: SlabList, mem: nat) returns (far: Found, cursor: Cursor, word: nat, bit: nat, ghost i: nat)
      requires list.Valid() && Sized(cfg)
      requires forall n :: n in list.nodes ==> |n.bitmap| == MAX_BITMAP_WORDS && n.page % PAGE_SIZE == 0
      ensures far == FarCorrupt <==> !AlignedTo(cfg, mem)
      ensures far != FarCorrupt ==> list.PointsTo(cursor, i) && i == FindIn(cfg, list.Values(), mem, 0)
      ensures far == FarNotFound <==> AlignedTo(cfg, mem) && i == |list.nodes|
      ensures far == FarFound || far == FarDoubleFree ==>
                && i < |list.nodes| && Contains(cfg, list.nodes[i].Value(), mem)
                && AtChunk(cfg, list.nodes[i].Value(), mem, word, bit)
                && (far == FarFound <==> Used(list.nodes[i].bitmap, word * WORD_BITS + bit))
    {
      hide FindIn, Used, Sized, Chunks, Contains, AtChunk, AlignedTo, And, Bit, NoDup;
      cursor, i, word, bit := Head(list), 0, 0, 0;
      var slab := Deref(cursor);
      if !AlignedTo(cfg, mem) {
        return FarCorrupt, cursor, 0, 0, 0;
      }
      while slab != null
        invariant i <= |list.nodes| && list.PointsTo(cursor, i)
        invariant slab == if i < |list.nodes| then list.nodes[i] else null
        invariant FindIn(cfg, list.Values(), mem, i) == FindIn(cfg, list.Values(), mem, 0)
        decreases |list.nodes| - i
      {
        FindStep(cfg, list.Values(), mem, i);
        if Contains(cfg, slab.Value(), mem) {
          ContainedChunk(cfg, slab.Value(), mem);
          var slabOffset := (mem - slab.page) / cfg.chunkSz;
          word := slabOffset / WORD_BITS;
          bit := slabOffset % WORD_BITS;
          UsedAt(slab.bitmap, slabOffset, word, bit);
          if And(slab.bitmap[word], Bit(bit)) != 0 {
            far := FarFound;
          } else {
            far := FarDoubleFree;
          }
          return;
        }
        assert slab.next == list.nodes[i].next;
        cursor := NextOf(slab);
        slab := slab.next;
        i := i + 1;
      }
      FindEnd(cfg, list.Values(), mem);
      far := FarNotFound;
    }

    /** A partial slab goes to the head of its own list. */
    method MoveToFront(cursor: Cursor, ghost i: nat)
      requires Shape() && i < |partial.nodes| && partial.PointsTo(cursor, i)
      modifies partial, partial.nodes
      ensures Shape() && Nodes() == old(Nodes())
      ensures State() == old(State()).(partial := [old(partial.Values())[i]] + Remove(old(partial.Values()), i))
    {
      hide SlabList.Valid, SlabList.Values, SlabList.Members;
      partial.Front(cursor, i);
      full.Unchanged();
      free.Unchanged();
    }

    /** A full slab goes to the head of the partial list. */
    method FullToPartial(cursor: Cursor, ghost i: nat)
      requires Shape() && i < |full.nodes| && full.PointsTo(cursor, i)
      modifies full, partial, full.nodes
      ensures Shape() && Nodes() == old(Nodes())
      ensures State() == Cache(Remove(old(full.Values()), i), [old(full.Values())[i]] + old(partial.Values()), old(free.Values()))
    {
      hide SlabList.Valid, SlabList.Values, SlabList.Members;
      Transfer(full, partial, free, cursor, i);
    }

    /** A partial or a full slab goes to the head of the free list. */
    method PartialToFree(cursor: Cursor, ghost i: nat)
      requires Shape() && i < |partial.nodes| && partial.PointsTo(cursor, i)
      modifies partial, free, partial.nodes
      ensures Shape() && Nodes() == old(Nodes())
      ensures State() == Cache(old(full.Values()), Remove(old(partial.Values()), i), [old(partial.Values())[i]] + old(free.Values()))
      ensures free.nodes != [] && free.nodes[0] == old(partial.nodes[i])
      ensures free.nodes[0].Value() == old(partial.nodes[i].Value())
    {
      hide SlabList.Valid, SlabList.Values, SlabList.Members;
      Transfer(partial, free, full, cursor, i);
    }

    method FullToFree(cursor: Cursor, ghost i: nat)
      requires Shape() && i < |full.nodes| && full.PointsTo(cursor, i)
      modifies full, free, full.nodes
      ensures Shape() && Nodes() == old(Nodes())
      ensures State() == Cache(Remove(old(full.Values()), i), old(partial.Values()), [old(full.Values())[i]] + old(free.Values()))
      ensures free.nodes != [] && free.nodes[0] == old(full.nodes[i])
      ensures free.nodes[0].Value() == old(full.nodes[i].Value())
    {
      hide SlabList.Valid, SlabList.Values, SlabList.Members;
      Transfer(full, free, partial, cursor, i);
    }

    /** The pages of the first free slab go back unless the cache is atomic. */
    method ReturnPages(slab: SlabNode)
      requires Shape() && free.nodes != [] && slab == free.nodes[0]
      modifies slab`page, source
      ensures Shape() && Nodes() == old(Nodes())
      ensures cfg.atomic ==> State() == old(State()) && source.owned == old(source.owned)
      ensures !cfg.atomic ==>
                && State() == Unpaged(old(State()))
                && source.owned == old(source.owned) - PagesFrom(old(State()).free[0].page, cfg.pagesPerSlab)
    {
      hide PagesFrom, Shape, SlabList.Values;
      if !cfg.atomic {
        source.FreePages(slab.page, cfg.pagesPerSlab);
        slab.page := 0;
        FirstChanged();
      }
    }

    /** The cache's value without one of its partial or full slabs. */
    ghost function Without(list: SlabList, i: nat): Cache
      requires (list == partial || list == full) && i < |list.nodes|
      reads full, partial, free, full.nodes, partial.nodes, free.nodes
    {
      if list == partial then State().(partial := Remove(partial.Values(), i))
      else State().(full := Remove(full.Values(), i))
    }

    lemma WithoutIs(list: SlabList, i: nat)
      requires (list == partial || list == full) && partial != full && i < |list.nodes|
      ensures list == partial ==> Without(list, i) == State().(partial := Remove(State().partial, i))
      ensures list == full ==> Without(list, i) == State().(full := Remove(State().full, i))
    {
    }

    /** A chunk of a partial or full slab is unmarked; without that slab the cache is as before. */
    method Unmark(list: SlabList, ghost i: nat, slab: SlabNode, word: nat, bit: nat)
      requires Shape() && (list == partial || list == full) && i < |list.nodes| && slab == list.nodes[i]
      requires word < |slab.bitmap| && bit < WORD_BITS && slab.allocatedChunks > 0
      modifies slab
      ensures Shape() && (word * WORD_BITS + bit) / WORD_BITS == word && Nodes() == old(Nodes())
      ensures slab.Value() == Drop(old(slab.Value()), word * WORD_BITS + bit) == list.Values()[i]
      ensures slab.page == old(slab.page)
      ensures Without(list, i) == old(Without(list, i))
    {
      hide Drop, SlabList.Valid, SlabList.Values, Remove;
      if list == partial {
        ClearIn(partial, full, free, i, slab, word, bit);
        RemovePut(old(partial.Values()), i, slab.Value());
      } else {
        ClearIn(full, partial, free, i, slab, word, bit);
        RemovePut(old(full.Values()), i, slab.Value());
      }
    }

    /** A partial or full slab goes to the head of the partial list. */
    method ToPartial(list: SlabList, cursor: Cursor, ghost i: nat)
      requires Shape() && (list == partial || list == full) && i < |list.nodes| && list.PointsTo(cursor, i)
      modifies full, partial, list.nodes
      ensures Shape() && Nodes() == old(Nodes())
      ensures State() == PushPartial(old(Without(list, i)), old(list.nodes[i].Value()))
      ensures source.owned == old(source.owned)
    {
      hide Shape, SlabList.Values, Remove, Nodes;
      if list == partial {
        MoveToFront(cursor, i);
      } else {
        FullToPartial(cursor, i);
      }
    }

    /** A partial or full slab goes to the head of the free list. */
    method ToFree(list: SlabList, cursor: Cursor, ghost i: nat)
      requires Shape() && (list == partial || list == full) && i < |list.nodes| && list.PointsTo(cursor, i)
      modifies full, partial, free, list.nodes
      ensures Shape() && Nodes() == old(Nodes())
      ensures State() == PushFree(old(Without(list, i)), old(list.nodes[i].Value()))
      ensures free.nodes != [] && free.nodes[0] == old(list.nodes[i]) && source.owned == old(source.owned)
    {
      hide Shape, SlabList.Values, Remove, Nodes;
      if list == partial {
        PartialToFree(cursor, i);
      } else {
        FullToFree(cursor, i);
      }
    }

    /** The last lines of mem_cache_free: the slab goes to the partial or to the free list, which may release its pages. */
    method RelinkSlab(list: SlabList, cursor: Cursor, ghost i: nat, slab: SlabNode)
      requires Shape() && (list == partial || list == full) && i < |list.nodes| && slab == list.nodes[i]
      requires list.PointsTo(cursor, i) && slab.page != 0
      modifies full, partial, free, list.nodes, source
      ensures Shape() && Nodes() == old(Nodes())
      ensures Follows(Relink(cfg, old(Without(list, i)), old(slab.Value())), old(source.owned))
    {
      hide Shape, SlabList.Values, PagesFrom, Remove, State, Without, Nodes, Relink, PushPartial, PushFree;
      RelinkIs(cfg, Without(list, i), slab.Value());
      if slab.allocatedChunks != 0 {
        ToPartial(list, cursor, i);
      } else {
        ToFree(list, cursor, i);
        ReturnPages(slab);
      }
    }

    /** A chunk found on a list is freed. */
    method FreeFound(list: SlabList, cursor: Cursor, ghost i: nat, word: nat, bit: nat, ghost mem: nat)
      requires Shape() && (list == partial || list == full) && i < |list.nodes| && list.PointsTo(cursor, i)
      requires AtChunk(cfg, list.nodes[i].Value(), mem, word, bit) && Contains(cfg, list.nodes[i].Value(), mem)
      requires Used(list.nodes[i].bitmap, word * WORD_BITS + bit)
      requires list.nodes[i].allocatedChunks > 0 && list.nodes[i].page != 0
      modifies full, partial, free, list.nodes, source
      ensures Shape() && Nodes() == old(Nodes())
      ensures var f := FreeAt(cfg, old(State()), old(Without(list, i)), old(list.nodes[i].Value()), mem);
              f.result == 0 && Follows(f, old(source.owned))
    {
      hide Shape, SlabList.Values, SlabList.Valid, PagesFrom, Remove, Relink, Without, State, Nodes, Drop, Used, Contains;
      ListValid(list);
      var slab := At(list, cursor, i);
      Unmark(list, i, slab, word, bit);
      RelinkSlab(list, cursor, i, slab);
      RelinkSucceeds(cfg, old(Without(list, i)), Drop(old(list.nodes[i].Value()), word * WORD_BITS + bit));
    }

    lemma ListValid(list: SlabList)
      requires Shape() && (list == partial || list == full)
      ensures list.Valid()
    {
    }

    /** *cursor */
    method At(list: SlabList, cursor: Cursor, ghost i: nat) returns (slab: SlabNode)
      requires list.Valid() && i < |list.nodes| && list.PointsTo(cursor, i)
      ensures slab == list.nodes[i]
    {
      assert i > 0 ==> list.nodes[i - 1].next == list.nodes[i];
      slab := Deref(cursor);
    }

    /** The cache and the page allocator are as the outcome says. */
    ghost predicate Follows(f: Freed, owned: set<nat>)
      reads full, partial, free, full.nodes, partial.nodes, free.nodes, source
    {
      && State() == f.cache
      && source.owned == owned - (if f.released != 0 then PagesFrom(f.released, cfg.pagesPerSlab) else {})
    }

    lemma Lists()
      requires Shape() && Sized(cfg) && Sound(cfg, State())
      ensures partial.Valid() && full.Valid() && partial != full
      ensures forall n :: n in partial.nodes || n in full.nodes ==>
                |n.bitmap| == MAX_BITMAP_WORDS && n.page % PAGE_SIZE == 0 && n.page != 0 && n.allocatedChunks > 0
    {
      hide Sized, Sound, SlabList.Valid;
      ListSlabs(cfg, State());
      forall i | 0 <= i < |partial.nodes|
        ensures ListSlab(partial.nodes[i].Value())
      {
        assert ListSlab(partial.Values()[i]);
      }
      forall i | 0 <= i < |full.nodes|
        ensures ListSlab(full.nodes[i].Value())
      {
        assert ListSlab(full.Values()[i]);
      }
    }

    lemma StateLists()
      ensures State().partial == partial.Values() && State().full == full.Values()
    {
    }

    /** The search of mem_cache_free: the partial list, then the full one. */
    method Search(mem: nat) returns (found: bool, list: SlabList, cursor: Cursor, word: nat, bit: nat, ghost i: nat)
      requires Shape() && Sized(cfg) && Sound(cfg, State()) && mem != 0
      ensures list == partial || list == full
      ensures !found ==> SlabCaches.Free(cfg, State(), mem) == Freed(State(), -1, 0)
      ensures found ==>
                && i < |list.nodes| && list.PointsTo(cursor, i)
                && AtChunk(cfg, list.nodes[i].Value(), mem, word, bit) && Contains(cfg, list.nodes[i].Value(), mem)
                && Used(list.nodes[i].bitmap, word * WORD_BITS + bit)
                && list.nodes[i].allocatedChunks > 0 && list.nodes[i].page != 0
                && SlabCaches.Free(cfg, State(), mem) == FreeAt(cfg, State(), Without(list, i), list.nodes[i].Value(), mem)
    {
      hide Shape, SlabList.Valid, SlabList.Values, Remove, Sized, Sound, FreeAt, SlabCaches.Free, Contains, Used, FindIn,
        AlignedTo, Without, AtChunk, State;
      StateLists();
      ghost var s := State();
      Lists();
      FreeIs(cfg, s, mem);
      var far;
      list := partial;
      far, cursor, word, bit, i := FindAllocated(partial, mem);
      if far == FarNotFound {
        list := full;
        far, cursor, word, bit, i := FindAllocated(full, mem);
      }
      found := far == FarFound;
      if far == FarFound || far == FarDoubleFree {
        WithoutIs(list, i);
        if far == FarDoubleFree {
          NotUsed(cfg, s, Without(list, i), list.nodes[i].Value(), mem, word, bit);
        }
      }
    }

    /** The search and, when it succeeds, the change that mem_cache_free makes. */
    method SearchAndFree(mem: nat) returns (r: int)
      requires Shape() && Sized(cfg) && Sound(cfg, State()) && mem != 0
      modifies full, partial, free, full.nodes, partial.nodes, source
      ensures Shape() && Nodes() == old(Nodes())
      ensures r == SlabCaches.Free(cfg, old(State()), mem).result
      ensures Follows(SlabCaches.Free(cfg, old(State()), mem), old(source.owned))
    {
      hide Shape, PagesFrom, Sized, Sound, FreeAt, SlabCaches.Free, Nodes, Contains, Used, Without, AtChunk, State;
      var found, list, cursor, word, bit, i := Search(mem);
      if found {
        FreeFound(list, cursor, i, word, bit, mem);
        r := 0;
      } else {
        r := -1;
      }
    }

    /**
     * mem_cache_free: null is accepted and does nothing; a live chunk, and only that, is freed; any other
     * address is rejected and changes nothing. Only pages of the cache's own slabs are given back.
     */
    method Free(mem: nat) returns (r: int)
      requires Valid()
      modifies full, partial, free, full.nodes, partial.nodes, source
      ensures Valid() && Nodes() == old(Nodes())
      ensures Follows(SlabCaches.Free(cfg, old(State()), mem), old(source.owned))
      ensures r == if mem == 0 || Live(cfg, old(All(State())), mem) then 0 else -1
      ensures forall a :: Live(cfg, All(State()), a) <==> Live(cfg, old(All(State())), a) && a != mem
      ensures r != 0 ==> State() == old(State()) && source.owned == old(source.owned)
      ensures GivesBack(cfg, old(All(State())), All(State()), old(source.owned), source.owned)
    {
      hide Shape, PagesFrom, Sized, Sound, PagesOwned, SlabCaches.Free, All, Live, Owns, Nodes, GivesBack, State;
      ghost var s, owned := State(), source.owned;
      FreeExact(cfg, s, mem);
      r := 0;
      if mem != 0 {
        r := SearchAndFree(mem);
      }
      FreeOwned(cfg, s, mem, owned);
    }
  }

  /** Pages that leave the owned set belonged to the cache, and no pages are added to either. */
  ghost predicate GivesBack(cfg: Config, before: multiset<Slab>, after: multiset<Slab>, owned: set<nat>, now: set<nat>) {
    && now <= owned
    && (forall p {:trigger Owns(after, p)} :: Owns(after, p) ==> Owns(before, p))
    && (forall q :: q in owned && q !in now ==>
          exists p {:trigger Owns(before, p)} :: Owns(before, p) && q in PagesFrom(p, cfg.pagesPerSlab))
  }

  /** What a free does to the pages. */
  lemma FreeOwned(cfg: Config, s: Cache, mem: nat, owned: set<nat>)
    requires Sized(cfg) && Sound(cfg, s) && PagesOwned(cfg, All(s), owned)
    ensures var f := SlabCaches.Free(cfg, s, mem);
            var now := owned - (if f.released != 0 then PagesFrom(f.released, cfg.pagesPerSlab) else {});
            && Sound(cfg, f.cache) && PagesOwned(cfg, All(f.cache), now)
            && GivesBack(cfg, All(s), All(f.cache), owned, now)
            && (forall a :: Live(cfg, All(f.cache), a) <==> Live(cfg, All(s), a) && a != mem)
            && f.result == (if mem == 0 || Live(cfg, All(s), mem) then 0 else -1)
            && (mem == 0 || f.result != 0 ==> f.cache == s && f.released == 0)
  {
    hide Sound, Sized, All, SlabCaches.Free, Live, Owns, AllSound, PagesFrom;
    FreeExact(cfg, s, mem);
    var f := SlabCaches.Free(cfg, s, mem);
    SoundParts(cfg, s);
    if f.released != 0 {
      ReleasedOwned(cfg, All(s), All(f.cache), owned, f.released);
    } else if mem != 0 && Live(cfg, All(s), mem) {
      ZeroNotOwned(All(s));
    }
  }

  lemma ZeroNotOwned(slabs: multiset<Slab>)
    ensures !Owns(slabs, 0)
  {
  }

  predicate ListSlab(v: Slab) {
    |v.bitmap| == MAX_BITMAP_WORDS && v.page % PAGE_SIZE == 0 && v.page != 0 && v.count > 0
  }

  lemma ListSlabs(cfg: Config, s: Cache)
    requires Sized(cfg) && Sound(cfg, s)
    ensures forall i :: 0 <= i < |s.partial| ==> ListSlab(s.partial[i])
    ensures forall i :: 0 <= i < |s.full| ==> ListSlab(s.full[i])
  {
    hide UsedSet;
    forall i | 0 <= i < |s.partial|
      ensures ListSlab(s.partial[i])
    {
      InAll(s, s.partial[i]);
    }
    forall i | 0 <= i < |s.full|
      ensures ListSlab(s.full[i])
    {
      InAll(s, s.full[i]);
    }
  }

  /** The pure Free by cases. */
  lemma FreeIs(cfg: Config, s: Cache, mem: nat)
    requires Sized(cfg) && mem != 0
    ensures !AlignedTo(cfg, mem) ==> SlabCaches.Free(cfg, s, mem) == Freed(s, -1, 0)
    ensures var i, j := FindIn(cfg, s.partial, mem, 0), FindIn(cfg, s.full, mem, 0);
            AlignedTo(cfg, mem) ==>
              SlabCaches.Free(cfg, s, mem) ==
              if i < |s.partial| then FreeAt(cfg, s, s.(partial := Remove(s.partial, i)), s.partial[i], mem)
              else if j < |s.full| then FreeAt(cfg, s, s.(full := Remove(s.full, j)), s.full[j], mem)
              else Freed(s, -1, 0)
  {
    hide FindIn, FreeAt, Sized;
    SizePositive(cfg);
  }

  lemma NotUsed(cfg: Config, s: Cache, rest: Cache, v: Slab, mem: nat, word: nat, bit: nat)
    requires Contains(cfg, v, mem) && AtChunk(cfg, v, mem, word, bit) && !Used(v.bitmap, word * WORD_BITS + bit)
    ensures FreeAt(cfg, s, rest, v, mem) == Freed(s, -1, 0)
  {
    hide Used;
  }

  function PushPartial(s: Cache, w: Slab): Cache { s.(partial := [w] + s.partial) }

  function PushFree(s: Cache, w: Slab): Cache { s.(free := [w] + s.free) }

  /** The first free slab loses its pages. */
  function Unpaged(s: Cache): Cache {
    if s.free == [] then s else s.(free := s.free[0 := s.free[0].(page := 0)])
  }

  lemma RelinkIs(cfg: Config, rest: Cache, w: Slab)
    ensures w.count != 0 ==> Relink(cfg, rest, w) == Freed(PushPartial(rest, w), 0, 0)
    ensures w.count == 0 && cfg.atomic ==> Relink(cfg, rest, w) == Freed(PushFree(rest, w), 0, 0)
    ensures w.count == 0 && !cfg.atomic ==> Relink(cfg, rest, w) == Freed(Unpaged(PushFree(rest, w)), 0, w.page)
    ensures PushFree(rest, w).free[0] == w
  {
  }

  lemma RelinkSucceeds(cfg: Config, rest: Cache, w: Slab)
    ensures Relink(cfg, rest, w).result == 0
  {
  }

  lemma RemovePut(list: seq<Slab>, i: nat, w: Slab)
    requires i < |list|
    ensures Remove(list[i := w], i) == Remove(list, i)
  {
  }

  /** The word and bit of the chunk that the address lies in. */
  predicate AtChunk(cfg: Config, v: Slab, mem: nat, word: nat, bit: nat) {
    && cfg.chunkSz > 0 && v.page <= mem
    && word < |v.bitmap| && bit < WORD_BITS && word * WORD_BITS + bit == ChunkIndex(cfg, v, mem)
  }

  lemma SizePositive(cfg: Config)
    requires Sized(cfg)
    ensures cfg.chunkSz > 0 && Chunks(cfg) <= MAX_CHUNKS
  {
  }

  lemma FindStep(cfg: Config, list: seq<Slab>, mem: nat, i: nat)
    requires i < |list|
    ensures FindIn(cfg, list, mem, i) == if Contains(cfg, list[i], mem) then i else FindIn(cfg, list, mem, i + 1)
  {
  }

  lemma FindEnd(cfg: Config, list: seq<Slab>, mem: nat)
    ensures FindIn(cfg, list, mem, |list|) == |list|
  {
  }

  lemma ContainedChunk(cfg: Config, v: Slab, mem: nat)
    requires Sized(cfg) && |v.bitmap| == MAX_BITMAP_WORDS && v.page % PAGE_SIZE == 0 && AlignedTo(cfg, mem)
    requires Contains(cfg, v, mem)
    ensures cfg.chunkSz > 0 && v.page <= mem && (mem - v.page) / cfg.chunkSz / WORD_BITS < MAX_BITMAP_WORDS
    ensures AtChunk(cfg, v, mem, (mem - v.page) / cfg.chunkSz / WORD_BITS, (mem - v.page) / cfg.chunkSz % WORD_BITS)
  {
    hide Chunks;
    SizePositive(cfg);
    ChunkOf(cfg, v, mem);
  }

  lemma UsedAt(b: seq<Word>, c: nat, word: nat, bit: nat)
    requires word == c / WORD_BITS < |b| && bit == c % WORD_BITS
    ensures Used(b, word * WORD_BITS + bit) <==> And(b[word], Bit(bit)) != 0
  {
    hide And, Bit;
  }

  /** The page allocator's answer, if it was asked: pages that nobody owned before and that are owned now. */
  ghost predicate Answered(cfg: Config, s: Cache, page: nat, owned: set<nat>, now: set<nat>) {
    && owned <= now
    && (NeedsPages(s) && page != 0 ==>
          page % PAGE_SIZE == 0 && PagesFrom(page, cfg.pagesPerSlab) !! owned && PagesFrom(page, cfg.pagesPerSlab) <= now)
  }

  lemma NotAnswered(cfg: Config, s: Cache, owned: set<nat>)
    ensures Answered(cfg, s, 0, owned, owned)
    ensures s.partial == [] && s.free == [] ==> OutOfMemory(s, 0)
  {
  }

  lemma PartialServes(s: Cache, more: bool, page: nat)
    ensures s.partial != [] ==> !OutOfMemory(Stocked(s, more), page)
  {
  }

  /** Alloc in steps, and the state between them. */
  lemma AllocIs(cfg: Config, s: Cache, more: bool, page: nat, owned: set<nat>, owned1: set<nat>, now: set<nat>)
    requires Sized(cfg) && Sound(cfg, s) && PagesOwned(cfg, All(s), owned) && owned <= owned1
    requires Answered(cfg, Stocked(s, more), page, owned1, now)
    ensures PageGiven(cfg, s, more, page)
    ensures var s1 := Stocked(s, more);
            && (OutOfMemory(s1, page) ==> SlabCaches.Alloc(cfg, s, more, page) == (s1, 0))
            && (!OutOfMemory(s1, page) ==>
                  && Ready(cfg, Plucked(s1, page))
                  && |Plucked(s1, page).partial[0].bitmap| == MAX_BITMAP_WORDS
                  && SlabCaches.Alloc(cfg, s, more, page) == TakeFirst(cfg, Plucked(s1, page)))
  {
    hide Sound, All, Stocked, TakeFirst, FreshPage, Plucked, Chunks, PagesOwned, PagesFrom, AllSound;
    var s1 := Stocked(s, more);
    StockedExact(cfg, s, more);
    SoundParts(cfg, s);
    if NeedsPages(s1) && page != 0 {
      NotOwnedFresh(cfg, All(s), owned, page);
      StockedFresh(cfg, s, more, page);
    }
    if !OutOfMemory(s1, page) {
      PluckedBitmap(cfg, s, more, page);
      PluckedExact(cfg, s1, page);
    }
  }

  /** After an allocation the cache's pages are owned, and new ones belonged to nobody. */
  lemma AllocOwned(cfg: Config, s: Cache, more: bool, page: nat, owned: set<nat>, owned1: set<nat>, now: set<nat>)
    requires Sized(cfg) && Sound(cfg, s) && PageGiven(cfg, s, more, page)
    requires PagesOwned(cfg, All(s), owned) && owned <= owned1 && Answered(cfg, Stocked(s, more), page, owned1, now)
    ensures var r := SlabCaches.Alloc(cfg, s, more, page).0;
            && owned <= now && PagesOwned(cfg, All(r), now)
            && (forall p {:trigger Owns(All(r), p)} ::
                  Owns(All(r), p) ==> Owns(All(s), p) || PagesFrom(p, cfg.pagesPerSlab) !! owned)
  {
    hide Sound, All, Stocked, SlabCaches.Alloc, PageGiven, PagesFrom, NeedsPages, Owns, Live;
    AllocExact(cfg, s, more, page);
  }

  ghost predicate ReadyToTake(cfg: Config, s: Cache)
    requires Sized(cfg)
  {
    && s.partial != []
    && (forall i :: 0 <= i < |s.partial| ==> |s.partial[i].bitmap| == MAX_BITMAP_WORDS)
    && FirstUnused(s.partial[0].bitmap, Chunks(cfg), 0) < Chunks(cfg)
  }

  lemma ReadyParts(cfg: Config, s: Cache)
    requires Sized(cfg) && Ready(cfg, s)
    ensures ReadyToTake(cfg, s)
  {
    hide Chunks;
    InAll(s, s.partial[0]);
    RoomLeft(cfg, s.partial[0]);
    forall i | 0 <= i < |s.partial|
      ensures |s.partial[i].bitmap| == MAX_BITMAP_WORDS
    {
      InAll(s, s.partial[i]);
    }
  }

  /** The first partial slab with a new value. */
  function Marked(s: Cache, w: Slab): Cache {
    if s.partial == [] then s else s.(partial := s.partial[0 := w])
  }

  /** The first partial slab at the head of the full list. */
  function Filled(s: Cache): Cache {
    if s.partial == [] then s else Cache([s.partial[0]] + s.full, s.partial[1..], s.free)
  }

  lemma TakenIs(cfg: Config, s: Cache, w: Slab)
    requires Sized(cfg) && ReadyToTake(cfg, s)
    requires var c := FirstUnused(s.partial[0].bitmap, Chunks(cfg), 0);
             c / WORD_BITS < MAX_BITMAP_WORDS && w == Take(s.partial[0], c)
    ensures TakeFirst(cfg, s).1 == Address(cfg, w, FirstUnused(s.partial[0].bitmap, Chunks(cfg), 0))
    ensures TakeFirst(cfg, s).0 == if w.count == Chunks(cfg) then Filled(Marked(s, w)) else Marked(s, w)
  {
    assert s.partial[0 := w][1..] == s.partial[1..];
    SameAddress(cfg, s.partial[0], w, FirstUnused(s.partial[0].bitmap, Chunks(cfg), 0));
  }

  /** The first free slab at the head of the partial list. */
  function FirstMoved(s: Cache): Cache {
    if s.free == [] then s else Cache(s.full, [s.free[0]] + s.partial, s.free[1..])
  }

  lemma FirstRemoved(list: seq<Slab>)
    ensures list != [] ==> Remove(list, 0) == list[1..]
  {
  }

  lemma PluckedIs(s: Cache, page: nat)
    requires s.partial == [] && !OutOfMemory(s, page)
    ensures Plucked(s, page) == FirstMoved(s.(free := s.free[0 := Repaged(s.free[0], page)]))
  {
  }

  function Repaged(f: Slab, page: nat): Slab {
    if f.page == 0 then f.(page := page) else f
  }

  lemma StockedOwned(cfg: Config, s: Cache, more: bool, owned: set<nat>, now: set<nat>)
    requires PagesOwned(cfg, All(s), owned) && owned <= now
    requires forall p :: Owns(All(Stocked(s, more)), p) <==> Owns(All(s), p)
    ensures PagesOwned(cfg, All(Stocked(s, more)), now)
  {
    hide Owns, All;
  }

  lemma StillOwned(cfg: Config, slabs: multiset<Slab>, owned: set<nat>, more: set<nat>)
    requires PagesOwned(cfg, slabs, owned) && owned <= more
    ensures PagesOwned(cfg, slabs, more)
  {
  }
}
