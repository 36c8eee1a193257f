/** The page allocator as its clients see it: addresses, and the bytes behind them. */
module BuddyClients {
  import opened Machine
  import opened Shifts
  import opened BuddyTree
  import opened BuddyGeometry
  import opened BuddyHeap
  import opened BuddyTheorems
  import opened BuddyRuns

  /** get_free_pages: the address of the first page taken, or null. */
  function GetAt(h: Heap, base: nat, pages: nat): (r: (Heap, nat))
    requires WellFormed(h) && pages <= MAX_REQUEST
    ensures WellFormed(r.0) && r.0.pages == h.pages
  {
    var (h1, page) := GetFreePages(h, pages);
    (h1, if page == WORD_T_MAX then 0 else page * PAGE_SIZE + base)
  }

  /** The address is null or lies in a tracked page. */
  predicate InHeap(n: nat, base: nat, address: nat) {
    address != 0 ==> base <= address && (address - base) / PAGE_SIZE < n
  }

  /** free_pages2 */
  function GiveAt(h: Heap, base: nat, address: nat): (r: Heap)
    requires WellFormed(h) && InHeap(h.pages, base, address)
    ensures WellFormed(r) && r.pages == h.pages
  {
    if address == 0 then h else FreePages(h, (address - base) / PAGE_SIZE)
  }

  /** The address of a page leads back to the page. */
  lemma AddressReads(base: nat, page: nat)
    ensures (page * PAGE_SIZE + base - base) / PAGE_SIZE == page
  {
  }

  /** What an address is: null when nothing is left, else the start of the page taken. */
  lemma GetAtExact(h: Heap, base: nat, pages: nat)
    requires WellFormed(h) && pages <= MAX_REQUEST && base > 0
    ensures var (r, address) := GetAt(h, base, pages);
            var page := GetFreePages(h, pages).1;
            && r == GetFreePages(h, pages).0
            && (address == 0 <==> page == WORD_T_MAX)
            && (address != 0 ==> address == base + 4096 * page && (address - base) / 4096 == page)
  {
    AddressReads(base, GetFreePages(h, pages).1);
  }

  lemma MeansShape(h: Heap, live: set<Block>, tail: set<Block>)
    requires Means(h, live, tail)
    ensures WellFormed(h)
  {
  }

  /** Get pages, then give their address back: both pyramids and the counter are restored bit for bit. */
  lemma GetGiveRestores(h: Heap, live: set<Block>, base: nat, pages: nat)
    requires Means(h, live, {}) && Accounts(h, live) && pages <= MAX_REQUEST && base > 0
    ensures var (r, address) := GetAt(h, base, pages);
            InHeap(r.pages, base, address) && GiveAt(r, base, address) == h
  {
    hide Means, GetFreePages, FreePages, OrderOf;
    AllocationSound(h, live, {}, pages);
    AllocateFreeRestores(h, live, pages);
    GetAtExact(h, base, pages);
  }

  /* ---- Every run of calls ---- */

  /** An answered request that was not given back: the address returned and the pages asked for. */
  datatype Grant = Grant(address: nat, pages: nat)

  /** The block behind a grant. */
  function BlockOf(base: nat, g: Grant): Block
    requires base <= g.address
  {
    Block(PagesOrder(g.pages), Shr((g.address - base) / PAGE_SIZE, PagesOrder(g.pages)))
  }

  predicate Aligned(base: nat, g: Grant) {
    && base <= g.address && g.pages <= MAX_REQUEST
    && g.address == base + PAGE_SIZE * Start(BlockOf(base, g))
  }

  predicate AllAligned(base: nat, grants: set<Grant>) {
    forall g :: g in grants ==> Aligned(base, g)
  }

  function BlocksOf(base: nat, grants: set<Grant>): set<Block>
    requires AllAligned(base, grants)
  {
    set g | g in grants :: BlockOf(base, g)
  }

  /** The heap means the blocks of the grants, and no two grants share a block. */
  ghost predicate Serves(h: Heap, base: nat, grants: set<Grant>, tail: set<Block>) {
    && base > 0 && AllAligned(base, grants)
    && (forall g, k :: g in grants && k in grants && BlockOf(base, g) == BlockOf(base, k) ==> g == k)
    && Means(h, BlocksOf(base, grants), tail) && Accounts(h, BlocksOf(base, grants))
  }

  ghost predicate Serving(h: Heap, base: nat, grants: set<Grant>) {
    exists tail :: Serves(h, base, grants, tail)
  }

  datatype Call = Get(pages: nat) | Give(grant: Grant)

  /** Requests fit a 32-bit block; what is given back was granted. */
  predicate Fair(grants: set<Grant>, call: Call) {
    match call
    case Get(pages) => pages <= MAX_REQUEST
    case Give(g) => g in grants
  }

  lemma GrantsInHeap(h: Heap, base: nat, grants: set<Grant>)
    requires Serving(h, base, grants)
    ensures WellFormed(h) && forall g :: g in grants ==> g.address != 0 && InHeap(h.pages, base, g.address)
  {
    var tail :| Serves(h, base, grants, tail);
    forall g | g in grants
      ensures g.address != 0 && InHeap(h.pages, base, g.address)
    {
      var b := BlockOf(base, g);
      assert b in BlocksOf(base, grants) && Aligned(base, g);
      LiveOrder(h, BlocksOf(base, grants), tail, b);
      AddressReads(base, Start(b));
    }
  }

  ghost function Answer(h: Heap, base: nat, grants: set<Grant>, call: Call): (Heap, set<Grant>)
    requires Serving(h, base, grants) && Fair(grants, call)
  {
    GrantsInHeap(h, base, grants);
    match call
    case Get(pages) =>
      var (h1, address) := GetAt(h, base, pages);
      (h1, if address == 0 then grants else grants + {Grant(address, pages)})
    case Give(g) => (GiveAt(h, base, g.address), grants - {g})
  }

  lemma AnswerServes(h: Heap, base: nat, grants: set<Grant>, call: Call)
    requires Serving(h, base, grants) && Fair(grants, call)
    ensures var (h1, grants1) := Answer(h, base, grants, call); Serving(h1, base, grants1) && h1.pages == h.pages
  {
    var tail :| Serves(h, base, grants, tail);
    GrantsInHeap(h, base, grants);
    match call
    case Get(pages) => GetServes(h, base, grants, tail, pages);
    case Give(g) => GiveServes(h, base, grants, tail, g);
  }

  lemma GetServes(h: Heap, base: nat, grants: set<Grant>, tail: set<Block>, pages: nat)
    requires Serves(h, base, grants, tail) && pages <= MAX_REQUEST
    ensures var (h1, address) := GetAt(h, base, pages);
            Serves(h1, base, if address == 0 then grants else grants + {Grant(address, pages)}, tail)
  {
    hide Means, Accounts, GetFreePages, PagesOrder;
    var live := BlocksOf(base, grants);
    MeansShape(h, live, tail);
    AllocationSound(h, live, tail, pages);
    GetAtExact(h, base, pages);
    var (h1, address) := GetAt(h, base, pages);
    if address != 0 {
      var g := Grant(address, pages);
      var more := grants + {g};
      assert Aligned(base, g);
      assert BlocksOf(base, more) == live + {BlockOf(base, g)};
    }
  }

  lemma GiveServes(h: Heap, base: nat, grants: set<Grant>, tail: set<Block>, g: Grant)
    requires Serves(h, base, grants, tail) && g in grants && InHeap(h.pages, base, g.address)
    ensures g.address != 0 && exists rest :: Serves(GiveAt(h, base, g.address), base, grants - {g}, rest)
  {
    hide Means, Accounts, FreePages, OrderOf, PagesOrder;
    var live, b := BlocksOf(base, grants), BlockOf(base, g);
    assert Aligned(base, g) && b in live;
    MeansShape(h, live, tail);
    var rest := FreeSound(h, live, tail, b);
    AddressReads(base, Start(b));
    assert BlocksOf(base, grants - {g}) == live - {b};
    assert Serves(GiveAt(h, base, g.address), base, grants - {g}, rest);
  }

  ghost predicate AllFair(h: Heap, base: nat, grants: set<Grant>, calls: seq<Call>)
    requires Serving(h, base, grants)
    decreases |calls|
  {
    calls == [] || (
      Fair(grants, calls[0]) && (
        AnswerServes(h, base, grants, calls[0]);
        var r := Answer(h, base, grants, calls[0]);
        AllFair(r.0, base, r.1, calls[1..])
      )
    )
  }

  ghost function Answers(h: Heap, base: nat, grants: set<Grant>, calls: seq<Call>): (r: (Heap, set<Grant>))
    requires Serving(h, base, grants) && AllFair(h, base, grants, calls)
    ensures Serving(r.0, base, r.1) && r.0.pages == h.pages
    decreases |calls|
  {
    if calls == [] then (h, grants) else
      AnswerServes(h, base, grants, calls[0]);
      var r := Answer(h, base, grants, calls[0]);
      Answers(r.0, base, r.1, calls[1..])
  }

  lemma FreshServes(n: nat, base: nat)
    requires Tracked(n) && Room(n) && base > 0
    ensures Serving(FreshHeap(n), base, {})
  {
    FreshMeans(n);
    assert BlocksOf(base, {}) == {};
    assert Serves(FreshHeap(n), base, {}, Tail(n));
  }

  /** Calls from a fresh heap of n pages at `base`: requests, and returns of what was granted. */
  ghost predicate FairRun(n: nat, base: nat, calls: seq<Call>)
    requires Tracked(n) && Room(n) && base > 0
  {
    FreshServes(n, base);
    AllFair(FreshHeap(n), base, {}, calls)
  }

  /** What clients hold after such a run. */
  ghost function Granted(n: nat, base: nat, calls: seq<Call>): set<Grant>
    requires Tracked(n) && Room(n) && base > 0 && FairRun(n, base, calls)
  {
    FreshServes(n, base);
    Answers(FreshHeap(n), base, {}, calls).1
  }

  /** Bytes a client may use; a request for no pages gets one all the same. */
  function Bytes(g: Grant): nat { 4096 * (if g.pages == 0 then 1 else g.pages) }

  /**
   * After any run of calls no two clients share a byte, whatever the page count; every address is a whole
   * number of pages above the base, and on a power-of-two heap every client's bytes end inside the heap.
   */
  lemma ClientsApart(n: nat, base: nat, calls: seq<Call>)
    requires Tracked(n) && Room(n) && base > 0 && FairRun(n, base, calls)
    ensures var grants := Granted(n, base, calls);
            && (forall g, k :: g in grants && k in grants && g != k ==>
                  g.address + Bytes(g) <= k.address || k.address + Bytes(k) <= g.address)
            && (forall g :: g in grants ==> base <= g.address && (g.address - base) % 4096 == 0)
            && (IsPow2(n) ==> forall g :: g in grants ==> g.address + Bytes(g) <= base + 4096 * n)
  {
    hide Means, Accounts, PagesOrder, Bytes;
    FreshServes(n, base);
    var (h, grants) := Answers(FreshHeap(n), base, {}, calls);
    var tail :| Serves(h, base, grants, tail);
    forall g, k | g in grants && k in grants && g != k
      ensures g.address + Bytes(g) <= k.address || k.address + Bytes(k) <= g.address
    {
      GrantsApart(h, base, grants, tail, g, k);
    }
    forall g | g in grants
      ensures base <= g.address && (g.address - base) % 4096 == 0
      ensures IsPow2(n) ==> g.address + Bytes(g) <= base + 4096 * n
    {
      assert Aligned(base, g);
      WholePages(Start(BlockOf(base, g)));
      if IsPow2(n) {
        GrantInside(h, base, grants, tail, g);
      }
    }
  }

  lemma WholePages(page: nat)
    ensures PAGE_SIZE * page % 4096 == 0
  {
  }

  /** A grant uses no more than its block. */
  lemma GrantFits(base: nat, g: Grant)
    requires Aligned(base, g)
    ensures var b := BlockOf(base, g);
            Bytes(g) <= 4096 * Pow2(b.order) && Start(b) + Pow2(b.order) == Shl(b.index + 1, b.order)
  {
    PagesOrderLeast(g.pages);
    ShlLess(BlockOf(base, g).index, BlockOf(base, g).order);
  }

  lemma GrantInside(h: Heap, base: nat, grants: set<Grant>, tail: set<Block>, g: Grant)
    requires Serves(h, base, grants, tail) && g in grants && IsPow2(h.pages)
    ensures g.address + Bytes(g) <= base + 4096 * h.pages
  {
    hide Shows, NoOverlap, Accounts, PagesOrder, Bytes;
    var b := BlockOf(base, g);
    assert Aligned(base, g) && b in BlocksOf(base, grants);
    TailIffNotPow2(h.pages);
    GrantFits(base, g);
  }

  lemma GrantsApart(h: Heap, base: nat, grants: set<Grant>, tail: set<Block>, g: Grant, k: Grant)
    requires Serves(h, base, grants, tail) && g in grants && k in grants && g != k
    ensures g.address + Bytes(g) <= k.address || k.address + Bytes(k) <= g.address
  {
    hide Shows, Accounts, PagesOrder, Bytes;
    var b, c := BlockOf(base, g), BlockOf(base, k);
    assert Aligned(base, g) && Aligned(base, k);
    assert b in BlocksOf(base, grants) && c in BlocksOf(base, grants) && b != c;
    GrantFits(base, g);
    GrantFits(base, k);
    BlocksApart(BlocksOf(base, grants), b, c);
  }

  /** Blocks without overlap are separate intervals of pages. */
  lemma BlocksApart(live: set<Block>, b: Block, c: Block)
    requires NoOverlap(live) && b in live && c in live && b != c
    ensures Start(b) + Pow2(b.order) <= Start(c) || Start(c) + Pow2(c.order) <= Start(b)
  {
    NoOverlapDisjoint(live);
    ShlLess(b.index, b.order);
    ShlLess(c.index, c.order);
    var p := if Start(b) <= Start(c) then Start(c) else Start(b);
    ShrInterval(p, b.order, b.index);
    ShrInterval(p, c.order, c.index);
    assert !(Covers(b, p) && Covers(c, p));
  }
}
