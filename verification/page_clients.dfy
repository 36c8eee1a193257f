/** The older page allocator as its clients see it: addresses, and the bytes behind them. */
module PageClients {
  import opened Machine
  import opened Shifts
  import opened BuddyPaths
  import opened BuddyGeometry
  import opened BuddyLayout
  import opened PageBitmaps
  import opened PageRuns

  /* ---- The allocator's own bytes ---- */

  /** sizeof(struct buddy), in words: a bit count and a pointer for each order. */
  const HEADER_WORDS: nat := 26

  /** Words of the order table and the bitmaps. */
  function OwnWords(n: nat): nat {
    HEADER_WORDS + TableWords(n, 0, NB_ORDERS)
  }

  /** Pages taken by the order table and the bitmaps. */
  function ReservedPages(n: nat): nat {
    (4 * OwnWords(n) + (PAGE_SIZE - 1)) / PAGE_SIZE
  }

  /** They are as many pages as the words fill, the last one perhaps in part. */
  lemma OwnBytesReserved(n: nat)
    ensures 4 * OwnWords(n) <= 4096 * ReservedPages(n) < 4 * OwnWords(n) + 4096
  {
    hide OwnWords;
  }

  lemma {:induction false} TableWordsBound(n: nat, order: nat, orders: nat)
    ensures TableWords(n, order, orders) <= 2 * Shr(n, order)
    decreases orders - order
  {
    if order < orders {
      ShrStep(n, order);
      WordsForBound(Shr(n, order));
      TableWordsBound(n, order + 1, orders);
    }
  }

  lemma {:induction false} WordsForBound(bits: nat)
    ensures WordsFor(bits) <= bits
  {
    if bits > WORD_BITS {
      WordsForBound(bits - WORD_BITS);
    }
  }

  /** The allocator's own pages always fit in the heap. */
  lemma ReservedFits(n: nat)
    requires n > 0
    ensures 0 < ReservedPages(n) <= n
  {
    TableWordsBound(n, 0, NB_ORDERS);
    assert Shr(n, 0) == n;
    hide TableWords;
    RoundsUpWithin(4 * OwnWords(n), n);
  }

  lemma RoundsUpWithin(bytes: nat, n: nat)
    requires n > 0 && 0 < bytes <= 104 + 8 * n
    ensures 0 < (bytes + 4095) / 4096 <= n
  {
  }

  /* ---- Addresses ---- */

  /** get_free_pages: the address of the range taken, or null; only kernel requests are served. */
  function GetAt(p: Pyramid, n: nat, base: nat, nb: nat, kernel: bool): (r: (Pyramid, nat))
    requires Sized(n, p)
    ensures Sized(n, r.0)
  {
    var (p1, block) := BuddyAllocate(p, n, nb);
    if kernel && block >= 0 then (p1, block * PAGE_SIZE + base) else (p, 0)
  }

  /** free_pages */
  function GiveAt(p: Pyramid, n: nat, base: nat, address: nat, nb: nat): (r: Pyramid)
    requires Sized(n, p) && (address != 0 ==> base <= address)
    ensures Sized(n, r)
  {
    if address == 0 then p else BuddyFree(p, n, (address - base) / PAGE_SIZE, nb)
  }

  lemma AddressReads(base: nat, block: nat)
    ensures (block * PAGE_SIZE + base - base) / PAGE_SIZE == block
  {
  }

  /* ---- Every run of calls ---- */

  /** An answered request that was not given back: the address returned and the pages asked for. */
  datatype Grant = Grant(address: nat, pages: nat)

  /** The range of pages behind a grant. */
  function ExtentOf(base: nat, g: Grant): Extent {
    Extent(if base <= g.address then (g.address - base) / PAGE_SIZE else 0, g.pages)
  }

  function ExtentsOf(base: nat, grants: seq<Grant>): (live: seq<Extent>)
    ensures |live| == |grants| && forall i :: 0 <= i < |live| ==> live[i] == ExtentOf(base, grants[i])
  {
    seq(|grants|, i requires 0 <= i < |grants| => ExtentOf(base, grants[i]))
  }

  predicate Placed(base: nat, reserved: nat, g: Grant) {
    reserved <= ExtentOf(base, g).block && g.address == ExtentOf(base, g).block * PAGE_SIZE + base
  }

  /** The bitmaps show the ranges of the grants and the allocator's own pages. */
  ghost predicate Serving(p: Pyramid, n: nat, base: nat, reserved: nat, grants: seq<Grant>) {
    && reserved > 0 && (forall i :: 0 <= i < |grants| ==> Placed(base, reserved, grants[i]))
    && Invariant(p, n, reserved, ExtentsOf(base, grants))
  }

  datatype Call = Get(pages: nat, kernel: bool) | Give(i: nat)

  predicate Fair(grants: seq<Grant>, call: Call) {
    call.Give? ==> call.i < |grants|
  }

  lemma Positive(p: Pyramid, n: nat, base: nat, reserved: nat, grants: seq<Grant>)
    requires Serving(p, n, base, reserved, grants)
    ensures Sized(n, p) && forall i :: 0 <= i < |grants| ==> 0 < grants[i].address && base <= grants[i].address
  {
    forall i | 0 <= i < |grants|
      ensures 0 < grants[i].address && base <= grants[i].address
    {
      assert Placed(base, reserved, grants[i]);
    }
  }

  ghost function Answer(p: Pyramid, n: nat, base: nat, reserved: nat, grants: seq<Grant>, call: Call): (Pyramid, seq<Grant>)
    requires Serving(p, n, base, reserved, grants) && Fair(grants, call)
  {
    Positive(p, n, base, reserved, grants);
    match call
    case Get(pages, kernel) =>
      var (p1, address) := GetAt(p, n, base, pages, kernel);
      (p1, if address == 0 then grants else grants + [Grant(address, pages)])
    case Give(i) =>
      (GiveAt(p, n, base, grants[i].address, grants[i].pages), grants[..i] + grants[i + 1..])
  }

  lemma AnswerServes(p: Pyramid, n: nat, base: nat, reserved: nat, grants: seq<Grant>, call: Call)
    requires Serving(p, n, base, reserved, grants) && Fair(grants, call)
    ensures var (p1, grants1) := Answer(p, n, base, reserved, grants, call); Serving(p1, n, base, reserved, grants1)
  {
    match call
    case Get(pages, kernel) => GetServes(p, n, base, reserved, grants, pages, kernel);
    case Give(i) => GiveServes(p, n, base, reserved, grants, i);
  }

  lemma GetServes(p: Pyramid, n: nat, base: nat, reserved: nat, grants: seq<Grant>, pages: nat, kernel: bool)
    requires Serving(p, n, base, reserved, grants) && Sized(n, p)
    ensures var (p1, address) := GetAt(p, n, base, pages, kernel);
            Serving(p1, n, base, reserved, if address == 0 then grants else grants + [Grant(address, pages)])
  {
    hide Invariant, BuddyAllocate, Sized;
    var live := ExtentsOf(base, grants);
    AllocKeeps(p, n, reserved, live, pages);
    var (p1, block) := BuddyAllocate(p, n, pages);
    NewAboveReserved(p, n, reserved, live, pages);
    if kernel && block >= 0 {
      var g := Grant(block * PAGE_SIZE + base, pages);
      AddressReads(base, block);
      assert Placed(base, reserved, g);
      assert ExtentsOf(base, grants + [g]) == live + [Extent(block, pages)];
    }
  }

  /** A range just taken starts above the allocator's own pages. */
  lemma NewAboveReserved(p: Pyramid, n: nat, reserved: nat, live: seq<Extent>, nb: nat)
    requires Invariant(p, n, reserved, live)
    ensures var block := BuddyAllocate(p, n, nb).1; block >= 0 ==> reserved <= block
  {
    hide Exact, Sized, BuddyOrder, BuddyAllocate, ExtentsAligned, ExtentsDisjoint, UsedBy;
    BuddyAllocateExact(p, n, UsedBy(reserved, live), nb);
    var block := BuddyAllocate(p, n, nb).1;
    if 0 <= block < reserved {
      UsedByMember(reserved, live, block);
    }
  }

  lemma GiveServes(p: Pyramid, n: nat, base: nat, reserved: nat, grants: seq<Grant>, i: nat)
    requires Serving(p, n, base, reserved, grants) && i < |grants| && Sized(n, p)
    ensures base <= grants[i].address && grants[i].address > 0
    ensures Serving(GiveAt(p, n, base, grants[i].address, grants[i].pages), n, base, reserved, grants[..i] + grants[i + 1..])
  {
    hide Invariant, BuddyFree, Sized;
    var live := ExtentsOf(base, grants);
    Positive(p, n, base, reserved, grants);
    FreeKeeps(p, n, reserved, live, i);
    assert ExtentsOf(base, grants[..i] + grants[i + 1..]) == Without(live, i);
  }

  ghost predicate AllFair(p: Pyramid, n: nat, base: nat, reserved: nat, grants: seq<Grant>, calls: seq<Call>)
    requires Serving(p, n, base, reserved, grants)
    decreases |calls|
  {
    calls == [] || (
      Fair(grants, calls[0]) && (
        AnswerServes(p, n, base, reserved, grants, calls[0]);
        var r := Answer(p, n, base, reserved, grants, calls[0]);
        AllFair(r.0, n, base, reserved, r.1, calls[1..])
      )
    )
  }

  ghost function Answers(p: Pyramid, n: nat, base: nat, reserved: nat, grants: seq<Grant>, calls: seq<Call>): (r: (Pyramid, seq<Grant>))
    requires Serving(p, n, base, reserved, grants) && AllFair(p, n, base, reserved, grants, calls)
    ensures Serving(r.0, n, base, reserved, r.1)
    decreases |calls|
  {
    if calls == [] then (p, grants) else
      AnswerServes(p, n, base, reserved, grants, calls[0]);
      var r := Answer(p, n, base, reserved, grants, calls[0]);
      Answers(r.0, n, base, reserved, r.1, calls[1..])
  }

  lemma SetUpServes(n: nat, base: nat)
    requires Tracked(n) && RoomBelow(n)
    ensures Serving(SetUp(n, ReservedPages(n)), n, base, ReservedPages(n), [])
  {
    ReservedFits(n);
    SetUpInvariant(n, ReservedPages(n));
    assert ExtentsOf(base, []) == [];
  }

  /** Calls after the set-up of n pages at `base`: requests, and returns of what was granted. */
  ghost predicate FairRun(n: nat, base: nat, calls: seq<Call>)
    requires Tracked(n) && RoomBelow(n)
  {
    SetUpServes(n, base);
    AllFair(SetUp(n, ReservedPages(n)), n, base, ReservedPages(n), [], calls)
  }

  /** What clients hold after such a run. */
  ghost function Granted(n: nat, base: nat, calls: seq<Call>): seq<Grant>
    requires Tracked(n) && RoomBelow(n) && FairRun(n, base, calls)
  {
    SetUpServes(n, base);
    Answers(SetUp(n, ReservedPages(n)), n, base, ReservedPages(n), [], calls).1
  }

  /**
   * After any run of calls no two clients share a byte; every client's bytes lie above the allocator's order
   * table and bitmaps, a whole number of pages above the base, and end inside the heap.
   */
  lemma ClientsApart(n: nat, base: nat, calls: seq<Call>)
    requires Tracked(n) && RoomBelow(n) && FairRun(n, base, calls)
    ensures var grants := Granted(n, base, calls);
            && (forall i, j :: 0 <= i < j < |grants| && grants[i].pages > 0 && grants[j].pages > 0 ==>
                  || grants[i].address + 4096 * grants[i].pages <= grants[j].address
                  || grants[j].address + 4096 * grants[j].pages <= grants[i].address)
            && (forall i :: 0 <= i < |grants| ==>
                  && base + 4 * OwnWords(n) <= grants[i].address
                  && (grants[i].address - base) % 4096 == 0
                  && grants[i].address + 4096 * grants[i].pages <= base + 4096 * n)
  {
    hide SetUp, AllFair, Tracked, RoomBelow, Invariant, OwnWords, ReservedPages;
    SetUpServes(n, base);
    var (p, grants) := Answers(SetUp(n, ReservedPages(n)), n, base, ReservedPages(n), [], calls);
    forall i, j | 0 <= i < j < |grants| && grants[i].pages > 0 && grants[j].pages > 0
      ensures grants[i].address + 4096 * grants[i].pages <= grants[j].address
        || grants[j].address + 4096 * grants[j].pages <= grants[i].address
    {
      GrantsApart(p, n, base, ReservedPages(n), grants, i, j);
    }
    OwnBytesReserved(n);
    forall i | 0 <= i < |grants|
      ensures base + 4 * OwnWords(n) <= grants[i].address && (grants[i].address - base) % 4096 == 0
      ensures grants[i].address + 4096 * grants[i].pages <= base + 4096 * n
    {
      GrantInside(p, n, base, ReservedPages(n), grants, i);
    }
  }

  lemma GrantInside(p: Pyramid, n: nat, base: nat, reserved: nat, grants: seq<Grant>, i: nat)
    requires Serving(p, n, base, reserved, grants) && i < |grants|
    ensures base + 4096 * reserved <= grants[i].address && (grants[i].address - base) % 4096 == 0
    ensures grants[i].address + 4096 * grants[i].pages <= base + 4096 * n
  {
    hide Exact, Sized, ExtentsDisjoint, BuddyOrder, PageBitmaps.Aligned;
    var e := ExtentsOf(base, grants)[i];
    assert Placed(base, reserved, grants[i]);
    assert grants[i].address - base == 4096 * e.block;
  }

  lemma GrantsApart(p: Pyramid, n: nat, base: nat, reserved: nat, grants: seq<Grant>, i: nat, j: nat)
    requires Serving(p, n, base, reserved, grants) && i < j < |grants| && grants[i].pages > 0 && grants[j].pages > 0
    ensures grants[i].address + 4096 * grants[i].pages <= grants[j].address
      || grants[j].address + 4096 * grants[j].pages <= grants[i].address
  {
    hide Exact, Sized, ExtentsAligned, BuddyOrder, PageBitmaps.Aligned;
    var live := ExtentsOf(base, grants);
    assert Placed(base, reserved, grants[i]) && Placed(base, reserved, grants[j]);
    var q := if live[i].block <= live[j].block then live[j].block else live[i].block;
    assert !(Holds(live[i], q) && Holds(live[j], q));
  }
}
