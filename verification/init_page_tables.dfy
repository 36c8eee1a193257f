/** Page tables at boot: carving second-level tables out of boot pages, and mapping all of memory. */
module InitPageTables {
  import opened Machine
  import opened PageTables

  function ZeroedPage(mem: Memory, q: nat): Memory {
    x => if Page(x) == q then 0 else mem(x)
  }

  lemma InPage(q: nat, x: nat)
    requires q % PAGE_SIZE == 0
    ensures Page(x) == q <==> q <= x < q + PAGE_SIZE
  {
    assert x - x % PAGE_SIZE <= x < x - x % PAGE_SIZE + PAGE_SIZE;
    assert q <= x < q + PAGE_SIZE ==> x / PAGE_SIZE == q / PAGE_SIZE;
  }

  lemma PageRoot(x: nat)
    ensures RootOf(x) == RootOf(Page(x)) && Page(x) % PAGE_SIZE == 0
  {
    assert x / ROOT_SIZE == x / PAGE_SIZE / 4;
    assert Page(x) / PAGE_SIZE == x / PAGE_SIZE;
    assert Page(x) / ROOT_SIZE == Page(x) / PAGE_SIZE / 4;
  }

  lemma InTableRange(t: nat, x: nat)
    requires IsAligned(t)
    ensures TableBase(x) == t <==> t <= x < t + TABLE_SIZE
  {
    assert t <= x < t + TABLE_SIZE ==> x / TABLE_SIZE == t / TABLE_SIZE;
  }

  lemma TablePage(x: nat)
    ensures Page(x) == Page(TableBase(x))
  {
    assert x / PAGE_SIZE == x / TABLE_SIZE / 4;
    assert TableBase(x) / TABLE_SIZE == x / TABLE_SIZE;
    assert TableBase(x) / PAGE_SIZE == TableBase(x) / TABLE_SIZE / 4;
  }

  predicate Blank(mem: Memory, lo: nat, hi: nat)
  {
    forall x :: lo <= x < hi ==> mem(x) == 0
  }

  /**
   * What is left of the current boot page: `n` whole tables from `p` to its end, blank and not handed out.
   * All tables handed out and the root lie in boot pages.
   */
  ghost predicate Pool(mem: Memory, root: nat, bootPages: set<nat>, tables: set<nat>, p: nat, n: nat) {
    && IsRoot(root)
    && (forall x {:trigger RootOf(x)} :: RootOf(x) == root ==> Page(x) in bootPages)
    && (forall t :: t in tables ==> IsTable(root, t) && Page(t) in bootPages)
    && (n != 0 ==> Rest(mem, root, bootPages, tables, p, n))
  }

  ghost predicate Rest(mem: Memory, root: nat, bootPages: set<nat>, tables: set<nat>, p: nat, n: nat) {
    && n <= 4 && p != 0 && IsAligned(p) && RootOf(p) != root && Page(p) in bootPages
    && p + n * TABLE_SIZE == Page(p) + PAGE_SIZE
    && (forall t :: t in tables && Page(t) == Page(p) ==> t < p)
    && Blank(mem, p, Page(p) + PAGE_SIZE)
  }

  /** Taking the next table off the pool. */
  lemma TakeNext(mem: Memory, root: nat, bootPages: set<nat>, tables: set<nat>, p: nat, n: nat)
    requires Pool(mem, root, bootPages, tables, p, n) && n != 0
    ensures Pool(mem, root, bootPages, tables + {p}, p + TABLE_SIZE, n - 1)
    ensures IsTable(root, p) && p !in tables && Blank(mem, p, p + TABLE_SIZE)
  {
    if n != 1 {
      assert Page(p) <= p + TABLE_SIZE < Page(p) + PAGE_SIZE;
      PageRoot(p);
      InPage(Page(p), p + TABLE_SIZE);
      PageRoot(p + TABLE_SIZE);
    }
  }

  /** A fresh boot page refills it. */
  lemma Refill(mem: Memory, root: nat, bootPages: set<nat>, tables: set<nat>, p: nat, q: nat)
    requires Pool(mem, root, bootPages, tables, p, 0)
    requires q != 0 && q % PAGE_SIZE == 0 && q !in bootPages
    ensures Pool(ZeroedPage(mem, q), root, bootPages + {q}, tables, q, 4)
  {
    hide RootOf, Page;
    var m := ZeroedPage(mem, q);
    InPage(q, q);
    forall x | q <= x < q + PAGE_SIZE
      ensures m(x) == 0
    {
      InPage(q, x);
    }
  }

  /** Zeroing a fresh boot page reaches neither the root nor a table handed out. */
  lemma RefillFrame(mem: Memory, root: nat, bootPages: set<nat>, tables: set<nat>, p: nat, n: nat, q: nat)
    requires Pool(mem, root, bootPages, tables, p, n) && q !in bootPages
    ensures forall x :: RootOf(x) == root || TableBase(x) in tables ==> ZeroedPage(mem, q)(x) == mem(x)
  {
    hide RootOf, Page, TableBase, IsTable;
    forall x | RootOf(x) == root || TableBase(x) in tables
      ensures Page(x) != q
    {
      TablePage(x);
    }
  }

  /** Writes into the root or into tables handed out do not reach the pool. */
  lemma PoolFrame(mem: Memory, r: Memory, root: nat, bootPages: set<nat>, tables: set<nat>, p: nat, n: nat)
    requires Pool(mem, root, bootPages, tables, p, n)
    requires forall x :: RootOf(x) != root && TableBase(x) !in tables ==> r(x) == mem(x)
    ensures Pool(r, root, bootPages, tables, p, n)
  {
    if n != 0 {
      forall x | p <= x < Page(p) + PAGE_SIZE
        ensures r(x) == 0
      {
        RestUnused(mem, root, bootPages, tables, p, n, x);
      }
    }
  }

  lemma RestUnused(mem: Memory, root: nat, bootPages: set<nat>, tables: set<nat>, p: nat, n: nat, x: nat)
    requires Pool(mem, root, bootPages, tables, p, n) && n != 0 && p <= x < Page(p) + PAGE_SIZE
    ensures RootOf(x) != root && TableBase(x) !in tables
  {
    hide RootOf, Page, TableBase;
    PageRoot(p);
    InPage(Page(p), p);
    InPage(Page(p), x);
    PageRoot(x);
    TablePage(x);
    TableStart(p, x);
  }

  lemma TableStart(p: nat, x: nat)
    requires IsAligned(p) && p <= x
    ensures p <= TableBase(x)
  {
    InTableRange(p, x);
    assert x / TABLE_SIZE >= p / TABLE_SIZE;
  }

  /** Memory, the boot pages given out, and the static cursor of _get_free_l2. */
  class BootTables {
    var mem: Memory
    var bootPages: set<nat>
    var tables: set<nat>
    var p: nat
    var n: nat
    var ttbr0: Address

    ghost predicate PoolOk(root: nat)
      reads this
    {
      Pool(mem, root, bootPages, tables, p, n)
    }

    /** get_boot_pages(1, GFP_ZERO): null, or a zeroed page given to nobody before. */
    method GetBootPage() returns (q: nat)
      modifies this`mem, this`bootPages
      ensures q == 0 ==> mem == old(mem) && bootPages == old(bootPages)
      ensures q != 0 ==> q % PAGE_SIZE == 0 && q !in old(bootPages)
      ensures q != 0 ==> mem == ZeroedPage(old(mem), q) && bootPages == old(bootPages) + {q}
    {
      q := *;
      if q == 0 || q % PAGE_SIZE != 0 || q in bootPages {
        return 0;
      }
      mem := ZeroedPage(mem, q);
      bootPages := bootPages + {q};
    }

    /**
     * _get_free_l2: null, or a blank 1 KB aligned table outside the root that no call returned before.
     * Only words outside the root and all earlier tables change.
     */
    method GetFreeL2(ghost root: nat) returns (ret: nat)
      requires PoolOk(root)
      modifies this`mem, this`bootPages, this`tables, this`p, this`n
      ensures PoolOk(root)
      ensures ret == 0 ==> tables == old(tables)
      ensures ret != 0 ==> IsTable(root, ret) && ret !in old(tables) && tables == old(tables) + {ret}
      ensures ret != 0 ==> Blank(mem, ret, ret + TABLE_SIZE)
      ensures forall x :: RootOf(x) == root || TableBase(x) in old(tables) ==> mem(x) == old(mem)(x)
    {
      hide Pool, RootOf, TableBase, ZeroedPage, Blank, IsTable;
      ret := 0;
      if n == 0 {
        p := GetBootPage();
        if p != 0 {
          RefillFrame(old(mem), root, old(bootPages), tables, old(p), 0, p);
          Refill(old(mem), root, old(bootPages), tables, old(p), p);
          n := PAGE_SIZE / TABLE_SIZE;
        } else {
          EmptyPool(mem, root, bootPages, tables, old(p), p);
        }
      }
      if n != 0 {
        TakeNext(mem, root, bootPages, tables, p, n);
        NotNull(root, p);
        ret := p;
        tables := tables + {p};
        n := n - 1;
        p := p + TABLE_SIZE;
      }
    }

    /** The loop of init_page_tables that gives every megabyte of the range a table of its own. */
    method BuildRoot(root: nat, virt: Address, last: Address) returns (r: int)
      requires PoolOk(root) && Megabyte(virt) <= Megabyte(last) + 1
      requires forall x :: RootOf(x) == root ==> mem(x) == 0
      modifies this`mem, this`bootPages, this`tables, this`p, this`n
      ensures r == 0 || r == -1
      ensures Sound(mem, root, tables) && AllFault(mem, root)
      ensures r == 0 ==> Served(mem, root, Megabyte(virt), Megabyte(last) + 1)
    {
      hide Pool, Sound, RootOf, TableBase, IsTable, Blank, AllFault, Served, PutTable, L1Address, TableEntry, Megabyte;
      var begin := L1Address(root, virt);
      var end := L1Address(root, last) + 4;
      var itor := begin;
      ghost var i := Megabyte(virt);
      L1Addresses(root, virt, last);
      PoolRoot(root, mem, bootPages, tables, p, n);
      BlankRoot(mem, root, tables, i);
      while itor != end
        invariant Megabyte(virt) <= i <= Megabyte(last) + 1 <= 4096
        invariant itor == root + 4 * i && end == root + 4 * (Megabyte(last) + 1)
        invariant PoolOk(root)
        invariant Sound(mem, root, tables) && AllFault(mem, root) && Served(mem, root, Megabyte(virt), i)
        decreases end - itor
      {
        ghost var before, had := mem, tables;
        var l2 := GetFreeL2(root);
        PoolRoot(root, mem, bootPages, tables, p, n);
        UnusedWords(before, mem, root, had);
        SameServed(before, mem, root, Megabyte(virt), i);
        if l2 == 0 {
          return -1;
        }
        ghost var m := mem;
        mem := Write(mem, itor, TableEntry(l2));
        MegabyteServed(m, mem, root, had, Megabyte(virt), i, l2);
        PoolFrame(m, mem, root, bootPages, tables, p, n);
        itor := itor + 4;
        i := i + 1;
      }
      r := 0;
    }

    /** _init_page_tables_l2 */
    method InitL2(root: nat, phy: Address, virt: Address, length: Address)
      requires Sound(mem, root, tables) && length % PAGE_SIZE == 0
      requires Reaches(mem, root, virt, length / PAGE_SIZE)
      modifies this`mem
      ensures Sound(mem, root, tables)
      ensures Maps(old(mem), mem, root, virt, phy, length / PAGE_SIZE, NORMAL_ATTRIBUTES)
    {
      hide Sound, Maps, Entry, PageAt, PagesOf, Page, Walk, PutSmall, TableBase, Decode, SmallEntry, IsTable,
        IsTableEntry, Reaches;
      var p, v, left := phy, virt, length;
      ghost var k := 0;
      StartMaps(mem, root, virt, phy, length, NORMAL_ATTRIBUTES);
      while left != 0
        invariant Sound(mem, root, tables)
        invariant Maps(old(mem), mem, root, virt, phy, k, NORMAL_ATTRIBUTES)
        invariant left == length - k * PAGE_SIZE && k <= length / PAGE_SIZE
        invariant v == PageAt(virt, k) && p == PageAt(phy, k)
        invariant Reaches(mem, root, virt, length / PAGE_SIZE)
        decreases left
      {
        ghost var before := mem;
        var sp := TableBase(Entry(mem, root, v));
        mem := PutSmall(mem, sp, v, SmallEntry(p, NORMAL_WRITEBACK, PRIVILEGED_FULL, 0));
        OneMoreNormal(old(mem), before, mem, root, tables, virt, phy, k, length / PAGE_SIZE);
        PageNext(virt, k);
        PageNext(phy, k);
        p := (p + PAGE_SIZE) % SPACE;
        v := (v + PAGE_SIZE) % SPACE;
        left := left - PAGE_SIZE;
        k := k + 1;
      }
    }

    /**
     * The table-building part of init_page_tables, for a page-aligned length that does not run past the
     * end of the address space; `root` is what get_aligned_boot_pages returned, not null. Afterwards the
     * walk maps the range and nothing else; a failure leaves TTBR0 alone.
     */
    method InitPageTables(root: Address, phy: Address, virt: Address, length: Address) returns (r: int)
      requires PoolOk(root)
      requires forall x :: RootOf(x) == root ==> mem(x) == 0
      requires length % PAGE_SIZE == 0 && virt + length <= SPACE
      modifies this
      ensures r == 0 || r == -1
      ensures r == -1 ==> ttbr0 == old(ttbr0)
      ensures r == 0 ==> RootOf(ttbr0) == root && Sound(mem, root, tables)
      ensures r == 0 ==> forall va: Address :: Walk(mem, root, va) == Expected(phy, virt, length, va)
    {
      hide Pool, Sound, RootOf, AllFault, Served, Walk, Maps, Reaches, Expected;
      var last := (virt + length + SPACE - 1) % SPACE;
      Boundaries(virt, length, last);
      r := BuildRoot(root, virt, last);
      if r != 0 {
        return;
      }
      ghost var built := mem;
      AllReached(mem, root, virt, length, last);
      InitL2(root, phy, virt, length);
      RangeOnly(built, mem, root, phy, virt, length);
      PoolRoot(root, old(mem), old(bootPages), old(tables), old(p), old(n));
      RootItself(root);
      ttbr0 := root;
    }
  }

  /** No address translates. */
  ghost predicate AllFault(mem: Memory, root: nat) {
    forall va: Address {:trigger Walk(mem, root, va)} :: Walk(mem, root, va) == Fault
  }

  /** Exactly these megabytes have tables. */
  ghost predicate Served(mem: Memory, root: nat, lo: nat, hi: nat) {
    forall va: Address {:trigger Entry(mem, root, va)} :: Entry(mem, root, va) != 0 <==> lo <= Megabyte(va) < hi
  }

  lemma L1Addresses(root: nat, virt: Address, last: Address)
    ensures L1Address(root, virt) == root + 4 * Megabyte(virt) && L1Address(root, last) == root + 4 * Megabyte(last)
    ensures Megabyte(last) < 4096
  {
  }

  lemma PoolRoot(root: nat, mem: Memory, bootPages: set<nat>, tables: set<nat>, p: nat, n: nat)
    requires Pool(mem, root, bootPages, tables, p, n)
    ensures IsRoot(root)
  {
  }

  lemma BlankRoot(mem: Memory, root: nat, tables: set<nat>, i: nat)
    requires IsRoot(root) && forall x :: RootOf(x) == root ==> mem(x) == 0
    ensures Sound(mem, root, tables) && AllFault(mem, root) && Served(mem, root, i, i)
  {
    hide RootOf, L1Address, IsRoot, Entry;
    forall va: Address
      ensures Entry(mem, root, va) == 0
    {
      BlankEntry(mem, root, va);
    }
    assert forall va: Address :: EntrySound(mem, root, tables, va);
    assert forall a: Address, b: Address :: Apart(mem, root, a, b);
  }

  lemma BlankEntry(mem: Memory, root: nat, va: Address)
    requires IsRoot(root) && forall x :: RootOf(x) == root ==> mem(x) == 0
    ensures Entry(mem, root, va) == 0
  {
    L1Where(root, va, va);
  }

  lemma SameServed(mem: Memory, r: Memory, root: nat, lo: nat, hi: nat)
    requires AllFault(mem, root) && Served(mem, root, lo, hi)
    requires forall va: Address :: Entry(r, root, va) == Entry(mem, root, va) && Walk(r, root, va) == Walk(mem, root, va)
    ensures AllFault(r, root) && Served(r, root, lo, hi)
  {
    hide Entry, Walk, Megabyte;
  }

  /** A blank table for the next megabyte. */
  lemma MegabyteServed(mem: Memory, r: Memory, root: nat, tables: set<nat>, lo: nat, i: nat, t: nat)
    requires Sound(mem, root, tables) && AllFault(mem, root) && Served(mem, root, lo, i) && lo <= i < 4096
    requires IsTable(root, t) && t !in tables && Blank(mem, t, t + TABLE_SIZE)
    requires r == Write(mem, root + 4 * i, TableEntry(t))
    ensures Sound(r, root, tables + {t}) && AllFault(r, root) && Served(r, root, lo, i + 1)
    ensures forall x :: RootOf(x) != root ==> r(x) == mem(x)
  {
    hide Sound, IsTable, Entry, Walk, RootOf, L2Address, TableEntry, Megabyte, L1Address, IsRoot, TableBase;
    var virt := i * MEGABYTE;
    FirstOf(root, i);
    assert Entry(mem, root, virt) == 0;
    PutTableSound(mem, root, tables, virt, t);
    SoundAt(mem, root, tables, virt);
    L1Where(root, virt, virt);
    AlignedTable(root, t);
    TableEntryReads(t);
    forall va: Address
      ensures Walk(r, root, va) == Fault
      ensures Entry(r, root, va) != 0 <==> lo <= Megabyte(va) < i + 1
    {
      PutTableWalk(mem, root, tables, virt, t, va);
      PutTableEntry(mem, root, virt, t, va);
      L2Where(t, va, va);
      InTableRange(t, L2Address(t, va));
    }
  }

  lemma FirstOf(root: nat, i: nat)
    requires i < 4096
    ensures i * MEGABYTE < SPACE && Megabyte(i * MEGABYTE) == i && L1Address(root, i * MEGABYTE) == root + 4 * i
  {
  }

  lemma AlignedTable(root: nat, t: nat)
    requires IsTable(root, t)
    ensures IsAligned(t)
  {
  }

  /** Every page of the range has a table. */
  ghost predicate Reaches(mem: Memory, root: nat, virt: nat, pages: nat) {
    forall k: nat {:trigger PageAt(virt, k)} :: k < pages ==> Entry(mem, root, PageAt(virt, k)) != 0
  }

  /** The map that init_page_tables promises. */
  function Expected(phy: nat, virt: nat, length: nat, va: nat): Translation {
    if Index(virt, va) < length / PAGE_SIZE then SmallPage(PageAt(Page(phy), Index(virt, va)), NORMAL_ATTRIBUTES) else Fault
  }

  /** For page-aligned bases: each address of the range reaches the physical base plus its offset, all others fault. */
  lemma ExpectedOffsets(phy: Address, virt: Address, length: nat, va: Address)
    requires phy % PAGE_SIZE == 0 && virt % PAGE_SIZE == 0 && length % PAGE_SIZE == 0
    requires virt + length <= SPACE && phy + length <= SPACE
    ensures virt <= va < virt + length ==>
              Expected(phy, virt, length, va) == SmallPage(Page(phy + (va - virt)), NORMAL_ATTRIBUTES)
              && Page(phy + (va - virt)) + va % PAGE_SIZE == phy + (va - virt)
    ensures !(virt <= va < virt + length) ==> Expected(phy, virt, length, va) == Fault
  {
    var i := va / PAGE_SIZE - virt / PAGE_SIZE;
    if virt <= va {
      assert Index(virt, va) == i;
      OffsetPage(phy, virt, va);
    } else {
      assert Index(virt, va) == i + 0x10_0000;
    }
  }

  lemma OffsetPage(phy: nat, virt: nat, va: nat)
    requires phy % PAGE_SIZE == 0 && virt % PAGE_SIZE == 0 && virt <= va
    ensures Page(phy + (va - virt)) == phy + (va / PAGE_SIZE - virt / PAGE_SIZE) * PAGE_SIZE
  {
    var d := va - virt;
    assert d / PAGE_SIZE == va / PAGE_SIZE - virt / PAGE_SIZE;
    assert (phy + d) % PAGE_SIZE == d % PAGE_SIZE;
  }

  lemma RootItself(root: nat)
    requires IsRoot(root)
    ensures RootOf(root) == root
  {
  }

  lemma Boundaries(virt: Address, length: Address, last: Address)
    requires virt + length <= SPACE && last == (virt + length + SPACE - 1) % SPACE
    ensures Megabyte(virt) <= Megabyte(last) + 1
    ensures length != 0 ==> last == virt + length - 1
  {
    assert length != 0 ==> last == virt + length - 1;
    assert length == 0 && virt != 0 ==> last == virt - 1;
    assert length == 0 && virt == 0 ==> last == SPACE - 1;
  }

  lemma AllReached(mem: Memory, root: nat, virt: Address, length: Address, last: Address)
    requires Served(mem, root, Megabyte(virt), Megabyte(last) + 1)
    requires virt + length <= SPACE && length % PAGE_SIZE == 0 && (length != 0 ==> last == virt + length - 1)
    ensures Reaches(mem, root, virt, length / PAGE_SIZE)
  {
    hide Entry;
    forall k: nat | k < length / PAGE_SIZE
      ensures Entry(mem, root, PageAt(virt, k)) != 0
    {
      assert (k + 1) * PAGE_SIZE <= length;
      assert PageAt(virt, k) == virt + k * PAGE_SIZE;
    }
  }

  lemma RangeOnly(before: Memory, after: Memory, root: nat, phy: Address, virt: Address, length: Address)
    requires AllFault(before, root) && Maps(before, after, root, virt, phy, length / PAGE_SIZE, NORMAL_ATTRIBUTES)
    ensures forall va: Address :: Walk(after, root, va) == Expected(phy, virt, length, va)
  {
    hide Walk, Index, PageAt, Page;
  }

  /** One turn of the second loop. */
  lemma OneMoreNormal(start: Memory, before: Memory, after: Memory, root: nat, tables: set<nat>, virt: Address, phy: Address,
                      k: nat, pages: nat)
    requires Sound(before, root, tables) && Maps(start, before, root, virt, phy, k, NORMAL_ATTRIBUTES)
    requires k < pages <= 0x10_0000 && Reaches(before, root, virt, pages)
    requires var v := PageAt(virt, k);
             after == PutSmall(before, TableBase(Entry(before, root, v)), v,
                               SmallEntry(PageAt(phy, k), NORMAL_WRITEBACK, PRIVILEGED_FULL, 0))
    ensures Sound(after, root, tables) && Maps(start, after, root, virt, phy, k + 1, NORMAL_ATTRIBUTES)
    ensures Reaches(after, root, virt, pages)
  {
    hide Sound, Maps, Entry, PageAt, Page, Walk, Decode, SmallEntry, PutSmall, TableBase;
    SmallDecodes(PageAt(phy, k), 0);
    PutSmallWalks(before, root, tables, PageAt(virt, k), SmallEntry(PageAt(phy, k), NORMAL_WRITEBACK, PRIVILEGED_FULL, 0));
    MapsNext(start, before, after, root, virt, phy, k, NORMAL_ATTRIBUTES);
  }

  /** Different tables do not overlap. */
  lemma TablesApart(root: nat, t: nat, u: nat)
    requires IsTable(root, t) && IsTable(root, u) && t != u
    ensures t + TABLE_SIZE <= u || u + TABLE_SIZE <= t
  {
    hide RootOf;
    InTableRange(t, u);
    InTableRange(u, u);
  }

  lemma EmptyPool(mem: Memory, root: nat, bootPages: set<nat>, tables: set<nat>, p: nat, q: nat)
    requires Pool(mem, root, bootPages, tables, p, 0)
    ensures Pool(mem, root, bootPages, tables, q, 0)
  {
  }

  lemma NotNull(root: nat, t: nat)
    requires IsTable(root, t)
    ensures t != 0
  {
  }
}
