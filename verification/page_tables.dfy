/**
 * Two-level page tables in memory, read by the short-descriptor walk of section B3.5 of the ARM
 * Architecture Reference Manual, ARMv7-A and ARMv7-R edition. Virtual and physical bases are equal,
 * so a pointer to a table is its physical address. Bit fields are written as arithmetic: masks as
 * remainders, shifts as quotients, and the union of fields that do not overlap as their sum.
 */
module PageTables {
  import opened Machine
  import opened Division
  import opened MemoryFlags

  const SPACE: nat := 0x1_0000_0000
  const TABLE_SIZE: nat := 0x400
  const ROOT_SIZE: nat := 0x4000
  const MEGABYTE: nat := 0x10_0000

  /** A 32-bit virtual address. */
  type Address = a: nat | a < SPACE

  /** Word memory by physical address. */
  type Memory = nat -> nat

  function Write(mem: Memory, a: nat, word: nat): Memory {
    x => if x == a then word else mem(x)
  }

  function Page(a: nat): nat { a - a % PAGE_SIZE }

  /** The second-level table that holds an address, and the base that a first-level descriptor names. */
  function TableBase(a: nat): nat { a - a % TABLE_SIZE }

  /** The 16 KB that hold an address. */
  function RootOf(a: nat): nat { a - a % ROOT_SIZE }

  function Megabyte(va: nat): nat { va / MEGABYTE }

  /** The first-level descriptor of `va`. */
  function L1Address(root: nat, va: nat): nat { root + 4 * Megabyte(va) }

  /** The second-level descriptor of `va` in a table of 256 entries. */
  function L2Address(table: nat, va: nat): nat { table + 4 * (va / PAGE_SIZE % 256) }

  predicate IsRoot(root: nat) { root % ROOT_SIZE == 0 }

  predicate IsAligned(t: nat) { t % TABLE_SIZE == 0 }

  predicate IsTable(root: nat, t: nat) { t != 0 && IsAligned(t) && RootOf(t) != root }

  /** Zeroing the 1 KB of a table. */
  function Zeroed(mem: Memory, t: nat): Memory {
    x => if TableBase(x) == t then 0 else mem(x)
  }

  /* ---- The walk of the memory management unit ---- */

  datatype Translation =
    | Fault
    | Section(entry: nat)
    | LargePage(entry: nat)
    | SmallPage(base: nat, attributes: nat)

  /** A second-level descriptor by its two low bits. */
  function Decode(entry: nat): Translation {
    if entry % 4 == 0 then Fault
    else if entry % 4 == 1 then LargePage(entry)
    else SmallPage(Page(entry), entry % PAGE_SIZE)
  }

  function Entry(mem: Memory, root: nat, va: nat): nat {
    mem(L1Address(root, va))
  }

  predicate IsTableEntry(entry: nat) { entry % 4 == 1 }

  function Walk(mem: Memory, root: nat, va: nat): Translation {
    var entry := Entry(mem, root, va);
    if entry % 4 == 0 then Fault
    else if IsTableEntry(entry) then Decode(mem(L2Address(TableBase(entry), va)))
    else Section(entry)
  }

  /**
   * The walk of section B3.5 spelled out: bits 31 to 14 of TTBR0 and bits 31 to 20 of the address select the
   * first-level descriptor; bits 31 to 10 of that and bits 19 to 12 of the address the second-level one.
   */
  function ShortDescriptorWalk(mem: Memory, ttbr0: nat, va: nat): Translation {
    var first := mem(ttbr0 / 0x4000 * 0x4000 + va / 0x10_0000 * 4);
    if first % 4 == 0 then Fault
    else if first % 4 != 1 then Section(first)
    else
      var second := mem(first / 0x400 * 0x400 + va / 0x1000 % 0x100 * 4);
      if second % 4 == 0 then Fault
      else if second % 4 == 1 then LargePage(second)
      else SmallPage(second / 0x1000 * 0x1000, second % 0x1000)
  }

  lemma WalkIsArchitectural(mem: Memory, ttbr0: nat, va: nat)
    ensures Walk(mem, RootOf(ttbr0), va) == ShortDescriptorWalk(mem, ttbr0, va)
  {
    var first := Entry(mem, RootOf(ttbr0), va);
    Truncated(ttbr0, 0x4000);
    Truncated(first, 0x400);
    Truncated(mem(L2Address(TableBase(first), va)), 0x1000);
  }

  lemma Truncated(a: nat, m: nat)
    requires m > 0
    ensures a - a % m == a / m * m
  {
  }

  /* ---- Descriptors ---- */

  /** vmsav7_build_pagetable in domain 0, privileged execution, secure. */
  function TableEntry(table: nat): nat { 1 + TableBase(table) }

  /** vmsav7_build_smallpage, a global page. */
  function SmallEntry(phy: nat, memType: nat, access: nat, executeNever: nat): nat {
    2 + Page(phy) + memType + access + executeNever
  }

  const MMU_NOACCESS: nat := 0

  /** flags & MMU_DEVICE */
  predicate IsDevice(flags: nat) { flags / 2 % 2 == 1 }

  /** _get_memtype: its branch for RAM is dead code. */
  function MemType(flags: nat): nat { if IsDevice(flags) then 4 else 0 }

  /** _get_access */
  function Access(flags: nat): nat { if flags == MMU_NOACCESS then 0 else 3 * 16 }

  /** _get_execute */
  function ExecuteNever(flags: nat): nat { if IsDevice(flags) then 1 else 0 }

  function Attributes(flags: nat): nat { 2 + MemType(flags) + Access(flags) + ExecuteNever(flags) }

  /** The fields of a small page's descriptor, as the architecture places them. */
  datatype Fields = Fields(xn: nat, b: nat, c: nat, ap: nat, tex: nat, apx: nat, s: nat, ng: nat)

  function FieldsOf(a: nat): Fields {
    Fields(a % 2, a / 4 % 2, a / 8 % 2, a / 16 % 4, a / 64 % 8, a / 512 % 2, a / 1024 % 2, a / 2048 % 2)
  }

  /**
   * Field by field: device memory (bit 1 of the flags) is executable never and bufferable, everything else
   * strongly ordered and executable; no flag at all means no access, any flag full access.
   */
  lemma AttributesMean(flags: nat)
    ensures var a, device := Attributes(flags), if flags / 2 % 2 == 1 then 1 else 0;
            a < 4096 && a / 2 % 2 == 1 && FieldsOf(a) == Fields(device, device, 0, if flags == 0 then 0 else 3, 0, 0, 0, 0)
  {
  }

  /** Shared normal write-back memory with privileged access, as init_page_tables maps it: C, B and S, AP 1. */
  const NORMAL_WRITEBACK: nat := 8 + 4 + 1024
  const PRIVILEGED_FULL: nat := 16
  const NORMAL_ATTRIBUTES: nat := 2 + NORMAL_WRITEBACK + PRIVILEGED_FULL

  /** Executable, bufferable, cacheable, shared and global; access for privileged code only. */
  lemma NormalMeans()
    ensures NORMAL_ATTRIBUTES < 4096 && NORMAL_ATTRIBUTES / 2 % 2 == 1
    ensures FieldsOf(NORMAL_ATTRIBUTES) == Fields(0, 1, 1, 1, 0, 0, 1, 0)
  {
  }

  /** What the walk reads back from a small-page descriptor. */
  lemma SmallDecodes(phy: nat, flags: nat)
    ensures Decode(SmallEntry(phy, MemType(flags), Access(flags), ExecuteNever(flags))) ==
            SmallPage(Page(phy), Attributes(flags))
    ensures Decode(SmallEntry(phy, NORMAL_WRITEBACK, PRIVILEGED_FULL, 0)) == SmallPage(Page(phy), NORMAL_ATTRIBUTES)
  {
    hide Page, Decode;
    LowField(phy, Attributes(flags));
    LowField(phy, NORMAL_ATTRIBUTES);
  }

  lemma LowField(phy: nat, attributes: nat)
    requires attributes < PAGE_SIZE && attributes % 4 >= 2
    ensures Decode(Page(phy) + attributes) == SmallPage(Page(phy), attributes)
  {
    hide Page;
    PageStarts(phy);
    WithinPage(Page(phy), attributes);
    LowBits(Page(phy), attributes);
  }

  lemma PageStarts(phy: nat)
    ensures Page(phy) % PAGE_SIZE == 0
  {
  }

  lemma WithinPage(base: nat, x: nat)
    requires base % PAGE_SIZE == 0 && x < PAGE_SIZE
    ensures Page(base + x) == base && (base + x) % PAGE_SIZE == x
  {
  }

  lemma LowBits(base: nat, x: nat)
    requires base % PAGE_SIZE == 0
    ensures (base + x) % 4 == x % 4
  {
    var q := base / PAGE_SIZE;
    assert base == 4 * (1024 * q);
  }

  /** A table's descriptor field by field: type, PXN, NS, SBZ, domain, the implementation's bit and the base. */
  lemma TableEntryFields(t: nat)
    requires IsAligned(t)
    ensures var e := TableEntry(t);
            && e % 4 == 1 && e / 4 % 2 == 0 && e / 8 % 2 == 0 && e / 16 % 2 == 0 && e / 32 % 16 == 0 && e / 512 % 2 == 0
            && e / 1024 * 1024 == t
  {
    var q := t / TABLE_SIZE;
    assert TableBase(t) == t == q * TABLE_SIZE;
    var e := TableEntry(t);
    ModUnique(e, 256 * q, 1, 4);
    ModUnique(e, q, 1, 1024);
    ClearField(e, 4, 2, 128 * q);
    ClearField(e, 8, 2, 64 * q);
    ClearField(e, 16, 2, 32 * q);
    ClearField(e, 32, 16, 2 * q);
    ClearField(e, 512, 2, q);
  }

  lemma ClearField(x: nat, d: nat, m: nat, k: nat)
    requires d > 1 && m > 0 && x == k * m * d + 1
    ensures x / d % m == 0
  {
    ModUnique(x, k * m, 1, d);
    ExactQuotient(k, m);
  }

  lemma TableEntryReads(t: nat)
    requires IsAligned(t)
    ensures IsTableEntry(TableEntry(t)) && TableBase(TableEntry(t)) == t && TableEntry(t) != 0
  {
    var q := t / TABLE_SIZE;
    assert TableBase(t) == t == q * TABLE_SIZE;
    ModUnique(TableEntry(t), q, 1, TABLE_SIZE);
    ModUnique(TableEntry(t), 256 * q, 1, 4);
  }

  /* ---- Addresses ---- */

  /** First-level descriptors lie in the root table, one to a megabyte. */
  lemma L1Where(root: nat, a: Address, b: Address)
    requires IsRoot(root)
    ensures RootOf(L1Address(root, a)) == root
    ensures L1Address(root, a) == L1Address(root, b) <==> Megabyte(a) == Megabyte(b)
  {
  }

  /** Second-level descriptors lie in their table, one to a page of the megabyte. */
  lemma L2Where(t: nat, a: nat, b: nat)
    requires IsAligned(t)
    ensures TableBase(L2Address(t, a)) == t
    ensures Megabyte(a) == Megabyte(b) ==> (L2Address(t, a) == L2Address(t, b) <==> Page(a) == Page(b))
  {
    hide Page, TableBase, IsAligned, Megabyte;
    InTable(t, 4 * (a / PAGE_SIZE % 256));
    PageInMegabyte(a, b);
  }

  lemma InTable(t: nat, x: nat)
    requires IsAligned(t) && x < TABLE_SIZE
    ensures TableBase(t + x) == t
  {
  }

  lemma PageInMegabyte(a: nat, b: nat)
    ensures Page(a) == Page(b) <==> a / PAGE_SIZE == b / PAGE_SIZE
    ensures Megabyte(a) == Megabyte(b) ==> (a / PAGE_SIZE % 256 == b / PAGE_SIZE % 256 <==> a / PAGE_SIZE == b / PAGE_SIZE)
  {
    MegabyteOfPage(a);
    MegabyteOfPage(b);
    SamePage(a, b);
  }

  lemma SamePage(a: nat, b: nat)
    ensures Page(a) == Page(b) <==> a / PAGE_SIZE == b / PAGE_SIZE
  {
  }

  lemma MegabyteOfPage(a: nat)
    ensures Megabyte(a) == a / PAGE_SIZE / 256
  {
  }

  lemma PageMegabyte(a: nat, b: nat)
    requires Page(a) == Page(b)
    ensures Megabyte(a) == Megabyte(b)
  {
    hide Page, Megabyte;
    SamePage(a, b);
    MegabyteOfPage(a);
    MegabyteOfPage(b);
  }

  lemma TableRoot(x: nat)
    ensures IsAligned(TableBase(x)) && RootOf(x) == RootOf(TableBase(x))
  {
    assert x / ROOT_SIZE == x / TABLE_SIZE / 16;
    assert TableBase(x) / TABLE_SIZE == x / TABLE_SIZE;
    assert TableBase(x) / ROOT_SIZE == TableBase(x) / TABLE_SIZE / 16;
  }

  /** No second-level descriptor is a first-level descriptor. */
  lemma LevelsApart(root: nat, t: nat, a: nat, b: Address)
    requires IsRoot(root) && IsTable(root, t)
    ensures L2Address(t, a) != L1Address(root, b)
  {
    hide L1Address, L2Address, RootOf, IsRoot, IsAligned, TableBase, Megabyte, Page;
    L1Where(root, b, b);
    L2Where(t, a, a);
    TableRoot(L2Address(t, a));
  }

  /** Second-level descriptors of two addresses coincide only for one page. */
  lemma SlotsApart(t: nat, u: nat, a: nat, b: nat)
    requires IsAligned(t) && IsAligned(u)
    requires t == u ==> Megabyte(a) == Megabyte(b)
    requires Page(a) != Page(b)
    ensures L2Address(t, a) != L2Address(u, b)
  {
    hide L2Address, TableBase, Megabyte, Page, IsAligned;
    L2Where(t, a, b);
    L2Where(u, b, a);
  }

  /* ---- The tables in memory ---- */

  /** One megabyte has no table, or a table of its own among those handed out. */
  predicate EntrySound(mem: Memory, root: nat, tables: set<nat>, va: nat) {
    var e := Entry(mem, root, va);
    e == 0 || (IsTableEntry(e) && IsTable(root, TableBase(e)) && TableBase(e) in tables)
  }

  /** Different megabytes never share a second-level table. */
  predicate Apart(mem: Memory, root: nat, a: nat, b: nat) {
    Entry(mem, root, a) != 0 && Entry(mem, root, b) != 0 && Megabyte(a) != Megabyte(b) ==>
      TableBase(Entry(mem, root, a)) != TableBase(Entry(mem, root, b))
  }

  ghost predicate Sound(mem: Memory, root: nat, tables: set<nat>) {
    && IsRoot(root)
    && (forall va: Address {:trigger Entry(mem, root, va)} :: EntrySound(mem, root, tables, va))
    && (forall a: Address, b: Address {:trigger Entry(mem, root, a), Entry(mem, root, b)} :: Apart(mem, root, a, b))
  }

  lemma SoundAt(mem: Memory, root: nat, tables: set<nat>, va: Address)
    requires Sound(mem, root, tables)
    ensures IsRoot(root) && EntrySound(mem, root, tables, va)
  {
    assert Entry(mem, root, va) == Entry(mem, root, va);
  }

  lemma ApartAt(mem: Memory, root: nat, tables: set<nat>, a: Address, b: Address)
    requires Sound(mem, root, tables)
    ensures Apart(mem, root, a, b)
  {
    assert Entry(mem, root, a) == Entry(mem, root, a);
    assert Entry(mem, root, b) == Entry(mem, root, b);
  }

  lemma SameEntries(mem: Memory, r: Memory, root: nat, tables: set<nat>)
    requires Sound(mem, root, tables)
    requires forall va: Address :: Entry(r, root, va) == Entry(mem, root, va)
    ensures Sound(r, root, tables)
  {
    hide L1Address, Entry, TableBase, Megabyte, IsTable, IsTableEntry;
    forall va: Address
      ensures EntrySound(r, root, tables, va)
    {
      SoundAt(mem, root, tables, va);
    }
    forall a: Address, b: Address
      ensures Apart(r, root, a, b)
    {
      ApartAt(mem, root, tables, a, b);
    }
  }

  /** A small-page descriptor written into the table of `va`. */
  function PutSmall(mem: Memory, t: nat, va: nat, entry: nat): Memory {
    Write(mem, L2Address(t, va), entry)
  }

  function PutTable(mem: Memory, root: nat, va: nat, t: nat): Memory {
    Write(mem, L1Address(root, va), TableEntry(t))
  }

  lemma PutSmallEntry(mem: Memory, root: nat, t: nat, virt: nat, entry: nat, va: Address)
    requires IsRoot(root) && IsTable(root, t)
    ensures Entry(PutSmall(mem, t, virt, entry), root, va) == Entry(mem, root, va)
  {
    hide L1Address, L2Address, IsRoot, IsTable;
    LevelsApart(root, t, virt, va);
  }

  lemma PutSmallHere(mem: Memory, root: nat, tables: set<nat>, virt: Address, entry: nat, va: Address)
    requires Sound(mem, root, tables) && Entry(mem, root, virt) != 0 && Page(va) == Page(virt)
    ensures Walk(PutSmall(mem, TableBase(Entry(mem, root, virt)), virt, entry), root, va) == Decode(entry)
  {
    hide L1Address, L2Address, TableBase, RootOf, Megabyte, Decode, Page, Sound, IsAligned, IsRoot;
    var t := TableBase(Entry(mem, root, virt));
    SoundAt(mem, root, tables, virt);
    PutSmallEntry(mem, root, t, virt, entry, va);
    PageMegabyte(va, virt);
    L1Where(root, va, virt);
    L2Where(t, va, virt);
  }

  lemma PutSmallElsewhere(mem: Memory, root: nat, tables: set<nat>, virt: Address, entry: nat, va: Address)
    requires Sound(mem, root, tables) && Entry(mem, root, virt) != 0 && Page(va) != Page(virt)
    ensures Walk(PutSmall(mem, TableBase(Entry(mem, root, virt)), virt, entry), root, va) == Walk(mem, root, va)
  {
    hide L1Address, L2Address, TableBase, RootOf, Megabyte, Decode, Page, Sound, IsAligned, IsRoot;
    var t := TableBase(Entry(mem, root, virt));
    var u := TableBase(Entry(mem, root, va));
    SoundAt(mem, root, tables, virt);
    SoundAt(mem, root, tables, va);
    ApartAt(mem, root, tables, va, virt);
    PutSmallEntry(mem, root, t, virt, entry, va);
    if Entry(mem, root, va) != 0 {
      SlotsApart(u, t, va, virt);
    }
  }

  /** Writing into the table that serves `virt` changes the walk of its page alone. */
  lemma PutSmallWalks(mem: Memory, root: nat, tables: set<nat>, virt: Address, entry: nat)
    requires Sound(mem, root, tables) && Entry(mem, root, virt) != 0
    ensures var r := PutSmall(mem, TableBase(Entry(mem, root, virt)), virt, entry);
            && Sound(r, root, tables)
            && (forall va: Address :: Entry(r, root, va) == Entry(mem, root, va))
            && (forall va: Address ::
                  Walk(r, root, va) == if Page(va) == Page(virt) then Decode(entry) else Walk(mem, root, va))
  {
    hide L1Address, L2Address, TableBase, RootOf, Megabyte, Decode, Page, Sound, IsAligned, IsRoot, PutSmall, Walk;
    var t := TableBase(Entry(mem, root, virt));
    var r := PutSmall(mem, t, virt, entry);
    SoundAt(mem, root, tables, virt);
    forall va: Address
      ensures Entry(r, root, va) == Entry(mem, root, va)
      ensures Walk(r, root, va) == if Page(va) == Page(virt) then Decode(entry) else Walk(mem, root, va)
    {
      PutSmallEntry(mem, root, t, virt, entry, va);
      if Page(va) == Page(virt) {
        PutSmallHere(mem, root, tables, virt, entry, va);
      } else {
        PutSmallElsewhere(mem, root, tables, virt, entry, va);
      }
    }
    SameEntries(mem, r, root, tables);
  }

  /** The table that serves a megabyte: its own, or one never used before. */
  predicate MayServe(mem: Memory, root: nat, tables: set<nat>, virt: nat, t: nat) {
    IsTable(root, t) && if Entry(mem, root, virt) == 0 then t !in tables else TableBase(Entry(mem, root, virt)) == t
  }

  lemma PutTableEntry(mem: Memory, root: nat, virt: Address, t: nat, va: Address)
    requires IsRoot(root)
    ensures Entry(PutTable(mem, root, virt, t), root, va) ==
            if Megabyte(va) == Megabyte(virt) then TableEntry(t) else Entry(mem, root, va)
  {
    hide L1Address, IsRoot, Megabyte, TableEntry;
    L1Where(root, va, virt);
  }

  lemma PutTableWalk(mem: Memory, root: nat, tables: set<nat>, virt: Address, t: nat, va: Address)
    requires Sound(mem, root, tables) && IsTable(root, t)
    ensures Walk(PutTable(mem, root, virt, t), root, va) ==
            if Megabyte(va) == Megabyte(virt) then Decode(mem(L2Address(t, va))) else Walk(mem, root, va)
  {
    hide L1Address, L2Address, TableBase, RootOf, Megabyte, Decode, Sound, IsAligned, IsRoot, TableEntry;
    SoundAt(mem, root, tables, va);
    PutTableEntry(mem, root, virt, t, va);
    TableEntryReads(t);
    if Megabyte(va) == Megabyte(virt) {
      LevelsApart(root, t, va, virt);
    } else if Entry(mem, root, va) != 0 {
      LevelsApart(root, TableBase(Entry(mem, root, va)), va, virt);
    }
  }

  lemma PutTableSound(mem: Memory, root: nat, tables: set<nat>, virt: Address, t: nat)
    requires Sound(mem, root, tables) && MayServe(mem, root, tables, virt, t)
    ensures Sound(PutTable(mem, root, virt, t), root, tables + {t})
  {
    hide TableBase, RootOf, Megabyte, IsAligned, IsRoot, IsTableEntry, TableEntry, Entry, PutTable;
    var r := PutTable(mem, root, virt, t);
    SoundAt(mem, root, tables, virt);
    TableEntryReads(t);
    forall va: Address
      ensures EntrySound(r, root, tables + {t}, va)
    {
      SoundAt(mem, root, tables, va);
      PutTableEntry(mem, root, virt, t, va);
    }
    forall a: Address, b: Address
      ensures Apart(r, root, a, b)
    {
      PutTableApart(mem, root, tables, virt, t, a, b);
    }
  }

  lemma PutTableApart(mem: Memory, root: nat, tables: set<nat>, virt: Address, t: nat, a: Address, b: Address)
    requires Sound(mem, root, tables) && MayServe(mem, root, tables, virt, t)
    ensures Apart(PutTable(mem, root, virt, t), root, a, b)
  {
    hide TableBase, RootOf, IsAligned, IsRoot, IsTableEntry, TableEntry, Entry, PutTable, Sound;
    SoundAt(mem, root, tables, virt);
    SoundAt(mem, root, tables, a);
    SoundAt(mem, root, tables, b);
    ApartAt(mem, root, tables, a, b);
    ApartAt(mem, root, tables, a, virt);
    ApartAt(mem, root, tables, virt, b);
    PutTableEntry(mem, root, virt, t, a);
    PutTableEntry(mem, root, virt, t, b);
    TableEntryReads(t);
  }

  /** Words of a table that serves no megabyte do not matter to any walk. */
  lemma UnusedWords(mem: Memory, r: Memory, root: nat, tables: set<nat>)
    requires Sound(mem, root, tables)
    requires forall x :: RootOf(x) == root || TableBase(x) in tables ==> r(x) == mem(x)
    ensures Sound(r, root, tables)
    ensures forall va: Address :: Entry(r, root, va) == Entry(mem, root, va) && Walk(r, root, va) == Walk(mem, root, va)
  {
    hide L1Address, L2Address, TableBase, RootOf, Megabyte, Decode, Sound, IsAligned, IsRoot;
    forall va: Address
      ensures Entry(r, root, va) == Entry(mem, root, va) && Walk(r, root, va) == Walk(mem, root, va)
    {
      SoundAt(mem, root, tables, va);
      L1Where(root, va, va);
      if Entry(mem, root, va) != 0 {
        L2Where(TableBase(Entry(mem, root, va)), va, va);
      }
    }
    SameEntries(mem, r, root, tables);
  }

  /** Memory before the descriptors are written: a table that was just allocated is zeroed. */
  function Prepared(mem: Memory, root: nat, virt: nat, t: nat): Memory {
    if Entry(mem, root, virt) == 0 then Zeroed(mem, t) else mem
  }

  /** One turn of the loop of vm_map. */
  function MapPage(mem: Memory, root: nat, virt: nat, t: nat, entry: nat): Memory {
    PutTable(PutSmall(Prepared(mem, root, virt, t), t, virt, entry), root, virt, t)
  }

  /** It gives one page its new translation and leaves every other address alone. */
  lemma MapPageExact(mem: Memory, root: nat, tables: set<nat>, virt: Address, t: nat, entry: nat)
    requires Sound(mem, root, tables) && MayServe(mem, root, tables, virt, t)
    ensures var r := MapPage(mem, root, virt, t, entry);
            && Sound(r, root, tables + {t})
            && (forall va: Address ::
                  Walk(r, root, va) == if Page(va) == Page(virt) then Decode(entry) else Walk(mem, root, va))
            && (forall va: Address ::
                  Entry(r, root, va) == if Megabyte(va) == Megabyte(virt) then TableEntry(t) else Entry(mem, root, va))
  {
    hide Walk, Entry, Decode, Sound, PutTable, PutSmall, Prepared, Megabyte, Page, TableBase, TableEntry, IsTable;
    var m1 := Prepared(mem, root, virt, t);
    var m2 := PutSmall(m1, t, virt, entry);
    var r := MapPage(mem, root, virt, t, entry);
    SmallWritten(mem, root, tables, virt, t, entry);
    assert MayServe(m2, root, tables, virt, t);
    PutTableSound(m2, root, tables, virt, t);
    SoundAt(mem, root, tables, virt);
    forall va: Address
      ensures Walk(r, root, va) == if Page(va) == Page(virt) then Decode(entry) else Walk(mem, root, va)
      ensures Entry(r, root, va) == if Megabyte(va) == Megabyte(virt) then TableEntry(t) else Entry(mem, root, va)
    {
      PutTableWalk(m2, root, tables, virt, t, va);
      PutTableEntry(m2, root, virt, t, va);
      if Page(va) == Page(virt) {
        PageMegabyte(va, virt);
      }
    }
  }

  /** The second-level write: seen through the table of the megabyte it is the new page and nothing else. */
  lemma SmallWritten(mem: Memory, root: nat, tables: set<nat>, virt: Address, t: nat, entry: nat)
    requires Sound(mem, root, tables) && MayServe(mem, root, tables, virt, t)
    ensures var m2 := PutSmall(Prepared(mem, root, virt, t), t, virt, entry);
            && Sound(m2, root, tables)
            && (forall va: Address :: Entry(m2, root, va) == Entry(mem, root, va))
            && (forall va: Address :: Megabyte(va) != Megabyte(virt) ==> Walk(m2, root, va) == Walk(mem, root, va))
            && (forall va: Address :: Megabyte(va) == Megabyte(virt) ==>
                  Decode(m2(L2Address(t, va))) == if Page(va) == Page(virt) then Decode(entry) else Walk(mem, root, va))
  {
    if Entry(mem, root, virt) == 0 {
      SmallInFresh(mem, root, tables, virt, t, entry);
    } else {
      SmallInOwn(mem, root, tables, virt, t, entry);
    }
  }

  lemma SmallInFresh(mem: Memory, root: nat, tables: set<nat>, virt: Address, t: nat, entry: nat)
    requires Sound(mem, root, tables) && IsTable(root, t) && t !in tables && Entry(mem, root, virt) == 0
    ensures var m2 := PutSmall(Zeroed(mem, t), t, virt, entry);
            && Sound(m2, root, tables)
            && (forall va: Address :: Entry(m2, root, va) == Entry(mem, root, va) && Walk(m2, root, va) == Walk(mem, root, va))
            && (forall va: Address :: Megabyte(va) == Megabyte(virt) ==>
                  Decode(m2(L2Address(t, va))) == if Page(va) == Page(virt) then Decode(entry) else Walk(mem, root, va))
  {
    hide L1Address, L2Address, TableBase, RootOf, Megabyte, Sound, IsAligned, IsRoot, Page;
    var m2 := PutSmall(Zeroed(mem, t), t, virt, entry);
    L2Where(t, virt, virt);
    forall x | RootOf(x) == root || TableBase(x) in tables
      ensures m2(x) == mem(x)
    {
      TableRoot(x);
    }
    UnusedWords(mem, m2, root, tables);
    SoundAt(mem, root, tables, virt);
    forall va: Address | Megabyte(va) == Megabyte(virt)
      ensures Decode(m2(L2Address(t, va))) == if Page(va) == Page(virt) then Decode(entry) else Walk(mem, root, va)
    {
      L1Where(root, va, virt);
      L2Where(t, va, virt);
    }
  }

  lemma SmallInOwn(mem: Memory, root: nat, tables: set<nat>, virt: Address, t: nat, entry: nat)
    requires Sound(mem, root, tables) && Entry(mem, root, virt) != 0 && TableBase(Entry(mem, root, virt)) == t
    ensures var m2 := PutSmall(mem, t, virt, entry);
            && Sound(m2, root, tables)
            && (forall va: Address :: Entry(m2, root, va) == Entry(mem, root, va))
            && (forall va: Address :: Megabyte(va) != Megabyte(virt) ==> Walk(m2, root, va) == Walk(mem, root, va))
            && (forall va: Address :: Megabyte(va) == Megabyte(virt) ==>
                  Decode(m2(L2Address(t, va))) == if Page(va) == Page(virt) then Decode(entry) else Walk(mem, root, va))
  {
    hide L1Address, L2Address, TableBase, RootOf, Megabyte, Sound, IsAligned, IsRoot, Page, Decode, PutSmall;
    var m2 := PutSmall(mem, t, virt, entry);
    PutSmallWalks(mem, root, tables, virt, entry);
    SoundAt(mem, root, tables, virt);
    forall va: Address
      ensures Megabyte(va) != Megabyte(virt) ==> Page(va) != Page(virt)
      ensures Megabyte(va) == Megabyte(virt) ==> Walk(m2, root, va) == Decode(m2(L2Address(t, va)))
    {
      if Page(va) == Page(virt) {
        PageMegabyte(va, virt);
      }
      L1Where(root, va, virt);
    }
  }

  /* ---- A range of pages ---- */

  /** `a`, i pages later; addresses wrap around. */
  function PageAt(a: nat, i: nat): Address { (a + i * PAGE_SIZE) % SPACE }

  /** The pages that the loop of vm_map visits: the size in pages, rounded up. */
  function PagesOf(size: nat): nat { (size + PAGE_SIZE - 1) / PAGE_SIZE }

  /** How many pages `va` lies after the page of `virt`, around the end of the address space. */
  function Index(virt: nat, va: nat): nat { (va / PAGE_SIZE - virt / PAGE_SIZE) % 0x10_0000 }

  /** The first n pages from `virt` translate to the pages from `phy`, in order; nothing else changed. */
  ghost predicate Maps(before: Memory, after: Memory, root: nat, virt: nat, phy: nat, n: nat, attributes: nat) {
    forall va: Address {:trigger Walk(after, root, va)} ::
      Walk(after, root, va) ==
      if Index(virt, va) < n then SmallPage(PageAt(Page(phy), Index(virt, va)), attributes) else Walk(before, root, va)
  }

  /** Each of the first n pages from `virt` has a second-level table. */
  ghost predicate HaveTables(mem: Memory, root: nat, virt: nat, n: nat) {
    forall i: nat :: i < n ==> Entry(mem, root, PageAt(virt, i)) != 0
  }

  lemma NoFlags()
    ensures !HasKernel(0)
  {
  }

  /** Read without those functions: byte `off` of the i-th page from the page of virt reaches the i-th page from that of phy. */
  lemma MapsInside(before: Memory, after: Memory, root: nat, virt: Address, phy: Address, n: nat, attributes: nat,
                   i: nat, off: nat)
    requires Maps(before, after, root, virt, phy, n, attributes) && i < n <= 0x10_0000 && off < 4096
    ensures Walk(after, root, (virt / 4096 * 4096 + 4096 * i + off) % 0x1_0000_0000)
            == SmallPage((phy / 4096 * 4096 + 4096 * i) % 0x1_0000_0000, attributes)
  {
    hide Walk, Page, Index, PageAt;
    var va: Address := (virt / 4096 * 4096 + 4096 * i + off) % 0x1_0000_0000;
    ByteOfPage(virt, i, off);
    IndexHit(virt, va, i);
    PageAtFrom(phy, i);
  }

  /** And every address that lies on none of these pages walks as before. */
  lemma MapsOutside(before: Memory, after: Memory, root: nat, virt: Address, phy: Address, n: nat, attributes: nat, va: Address)
    requires Maps(before, after, root, virt, phy, n, attributes)
    requires (va / 4096 - virt / 4096) % 0x10_0000 >= n
    ensures Walk(after, root, va) == Walk(before, root, va)
  {
    hide Walk;
  }

  lemma PageAtFrom(phy: nat, i: nat)
    ensures PageAt(Page(phy), i) == (phy / 4096 * 4096 + 4096 * i) % 0x1_0000_0000
  {
    Truncated(phy, 4096);
  }

  lemma ByteOfPage(virt: nat, i: nat, off: nat)
    requires off < 4096
    ensures Page((virt / 4096 * 4096 + 4096 * i + off) % 0x1_0000_0000) == Page(PageAt(virt, i))
  {
    hide Page, PageAt;
    var q := virt / 4096;
    var a := q * 4096 + off;
    PageParts(q, off);
    PageNumber(a, i);
    PageNumber(virt, i);
    PageParts((q + i) % 0x10_0000, off);
    PageParts((q + i) % 0x10_0000, virt % 4096);
    SamePage(PageAt(a, i), PageAt(virt, i));
    PageAtSum(a, i);
  }

  lemma PageAtSum(a: nat, i: nat)
    ensures PageAt(a, i) == (a + 4096 * i) % 0x1_0000_0000
  {
  }

  lemma PageNext(a: nat, i: nat)
    ensures (PageAt(a, i) + PAGE_SIZE) % SPACE == PageAt(a, i + 1)
  {
    var x := a + i * PAGE_SIZE;
    ModAdd(x, PAGE_SIZE, SPACE);
    WrapOnce(x % SPACE + PAGE_SIZE, SPACE);
  }

  /** The page of an address i pages later, in pages. */
  lemma PageNumber(a: nat, i: nat)
    ensures PageAt(a, i) == (a / PAGE_SIZE + i) % 0x10_0000 * PAGE_SIZE + a % PAGE_SIZE
  {
    var q := a / PAGE_SIZE + i;
    ModUnique(a + i * PAGE_SIZE, q / 0x10_0000, q % 0x10_0000 * PAGE_SIZE + a % PAGE_SIZE, SPACE);
  }

  lemma PageParts(q: nat, r: nat)
    requires r < 0x1000
    ensures (q * 0x1000 + r) / 0x1000 == q && (q * 0x1000 + r) % 0x1000 == r
  {
  }

  lemma PageAtPage(a: nat, i: nat)
    ensures Page(PageAt(a, i)) == PageAt(Page(a), i)
  {
    PageNumber(a, i);
    PageNumber(Page(a), i);
    PageParts(a / PAGE_SIZE, 0);
    PageParts((a / PAGE_SIZE + i) % 0x10_0000, a % PAGE_SIZE);
  }

  lemma IndexHit(virt: Address, va: Address, i: nat)
    requires i < 0x10_0000
    ensures Page(va) == Page(PageAt(virt, i)) <==> Index(virt, va) == i
  {
    hide Page, PageAt;
    var v, w := va / PAGE_SIZE, virt / PAGE_SIZE;
    PageNumber(virt, i);
    PageParts((w + i) % 0x10_0000, virt % PAGE_SIZE);
    SamePage(va, PageAt(virt, i));
    WrapOnce(w + i, 0x10_0000);
    WrapOnce(v - w, 0x10_0000);
  }

  lemma RoundedUp(size: nat)
    ensures size <= 4096 * PagesOf(size) < size + 4096
  {
  }

  lemma PagesLeft(size: nat)
    requires 0 < size < SPACE
    ensures 1 <= PagesOf(size) <= 0x10_0000
    ensures size > PAGE_SIZE ==> PagesOf(size) == PagesOf(size - PAGE_SIZE) + 1
    ensures size <= PAGE_SIZE ==> PagesOf(size) == 1
  {
  }

  /** One more page. */
  lemma MapsNext(before: Memory, mid: Memory, after: Memory, root: nat, virt: Address, phy: Address, k: nat, attributes: nat)
    requires Maps(before, mid, root, virt, phy, k, attributes) && k < 0x10_0000
    requires forall va: Address ::
               Walk(after, root, va) ==
               if Page(va) == Page(PageAt(virt, k)) then SmallPage(Page(PageAt(phy, k)), attributes) else Walk(mid, root, va)
    ensures Maps(before, after, root, virt, phy, k + 1, attributes)
  {
    hide Page, Walk, PageAt, Index;
    PageAtPage(phy, k);
    forall va: Address
      ensures Walk(after, root, va) ==
              if Index(virt, va) < k + 1 then SmallPage(PageAt(Page(phy), Index(virt, va)), attributes) else Walk(before, root, va)
    {
      IndexHit(virt, va, k);
    }
  }

  /* ---- vm_map ---- */

  /** The part of the machine that vm_map changes: memory, and the tables that kmalloc handed out. */
  class AddressSpace {
    var mem: Memory
    var ttbr0: Address
    var tables: set<nat>

    function Root(): nat
      reads this
    {
      RootOf(ttbr0)
    }

    /** kmalloc(1024, gfpFlags | GFP_ZERO): null, or a zeroed aligned chunk that nobody else owns. */
    method AllocateTable(gfpFlags: nat) returns (sp: nat)
      modifies this`mem, this`tables
      ensures !HasKernel(gfpFlags) ==> sp == 0
      ensures sp == 0 ==> mem == old(mem) && tables == old(tables)
      ensures sp != 0 ==> IsTable(Root(), sp) && sp !in old(tables)
      ensures sp != 0 ==> mem == Zeroed(old(mem), sp) && tables == old(tables) + {sp}
    {
      sp := *;
      if !HasKernel(gfpFlags) || !IsTable(Root(), sp) || sp in tables {
        return 0;
      }
      mem := Zeroed(mem, sp);
      tables := tables + {sp};
    }

    /**
     * vm_map. `mapped` counts the pages mapped when it returns: all of them on success, and a proper
     * prefix when a megabyte without a table gets none. Without GFP_KERNEL no megabyte ever gets one.
     */
    method VmMap(virt: Address, phy: Address, size: Address, mmuFlags: nat, gfpFlags: nat) returns (r: int, ghost mapped: nat)
      requires Sound(mem, Root(), tables)
      modifies this`mem, this`tables
      ensures Sound(mem, Root(), tables) && old(tables) <= tables
      ensures Maps(old(mem), mem, Root(), virt, phy, mapped, Attributes(mmuFlags))
      ensures (r == 0 && mapped == PagesOf(size)) || (r == -1 && mapped < PagesOf(size))
      ensures r == 0 ==> size <= 4096 * mapped < size + 4096
      ensures r == -1 ==> Entry(old(mem), Root(), PageAt(virt, mapped)) == 0
      ensures !HasKernel(gfpFlags) ==> tables == old(tables) && HaveTables(old(mem), Root(), virt, mapped)
    {
      hide Sound, Maps, Entry, PageAt, PagesOf, Page, Walk, Zeroed, PutSmall, PutTable, TableBase, RootOf, Megabyte,
        Decode, SmallEntry, IsAligned, TableEntry, IsTableEntry, MemType, Access, ExecuteNever, Attributes;
      var root := RootOf(ttbr0);
      var v: Address, p: Address, left: Address := virt, phy, size;
      mapped := 0;
      StartMaps(mem, root, virt, phy, size, Attributes(mmuFlags));
      RoundedUp(size);
      while left != 0
        invariant Root() == root && Sound(mem, root, tables) && old(tables) <= tables
        invariant Maps(old(mem), mem, root, virt, phy, mapped, Attributes(mmuFlags))
        invariant mapped + PagesOf(left) == PagesOf(size) <= 0x10_0000
        invariant v == PageAt(virt, mapped) && p == PageAt(phy, mapped)
        invariant forall va: Address :: Entry(mem, root, va) == 0 ==> Entry(old(mem), root, va) == 0
        invariant !HasKernel(gfpFlags) ==> tables == old(tables) && HaveTables(old(mem), root, virt, mapped)
        invariant !HasKernel(gfpFlags) ==> forall va: Address :: Entry(old(mem), root, va) == 0 ==> Entry(mem, root, va) == 0
        decreases left
      {
        ghost var before, had := mem, tables;
        PagesLeft(left);
        SoundAt(mem, root, tables, v);
        var entry := Entry(mem, root, v);
        var sp := TableBase(entry);
        NoTable(entry);
        if sp == 0 {
          sp := AllocateTable(gfpFlags);
        }
        if sp == 0 {
          r := -1;
          return;
        }
        mem := PutSmall(mem, sp, v, SmallEntry(p, MemType(mmuFlags), Access(mmuFlags), ExecuteNever(mmuFlags)));
        mem := PutTable(mem, root, v, sp);
        assert tables == had + {sp};
        OneMore(old(mem), before, mem, root, had, virt, phy, mapped, sp, mmuFlags);
        PageNext(virt, mapped);
        PageNext(phy, mapped);
        mapped := mapped + 1;
        v := (v + PAGE_SIZE) % SPACE;
        p := (p + PAGE_SIZE) % SPACE;
        if left > PAGE_SIZE {
          left := left - PAGE_SIZE;
        } else {
          break;
        }
      }
      r := 0;
    }

    /**
     * vm_unmap leaves the pages present, with base addresses from 0 and no access. It asks kmalloc with no
     * flags, so it succeeds exactly when every page of the range has a table, and stops at the first without.
     */
    method VmUnmap(virt: Address, size: Address) returns (r: int, ghost mapped: nat)
      requires Sound(mem, Root(), tables)
      modifies this`mem, this`tables
      ensures Sound(mem, Root(), tables)
      ensures Maps(old(mem), mem, Root(), virt, 0, mapped, 2)
      ensures tables == old(tables) && HaveTables(old(mem), Root(), virt, mapped)
      ensures r == if HaveTables(old(mem), Root(), virt, PagesOf(size)) then 0 else -1
      ensures r == 0 ==> mapped == PagesOf(size)
      ensures r == -1 ==> mapped < PagesOf(size) && Entry(old(mem), Root(), PageAt(virt, mapped)) == 0
    {
      hide Sound, Maps, Entry, PageAt, PagesOf;
      NoFlags();
      r, mapped := VmMap(virt, 0, size, MMU_NOACCESS, 0);
    }
  }

  lemma StartMaps(mem: Memory, root: nat, virt: Address, phy: Address, size: Address, attributes: nat)
    ensures Maps(mem, mem, root, virt, phy, 0, attributes)
    ensures PageAt(virt, 0) == virt && PageAt(phy, 0) == phy && PagesOf(0) == 0 && PagesOf(size) <= 0x10_0000
  {
  }

  lemma NoTable(entry: nat)
    ensures entry == 0 ==> TableBase(entry) == 0
  {
  }

  /** One turn of the loop, with the table that it found or allocated. */
  lemma OneMore(start: Memory, before: Memory, after: Memory, root: nat, tables: set<nat>, virt: Address, phy: Address,
                k: nat, t: nat, flags: nat)
    requires Sound(before, root, tables) && Maps(start, before, root, virt, phy, k, Attributes(flags)) && k < 0x10_0000
    requires MayServe(before, root, tables, PageAt(virt, k), t)
    requires after == MapPage(before, root, PageAt(virt, k), t,
                              SmallEntry(PageAt(phy, k), MemType(flags), Access(flags), ExecuteNever(flags)))
    ensures Sound(after, root, tables + {t})
    ensures Maps(start, after, root, virt, phy, k + 1, Attributes(flags))
    ensures forall va: Address :: Entry(after, root, va) == 0 ==> Entry(before, root, va) == 0
    ensures Entry(before, root, PageAt(virt, k)) != 0 ==>
              forall va: Address :: Entry(before, root, va) == 0 ==> Entry(after, root, va) == 0
  {
    hide Sound, Maps, Entry, PageAt, Page, Walk, Decode, SmallEntry, MapPage, MayServe, Attributes, MemType, Access,
      ExecuteNever, IsTableEntry, TableEntry, Megabyte;
    SmallDecodes(PageAt(phy, k), flags);
    ServingAligned(before, root, tables, PageAt(virt, k), t);
    forall va: Address
      ensures Megabyte(va) == Megabyte(PageAt(virt, k)) ==> Entry(before, root, va) == Entry(before, root, PageAt(virt, k))
    {
      SameMegabyte(before, root, tables, va, PageAt(virt, k));
    }
    TableEntryReads(t);
    MapPageExact(before, root, tables, PageAt(virt, k), t,
                 SmallEntry(PageAt(phy, k), MemType(flags), Access(flags), ExecuteNever(flags)));
    MapsNext(start, before, after, root, virt, phy, k, Attributes(flags));
  }

  lemma SameMegabyte(mem: Memory, root: nat, tables: set<nat>, va: Address, vb: Address)
    requires Sound(mem, root, tables)
    ensures Megabyte(va) == Megabyte(vb) ==> Entry(mem, root, va) == Entry(mem, root, vb)
  {
    hide Sound;
    SoundAt(mem, root, tables, va);
    L1Where(root, va, vb);
  }

  lemma ServingAligned(mem: Memory, root: nat, tables: set<nat>, virt: nat, t: nat)
    requires MayServe(mem, root, tables, virt, t)
    ensures IsAligned(t)
  {
  }
}
