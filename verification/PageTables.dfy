/** Building the page tables (lib/memory.cpp) in physical memory, and what they translate. */
module PageTables {
  import opened Words
  import opened PhysicalPages
  import opened PageWalk

  /** Contents of the tables in the order of allocation: P4, P3 of the remapping, P3, P2, two kernel P1, the rest. */
  type Tables = t: seq<seq<u64>> | forall j :: 0 <= j < |t| ==> |t[j]| == ENTRIES witness []

  const MEMORY_WORDS: nat := MAX_N_HUGE_PAGES * (HUGE_PAGE_SIZE / 8)
  const KERNEL_FLAGS: nat := PRESENT + WRITABLE + DIRTY + ACCESSED
  const TABLE_FLAGS: nat := KERNEL_FLAGS + USER
  const USER_PAGE_FLAGS: nat := KERNEL_FLAGS + DUCK_WRITTEN

  function Zero(): (t: seq<u64>)
    ensures |t| == ENTRIES
  {
    seq(ENTRIES, _ => 0)
  }

  function PutWord(t: seq<u64>, i: nat, v: u64): (r: seq<u64>)
    requires i < |t|
    ensures |r| == |t|
  {
    t[i := v]
  }

  /** Entry i of table j set to v. */
  function SetWord(t: Tables, j: nat, i: nat, v: u64): (r: Tables)
    requires j < |t| && i < ENTRIES
    ensures |r| == |t|
  {
    t[j := PutWord(t[j], i, v)]
  }

  // ----- tables in memory

  /** The words of memory at a table's address are its contents. */
  ghost predicate TableAt(w: seq<u64>, regs: seq<nat>, j: nat, t: seq<u64>)
    requires j / 512 < |regs|
  {
    var a := TableAddr(regs, j) / 8;
    |t| == ENTRIES && a + ENTRIES <= |w| && w[a..a + ENTRIES] == t
  }

  ghost predicate Holds(w: seq<u64>, regs: seq<nat>, t: Tables) {
    && RegsOk(regs) && |w| == MEMORY_WORDS && |t| <= 512 * |regs|
    && forall j :: 0 <= j < |t| ==> TableAt(w, regs, j, t[j])
  }

  lemma StoreHolds(w: seq<u64>, regs: seq<nat>, t: Tables, j: nat, i: nat, v: u64)
    requires Holds(w, regs, t) && j < |t| && i < ENTRIES
    ensures var a := TableAddr(regs, j) / 8 + i;
      a < |w| && Holds(w[a := v], regs, SetWord(t, j, i, v))
  {
    hide TableAddr;
    var a := TableAddr(regs, j) / 8;
    assert TableAt(w, regs, j, t[j]);
    var u := SetWord(t, j, i, v);
    forall k | 0 <= k < |u| ensures TableAt(w[a + i := v], regs, k, u[k]) {
      assert TableAt(w, regs, k, t[k]);
      if k != j {
        TablesApart(regs, j, k);
      }
    }
  }

  lemma LoadHolds(w: seq<u64>, regs: seq<nat>, t: Tables, j: nat, i: nat)
    requires Holds(w, regs, t) && j < |t| && i < ENTRIES
    ensures var a := TableAddr(regs, j);
      a / 8 + i < |w| && w[a / 8 + i] == t[j][i] && Load(w, a, i) == t[j][i]
  {
    hide TableAddr;
    var a := TableAddr(regs, j) / 8;
    assert TableAt(w, regs, j, t[j]);
    assert w[a..a + ENTRIES][i] == w[a + i];
  }

  /** A fresh table: a page of zeros behind the tables in use. */
  lemma FreshHolds(w: seq<u64>, w': seq<u64>, regs: seq<nat>, t: Tables)
    requires Holds(w, regs, t) && |t| < 512 * |regs| && |w'| == |w|
    requires var a := TableAddr(regs, |t|) / 8;
      a + ENTRIES <= |w| && w' == w[..a] + Zero() + w[a + ENTRIES..]
    ensures Holds(w', regs, t + [Zero()])
  {
    hide TableAddr, Zero;
    var u := t + [Zero()];
    var a := TableAddr(regs, |t|) / 8;
    forall k | 0 <= k < |u| ensures TableAt(w', regs, k, u[k]) {
      if k < |t| {
        assert TableAt(w, regs, k, t[k]);
        TablesApart(regs, |t|, k);
        var b := TableAddr(regs, k) / 8;
        assert w'[b..b + ENTRIES] == w[b..b + ENTRIES];
      }
    }
  }

  // ----- what the construction makes

  /** A level-1 table whose first n entries map consecutive pages from base. */
  function PagePart(base: nat, flags: nat, n: nat): (t: seq<u64>)
    requires base + HUGE_PAGE_SIZE <= MAX_N_HUGE_PAGES * HUGE_PAGE_SIZE && flags < PAGE_SIZE
    ensures |t| == ENTRIES
  {
    seq(ENTRIES, i requires 0 <= i < ENTRIES => if i < n then Entry(base + i * PAGE_SIZE, flags) else 0)
  }

  /** The first n GiB of physical memory in huge entries. */
  function HighPart(n: nat): (t: seq<u64>)
    ensures |t| == ENTRIES
  {
    seq(ENTRIES, i requires 0 <= i < ENTRIES => if i < n then Entry(i * GIB, KERNEL_FLAGS + HUGE_BIT) else 0)
  }

  /** Number of the level-1 table of the k-th user page, and of the level-2 table of a GiB. */
  function PageTableNo(k: nat): nat {
    6 + k + (k + 2) / 512
  }

  function GibTableNo(g: nat): nat {
    if g == 0 then 3 else 513 * g + 3
  }

  /** The kernel's tables. */
  ghost predicate Kernel(regs: seq<nat>, t: Tables) {
    && |t| >= 6 && |regs| > 0
    && t[0][511] == Entry(TableAddr(regs, 0), KERNEL_FLAGS)
    && t[0][510] == Entry(TableAddr(regs, 1), KERNEL_FLAGS)
    && t[0][0] == Entry(TableAddr(regs, 2), TABLE_FLAGS)
    && (forall i :: 0 < i < 510 ==> t[0][i] == 0)
    && t[1] == HighPart(ENTRIES)
    && t[2][0] == Entry(TableAddr(regs, 3), TABLE_FLAGS)
    && t[3][0] == Entry(TableAddr(regs, 4), KERNEL_FLAGS)
    && t[3][1] == Entry(TableAddr(regs, 5), KERNEL_FLAGS)
    && t[4] == PagePart(0, KERNEL_FLAGS, ENTRIES)
    && t[5] == PagePart(HUGE_PAGE_SIZE, KERNEL_FLAGS, ENTRIES)
  }

  /** The k-th user page, counting from the c-th registered one, at KERNEL_BREAK + k * HUGE_PAGE_SIZE. */
  ghost predicate Mapped(regs: seq<nat>, c: nat, t: Tables, k: nat)
    requires RegsOk(regs)
  {
    var (g, i) := ((k + 2) / 512, (k + 2) % 512);
    && c + k < |regs| && PageTableNo(k) < |t| <= 512 * |regs| && GibTableNo(g) < |t| && g < ENTRIES
    && t[2][g] == Entry(TableAddr(regs, GibTableNo(g)), TABLE_FLAGS)
    && t[GibTableNo(g)][i] == Entry(TableAddr(regs, PageTableNo(k)), TABLE_FLAGS)
    && t[PageTableNo(k)] == PagePart(regs[c + k] * HUGE_PAGE_SIZE, USER_PAGE_FLAGS, ENTRIES)
  }

  /** Beyond n user pages nothing is mapped. */
  ghost predicate NothingAfter(t: Tables, n: nat) {
    var (g, i) := ((n + 1) / 512, (n + 1) % 512);
    && GibTableNo(g) < |t| && |t| > 2
    && (forall h :: g < h < ENTRIES ==> t[2][h] == 0)
    && (forall l :: i < l < ENTRIES ==> t[GibTableNo(g)][l] == 0)
  }

  /** The tables after n user pages. */
  ghost predicate Built(regs: seq<nat>, c: nat, t: Tables, n: nat) {
    && RegsOk(regs) && c + n <= |regs| && |t| == TablesFor(n) <= 512 * |regs|
    && Kernel(regs, t)
    && (forall k :: 0 <= k < n ==> Mapped(regs, c, t, k))
    && NothingAfter(t, n)
  }

  // ----- one more user page

  /** Tables of pages and tables of GiB have different numbers. */
  lemma NumbersApart(k: nat, g: nat)
    ensures PageTableNo(k) != GibTableNo(g) && PageTableNo(k) >= 6 && (GibTableNo(g) == 3 || GibTableNo(g) >= 6)
  {
    var h := (k + 2) / 512;
    assert 513 * h + 4 <= PageTableNo(k) <= 513 * h + 515;
  }

  function Created(regs: seq<nat>, t: Tables, j: nat, i: nat): (r: Tables)
    requires RegsOk(regs) && j < |t| < 512 * |regs| && i < ENTRIES
    ensures |r| == |t| + 1
  {
    TableAddrFacts(regs, |t|);
    EntryParts(TableAddr(regs, |t|), TABLE_FLAGS);
    SetWord(t, j, i, Entry(TableAddr(regs, |t|), TABLE_FLAGS)) + [Zero()]
  }

  /** The level-2 table for the n-th user page is there. */
  ghost predicate GibReady(regs: seq<nat>, c: nat, t: Tables, n: nat) {
    var (g, i) := ((n + 2) / 512, (n + 2) % 512);
    && RegsOk(regs) && c + n < |regs| && |t| == PageTableNo(n) < 512 * |regs| && g < ENTRIES && GibTableNo(g) < |t|
    && Kernel(regs, t)
    && (forall k :: 0 <= k < n ==> Mapped(regs, c, t, k))
    && t[2][g] == Entry(TableAddr(regs, GibTableNo(g)), TABLE_FLAGS)
    && (forall h :: g < h < ENTRIES ==> t[2][h] == 0)
    && (forall l :: i <= l < ENTRIES ==> t[GibTableNo(g)][l] == 0)
  }

  lemma SameGib(regs: seq<nat>, c: nat, t: Tables, n: nat)
    requires Built(regs, c, t, n) && c + n < |regs| && (n + 2) % 512 != 0 && TablesFor(n) < 512 * |regs|
    ensures t[2][(n + 2) / 512] != 0 && GibReady(regs, c, t, n)
  {
    assert (n + 1) / 512 == (n + 2) / 512 && (n + 1) % 512 + 1 == (n + 2) % 512;
    if n > 0 {
      assert Mapped(regs, c, t, n - 1);
    }
    TableAddrFacts(regs, GibTableNo((n + 2) / 512));
  }

  lemma MappedKept(regs: seq<nat>, c: nat, t: Tables, t': Tables, k: nat)
    requires RegsOk(regs) && Mapped(regs, c, t, k) && |t| <= |t'| <= 512 * |regs|
    requires var (g, i) := ((k + 2) / 512, (k + 2) % 512);
      t'[2][g] == t[2][g] && t'[GibTableNo(g)][i] == t[GibTableNo(g)][i] && t'[PageTableNo(k)] == t[PageTableNo(k)]
    ensures Mapped(regs, c, t', k)
  {
  }

  lemma NewGib(regs: seq<nat>, c: nat, t: Tables, n: nat)
    requires Built(regs, c, t, n) && c + n < |regs| && (n + 2) % 512 == 0 && (n + 2) / 512 < ENTRIES
    requires PageTableNo(n) < 512 * |regs|
    ensures var g := (n + 2) / 512;
      t[2][g] == 0 && |t| == GibTableNo(g) && GibReady(regs, c, Created(regs, t, 2, g), n)
  {
    hide Kernel, Mapped, PagePart, TableAddr, Entry;
    var g := (n + 2) / 512;
    assert (n + 1) / 512 == g - 1;
    var u := Created(regs, t, 2, g);
    KernelKept(regs, t, u, 2, g);
    forall k | 0 <= k < n ensures Mapped(regs, c, u, k) {
      assert Mapped(regs, c, t, k) && (k + 2) / 512 < g;
      NumbersApart(k, 0);
      NumbersApart(0, (k + 2) / 512);
      MappedBounds(regs, c, t, k);
      MappedKept(regs, c, t, u, k);
    }
  }

  lemma MappedBounds(regs: seq<nat>, c: nat, t: Tables, k: nat)
    requires RegsOk(regs) && Mapped(regs, c, t, k)
    ensures PageTableNo(k) < |t| && GibTableNo((k + 2) / 512) < |t|
  {
  }

  lemma KernelKept(regs: seq<nat>, t: Tables, u: Tables, j: nat, i: nat)
    requires Kernel(regs, t) && |t| <= |u| && j < |t| && i < ENTRIES
    requires (j == 2 && i > 0) || (j == 3 && i > 1) || j >= 6
    requires u[j][..i] == t[j][..i] && forall k :: 0 <= k < |t| && k != j ==> u[k] == t[k]
    ensures Kernel(regs, u)
  {
    assert i > 0 ==> u[j][..i][0] == t[j][..i][0];
    assert i > 1 ==> u[j][..i][1] == t[j][..i][1];
  }

  /** The level-1 table of the n-th user page, filled. */
  function Filled(regs: seq<nat>, c: nat, t: Tables, n: nat): (u: Tables)
    requires RegsOk(regs) && c + n < |regs| && PageTableNo(n) < |t|
  {
    t[PageTableNo(n) := PagePart(regs[c + n] * HUGE_PAGE_SIZE, USER_PAGE_FLAGS, ENTRIES)]
  }

  lemma NewPage(regs: seq<nat>, c: nat, t: Tables, n: nat)
    requires GibReady(regs, c, t, n)
    ensures var (g, i) := ((n + 2) / 512, (n + 2) % 512);
      t[GibTableNo(g)][i] == 0
      && Built(regs, c, Filled(regs, c, Created(regs, t, GibTableNo(g), i), n), n + 1)
  {
    hide Kernel, Mapped, PagePart, TableAddr, Entry;
    var (g, i) := ((n + 2) / 512, (n + 2) % 512);
    var u := Created(regs, t, GibTableNo(g), i);
    var v := Filled(regs, c, u, n);
    NumbersApart(n, g);
    KernelKept(regs, t, u, GibTableNo(g), i);
    KernelKept(regs, u, v, PageTableNo(n), 0);
    forall k | 0 <= k < n ensures Mapped(regs, c, v, k) {
      assert Mapped(regs, c, t, k);
      MappedBounds(regs, c, t, k);
      OtherPage(n, k);
      MappedKept(regs, c, t, v, k);
    }
    LastMapped(regs, c, u, v, n);
  }

  lemma OtherPage(n: nat, k: nat)
    requires k < n
    ensures var (g, h) := ((n + 2) / 512, (k + 2) / 512);
      && PageTableNo(k) != PageTableNo(n) && PageTableNo(k) != GibTableNo(g) && GibTableNo(h) != PageTableNo(n)
      && GibTableNo(g) != 2 && PageTableNo(n) != 2
      && (GibTableNo(h) == GibTableNo(g) ==> (k + 2) % 512 != (n + 2) % 512)
  {
    NumbersApart(k, (n + 2) / 512);
    NumbersApart(n, (k + 2) / 512);
  }

  lemma LastMapped(regs: seq<nat>, c: nat, u: Tables, v: Tables, n: nat)
    requires RegsOk(regs) && c + n < |regs| && PageTableNo(n) < |u| <= 512 * |regs| && v == Filled(regs, c, u, n)
    requires var (g, i) := ((n + 2) / 512, (n + 2) % 512);
      && g < ENTRIES && GibTableNo(g) < |u|
      && u[2][g] == Entry(TableAddr(regs, GibTableNo(g)), TABLE_FLAGS)
      && u[GibTableNo(g)][i] == Entry(TableAddr(regs, PageTableNo(n)), TABLE_FLAGS)
    ensures Mapped(regs, c, v, n)
  {
    hide PagePart, TableAddr, Entry;
    NumbersApart(n, (n + 2) / 512);
  }

  // ----- the construction

  /** clear_page_flags in 64 bits: the lowest nine bits and the top bit go. */
  function ClearFlags(e: u64): u64 {
    Wrap64(Wrap64(e * 2) / 1024 * 512)
  }

  lemma ClearFlagsAddress(addr: nat, flags: nat)
    requires addr % PAGE_SIZE == 0 && addr < MAX_N_HUGE_PAGES * HUGE_PAGE_SIZE && flags < 512
    ensures ClearFlags(Entry(addr, flags)) == addr
  {
    var e := addr + flags;
    var k := addr / PAGE_SIZE;
    Quotient(e * 2, 8 * k, 2 * flags);
  }

  lemma Quotient(n: nat, q: nat, r: nat)
    requires n == q * 1024 + r && r < 1024
    ensures n / 1024 == q
  {
  }

  class Builder {
    const pages: Pages
    /** Physical memory, word by word; the kernel reaches it through the remapping at -1024 GiB. */
    const mem: array<u64>
    var vaddrBreak: nat
    ghost var tables: Tables

    ghost function Regs(): seq<nat>
      reads pages.hugePageMap
    {
      pages.Registered()
    }

    ghost predicate Valid()
      reads this, pages, pages.hugePageMap, mem
    {
      && pages.Allocating() && (mem as object) != pages.hugePageMap
      && Holds(mem[..], Regs(), tables) && |tables| == pages.count
    }

    /** Huge pages set aside for tables. */
    ghost function Reserve(): nat
      reads pages
    {
      ReservedHuge(pages.nHugePages)
    }

    constructor (pages: Pages, mem: array<u64>)
      requires pages.Allocating() && pages.count == 0 && mem.Length == MEMORY_WORDS
      requires (mem as object) != pages.hugePageMap
      ensures Valid() && this.pages == pages && this.mem == mem && tables == []
    {
      hide PhysicalPages.Regs, ReservedHuge, NextOk, BreakFound;
      this.pages, this.mem, this.vaddrBreak, this.tables := pages, mem, KERNEL_BREAK, [];
      new;
      RegisteredOk(pages.hugePageMap[..]);
    }

    /** page_table_alloc_zeroed */
    method AllocZeroed() returns (ret: nat)
      requires Valid() && |tables| < 512 * Reserve()
      modifies pages`nextTable, pages`count, mem, this`tables
      ensures Valid() && tables == old(tables) + [Zero()]
      ensures |old(tables)| < 512 * |Regs()| && ret == TableAddr(Regs(), |old(tables)|)
    {
      hide PhysicalPages.Regs, ReservedHuge, NextOk, BreakFound, TableAddr, Zero, Holds;
      ghost var (w, regs, j) := (mem[..], Regs(), |tables|);
      HoldsSize(w, regs, tables);
      ret := pages.Alloc();
      TableAddrFacts(regs, j);
      Clear(ret / 8);
      FreshHolds(w, mem[..], regs, tables);
      tables := tables + [Zero()];
    }

    /** memset of one page. */
    method Clear(a: nat)
      requires a + ENTRIES <= mem.Length
      modifies mem
      ensures mem[..] == old(mem[..a]) + Zero() + old(mem[a + ENTRIES..])
    {
      var i := 0;
      while i < ENTRIES
        invariant 0 <= i <= ENTRIES
        invariant forall k :: a <= k < a + i ==> mem[k] == 0
        invariant mem[..a] == old(mem[..a]) && mem[a + ENTRIES..] == old(mem[a + ENTRIES..])
      {
        mem[a + i] := 0;
        i := i + 1;
      }
      assert mem[a..a + ENTRIES] == Zero();
      assert mem[..] == mem[..a] + mem[a..a + ENTRIES] + mem[a + ENTRIES..];
    }

    /** Sets entry i of the table at addr, the j-th one. */
    method Write(addr: nat, i: nat, v: u64, ghost j: nat)
      requires Valid() && j < |tables| && i < ENTRIES
      requires |tables| <= 512 * |Regs()| && addr == TableAddr(Regs(), j)
      modifies mem, this`tables
      ensures Valid() && tables == SetWord(old(tables), j, i, v)
    {
      hide Pages.Allocating, TableAddr, Holds, SetWord, PhysicalPages.Regs;
      ghost var w := mem[..];
      StoreHolds(w, Regs(), tables, j, i, v);
      HoldsSize(w, Regs(), tables);
      mem[addr / 8 + i] := v;
      assert mem[..] == w[addr / 8 + i := v];
      tables := SetWord(tables, j, i, v);
    }

    method Read(addr: nat, i: nat, ghost j: nat) returns (e: u64)
      requires Valid() && j < |tables| && i < ENTRIES
      requires |tables| <= 512 * |Regs()| && addr == TableAddr(Regs(), j)
      ensures e == tables[j][i]
    {
      hide Pages.Allocating, TableAddr, Holds, PhysicalPages.Regs;
      LoadHolds(mem[..], Regs(), tables, j, i);
      HoldsSize(mem[..], Regs(), tables);
      e := mem[addr / 8 + i];
    }

    /** PTE_create with the flags dropped: the table the entry points to, made if there is none. */
    method Create(addr: nat, i: nat, ghost j: nat, ghost to: nat) returns (next: nat)
      requires Valid() && j < |tables| && i < ENTRIES && |tables| <= 512 * |Regs()| && addr == TableAddr(Regs(), j)
      requires tables[j][i] == 0 ==> to == |tables| < 512 * Reserve()
      requires tables[j][i] != 0 ==> to < |tables| && tables[j][i] == Entry(TableAddr(Regs(), to), TABLE_FLAGS)
      modifies pages`nextTable, pages`count, mem, this`tables
      ensures Valid() && to < 512 * |Regs()| && next == TableAddr(Regs(), to)
      ensures old(tables[j][i]) != 0 ==> tables == old(tables)
      ensures old(tables[j][i]) == 0 ==> |old(tables)| < 512 * |Regs()| && tables == Created(Regs(), old(tables), j, i)
    {
      hide Pages.Allocating, TableAddr, Holds, SetWord, Entry, ClearFlags, ReservedHuge, PhysicalPages.Regs, Zero;
      HoldsSize(mem[..], Regs(), tables);
      var e := Read(addr, i, j);
      ghost var t := tables;
      if e == 0 {
        var fresh_ := AllocZeroed();
        HoldsSize(mem[..], Regs(), tables);
        TableAddrFacts(Regs(), to);
        EntryParts(fresh_, TABLE_FLAGS);
        e := Entry(fresh_, TABLE_FLAGS);
        Write(addr, i, e, j);
        CreatedIs(Regs(), t, tables, j, i, e);
      }
      TableAddrFacts(Regs(), to);
      ClearFlagsAddress(TableAddr(Regs(), to), TABLE_FLAGS);
      next := ClearFlags(e);
    }

    /** Fills the j-th table with the 4 KiB pages of the huge page at base. */
    method FillPages(addr: nat, base: nat, flags: nat, ghost j: nat)
      requires Valid() && 0 < j < |tables| && |tables| <= 512 * |Regs()| && addr == TableAddr(Regs(), j)
      requires base % HUGE_PAGE_SIZE == 0 && base + HUGE_PAGE_SIZE <= MAX_N_HUGE_PAGES * HUGE_PAGE_SIZE
        && flags < PAGE_SIZE
      modifies mem, this`tables
      ensures Valid() && tables == old(tables)[j := PagePart(base, flags, ENTRIES)]
    {
      hide Pages.Allocating, TableAddr, Holds, PhysicalPages.Regs, PagePart, SetWord, Entry;
      ghost var t := tables;
      ghost var first := t[j];
      var i := 0;
      while i < ENTRIES
        invariant 0 <= i <= ENTRIES && Valid()
        invariant Progress(t, tables, j, PagePart(base, flags, i), i)
      {
        EntryFits(base + i * PAGE_SIZE, flags);
        ghost var before := tables;
        Write(addr, i, Entry(base + i * PAGE_SIZE, flags), j);
        PagePartStep(t, before, j, base, flags, i);
        i := i + 1;
      }
      ProgressDone(t, tables, j, PagePart(base, flags, ENTRIES));
    }

    /** The upper tables: a recursive slot, and a remapping of all physical memory in 1 GiB pages. */
    method BuildTop() returns (p4: nat, p2: nat)
      requires Valid() && tables == []
      modifies pages`nextTable, pages`count, mem, this`tables
      ensures Valid() && |Regs()| > 0 && p4 == TableAddr(Regs(), 0) && p2 == TableAddr(Regs(), 3)
      ensures tables == TopTables(Regs())
    {
      hide Pages.Allocating, TableAddr, Holds, PhysicalPages.Regs, ReservedHuge, Zero, PutWord, HighPart, Entry;
      ghost var regs := Regs();
      p4 := AllocZeroed();
      var p3High := AllocZeroed();
      var p3Low := AllocZeroed();
      p2 := AllocZeroed();
      HoldsSize(mem[..], regs, tables);
      LinkIs(regs, 0, KERNEL_FLAGS);
      LinkIs(regs, 1, KERNEL_FLAGS);
      LinkIs(regs, 2, TABLE_FLAGS);
      LinkIs(regs, 3, TABLE_FLAGS);
      Write(p4, 511, Entry(p4, KERNEL_FLAGS), 0);
      Write(p4, 510, Entry(p3High, KERNEL_FLAGS), 0);
      ghost var t := tables;
      var i := 0;
      while i < ENTRIES
        invariant 0 <= i <= ENTRIES && Valid()
        invariant Progress(t, tables, 1, HighPart(i), i)
      {
        EntryParts(i * GIB, KERNEL_FLAGS + HUGE_BIT);
        HighPartStep(t, tables, i);
        Write(p3High, i, Entry(i * GIB, KERNEL_FLAGS + HUGE_BIT), 1);
        i := i + 1;
      }
      ProgressDone(t, tables, 1, HighPart(ENTRIES));
      Write(p4, 0, Entry(p3Low, TABLE_FLAGS), 0);
      Write(p3Low, 0, Entry(p2, TABLE_FLAGS), 2);
    }

    /** init_empty_kernel_page_table: then the first 4 MiB, as they are. */
    method BuildKernel() returns (p4: nat)
      requires Valid() && tables == []
      modifies pages`nextTable, pages`count, mem, this`tables
      ensures Valid() && |Regs()| > 0 && p4 == TableAddr(Regs(), 0)
      ensures Built(Regs(), Reserve(), tables, 0)
    {
      hide Pages.Allocating, TableAddr, Holds, PhysicalPages.Regs, ReservedHuge, PagePart, PutWord, TopTables, Entry,
           Built;
      ghost var regs := Regs();
      var p2;
      p4, p2 := BuildTop();
      HoldsSize(mem[..], regs, tables);
      LowTablesStart(regs);
      var i := 0;
      while i < KERNEL_PAGES
        invariant 0 <= i <= KERNEL_PAGES && Valid() && Regs() == regs && RegsOk(regs)
        invariant tables == LowTables(regs, i)
      {
        HoldsSize(mem[..], regs, tables);
        var p1 := AllocZeroed();
        LinkIs(regs, 4 + i, KERNEL_FLAGS);
        Write(p2, i, Entry(p1, KERNEL_FLAGS), 3);
        FillPages(p1, i * HUGE_PAGE_SIZE, KERNEL_FLAGS, 4 + i);
        LowTablesStep(regs, i);
        i := i + 1;
      }
      HoldsSize(mem[..], regs, tables);
      ReserveFits();
      KernelBuilt(regs, Reserve());
    }

    lemma ReserveFits()
      requires Valid()
      ensures 1 <= Reserve() <= |Regs()| && Regs() == PhysicalPages.Regs(pages.hugePageMap[..])
      ensures TableBreakAt(PhysicalPages.Regs(pages.hugePageMap[..]), pages.tableBreak, Reserve())
      ensures pages.nHugePages == |Regs()|
    {
      BreakReserve(Regs());
    }

    /** The level-2 table for the n-th user page, made when its GiB starts. */
    method MapGib(p4: nat, vaddr: nat, ghost n: nat) returns (p2: nat)
      requires Valid() && |Regs()| > 0 && p4 == TableAddr(Regs(), 0)
      requires Built(Regs(), Reserve(), tables, n) && Reserve() + n < |Regs()|
      requires vaddr == KERNEL_BREAK + n * HUGE_PAGE_SIZE
      modifies pages`nextTable, pages`count, mem, this`tables
      ensures Valid() && GibReady(Regs(), Reserve(), tables, n)
      ensures GibTableNo((n + 2) / 512) < 512 * |Regs()| && p2 == TableAddr(Regs(), GibTableNo((n + 2) / 512))
    {
      hide Pages.Allocating, TableAddr, Holds, PhysicalPages.Regs, ReservedHuge, Created, Entry, Built, GibReady,
           Reserved;
      ghost var (regs, c, g) := (Regs(), Reserve(), (n + 2) / 512);
      HoldsSize(mem[..], regs, tables);
      ReserveFits();
      UserIndices(vaddr, n);
      UserRoom(regs, n);
      KernelLink(regs, c, tables, n);
      var p3 := Create(p4, Index(vaddr, 3), 0, 2);
      if (n + 2) % 512 == 0 {
        NewGib(regs, c, tables, n);
      } else {
        SameGib(regs, c, tables, n);
        GibLink(regs, c, tables, n);
      }
      p2 := Create(p3, Index(vaddr, 2), 2, GibTableNo(g));
    }

    /** One registered huge page becomes the n-th of the user range. */
    method MapUser(p4: nat, vaddr: nat, page: nat, ghost n: nat)
      requires Valid() && |Regs()| > 0 && p4 == TableAddr(Regs(), 0)
      requires Built(Regs(), Reserve(), tables, n) && Reserve() + n < |Regs()|
      requires vaddr == KERNEL_BREAK + n * HUGE_PAGE_SIZE && page == Regs()[Reserve() + n]
      modifies pages`nextTable, pages`count, mem, this`tables
      ensures Valid() && Built(Regs(), Reserve(), tables, n + 1)
    {
      hide Pages.Allocating, TableAddr, Holds, PhysicalPages.Regs, ReservedHuge, PagePart, Created, Entry, Built,
           GibReady, Reserved;
      ghost var (regs, c, g) := (Regs(), Reserve(), (n + 2) / 512);
      HoldsSize(mem[..], regs, tables);
      ReserveFits();
      UserIndices(vaddr, n);
      UserRoom(regs, n);
      var p2 := MapGib(p4, vaddr, n);
      NewPage(regs, c, tables, n);
      GibLink(regs, c, tables, n);
      var p1 := Create(p2, Index(vaddr, 1), GibTableNo(g), PageTableNo(n));
      RegsOkAt(regs, c + n);
      // Entries get the user flag, lose it again and are marked as written, so that their content is cleared later.
      FillPages(p1, page * HUGE_PAGE_SIZE, TABLE_FLAGS - USER + DUCK_WRITTEN, PageTableNo(n));
    }

    /** init_page_table_4k: every registered huge page from the break on, in order. */
    method Build() returns (p4: nat)
      requires Valid() && tables == []
      modifies pages`nextTable, pages`count, mem, this
      ensures Valid() && |Regs()| > 0 && p4 == TableAddr(Regs(), 0) && Reserve() <= |Regs()|
      ensures Built(Regs(), Reserve(), tables, |Regs()| - Reserve())
      ensures vaddrBreak == KERNEL_BREAK + (|Regs()| - Reserve()) * HUGE_PAGE_SIZE
    {
      hide Pages.Allocating, TableAddr, Holds, PhysicalPages.Regs, ReservedHuge, Built, Reserved;
      ghost var (map_, regs, c) := (pages.hugePageMap[..], Regs(), Reserve());
      p4 := BuildKernel();
      ReserveFits();
      MapSize();
      var vaddr := KERNEL_BREAK;
      var i := pages.tableBreak / HUGE_PAGE_SIZE;
      UserStart(map_, pages.tableBreak, c);
      ghost var n := 0;
      while i < MAX_N_HUGE_PAGES
        invariant Valid() && Regs() == regs && pages.hugePageMap[..] == map_
        invariant i <= MAX_N_HUGE_PAGES && |PhysicalPages.Regs(map_[..i])| == c + n <= |regs|
        invariant vaddr == KERNEL_BREAK + n * HUGE_PAGE_SIZE && Built(regs, c, tables, n)
      {
        UserNext(map_, i);
        if pages.hugePageMap[i] {
          MapUser(p4, vaddr, i, n);
          vaddr := vaddr + HUGE_PAGE_SIZE;
          n := n + 1;
        }
        i := i + 1;
      }
      assert map_[..i] == map_;
      vaddrBreak := vaddr;
    }

    lemma MapSize()
      requires Valid()
      ensures pages.hugePageMap.Length == MAX_N_HUGE_PAGES
    {
    }
  }

  // ----- the proof steps of the methods

  lemma HoldsSize(w: seq<u64>, regs: seq<nat>, t: Tables)
    requires Holds(w, regs, t)
    ensures RegsOk(regs) && |w| == MEMORY_WORDS && |t| <= 512 * |regs|
  {
  }

  lemma CreatedIs(regs: seq<nat>, t: Tables, u: Tables, j: nat, i: nat, e: u64)
    requires RegsOk(regs) && j < |t| < 512 * |regs| && i < ENTRIES
    requires e == Entry(TableAddr(regs, |t|), TABLE_FLAGS) && u == SetWord(t + [Zero()], j, i, e)
    ensures u == Created(regs, t, j, i)
  {
  }

  lemma EntryFits(addr: nat, flags: nat)
    requires addr % PAGE_SIZE == 0 && addr < MAX_N_HUGE_PAGES * HUGE_PAGE_SIZE && flags < PAGE_SIZE
    ensures Entry(addr, flags) < TWO64
  {
  }

  /** Table j of t has got its first n entries from goal. */
  ghost predicate Progress(t: Tables, u: Tables, j: nat, goal: seq<u64>, n: nat) {
    && j < |t| == |u| && |goal| == ENTRIES && n <= ENTRIES
    && (forall k :: 0 <= k < |t| && k != j ==> u[k] == t[k])
    && (forall i :: 0 <= i < n ==> u[j][i] == goal[i])
  }

  lemma PagePartStep(t: Tables, u: Tables, j: nat, base: nat, flags: nat, i: nat)
    requires base + HUGE_PAGE_SIZE <= MAX_N_HUGE_PAGES * HUGE_PAGE_SIZE && flags < PAGE_SIZE && i < ENTRIES
      && base % HUGE_PAGE_SIZE == 0
    requires Progress(t, u, j, PagePart(base, flags, i), i) && Entry(base + i * PAGE_SIZE, flags) < TWO64
    ensures Progress(t, SetWord(u, j, i, Entry(base + i * PAGE_SIZE, flags)), j, PagePart(base, flags, i + 1), i + 1)
  {
    hide Entry;
  }

  lemma ProgressDone(t: Tables, u: Tables, j: nat, goal: seq<u64>)
    requires Progress(t, u, j, goal, ENTRIES)
    ensures u == t[j := goal]
  {
    assert u[j] == goal;
  }

  // ----- closed forms of the kernel's tables

  /** An entry pointing to the j-th table. */
  function Link(regs: seq<nat>, j: nat, flags: nat): u64
    requires RegsOk(regs) && j / 512 < |regs| && flags < PAGE_SIZE
  {
    TableAddrFacts(regs, j);
    EntryParts(TableAddr(regs, j), flags);
    Entry(TableAddr(regs, j), flags)
  }

  lemma LinkIs(regs: seq<nat>, j: nat, flags: nat)
    requires RegsOk(regs) && j / 512 < |regs| && flags < PAGE_SIZE
    ensures Entry(TableAddr(regs, j), flags) == Link(regs, j, flags) < TWO64
  {
  }

  function TopTables(regs: seq<nat>): (t: Tables)
    requires RegsOk(regs) && |regs| > 0
    ensures |t| == 4
  {
    [PutWord(PutWord(PutWord(Zero(), 511, Link(regs, 0, KERNEL_FLAGS)), 510, Link(regs, 1, KERNEL_FLAGS)),
             0, Link(regs, 2, TABLE_FLAGS)),
     HighPart(ENTRIES), PutWord(Zero(), 0, Link(regs, 3, TABLE_FLAGS)), Zero()]
  }

  /** The level-2 table with the first n kernel pages. */
  function KernelP2(regs: seq<nat>, n: nat): (t: seq<u64>)
    requires RegsOk(regs) && |regs| > 0 && n <= KERNEL_PAGES
    ensures |t| == ENTRIES
  {
    if n == 0 then Zero() else PutWord(KernelP2(regs, n - 1), n - 1, Link(regs, 3 + n, KERNEL_FLAGS))
  }

  /** With the first n kernel pages in place. */
  function LowTables(regs: seq<nat>, n: nat): (t: Tables)
    requires RegsOk(regs) && |regs| > 0 && n <= KERNEL_PAGES
    ensures |t| == 4 + n
  {
    var t := TopTables(regs);
    var upper := [t[0], t[1], t[2], KernelP2(regs, n)];
    if n == 0 then upper
    else if n == 1 then upper + [PagePart(0, KERNEL_FLAGS, ENTRIES)]
    else upper + [PagePart(0, KERNEL_FLAGS, ENTRIES), PagePart(HUGE_PAGE_SIZE, KERNEL_FLAGS, ENTRIES)]
  }

  lemma LowTablesStep(regs: seq<nat>, i: nat)
    requires RegsOk(regs) && |regs| > 0 && i < KERNEL_PAGES
    ensures var t := SetWord(LowTables(regs, i) + [Zero()], 3, i, Link(regs, 4 + i, KERNEL_FLAGS));
      t[4 + i := PagePart(i * HUGE_PAGE_SIZE, KERNEL_FLAGS, ENTRIES)] == LowTables(regs, i + 1)
  {
    hide PagePart, PutWord, TopTables, Link, Zero;
  }

  lemma LowTablesStart(regs: seq<nat>)
    requires RegsOk(regs) && |regs| > 0
    ensures LowTables(regs, 0) == TopTables(regs)
  {
    hide PutWord, Link, HighPart, Zero;
  }

  lemma KernelP2Done(regs: seq<nat>)
    requires RegsOk(regs) && |regs| > 0
    ensures var t := KernelP2(regs, KERNEL_PAGES);
      && t[0] == Link(regs, 4, KERNEL_FLAGS) && t[1] == Link(regs, 5, KERNEL_FLAGS)
      && forall l :: 1 < l < ENTRIES ==> t[l] == 0
  {
    hide Link;
    assert KernelP2(regs, 1) == PutWord(KernelP2(regs, 0), 0, Link(regs, 4, KERNEL_FLAGS));
    assert KernelP2(regs, 2) == PutWord(KernelP2(regs, 1), 1, Link(regs, 5, KERNEL_FLAGS));
  }

  lemma KernelOf(regs: seq<nat>)
    requires RegsOk(regs) && |regs| > 0
    ensures Kernel(regs, LowTables(regs, KERNEL_PAGES))
  {
    hide PagePart, HighPart, TableAddr, Entry, KernelP2;
    KernelP2Done(regs);
    LinkIs(regs, 0, KERNEL_FLAGS);
    LinkIs(regs, 1, KERNEL_FLAGS);
    LinkIs(regs, 2, TABLE_FLAGS);
    LinkIs(regs, 3, TABLE_FLAGS);
    LinkIs(regs, 4, KERNEL_FLAGS);
    LinkIs(regs, 5, KERNEL_FLAGS);
  }

  lemma KernelBuilt(regs: seq<nat>, c: nat)
    requires RegsOk(regs) && |regs| > 0 && 1 <= c <= |regs|
    ensures Built(regs, c, LowTables(regs, KERNEL_PAGES), 0)
  {
    hide PagePart, HighPart, TableAddr, Entry, KernelP2, Kernel, Link;
    KernelOf(regs);
    KernelP2Done(regs);
  }

  lemma HighPartStep(t: Tables, u: Tables, i: nat)
    requires i < ENTRIES && Progress(t, u, 1, HighPart(i), i) && Entry(i * GIB, KERNEL_FLAGS + HUGE_BIT) < TWO64
    ensures Progress(t, SetWord(u, 1, i, Entry(i * GIB, KERNEL_FLAGS + HUGE_BIT)), 1, HighPart(i + 1), i + 1)
  {
    hide Entry;
  }

  // ----- the user pages in the loop

  lemma UserIndices(vaddr: nat, n: nat)
    requires vaddr == KERNEL_BREAK + n * HUGE_PAGE_SIZE && n < MAX_N_HUGE_PAGES - KERNEL_PAGES
    ensures vaddr < TWO64 && (n + 2) / 512 < ENTRIES
    ensures Index(vaddr, 3) == 0 && Index(vaddr, 2) == (n + 2) / 512 && Index(vaddr, 1) == (n + 2) % 512
  {
    assert vaddr == (n + 2) * HUGE_PAGE_SIZE;
    assert vaddr / HUGE_PAGE_SIZE == n + 2;
    assert vaddr / GIB == (n + 2) / 512;
  }

  lemma UserRoom(regs: seq<nat>, n: nat)
    requires ReservedHuge(|regs|) + n < |regs|
    ensures PageTableNo(n) < TablesFor(n + 1) <= 512 * ReservedHuge(|regs|)
    ensures TablesFor(n) == PageTableNo(n) - (if (n + 2) % 512 == 0 then 1 else 0)
  {
    ReserveSuffices(|regs|, n + 1);
  }

  lemma KernelLink(regs: seq<nat>, c: nat, t: Tables, n: nat)
    requires Built(regs, c, t, n)
    ensures |t| == TablesFor(n) && |t| >= 6 && t[0][0] == Entry(TableAddr(regs, 2), TABLE_FLAGS) != 0
  {
    TableAddrFacts(regs, 2);
  }

  lemma GibLink(regs: seq<nat>, c: nat, t: Tables, n: nat)
    requires GibReady(regs, c, t, n)
    ensures var g := (n + 2) / 512;
      && |t| == PageTableNo(n) && g < ENTRIES && GibTableNo(g) < |t|
      && t[2][g] == Entry(TableAddr(regs, GibTableNo(g)), TABLE_FLAGS) != 0
  {
    TableAddrFacts(regs, GibTableNo((n + 2) / 512));
  }

  lemma RegsOkAt(regs: seq<nat>, k: nat)
    requires RegsOk(regs) && k < |regs|
    ensures KERNEL_PAGES <= regs[k] < MAX_N_HUGE_PAGES
  {
  }

  ghost predicate TableBreakAt(regs: seq<nat>, tableBreak: nat, c: nat) {
    1 <= c <= |regs| && tableBreak == (regs[c - 1] + 1) * HUGE_PAGE_SIZE
  }

  /** Below the break lie exactly the pages set aside. */
  lemma UserStart(map_: seq<bool>, tableBreak: nat, c: nat)
    requires |map_| == MAX_N_HUGE_PAGES && TableBreakAt(Regs(map_), tableBreak, c)
    ensures tableBreak / HUGE_PAGE_SIZE <= |map_| && |Regs(map_[..tableBreak / HUGE_PAGE_SIZE])| == c
  {
    hide Regs;
    RegsOrdered(map_);
    var (regs, p) := (Regs(map_), Regs(map_)[c - 1]);
    assert tableBreak / HUGE_PAGE_SIZE == p + 1;
    RegsPrefix(map_, p + 1);
    RankBelow(map_, p + 1, c - 1);
    var below := Regs(map_[..p + 1]);
    RegsOrdered(map_[..p + 1]);
    if |below| > 0 {
      assert below[|below| - 1] == regs[|below| - 1];
    }
  }

  lemma UserNext(map_: seq<bool>, i: nat)
    requires i < |map_|
    ensures |Regs(map_[..i + 1])| == |Regs(map_[..i])| + if map_[i] then 1 else 0
    ensures map_[i] ==> |Regs(map_[..i])| < |Regs(map_)| && Regs(map_)[|Regs(map_[..i])|] == i
  {
    hide Regs;
    RegsNext(map_, i);
    RegsPrefix(map_, i + 1);
    if map_[i] {
      var r := |Regs(map_[..i])|;
      assert Regs(map_[..i + 1])[r] == i;
    }
  }
}
