/** What the finished page tables translate, for every address. */
module Mapping {
  import opened Words
  import opened PhysicalPages
  import opened PageWalk
  import opened PageTables
  import opened PageFlags
  import opened EntryBits

  const REMAP: nat := TWO64 - 0x100_0000_0000
  const TOP_SIZE: nat := 0x80_0000_0000

  /** The tables in memory after the construction with n user pages from the c-th registered page on. */
  ghost predicate Ready(w: seq<u64>, regs: seq<nat>, c: nat, t: Tables, n: nat) {
    Holds(w, regs, t) && |regs| > 0 && Built(regs, c, t, n)
  }

  /** Following an entry that points to the j-th table. */
  lemma Follow(regs: seq<nat>, j: nat, flags: nat)
    requires RegsOk(regs) && j / 512 < |regs| && flags < HUGE_BIT && flags % 2 == 1
    ensures var e := Entry(TableAddr(regs, j), flags);
      e < TWO64 && Present(e) && !IsHuge(e) && Frame(e) == TableAddr(regs, j)
  {
    TableAddrFacts(regs, j);
    EntryParts(TableAddr(regs, j), flags);
  }

  lemma ReadyParts(w: seq<u64>, regs: seq<nat>, c: nat, t: Tables, n: nat)
    requires Ready(w, regs, c, t, n)
    ensures RegsOk(regs) && |regs| > 0 && c + n <= |regs| && 6 <= |t| <= 512 * |regs|
    ensures t[0][511] == Entry(TableAddr(regs, 0), KERNEL_FLAGS) && t[0][510] == Entry(TableAddr(regs, 1), KERNEL_FLAGS)
    ensures t[0][0] == Entry(TableAddr(regs, 2), TABLE_FLAGS) && t[2][0] == Entry(TableAddr(regs, 3), TABLE_FLAGS)
    ensures forall i :: 0 < i < 510 ==> t[0][i] == 0
  {
  }

  /** Below 512 GiB the walk goes through the third table. */
  lemma LowWalk(w: seq<u64>, regs: seq<nat>, c: nat, t: Tables, n: nat, v: u64)
    requires Ready(w, regs, c, t, n) && v < TOP_SIZE
    ensures |regs| > 0 && Index(v, 3) == 0
    ensures Translate(w, TableAddr(regs, 0), v) == Translate3(w, TableAddr(regs, 2), v)
  {
    hide Translate3, TableAddr, Holds, Built, Entry, Frame, Present, IsHuge;
    ReadyParts(w, regs, c, t, n);
    LoadHolds(w, regs, t, 0, 0);
    Follow(regs, 2, TABLE_FLAGS);
  }

  lemma PageEntryIs(base: nat, flags: nat, i: nat)
    requires base + HUGE_PAGE_SIZE <= MAX_N_HUGE_PAGES * HUGE_PAGE_SIZE && flags < PAGE_SIZE && i < ENTRIES
    ensures PagePart(base, flags, ENTRIES)[i] == Entry(base + i * PAGE_SIZE, flags)
  {
  }

  /** One 4 KiB page of a table filled from base. */
  lemma PageEntry(base: nat, flags: nat, i: nat)
    requires base + HUGE_PAGE_SIZE <= MAX_N_HUGE_PAGES * HUGE_PAGE_SIZE && base % HUGE_PAGE_SIZE == 0
      && flags < PAGE_SIZE && flags % 2 == 1 && i < ENTRIES
    ensures var e := PagePart(base, flags, ENTRIES)[i]; Present(e) && Frame(e) == base + i * PAGE_SIZE
  {
    hide Entry, Frame, Present, IsHuge, PagePart;
    PageEntryIs(base, flags, i);
    PageAligned(base, i);
    EntryParts(base + i * PAGE_SIZE, flags);
  }

  lemma PageAligned(base: nat, i: nat)
    requires base % HUGE_PAGE_SIZE == 0
    ensures (base + i * PAGE_SIZE) % PAGE_SIZE == 0
  {
  }

  lemma LastLevel(w: seq<u64>, regs: seq<nat>, t: Tables, j: nat, base: nat, flags: nat, v: u64)
    requires Holds(w, regs, t) && j < |t| <= 512 * |regs|
    requires base + HUGE_PAGE_SIZE <= MAX_N_HUGE_PAGES * HUGE_PAGE_SIZE && base % HUGE_PAGE_SIZE == 0
      && flags < PAGE_SIZE && flags % 2 == 1
    requires t[j] == PagePart(base, flags, ENTRIES)
    ensures Translate1(w, TableAddr(regs, j), v) == At(base + v % HUGE_PAGE_SIZE)
  {
    hide TableAddr, Holds, PagePart, Frame, Present;
    LoadHolds(w, regs, t, j, Index(v, 0));
    PageEntry(base, flags, Index(v, 0));
    assert v % HUGE_PAGE_SIZE == Index(v, 0) * PAGE_SIZE + v % PAGE_SIZE;
  }

  lemma Level2(w: seq<u64>, regs: seq<nat>, t: Tables, i: nat, j: nat, flags: nat, v: u64)
    requires Holds(w, regs, t) && i < |t| && j < |t| <= 512 * |regs| && flags < HUGE_BIT && flags % 2 == 1
    requires t[i][Index(v, 1)] == Entry(TableAddr(regs, j), flags)
    ensures Translate2(w, TableAddr(regs, i), v) == Translate1(w, TableAddr(regs, j), v)
  {
    hide Translate1, TableAddr, Holds, Entry, Frame, Present, IsHuge;
    HoldsSize(w, regs, t);
    LoadHolds(w, regs, t, i, Index(v, 1));
    Follow(regs, j, flags);
  }

  lemma Level3(w: seq<u64>, regs: seq<nat>, t: Tables, i: nat, j: nat, flags: nat, v: u64)
    requires Holds(w, regs, t) && i < |t| && j < |t| <= 512 * |regs| && flags < HUGE_BIT && flags % 2 == 1
    requires t[i][Index(v, 2)] == Entry(TableAddr(regs, j), flags)
    ensures Translate3(w, TableAddr(regs, i), v) == Translate2(w, TableAddr(regs, j), v)
  {
    hide Translate2, TableAddr, Holds, Entry, Frame, Present, IsHuge;
    HoldsSize(w, regs, t);
    LoadHolds(w, regs, t, i, Index(v, 2));
    Follow(regs, j, flags);
  }

  lemma LowIndices(v: u64)
    requires v < TOP_SIZE
    ensures Index(v, 2) == v / HUGE_PAGE_SIZE / 512 && Index(v, 1) == v / HUGE_PAGE_SIZE % 512
      && v == v / HUGE_PAGE_SIZE * HUGE_PAGE_SIZE + v % HUGE_PAGE_SIZE
  {
    assert v / GIB == v / HUGE_PAGE_SIZE / 512;
  }

  /** [0, 4 MiB) is the identity. */
  lemma KernelIdentity(w: seq<u64>, regs: seq<nat>, c: nat, t: Tables, n: nat, v: u64)
    requires Ready(w, regs, c, t, n) && v < KERNEL_BREAK
    ensures |regs| > 0 && Translate(w, TableAddr(regs, 0), v) == At(v)
  {
    hide Translate, Translate1, Translate2, Translate3, TableAddr, Holds, PagePart, Entry, Index;
    ReadyParts(w, regs, c, t, n);
    LowWalk(w, regs, c, t, n, v);
    LowIndices(v);
    var i := v / HUGE_PAGE_SIZE;
    Level3(w, regs, t, 2, 3, TABLE_FLAGS, v);
    Level2(w, regs, t, 3, 4 + i, KERNEL_FLAGS, v);
    LastLevel(w, regs, t, 4 + i, i * HUGE_PAGE_SIZE, KERNEL_FLAGS, v);
  }

  lemma MappedAt(w: seq<u64>, regs: seq<nat>, c: nat, t: Tables, n: nat, k: nat)
    requires Ready(w, regs, c, t, n) && k < n
    ensures RegsOk(regs) && Mapped(regs, c, t, k) && regs[c + k] < MAX_N_HUGE_PAGES
  {
  }

  /** The user range is the registered huge pages from the break on, one after the other. */
  lemma UserMapped(w: seq<u64>, regs: seq<nat>, c: nat, t: Tables, n: nat, v: u64)
    requires Ready(w, regs, c, t, n) && KERNEL_BREAK <= v < KERNEL_BREAK + n * HUGE_PAGE_SIZE
    ensures var k := (v - KERNEL_BREAK) / HUGE_PAGE_SIZE;
      && |regs| > 0 && c + k < |regs|
      && Translate(w, TableAddr(regs, 0), v) == At(regs[c + k] * HUGE_PAGE_SIZE + v % HUGE_PAGE_SIZE)
  {
    hide Translate, Translate1, Translate2, Translate3, TableAddr, Holds, PagePart, Entry, Index, Built;
    var k := (v - KERNEL_BREAK) / HUGE_PAGE_SIZE;
    ReadyParts(w, regs, c, t, n);
    MappedAt(w, regs, c, t, n, k);
    UserIndices(KERNEL_BREAK + k * HUGE_PAGE_SIZE, k);
    assert v / HUGE_PAGE_SIZE == k + 2;
    LowWalk(w, regs, c, t, n, v);
    LowIndices(v);
    Level3(w, regs, t, 2, GibTableNo((k + 2) / 512), TABLE_FLAGS, v);
    Level2(w, regs, t, GibTableNo((k + 2) / 512), PageTableNo(k), TABLE_FLAGS, v);
    LastLevel(w, regs, t, PageTableNo(k), regs[c + k] * HUGE_PAGE_SIZE, USER_PAGE_FLAGS, v);
  }

  lemma AbsentEntry(w: seq<u64>, regs: seq<nat>, t: Tables, j: nat, v: u64)
    requires Holds(w, regs, t) && j < |t| <= 512 * |regs|
    ensures t[j][Index(v, 2)] == 0 ==> Translate3(w, TableAddr(regs, j), v) == Fault
    ensures t[j][Index(v, 1)] == 0 ==> Translate2(w, TableAddr(regs, j), v) == Fault
  {
    hide TableAddr, Holds;
    LoadHolds(w, regs, t, j, Index(v, 2));
    LoadHolds(w, regs, t, j, Index(v, 1));
  }

  lemma LastGib(w: seq<u64>, regs: seq<nat>, c: nat, t: Tables, n: nat)
    requires Ready(w, regs, c, t, n)
    ensures var g := (n + 1) / 512;
      && NothingAfter(t, n) && g < ENTRIES && GibTableNo(g) < |t| && RegsOk(regs) && |t| <= 512 * |regs|
      && t[2][g] == Entry(TableAddr(regs, GibTableNo(g)), TABLE_FLAGS)
  {
    if n > 0 {
      assert Mapped(regs, c, t, n - 1);
    }
  }

  /** Between the user range and 512 GiB nothing is mapped. */
  lemma NothingBeyond(w: seq<u64>, regs: seq<nat>, c: nat, t: Tables, n: nat, v: u64)
    requires Ready(w, regs, c, t, n) && KERNEL_BREAK + n * HUGE_PAGE_SIZE <= v < TOP_SIZE
    ensures |regs| > 0 && Translate(w, TableAddr(regs, 0), v) == Fault
  {
    hide Translate, Translate1, Translate2, Translate3, TableAddr, Holds, Entry, Index, Built;
    var (g, s) := ((n + 1) / 512, v / HUGE_PAGE_SIZE);
    assert s >= n + 2;
    LowWalk(w, regs, c, t, n, v);
    LowIndices(v);
    LastGib(w, regs, c, t, n);
    if s / 512 > g {
      AbsentEntry(w, regs, t, 2, v);
    } else {
      assert s / 512 == g && s % 512 > (n + 1) % 512;
      Level3(w, regs, t, 2, GibTableNo(g), TABLE_FLAGS, v);
      AbsentEntry(w, regs, t, GibTableNo(g), v);
    }
  }

  /** [-1024 GiB, -512 GiB) is all of physical memory, as remap computes. */
  lemma Remapped(w: seq<u64>, regs: seq<nat>, c: nat, t: Tables, n: nat, paddr: nat)
    requires Ready(w, regs, c, t, n) && paddr < TOP_SIZE
    ensures |regs| > 0 && Translate(w, TableAddr(regs, 0), REMAP + paddr) == At(paddr)
  {
    hide TableAddr, Holds, Built, Entry, Frame, Present, IsHuge, HighPart;
    var (v, i) := (REMAP + paddr, paddr / GIB);
    ReadyParts(w, regs, c, t, n);
    RemapIndices(paddr);
    LoadHolds(w, regs, t, 0, 510);
    Follow(regs, 1, KERNEL_FLAGS);
    LoadHolds(w, regs, t, 1, i);
    HighEntry(i);
    HighTable(w, regs, c, t, n);
  }

  lemma HighTable(w: seq<u64>, regs: seq<nat>, c: nat, t: Tables, n: nat)
    requires Ready(w, regs, c, t, n)
    ensures |t| > 1 && t[1] == HighPart(ENTRIES)
  {
  }

  lemma RemapIndices(paddr: nat)
    requires paddr < TOP_SIZE
    ensures var v := REMAP + paddr;
      Index(v, 3) == 510 && Index(v, 2) == paddr / GIB && v % GIB == paddr % GIB
        && paddr == paddr / GIB * GIB + paddr % GIB
  {
    assert REMAP == 0x3_ffff_fc00 * GIB;
    assert (REMAP + paddr) / GIB == 0x3_ffff_fc00 + paddr / GIB;
    assert REMAP + paddr == 0x1ff_fffe * TOP_SIZE + paddr;
    assert (REMAP + paddr) / TOP_SIZE == 0x1ff_fffe;
  }

  lemma HighEntry(i: nat)
    requires i < ENTRIES
    ensures var e := HighPart(ENTRIES)[i]; Present(e) && IsHuge(e) && Frame(e) / GIB * GIB == i * GIB
  {
    EntryParts(i * GIB, KERNEL_FLAGS + HUGE_BIT);
  }

  /** And the rest of the lower half of the top table is empty. */
  lemma NothingElse(w: seq<u64>, regs: seq<nat>, c: nat, t: Tables, n: nat, v: u64)
    requires Ready(w, regs, c, t, n) && 0 < Index(v, 3) < 510
    ensures |regs| > 0 && Translate(w, TableAddr(regs, 0), v) == Fault
  {
    hide TableAddr, Holds, Built, Entry, Index;
    ReadyParts(w, regs, c, t, n);
    LoadHolds(w, regs, t, 0, Index(v, 3));
  }

  // ----- what follows

  /** The user range shares no memory with itself, the kernel's 4 MiB or any page table. */
  lemma UserApart(w: seq<u64>, regs: seq<nat>, c: nat, t: Tables, n: nat, v: u64, u: u64, p: nat, q: nat)
    requires Ready(w, regs, c, t, n) && |t| <= 512 * c
    requires KERNEL_BREAK <= v < TOP_SIZE && u < TOP_SIZE && |regs| > 0
    requires Translate(w, TableAddr(regs, 0), v) == At(p) && Translate(w, TableAddr(regs, 0), u) == At(q)
    ensures p == q <==> v == u
    ensures p >= KERNEL_BREAK
    ensures forall j :: 0 <= j < |t| ==> j / 512 < |regs| && !(TableAddr(regs, j) <= p < TableAddr(regs, j) + PAGE_SIZE)
  {
    hide Translate, TableAddr, Holds, Built;
    PhysicalOf(w, regs, c, t, n, v, p);
    PhysicalOf(w, regs, c, t, n, u, q);
    ReadyParts(w, regs, c, t, n);
    forall j | 0 <= j < |t| ensures j / 512 < |regs| && !(TableAddr(regs, j) <= p < TableAddr(regs, j) + PAGE_SIZE) {
      TableBelow(regs, c, j, (v - KERNEL_BREAK) / HUGE_PAGE_SIZE, p);
    }
    if v != u && u >= KERNEL_BREAK {
      DifferentPages(regs, c, v, u);
    }
  }

  lemma TableBelow(regs: seq<nat>, c: nat, j: nat, k: nat, p: nat)
    requires RegsOk(regs) && j < 512 * c && c + k < |regs| && p / HUGE_PAGE_SIZE == regs[c + k]
    ensures j / 512 < |regs| && TableAddr(regs, j) + PAGE_SIZE <= p
  {
    TableAddrFacts(regs, j);
    assert regs[j / 512] < regs[c + k];
  }

  lemma PhysicalOf(w: seq<u64>, regs: seq<nat>, c: nat, t: Tables, n: nat, v: u64, p: nat)
    requires Ready(w, regs, c, t, n) && |regs| > 0 && v < TOP_SIZE && Translate(w, TableAddr(regs, 0), v) == At(p)
    ensures v < KERNEL_BREAK ==> p == v
    ensures v >= KERNEL_BREAK ==>
      && c + (v - KERNEL_BREAK) / HUGE_PAGE_SIZE < |regs|
      && p == regs[c + (v - KERNEL_BREAK) / HUGE_PAGE_SIZE] * HUGE_PAGE_SIZE + v % HUGE_PAGE_SIZE
      && p / HUGE_PAGE_SIZE == regs[c + (v - KERNEL_BREAK) / HUGE_PAGE_SIZE] >= KERNEL_PAGES
  {
    hide Translate, TableAddr, Holds, Built;
    ReadyParts(w, regs, c, t, n);
    if v < KERNEL_BREAK {
      KernelIdentity(w, regs, c, t, n, v);
    } else if v < KERNEL_BREAK + n * HUGE_PAGE_SIZE {
      UserMapped(w, regs, c, t, n, v);
    } else {
      NothingBeyond(w, regs, c, t, n, v);
    }
  }

  lemma DifferentPages(regs: seq<nat>, c: nat, v: u64, u: u64)
    requires RegsOk(regs) && KERNEL_BREAK <= v && KERNEL_BREAK <= u && v != u
    requires c + (v - KERNEL_BREAK) / HUGE_PAGE_SIZE < |regs| && c + (u - KERNEL_BREAK) / HUGE_PAGE_SIZE < |regs|
    ensures regs[c + (v - KERNEL_BREAK) / HUGE_PAGE_SIZE] * HUGE_PAGE_SIZE + v % HUGE_PAGE_SIZE
         != regs[c + (u - KERNEL_BREAK) / HUGE_PAGE_SIZE] * HUGE_PAGE_SIZE + u % HUGE_PAGE_SIZE
  {
    var (k, l) := ((v - KERNEL_BREAK) / HUGE_PAGE_SIZE, (u - KERNEL_BREAK) / HUGE_PAGE_SIZE);
    assert v == (k + 2) * HUGE_PAGE_SIZE + v % HUGE_PAGE_SIZE && u == (l + 2) * HUGE_PAGE_SIZE + u % HUGE_PAGE_SIZE;
    assert k != l ==> regs[c + k] != regs[c + l];
  }

  /** A level-1 entry of the user range is reached, and found to be as the construction left it, through get_P1. */
  lemma UserEntries(w: seq<u64>, regs: seq<nat>, c: nat, t: Tables, n: nat, v: u64)
    requires Ready(w, regs, c, t, n) && KERNEL_BREAK <= v < KERNEL_BREAK + n * HUGE_PAGE_SIZE
    ensures var (k, i) := ((v - KERNEL_BREAK) / HUGE_PAGE_SIZE, Index(v, 0));
      && |regs| > 0 && PageTableNo(k) < |t| <= 512 * |regs| && c + k < |regs|
      && var a := TableAddr(regs, PageTableNo(k)) + 8 * i;
        && Translate(w, TableAddr(regs, 0), GetP1(v)) == At(a)
        && Load(w, a, 0) == Entry(regs[c + k] * HUGE_PAGE_SIZE + i * PAGE_SIZE, USER_PAGE_FLAGS)
  {
    hide Translate, TableAddr, Holds, PagePart, Entry, Index, Built, Frame, Present, IsHuge, GetP1, Load;
    var k := (v - KERNEL_BREAK) / HUGE_PAGE_SIZE;
    ReadyParts(w, regs, c, t, n);
    MappedAt(w, regs, c, t, n, k);
    UserIndices(KERNEL_BREAK + k * HUGE_PAGE_SIZE, k);
    assert v / HUGE_PAGE_SIZE == k + 2;
    LowWalk(w, regs, c, t, n, v);
    LowIndices(v);
    LoadHolds(w, regs, t, 0, 511);
    Follow(regs, 0, KERNEL_FLAGS);
    LoadHolds(w, regs, t, 0, 0);
    Follow(regs, 2, TABLE_FLAGS);
    LoadHolds(w, regs, t, 2, (k + 2) / 512);
    Follow(regs, GibTableNo((k + 2) / 512), TABLE_FLAGS);
    LoadHolds(w, regs, t, GibTableNo((k + 2) / 512), (k + 2) % 512);
    Follow(regs, PageTableNo(k), TABLE_FLAGS);
    RecursiveMapping(w, TableAddr(regs, 0), v);
    LoadHolds(w, regs, t, PageTableNo(k), Index(v, 0));
    PageEntryIs(regs[c + k] * HUGE_PAGE_SIZE, USER_PAGE_FLAGS, Index(v, 0));
    LoadWord(w, regs, PageTableNo(k), Index(v, 0));
  }

  lemma LoadWord(w: seq<u64>, regs: seq<nat>, j: nat, i: nat)
    requires RegsOk(regs) && j / 512 < |regs|
    ensures Load(w, TableAddr(regs, j) + 8 * i, 0) == Load(w, TableAddr(regs, j), i)
  {
    TableAddrFacts(regs, j);
  }

  /**
   Those entries are the ones user memory starts from: kernel pages, marked as written, so that the first program
   loaded there has them cleared.
   */
  lemma FreshEntries(w: seq<u64>, regs: seq<nat>, c: nat, t: Tables, n: nat, v: u64, p: bv64)
    requires Ready(w, regs, c, t, n) && KERNEL_BREAK <= v < KERNEL_BREAK + n * HUGE_PAGE_SIZE
    requires |regs| > 0 && Value(p) == UserEntry(w, regs, v)
    ensures AttrOf(p) == Attr(true, false, true, false, true, true)
  {
    hide Translate, TableAddr, Holds, PagePart, Entry, Index, Built, GetP1, Load, Value, AttrOf;
    UserEntries(w, regs, c, t, n, v);
    var k := (v - KERNEL_BREAK) / HUGE_PAGE_SIZE;
    MappedAt(w, regs, c, t, n, k);
    PageAligned(regs[c + k] * HUGE_PAGE_SIZE, Index(v, 0));
    FreshAttr(p, regs[c + k] * HUGE_PAGE_SIZE + Index(v, 0) * PAGE_SIZE);
  }

  /** The word get_P1 names for v. */
  function UserEntry(w: seq<u64>, regs: seq<nat>, v: u64): u64
    requires |regs| > 0
  {
    match Translate(w, TableAddr(regs, 0), GetP1(v))
    case Fault => 0
    case At(a) => Load(w, a, 0)
  }

  // ----- changing an entry

  /** How far above the pages a table stands: 4 for the top table down to 1 for a table of pages. */
  function Level(x: nat): nat {
    if x == 0 then 4 else if x <= 2 then 3 else if x % 513 == 3 then 2 else 1
  }

  lemma LevelOfNumbers(k: nat, g: nat)
    ensures Level(PageTableNo(k)) == 1 && Level(GibTableNo(g)) == 2 && Level(4) == Level(5) == 1
  {
    var h := (k + 2) / 512;
    assert 513 * h + 4 <= PageTableNo(k) <= 513 * h + 515;
  }

  /** An entry that points to the y-th table. */
  ghost predicate PointsTo(regs: seq<nat>, t: Tables, e: u64, y: nat) {
    y < |t| && y / 512 < |regs| && Frame(e) == TableAddr(regs, y)
  }

  /** Every entry of a table above the pages ends the walk or points at most one level down. */
  lemma Target(regs: seq<nat>, c: nat, t: Tables, n: nat, x: nat, i: nat) returns (y: nat)
    requires Built(regs, c, t, n) && x < |t| && Level(x) >= 2 && i < ENTRIES
    ensures var e := t[x][i]; !Present(e) || IsHuge(e) || (PointsTo(regs, t, e, y) && Level(y) >= Level(x) - 1)
  {
    hide TableAddr, Entry, Present, IsHuge, Frame, PagePart;
    y := 0;
    AbsentZero();
    if x == 0 {
      y := if i == 511 then 0 else if i == 510 then 1 else 2;
      Follow(regs, y, if i == 0 then TABLE_FLAGS else KERNEL_FLAGS);
    } else if x == 1 {
      HighEntry(i);
    } else if x == 2 {
      if i <= (n + 1) / 512 {
        y := GibTableNo(i);
        LevelOfNumbers(0, i);
        GibEntry(regs, c, t, n, i);
        Follow(regs, y, TABLE_FLAGS);
      }
    } else {
      y := PageTarget(regs, c, t, n, x / 513, i);
    }
  }

  lemma AbsentZero()
    ensures !Present(0)
  {
  }

  lemma GibEntry(regs: seq<nat>, c: nat, t: Tables, n: nat, g: nat)
    requires Built(regs, c, t, n) && g <= (n + 1) / 512
    ensures g < ENTRIES && GibTableNo(g) < |t| <= 512 * |regs|
      && t[2][g] == Entry(TableAddr(regs, GibTableNo(g)), TABLE_FLAGS)
  {
    if g > 0 {
      assert Mapped(regs, c, t, 512 * g - 2);
    }
  }

  lemma PageTarget(regs: seq<nat>, c: nat, t: Tables, n: nat, g: nat, i: nat) returns (y: nat)
    requires Built(regs, c, t, n) && GibTableNo(g) < |t| && i < ENTRIES
    ensures var e := t[GibTableNo(g)][i]; !Present(e) || IsHuge(e) || PointsTo(regs, t, e, y)
  {
    hide TableAddr, Entry, Present, IsHuge, Frame, PagePart, Built;
    y := 0;
    AbsentZero();
    var s := 512 * g + i;
    PageEntryOf(regs, c, t, n, g, i);
    if s < 2 {
      y := 4 + s;
      Follow(regs, y, KERNEL_FLAGS);
    } else if s - 2 < n {
      y := PageTableNo(s - 2);
      Follow(regs, y, TABLE_FLAGS);
    }
  }

  /** What an entry of a level-2 table holds: a kernel page table, a user page table, or nothing. */
  lemma PageEntryOf(regs: seq<nat>, c: nat, t: Tables, n: nat, g: nat, i: nat)
    requires Built(regs, c, t, n) && GibTableNo(g) < |t| && i < ENTRIES
    ensures var (s, e) := (512 * g + i, t[GibTableNo(g)][i]);
      && RegsOk(regs) && |regs| > 0 && 6 <= |t| <= 512 * |regs|
      && (s < 2 ==> e == Entry(TableAddr(regs, 4 + s), KERNEL_FLAGS))
      && (2 <= s < n + 2 ==> PageTableNo(s - 2) < |t| && e == Entry(TableAddr(regs, PageTableNo(s - 2)), TABLE_FLAGS))
      && (s >= n + 2 ==> e == 0)
  {
    hide TableAddr, Entry, PagePart;
    var s := 512 * g + i;
    GibInRange(n, g);
    if 2 <= s < n + 2 {
      assert Mapped(regs, c, t, s - 2);
      assert (s - 2 + 2) / 512 == g && (s - 2 + 2) % 512 == i;
    }
  }

  lemma GibInRange(n: nat, g: nat)
    requires GibTableNo(g) < TablesFor(n)
    ensures g <= (n + 1) / 512
  {
  }

  /** A walk in memory w2 with contents t2, where the tables above the pages are those of w. */
  ghost predicate SameAbove(t: Tables, t2: Tables) {
    && |t| == |t2|
    && (forall x :: 0 <= x < |t| && Level(x) >= 2 ==> t2[x] == t[x])
    && (forall x, i :: 0 <= x < |t| && 0 <= i < ENTRIES ==>
         (Present(t2[x][i]) <==> Present(t[x][i])) && Frame(t2[x][i]) == Frame(t[x][i]))
  }

  lemma SameWalk1(w: seq<u64>, w2: seq<u64>, regs: seq<nat>, t: Tables, t2: Tables, y: nat, u: u64)
    requires Holds(w, regs, t) && Holds(w2, regs, t2) && SameAbove(t, t2) && y < |t| <= 512 * |regs|
    ensures Translate1(w2, TableAddr(regs, y), u) == Translate1(w, TableAddr(regs, y), u)
  {
    hide Holds, TableAddr, Present, Frame, Load;
    LoadHolds(w, regs, t, y, Index(u, 0));
    LoadHolds(w2, regs, t2, y, Index(u, 0));
  }

  lemma SameWalk2(w: seq<u64>, w2: seq<u64>, regs: seq<nat>, c: nat, t: Tables, t2: Tables, n: nat, x: nat, u: u64)
    requires Holds(w, regs, t) && Holds(w2, regs, t2) && Built(regs, c, t, n) && SameAbove(t, t2)
    requires x < |t| <= 512 * |regs| && Level(x) >= 2
    ensures Translate2(w2, TableAddr(regs, x), u) == Translate2(w, TableAddr(regs, x), u)
  {
    hide Holds, Built, TableAddr, Present, Frame, IsHuge, Load, Translate1;
    LoadHolds(w, regs, t, x, Index(u, 1));
    LoadHolds(w2, regs, t2, x, Index(u, 1));
    var y := Target(regs, c, t, n, x, Index(u, 1));
    if PointsTo(regs, t, t[x][Index(u, 1)], y) {
      SameWalk1(w, w2, regs, t, t2, y, u);
    }
  }

  lemma SameWalk3(w: seq<u64>, w2: seq<u64>, regs: seq<nat>, c: nat, t: Tables, t2: Tables, n: nat, x: nat, u: u64)
    requires Holds(w, regs, t) && Holds(w2, regs, t2) && Built(regs, c, t, n) && SameAbove(t, t2)
    requires x < |t| <= 512 * |regs| && Level(x) >= 3
    ensures Translate3(w2, TableAddr(regs, x), u) == Translate3(w, TableAddr(regs, x), u)
  {
    hide Holds, Built, TableAddr, Present, Frame, IsHuge, Load, Translate2;
    LoadHolds(w, regs, t, x, Index(u, 2));
    LoadHolds(w2, regs, t2, x, Index(u, 2));
    var y := Target(regs, c, t, n, x, Index(u, 2));
    if PointsTo(regs, t, t[x][Index(u, 2)], y) && Level(y) >= 2 {
      SameWalk2(w, w2, regs, c, t, t2, n, y, u);
    }
  }

  lemma SameWalk(w: seq<u64>, w2: seq<u64>, regs: seq<nat>, c: nat, t: Tables, t2: Tables, n: nat, u: u64)
    requires Ready(w, regs, c, t, n) && Holds(w2, regs, t2) && SameAbove(t, t2)
    ensures |regs| > 0 && Translate(w2, TableAddr(regs, 0), u) == Translate(w, TableAddr(regs, 0), u)
  {
    hide Holds, Built, TableAddr, Present, Frame, IsHuge, Load, Translate3;
    ReadyParts(w, regs, c, t, n);
    LoadHolds(w, regs, t, 0, Index(u, 3));
    LoadHolds(w2, regs, t2, 0, Index(u, 3));
    var y := Target(regs, c, t, n, 0, Index(u, 3));
    TopEntries(regs, c, t, n, Index(u, 3));
    if PointsTo(regs, t, t[0][Index(u, 3)], y) && Level(y) >= 3 {
      SameWalk3(w, w2, regs, c, t, t2, n, y, u);
    }
  }

  lemma TopEntries(regs: seq<nat>, c: nat, t: Tables, n: nat, i: nat)
    requires Built(regs, c, t, n) && |regs| > 0 && i < ENTRIES
    ensures |t| > 0 && !(Present(t[0][i]) && IsHuge(t[0][i]))
  {
    hide Entry, Present, IsHuge, TableAddr, Frame;
    AbsentZero();
    Follow(regs, if i == 511 then 0 else if i == 510 then 1 else 2, if i == 0 then TABLE_FLAGS else KERNEL_FLAGS);
  }

  /** Memory w after flag changes to a memory w0 as the construction left it. */
  ghost predicate Live(w0: seq<u64>, w: seq<u64>, regs: seq<nat>, c: nat, t0: Tables, t: Tables, n: nat) {
    Ready(w0, regs, c, t0, n) && Holds(w, regs, t) && SameAbove(t0, t)
  }

  lemma ReadyLive(w: seq<u64>, regs: seq<nat>, c: nat, t: Tables, n: nat)
    requires Ready(w, regs, c, t, n)
    ensures Live(w, w, regs, c, t, t, n)
  {
  }

  /** Throughout, get_P1 finds the level-1 entry of a user address, and that entry stays present. */
  lemma LiveEntry(w0: seq<u64>, w: seq<u64>, regs: seq<nat>, c: nat, t0: Tables, t: Tables, n: nat, v: u64)
    requires Live(w0, w, regs, c, t0, t, n) && KERNEL_BREAK <= v < KERNEL_BREAK + n * HUGE_PAGE_SIZE
    ensures var (j, i) := (PageTableNo((v - KERNEL_BREAK) / HUGE_PAGE_SIZE), Index(v, 0));
      && |regs| > 0 && j < |t| <= 512 * |regs| && j < |t0|
      && Translate(w, TableAddr(regs, 0), GetP1(v)) == At(TableAddr(regs, j) + 8 * i)
      && (TableAddr(regs, j) + 8 * i) / 8 == TableAddr(regs, j) / 8 + i < |w|
      && UserEntry(w, regs, v) == t[j][i] && Present(t[j][i])
  {
    hide Translate, TableAddr, Holds, PagePart, Built, GetP1, Load, Frame, Present, Entry, Index;
    UserEntries(w0, regs, c, t0, n, v);
    ReadyParts(w0, regs, c, t0, n);
    SameWalk(w0, w, regs, c, t0, t, n, GetP1(v));
    var (k, i) := ((v - KERNEL_BREAK) / HUGE_PAGE_SIZE, Index(v, 0));
    var j := PageTableNo(k);
    TableAddrFacts(regs, j);
    LoadHolds(w0, regs, t0, j, i);
    LoadHolds(w, regs, t, j, i);
    LoadWord(w0, regs, j, i);
    LoadWord(w, regs, j, i);
    MappedAt(w0, regs, c, t0, n, k);
    PageAligned(regs[c + k] * HUGE_PAGE_SIZE, i);
    EntryParts(regs[c + k] * HUGE_PAGE_SIZE + i * PAGE_SIZE, USER_PAGE_FLAGS);
  }

  /**
   Over every history of flag changes: writing the result of any flag operation through get_P1 leaves the
   translation of every address, the page's own included, as the construction made it.
   */
  lemma FlagsKeepMapping(w0: seq<u64>, w: seq<u64>, regs: seq<nat>, c: nat, t0: Tables, t: Tables, n: nat,
                         v: u64, p: bv64, op: FlagOp) returns (w2: seq<u64>, t2: Tables)
    requires Live(w0, w, regs, c, t0, t, n) && KERNEL_BREAK <= v < KERNEL_BREAK + n * HUGE_PAGE_SIZE
    requires |regs| > 0 && Value(p) == UserEntry(w, regs, v)
    ensures Translate(w, TableAddr(regs, 0), GetP1(v)).At?
    ensures var a := Translate(w, TableAddr(regs, 0), GetP1(v)).addr;
      a / 8 < |w| && w2 == w[a / 8 := Value(ApplyOp(op, p))]
    ensures Live(w0, w2, regs, c, t0, t2, n)
    ensures forall u: u64 :: Translate(w2, TableAddr(regs, 0), u) == Translate(w0, TableAddr(regs, 0), u)
    ensures forall u: u64 :: KERNEL_BREAK <= u < KERNEL_BREAK + n * HUGE_PAGE_SIZE ==>
      UserEntry(w2, regs, u) == if u / PAGE_SIZE == v / PAGE_SIZE then Value(ApplyOp(op, p)) else UserEntry(w, regs, u)
  {
    hide Translate, TableAddr, Holds, PagePart, Built, GetP1, Load, Value, ApplyOp, Frame, Present, Entry, Index,
         UserEntry, Live;
    LiveParts(w0, w, regs, c, t0, t, n);
    LiveEntry(w0, w, regs, c, t0, t, n, v);
    var (k, i) := ((v - KERNEL_BREAK) / HUGE_PAGE_SIZE, Index(v, 0));
    var (j, e) := (PageTableNo(k), Value(ApplyOp(op, p)));
    OpKeepsTarget(op, p);
    StoreHolds(w, regs, t, j, i, e);
    LevelOfNumbers(k, 0);
    SetOne(t0, t, j, i, e);
    w2, t2 := w[TableAddr(regs, j) / 8 + i := e], SetWord(t, j, i, e);
    forall u: u64 ensures Translate(w2, TableAddr(regs, 0), u) == Translate(w0, TableAddr(regs, 0), u) {
      SameWalk(w0, w2, regs, c, t0, t2, n, u);
    }
    MakeLive(w0, w2, regs, c, t0, t2, n);
    forall u: u64 | KERNEL_BREAK <= u < KERNEL_BREAK + n * HUGE_PAGE_SIZE
      ensures UserEntry(w2, regs, u) == if u / PAGE_SIZE == v / PAGE_SIZE then e else UserEntry(w, regs, u)
    {
      LiveEntry(w0, w, regs, c, t0, t, n, u);
      LiveEntry(w0, w2, regs, c, t0, t2, n, u);
      SamePageEntry(u, v);
    }
  }

  lemma LiveParts(w0: seq<u64>, w: seq<u64>, regs: seq<nat>, c: nat, t0: Tables, t: Tables, n: nat)
    requires Live(w0, w, regs, c, t0, t, n)
    ensures Ready(w0, regs, c, t0, n) && Holds(w, regs, t) && SameAbove(t0, t)
  {
  }

  lemma MakeLive(w0: seq<u64>, w: seq<u64>, regs: seq<nat>, c: nat, t0: Tables, t: Tables, n: nat)
    requires Ready(w0, regs, c, t0, n) && Holds(w, regs, t) && SameAbove(t0, t)
    ensures Live(w0, w, regs, c, t0, t, n)
  {
  }

  /** Two user addresses have the same entry exactly when they are on one page. */
  lemma SamePageEntry(u: u64, v: u64)
    requires KERNEL_BREAK <= u && KERNEL_BREAK <= v
    ensures var (k, l) := ((u - KERNEL_BREAK) / HUGE_PAGE_SIZE, (v - KERNEL_BREAK) / HUGE_PAGE_SIZE);
      u / PAGE_SIZE == v / PAGE_SIZE <==> PageTableNo(k) == PageTableNo(l) && Index(u, 0) == Index(v, 0)
  {
    var (k, l) := ((u - KERNEL_BREAK) / HUGE_PAGE_SIZE, (v - KERNEL_BREAK) / HUGE_PAGE_SIZE);
    assert u / PAGE_SIZE == 512 * (k + 2) + Index(u, 0);
    assert v / PAGE_SIZE == 512 * (l + 2) + Index(v, 0);
    assert k < l ==> PageTableNo(k) < PageTableNo(l);
    assert l < k ==> PageTableNo(l) < PageTableNo(k);
  }

  lemma SetOne(t0: Tables, t: Tables, j: nat, i: nat, e: u64)
    requires SameAbove(t0, t) && j < |t| && i < ENTRIES && Level(j) == 1
    requires Present(e) && Present(t[j][i]) && Frame(e) == Frame(t[j][i])
    ensures SameAbove(t0, SetWord(t, j, i, e))
  {
    hide Present, Frame, Level;
  }

  /** init_page_tables, where init_page_table_break finds a break. */
  method InitPageTables(pages: Pages, mem: array<u64>) returns (b: Builder, p4: nat)
    requires pages.Valid() && pages.count == 0 && pages.nextTable == KERNEL_BREAK && pages.tableBreak == 0
    requires BreakFound(pages.Registered())
    requires mem.Length == MEMORY_WORDS && (mem as object) != pages.hugePageMap
    modifies pages`tableBreak, pages`nextTable, pages`count, mem
    ensures pages.Registered() == old(pages.Registered())
    ensures var regs := pages.Registered();
      var c := ReservedHuge(|regs|);
      && c <= |regs| && Ready(mem[..], regs, c, b.tables, |regs| - c) && |b.tables| <= 512 * c
      && Live(mem[..], mem[..], regs, c, b.tables, b.tables, |regs| - c)
      && p4 == TableAddr(regs, 0) && b.vaddrBreak == KERNEL_BREAK + (|regs| - c) * HUGE_PAGE_SIZE
  {
    hide Regs, ReservedHuge, Built, Holds, BreakFound, NextOk, Live;
    StartOk(pages.Registered());
    pages.InitBreak();
    b := new Builder(pages, mem);
    p4 := b.Build();
    BreakReserve(pages.Registered());
    BuiltSize(pages.Registered(), b.Reserve(), b.tables, |pages.Registered()| - b.Reserve());
    ReadyLive(mem[..], pages.Registered(), b.Reserve(), b.tables, |pages.Registered()| - b.Reserve());
  }

  lemma StartOk(regs: seq<nat>)
    ensures NextOk(regs, 0, KERNEL_BREAK)
  {
  }

  lemma BuiltSize(regs: seq<nat>, c: nat, t: Tables, n: nat)
    requires Built(regs, c, t, n) && c == ReservedHuge(|regs|)
    ensures |t| <= 512 * c
  {
    ReserveSuffices(|regs|, n);
  }
}
