/** What user code can reach through the page tables in memory: the pages given to it, and nothing else. */
module UserAccess {
  import opened Words
  import opened PhysicalPages
  import opened PageWalk
  import opened PageTables
  import opened PageFlags
  import opened EntryBits
  import opened Mapping
  import opened AddressSpace
  import opened UserMemory
  import opened ElfRun

  // ----- the processor's check

  /** Addresses the processor translates at all. */
  predicate Canonical(v: u64) {
    v < 0x8000_0000_0000 || v >= 0xffff_8000_0000_0000
  }

  /** An entry lets user code through: present, bit 2 set, bit 1 for a write, bit 63 clear for a fetch. */
  predicate Lets(e: u64, a: Access) {
    && e % 2 == 1 && e / 4 % 2 == 1
    && (a.UserWrite? ==> e / 2 % 2 == 1)
    && (a.UserFetch? ==> e / 0x8000_0000_0000_0000 == 0)
  }

  /** A level below the top: bit 7 says that the entry is the last one. */
  predicate Last(e: u64) {
    e / 0x80 % 2 == 1
  }

  /** Every entry on the way lets user code through. */
  predicate Reaches(w: seq<u64>, p4: nat, a: Access)
    requires a.addr < TWO64
  {
    var v: u64 := a.addr;
    var e4 := Load(w, p4, Index(v, 3));
    Canonical(v) && Lets(e4, a) && Reaches3(w, Frame(e4), a)
  }

  predicate Reaches3(w: seq<u64>, p3: nat, a: Access)
    requires a.addr < TWO64
  {
    var e3 := Load(w, p3, Index(a.addr, 2));
    Lets(e3, a) && (Last(e3) || Reaches2(w, Frame(e3), a))
  }

  predicate Reaches2(w: seq<u64>, p2: nat, a: Access)
    requires a.addr < TWO64
  {
    var e2 := Load(w, p2, Index(a.addr, 1));
    Lets(e2, a) && (Last(e2) || Lets(Load(w, Frame(e2), Index(a.addr, 0)), a))
  }

  // ----- the entries above the pages

  /** The flags of an entry: 0x67 lets everything through, 0x63 nothing. */
  lemma FlagsOf(addr: nat, flags: nat, a: Access)
    requires addr % PAGE_SIZE == 0 && addr < 0x10_0000_0000_0000 && flags in {0x63, 0x67}
    ensures addr + flags < TWO64 && !Last(addr + flags)
    ensures Lets(addr + flags, a) <==> flags == 0x67
  {
    var (e, k) := (addr + flags, addr / PAGE_SIZE);
    FlagBits(k, flags);
    assert e == 4096 * k + flags;
  }

  lemma FlagBits(k: nat, flags: nat)
    requires flags in {0x63, 0x67}
    ensures var e := 4096 * k + flags;
      && e % 2 == 1 && e / 2 % 2 == 1 && e / 0x80 % 2 == 0 && (e / 4 % 2 == 1 <==> flags == 0x67)
      && (k < 0x100_0000_0000 ==> e / 0x8000_0000_0000_0000 == 0)
  {
    var e := 4096 * k + flags;
    QuotientIs(e, 2048 * k + flags / 2, 1, 2);
    QuotientIs(e, 1024 * k + flags / 4, 3, 4);
    QuotientIs(e, 32 * k, flags, 0x80);
    Parity(1024 * k, flags / 2);
    Parity(512 * k, flags / 4);
    Parity(16 * k, 0);
  }

  lemma Parity(m: nat, r: nat)
    ensures (2 * m + r) % 2 == r % 2
  {
  }

  /** An entry that points to table j. */
  lemma ToTable(regs: seq<nat>, j: nat, flags: nat, a: Access)
    requires RegsOk(regs) && j / 512 < |regs| && flags in {0x63, 0x67}
    ensures var e := TableAddr(regs, j) + flags;
      e < TWO64 && Frame(e) == TableAddr(regs, j) && !Last(e) && (Lets(e, a) <==> flags == 0x67)
  {
    TableAddrFacts(regs, j);
    hide TableAddr;
    FlagsOf(TableAddr(regs, j), flags, a);
    EntryParts(TableAddr(regs, j), flags);
  }

  lemma ZeroRefuses(a: Access)
    ensures !Lets(0, a)
  {
  }

  /** The words of the upper tables, in numbers. */
  lemma TopWords(w0: seq<u64>, w: seq<u64>, regs: seq<nat>, c: nat, t0: Tables, t: Tables, n: nat, i: nat)
    requires Live(w0, w, regs, c, t0, t, n) && i < ENTRIES
    ensures RegsOk(regs) && |regs| > 0 && 6 <= |t| <= 512 * |regs|
    ensures Load(w, TableAddr(regs, 0), i) ==
      if i == 511 then TableAddr(regs, 0) + 0x63 else if i == 510 then TableAddr(regs, 1) + 0x63
      else if i == 0 then TableAddr(regs, 2) + 0x67 else 0
  {
    hide Holds, Built, TableAddr, Present, Frame;
    ReadyParts(w0, regs, c, t0, n);
    LoadHolds(w, regs, t, 0, i);
    assert t[0] == t0[0];
  }

  lemma GibWords(w0: seq<u64>, w: seq<u64>, regs: seq<nat>, c: nat, t0: Tables, t: Tables, n: nat, g: nat)
    requires Live(w0, w, regs, c, t0, t, n) && g < ENTRIES
    ensures RegsOk(regs) && |regs| > 0 && |t0| == |t| <= 512 * |regs|
    ensures g <= (n + 1) / 512 ==> GibTableNo(g) < |t|
    ensures Load(w, TableAddr(regs, 2), g) == if g <= (n + 1) / 512 then TableAddr(regs, GibTableNo(g)) + 0x67 else 0
  {
    hide Holds, TableAddr, Present, Frame, Mapped;
    ReadyParts(w0, regs, c, t0, n);
    LoadHolds(w, regs, t, 2, g);
    assert Level(2) == 3 && t[2] == t0[2];
    if g <= (n + 1) / 512 {
      GibEntry(regs, c, t0, n, g);
    } else {
      LastGib(w0, regs, c, t0, n);
    }
  }

  lemma HugeWords(w0: seq<u64>, w: seq<u64>, regs: seq<nat>, c: nat, t0: Tables, t: Tables, n: nat, g: nat, i: nat)
    requires Live(w0, w, regs, c, t0, t, n) && g <= (n + 1) / 512 && g < ENTRIES && i < ENTRIES
    ensures RegsOk(regs) && |regs| > 0 && |t0| == |t| <= 512 * |regs| && GibTableNo(g) < |t|
    ensures var s := 512 * g + i;
      && (s < 2 ==> 4 + s < |t|) && (2 <= s < n + 2 ==> PageTableNo(s - 2) < |t|)
      && Load(w, TableAddr(regs, GibTableNo(g)), i) ==
         if s < 2 then TableAddr(regs, 4 + s) + 0x63
         else if s < n + 2 then TableAddr(regs, PageTableNo(s - 2)) + 0x67 else 0
  {
    hide Holds, Built, TableAddr, Present, Frame;
    GibWords(w0, w, regs, c, t0, t, n, g);
    ReadyParts(w0, regs, c, t0, n);
    PageEntryOf(regs, c, t0, n, g, i);
    LevelOfNumbers(0, g);
    LoadHolds(w, regs, t, GibTableNo(g), i);
    assert t[GibTableNo(g)] == t0[GibTableNo(g)];
  }

  /** The kernel's last entries after the construction: its own pages, and all of memory in GiB. */
  lemma KernelWords(w: seq<u64>, regs: seq<nat>, c: nat, t: Tables, n: nat, i: nat)
    requires Ready(w, regs, c, t, n) && i < ENTRIES
    ensures RegsOk(regs) && |regs| > 0
    ensures Load(w, TableAddr(regs, 1), i) == 0x4000_0000 * i + 0xe3
    ensures Load(w, TableAddr(regs, 4), i) == 0x1000 * i + 0x63
    ensures Load(w, TableAddr(regs, 5), i) == 0x20_0000 + 0x1000 * i + 0x63
  {
    hide Holds, TableAddr, Mapped;
    ReadyParts(w, regs, c, t, n);
    LoadHolds(w, regs, t, 1, i);
    LoadHolds(w, regs, t, 4, i);
    LoadHolds(w, regs, t, 5, i);
  }

  // ----- what user code reaches

  /** Top entries 510 and 511 are the kernel's; those between 0 and 510 are empty. */
  lemma UpperRefused(w0: seq<u64>, w: seq<u64>, regs: seq<nat>, c: nat, t0: Tables, t: Tables, n: nat, a: Access)
    requires Live(w0, w, regs, c, t0, t, n) && a.addr < TWO64 && Index(a.addr, 3) > 0
    ensures |regs| > 0 && !Reaches(w, TableAddr(regs, 0), a)
  {
    hide Live, TableAddr, Lets, Reaches3, Frame, Last;
    TopWords(w0, w, regs, c, t0, t, n, Index(a.addr, 3));
    ToTable(regs, 0, 0x63, a);
    ToTable(regs, 1, 0x63, a);
    ZeroRefuses(a);
  }

  lemma HighHalf(v: u64)
    requires v >= 0xffff_8000_0000_0000
    ensures Index(v, 3) >= 256
  {
    var q := v / 0x80_0000_0000;
    assert 0x1ff_ff00 <= q < 0x200_0000;
    QuotientIs(q, 0xffff, q - 0x1ff_fe00, 512);
  }

  lemma CanonicalLow(v: u64)
    ensures Canonical(v) && Index(v, 3) == 0 ==> v < TOP_SIZE
    ensures v < TOP_SIZE ==> Index(v, 3) == 0
  {
    if v >= 0xffff_8000_0000_0000 {
      HighHalf(v);
    }
  }

  /** Below 512 GiB the first two entries let user code through, as far as there are tables. */
  lemma LowReaches(w0: seq<u64>, w: seq<u64>, regs: seq<nat>, c: nat, t0: Tables, t: Tables, n: nat, a: Access)
    requires Live(w0, w, regs, c, t0, t, n) && a.addr < TOP_SIZE
    ensures |regs| > 0
    ensures var g := a.addr / GIB;
      Reaches(w, TableAddr(regs, 0), a) <==> g <= (n + 1) / 512 && Reaches2(w, TableAddr(regs, GibTableNo(g)), a)
  {
    hide Live, TableAddr, Lets, Reaches2, Frame, Last;
    var g := a.addr / GIB;
    assert Index(a.addr, 3) == 0 && Index(a.addr, 2) == g && Canonical(a.addr);
    TopWords(w0, w, regs, c, t0, t, n, 0);
    ToTable(regs, 2, 0x67, a);
    GibWords(w0, w, regs, c, t0, t, n, g);
    if g <= (n + 1) / 512 {
      ToTable(regs, GibTableNo(g), 0x67, a);
    }
    ZeroRefuses(a);
  }

  lemma HugeReaches(w0: seq<u64>, w: seq<u64>, regs: seq<nat>, c: nat, t0: Tables, t: Tables, n: nat, a: Access)
    requires Live(w0, w, regs, c, t0, t, n) && a.addr < TOP_SIZE && a.addr / GIB <= (n + 1) / 512
    ensures |regs| > 0
    ensures var s := a.addr / HUGE_PAGE_SIZE;
      Reaches2(w, TableAddr(regs, GibTableNo(a.addr / GIB)), a) <==>
        2 <= s < n + 2 && Lets(Load(w, TableAddr(regs, PageTableNo(s - 2)), Index(a.addr, 0)), a)
  {
    hide Live, TableAddr, Lets, Frame, Last;
    var (g, s) := (a.addr / GIB, a.addr / HUGE_PAGE_SIZE);
    LowIndices(a.addr);
    assert g == s / 512 && s == 512 * g + s % 512;
    HugeWords(w0, w, regs, c, t0, t, n, g, s % 512);
    if s < 2 {
      ToTable(regs, 4 + s, 0x63, a);
    } else if s < n + 2 {
      ToTable(regs, PageTableNo(s - 2), 0x67, a);
    }
    ZeroRefuses(a);
  }

  /**
   After any flag changes, user code reaches an address if and only if it lies in the user range and the level-1
   entry of its page lets the access through: nothing of the kernel's 4 MiB, of the page tables seen through the
   recursive slot, or of the remapping of physical memory, whatever the access.
   */
  lemma UserReach(w0: seq<u64>, w: seq<u64>, regs: seq<nat>, c: nat, t0: Tables, t: Tables, n: nat, a: Access)
    requires Live(w0, w, regs, c, t0, t, n) && a.addr < TWO64
    ensures |regs| > 0
    ensures Reaches(w, TableAddr(regs, 0), a) <==>
      0x40_0000 <= a.addr < 0x40_0000 + n * HUGE_PAGE_SIZE && Lets(UserEntry(w, regs, a.addr), a)
  {
    hide Live, TableAddr, Lets, Reaches2, Reaches3, Frame, Last, UserEntry, Translate, Load;
    TopWords(w0, w, regs, c, t0, t, n, 0);
    SizeOf(w0, w, regs, c, t0, t, n);
    CanonicalLow(a.addr);
    if Canonical(a.addr) && Index(a.addr, 3) == 0 {
      LowReaches(w0, w, regs, c, t0, t, n, a);
      var s := a.addr / HUGE_PAGE_SIZE;
      if a.addr / GIB <= (n + 1) / 512 {
        HugeReaches(w0, w, regs, c, t0, t, n, a);
      } else {
        assert s >= n + 2;
      }
      if 2 <= s < n + 2 {
        LiveEntry(w0, w, regs, c, t0, t, n, a.addr);
        assert (a.addr - KERNEL_BREAK) / HUGE_PAGE_SIZE == s - 2;
        LiveLoad(w0, w, regs, c, t0, t, n, PageTableNo(s - 2), Index(a.addr, 0));
      }
    } else if Index(a.addr, 3) > 0 {
      UpperRefused(w0, w, regs, c, t0, t, n, a);
    }
  }

  lemma SizeOf(w0: seq<u64>, w: seq<u64>, regs: seq<nat>, c: nat, t0: Tables, t: Tables, n: nat)
    requires Live(w0, w, regs, c, t0, t, n)
    ensures 0x40_0000 + n * HUGE_PAGE_SIZE <= TOP_SIZE
  {
    hide Holds, TableAddr, Kernel, Mapped;
  }

  lemma LiveLoad(w0: seq<u64>, w: seq<u64>, regs: seq<nat>, c: nat, t0: Tables, t: Tables, n: nat, j: nat, i: nat)
    requires Live(w0, w, regs, c, t0, t, n) && j < |t| && i < ENTRIES && |regs| > 0 && j / 512 < |regs|
    ensures Load(w, TableAddr(regs, j), i) == t[j][i]
  {
    hide Holds, TableAddr, Built;
    LoadHolds(w, regs, t, j, i);
  }

  // ----- the check as user memory models it

  lemma ValueBit(p: bv64, k: nat)
    requires k < 64
    ensures Value(p) / Pow2(k) % 2 == if BitAt(p, k) then 1 else 0
    ensures k == 63 ==> Value(p) / Pow2(k) == if BitAt(p, k) then 1 else 0
  {
    hide BitAt, Num, Pow2;
    var b := Bits(p);
    Quotients(b, k);
    FirstBit(b[k..]);
    if k == 63 {
      OneBit(b[63..]);
    }
  }

  lemma OneBit(b: seq<bool>)
    requires |b| == 1
    ensures Num(b) == if b[0] then 1 else 0
  {
    assert Num(b[1..]) == 0;
  }

  lemma LowPowers()
    ensures Pow2(0) == 1 && Pow2(1) == 2 && Pow2(2) == 4 && Pow2(63) == 0x8000_0000_0000_0000
  {
    hide Pow2;
    SmallPowers();
    Powers();
    Pow2Add(7, 2);
    Pow2Add(54, 9);
    PowerStarts();
  }

  lemma PowerStarts()
    ensures Pow2(0) == 1 && Pow2(1) == 2
  {
  }

  /** The check on an entry in memory is the check on its meaning. */
  lemma LetsIsMay(p: bv64, a: Access)
    ensures Lets(Value(p), a) <==> UserMay(AttrOf(p), a)
  {
    hide BitAt, Value, Pow2, AttrOf;
    LowPowers();
    ValueBit(p, 0);
    ValueBit(p, 1);
    ValueBit(p, 2);
    ValueBit(p, 63);
    AttrByBits(p);
  }

  lemma SamePage(w: seq<u64>, regs: seq<nat>, v: u64)
    requires |regs| > 0 && v >= KERNEL_BREAK
    ensures var p := (v - KERNEL_BREAK) / PAGE_SIZE;
      UserEntry(w, regs, v) == UserEntry(w, regs, KERNEL_BREAK + p * PAGE_SIZE)
  {
    var p := (v - KERNEL_BREAK) / PAGE_SIZE;
    assert (KERNEL_BREAK + p * PAGE_SIZE) / PAGE_SIZE == v / PAGE_SIZE;
  }

  /** The entries of the model are the words get_P1 reaches; pages behind them were given to the kernel. */
  ghost predicate EntriesAre(mem: Memory, w: seq<u64>, regs: seq<nat>, n: nat)
    requires |regs| > 0
    reads mem.pte
  {
    && mem.VaddrBreak() <= KERNEL_BREAK + n * HUGE_PAGE_SIZE <= TOP_SIZE
    && mem.bytes.Length == mem.pte.Length * PAGE_SIZE
    && (forall p :: 0 <= p < mem.pte.Length ==> Value(mem.pte[p]) == UserEntry(w, regs, KERNEL_BREAK + p * PAGE_SIZE))
    && (forall v: u64 :: mem.VaddrBreak() <= v < KERNEL_BREAK + n * HUGE_PAGE_SIZE ==>
         UserEntry(w, regs, v) / 4 % 2 == 0)
  }

  /**
   While a program runs, the processor's walk through the tables in memory lets an access through if and only if
   the program's image allows it; so the accesses ElfRun.AccessMemory refuses, all those outside the user range
   included, are the ones the hardware refuses.
   */
  lemma WalkIsAllowed(mem: Memory, img: Image, a: Access, w0: seq<u64>, w: seq<u64>, regs: seq<nat>, c: nat,
                      t0: Tables, t: Tables, n: nat)
    requires mem.Valid() && Running(mem.space, img) && Live(w0, w, regs, c, t0, t, n) && a.addr < TWO64
    requires |regs| > 0 && EntriesAre(mem, w, regs, n)
    ensures Reaches(w, TableAddr(regs, 0), a) <==> Allowed(img, a)
  {
    hide Live, TableAddr, Reaches, Lets, UserEntry, Value, AttrOf, FrameOf, Allowed, UserMay, Running;
    UserReach(w0, w, regs, c, t0, t, n, a);
    AccessAllowed(mem.space, img, a);
    if KERNEL_BREAK <= a.addr < mem.VaddrBreak() {
      var p := (a.addr - KERNEL_BREAK) / PAGE_SIZE;
      SamePage(w, regs, a.addr);
      LetsIsMay(mem.pte[p], a);
    } else if KERNEL_BREAK <= a.addr < KERNEL_BREAK + n * HUGE_PAGE_SIZE {
      KernelRefuses(UserEntry(w, regs, a.addr), a);
    }
  }

  lemma KernelRefuses(e: u64, a: Access)
    requires e / 4 % 2 == 0
    ensures !Lets(e, a)
  {
  }
}
