/** What the processor makes of a 4-level page table, and the recursive mapping of lib/memory.cpp. */
module PageWalk {
  import opened Words
  import opened PhysicalPages

  const GIB: nat := 0x4000_0000
  const PRESENT: nat := 0x1
  const WRITABLE: nat := 0x2
  const USER: nat := 0x4
  const ACCESSED: nat := 0x20
  const DIRTY: nat := 0x40
  const HUGE_BIT: nat := 0x80
  const DUCK_WRITTEN: nat := 0x200

  // ----- entries

  /** The entry for a page-aligned address and flags. */
  function Entry(addr: nat, flags: nat): nat {
    addr + flags
  }

  function Frame(e: u64): nat {
    e / PAGE_SIZE % 0x100_0000_0000 * PAGE_SIZE
  }

  predicate Present(e: u64) {
    e % 2 == 1
  }

  predicate IsHuge(e: u64) {
    e / HUGE_BIT % 2 == 1
  }

  lemma EntryParts(addr: nat, flags: nat)
    requires addr % PAGE_SIZE == 0 && addr < 0x10_0000_0000_0000 && flags < PAGE_SIZE
    ensures var e := Entry(addr, flags);
      && e < TWO64 && Frame(e) == addr && (Present(e) <==> flags % 2 == 1) && (IsHuge(e) <==> flags / HUGE_BIT % 2 == 1)
  {
    var e := addr + flags;
    assert e == addr / PAGE_SIZE * PAGE_SIZE + flags;
    assert e / PAGE_SIZE == addr / PAGE_SIZE;
    assert e / HUGE_BIT == addr / PAGE_SIZE * 32 + flags / HUGE_BIT;
  }

  // ----- the walk

  datatype Phys = Fault | At(addr: nat)

  /** The four table indices of an address: P4_index to P1_index are levels 3 to 0. */
  function Index(v: u64, level: nat): (i: nat)
    requires level < 4
    ensures i < ENTRIES
  {
    (if level == 3 then v / 0x80_0000_0000
     else if level == 2 then v / GIB
     else if level == 1 then v / HUGE_PAGE_SIZE
     else v / PAGE_SIZE)
    % ENTRIES
  }

  /** Memory beyond w reads as zero. */
  function Load(w: seq<u64>, table: nat, i: nat): u64 {
    if table / 8 + i < |w| then w[table / 8 + i] else 0
  }

  function Translate(w: seq<u64>, p4: nat, v: u64): Phys {
    var e4 := Load(w, p4, Index(v, 3));
    if !Present(e4) then Fault else Translate3(w, Frame(e4), v)
  }

  function Translate3(w: seq<u64>, p3: nat, v: u64): Phys {
    var e3 := Load(w, p3, Index(v, 2));
    if !Present(e3) then Fault
    else if IsHuge(e3) then At(Frame(e3) / GIB * GIB + v % GIB)
    else Translate2(w, Frame(e3), v)
  }

  function Translate2(w: seq<u64>, p2: nat, v: u64): Phys {
    var e2 := Load(w, p2, Index(v, 1));
    if !Present(e2) then Fault
    else if IsHuge(e2) then At(Frame(e2) / HUGE_PAGE_SIZE * HUGE_PAGE_SIZE + v % HUGE_PAGE_SIZE)
    else Translate1(w, Frame(e2), v)
  }

  function Translate1(w: seq<u64>, p1: nat, v: u64): Phys {
    var e1 := Load(w, p1, Index(v, 0));
    if !Present(e1) then Fault else At(Frame(e1) + v % PAGE_SIZE)
  }

  // ----- the recursive mapping

  /** Whether the walk of v gets as far as a level-1 table. */
  predicate FourLevels(w: seq<u64>, p4: nat, v: u64) {
    var e4 := Load(w, p4, Index(v, 3));
    var e3 := Load(w, Frame(e4), Index(v, 2));
    var e2 := Load(w, Frame(e3), Index(v, 1));
    Present(e4) && !IsHuge(e4) && Present(e3) && !IsHuge(e3) && Present(e2) && !IsHuge(e2)
  }

  /** Where the level-1 entry of v lies in physical memory. */
  function EntryAddress(w: seq<u64>, p4: nat, v: u64): nat {
    var e4 := Load(w, p4, Index(v, 3));
    var e3 := Load(w, Frame(e4), Index(v, 2));
    var e2 := Load(w, Frame(e3), Index(v, 1));
    Frame(e2) + 8 * Index(v, 0)
  }

  /** The address get_P1 reads and writes. */
  function GetP1(v: u64): u64 {
    TWO64 - 0x80_0000_0000 + v / PAGE_SIZE % 0x10_0000_0000 * 8
  }

  /** That is the source's bit expression. */
  lemma GetP1Bits(v: bv64)
    ensures ((v >> 9) & !7) | 0xffff_ff80_0000_0000 == 0xffff_ff80_0000_0000 + (((v >> 12) & 0xf_ffff_ffff) << 3)
  {
  }

  /** Through slot 511 every index moves down one level. */
  lemma ShiftedIndices(v: u64)
    ensures var a := GetP1(v);
      && Index(a, 3) == 511 && Index(a, 2) == Index(v, 3) && Index(a, 1) == Index(v, 2) && Index(a, 0) == Index(v, 1)
      && a % PAGE_SIZE == 8 * Index(v, 0)
  {
    var n := v / PAGE_SIZE % 0x10_0000_0000;
    SplitIndices(v);
    var (i3, i2, i1, i0) := (Index(v, 3), Index(v, 2), Index(v, 1), Index(v, 0));
    assert n == ((i3 * 512 + i2) * 512 + i1) * 512 + i0;
    JoinedIndices(i3, i2, i1, i0);
  }

  lemma SplitIndices(v: u64)
    ensures v / PAGE_SIZE % 0x10_0000_0000
         == ((Index(v, 3) * 512 + Index(v, 2)) * 512 + Index(v, 1)) * 512 + Index(v, 0)
  {
    var n := v / PAGE_SIZE;
    assert v / HUGE_PAGE_SIZE == n / 512 && v / GIB == n / 512 / 512 && v / 0x80_0000_0000 == n / 512 / 512 / 512;
  }

  lemma JoinedIndices(i3: nat, i2: nat, i1: nat, i0: nat)
    requires i3 < 512 && i2 < 512 && i1 < 512 && i0 < 512
    ensures var a := TWO64 - 0x80_0000_0000 + (((i3 * 512 + i2) * 512 + i1) * 512 + i0) * 8;
      && 0 <= a < TWO64
      && Index(a, 3) == 511 && Index(a, 2) == i3 && Index(a, 1) == i2 && Index(a, 0) == i1 && a % PAGE_SIZE == 8 * i0
  {
    var m := (i3 * 512 + i2) * 512 + i1;
    var a := TWO64 - 0x80_0000_0000 + (m * 512 + i0) * 8;
    PageOf(a, 0xf_ffff_f800_0000 + m, 8 * i0);
    var n := 0xf_ffff_f800_0000 + m;
    TableOf(n, 0x7ff_fffc_0000 + i3 * 512 + i2, i1);
    TableOf(n / 512, 0x3_ffff_fe00 + i3, i2);
    TableOf(n / 512 / 512, 0x1ff_ffff, i3);
    HigherIndices(a);
  }

  lemma PageOf(a: nat, n: nat, r: nat)
    requires a == n * PAGE_SIZE + r && r < PAGE_SIZE
    ensures a / PAGE_SIZE == n && a % PAGE_SIZE == r
  {
  }

  lemma TableOf(n: nat, m: nat, i: nat)
    requires n == m * 512 + i && i < 512
    ensures n / 512 == m && n % 512 == i
  {
  }

  lemma HigherIndices(a: u64)
    ensures a / HUGE_PAGE_SIZE == a / PAGE_SIZE / 512 && a / GIB == a / PAGE_SIZE / 512 / 512
      && a / 0x80_0000_0000 == a / PAGE_SIZE / 512 / 512 / 512
  {
  }

  /**
   With the top table in its own slot 511, translating the address of get_P1 gives the level-1 entry that the
   four indices of v lead to, for every v mapped through four levels.
   */
  lemma RecursiveMapping(w: seq<u64>, p4: nat, v: u64)
    requires var self := Load(w, p4, 511); Present(self) && !IsHuge(self) && Frame(self) == p4
    requires FourLevels(w, p4, v)
    ensures Translate(w, p4, GetP1(v)) == At(EntryAddress(w, p4, v))
  {
    hide Load, Present, IsHuge, Frame, GetP1, Index;
    ShiftedIndices(v);
  }

  /** And the entry found there is the one that decides where v itself goes. */
  lemma EntryDecides(w: seq<u64>, p4: nat, v: u64)
    requires FourLevels(w, p4, v)
    ensures EntryAddress(w, p4, v) % 8 == 0
    ensures var e1 := Load(w, EntryAddress(w, p4, v), 0);
      Translate(w, p4, v) == if Present(e1) then At(Frame(e1) + v % PAGE_SIZE) else Fault
  {
    hide Present, IsHuge, Index;
  }
}
