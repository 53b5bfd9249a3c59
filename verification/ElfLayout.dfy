/** Validation and layout of a 64-bit program (lib/elf.cpp), in 64-bit arithmetic that wraps. */
module ElfLayout {
  import opened Words

  // ----- reading the file

  function LittleEndian(b: seq<u8>): nat {
    if b == [] then 0 else b[0] + 256 * LittleEndian(b[1..])
  }

  function Pow256(n: nat): nat {
    if n == 0 then 1 else 256 * Pow256(n - 1)
  }

  lemma LittleEndianBound(b: seq<u8>)
    ensures LittleEndian(b) < Pow256(|b|)
  {
    if b != [] { LittleEndianBound(b[1..]); }
  }

  lemma Pow256Values()
    ensures Pow256(2) == TWO16 && Pow256(4) == TWO32 && Pow256(8) == TWO64
  {
    assert Pow256(6) == 0x1_0000_0000_0000;
  }

  function U16At(buf: seq<u8>, off: nat): u16
    requires off + 2 <= |buf|
  {
    Pow256Values();
    LittleEndianBound(buf[off..off + 2]);
    LittleEndian(buf[off..off + 2])
  }

  function U32At(buf: seq<u8>, off: nat): u32
    requires off + 4 <= |buf|
  {
    Pow256Values();
    LittleEndianBound(buf[off..off + 4]);
    LittleEndian(buf[off..off + 4])
  }

  function U64At(buf: seq<u8>, off: nat): u64
    requires off + 8 <= |buf|
  {
    Pow256Values();
    LittleEndianBound(buf[off..off + 8]);
    LittleEndian(buf[off..off + 8])
  }

  /** A program header. */
  datatype Phdr = Phdr(pType: u32, flags: u32, offset: u64, vaddr: u64, filesz: u64, memsz: u64, align: u64)
  {
    predicate Load() { pType == 1 }
    predicate Executable() { flags % 2 == 1 }
    predicate Writable() { flags / 2 % 2 == 1 }
  }

  const EHDR_SIZE: nat := 64
  const PHDR_SIZE: nat := 56

  function PhdrAt(buf: seq<u8>, off: nat): Phdr
    requires off + PHDR_SIZE <= |buf|
  {
    Phdr(U32At(buf, off), U32At(buf, off + 4), U64At(buf, off + 8), U64At(buf, off + 16),
         U64At(buf, off + 32), U64At(buf, off + 40), U64At(buf, off + 48))
  }

  function Entry(buf: seq<u8>): u64 requires |buf| >= EHDR_SIZE { U64At(buf, 24) }
  function PhOff(buf: seq<u8>): u64 requires |buf| >= EHDR_SIZE { U64At(buf, 32) }
  function PhEntSize(buf: seq<u8>): u16 requires |buf| >= EHDR_SIZE { U16At(buf, 54) }
  function PhNum(buf: seq<u8>): u16 requires |buf| >= EHDR_SIZE { U16At(buf, 56) }

  /** The checks on the file header: magic, 64-bit, little-endian, ABI, fixed-address x86-64 executable. */
  predicate HeaderOk(buf: seq<u8>) {
    && |buf| >= EHDR_SIZE
    && buf[0] == 0x7f && buf[1] == 0x45 && buf[2] == 0x4c && buf[3] == 0x46
    && buf[4] == 2 && buf[5] == 1 && buf[6] == 1 && (buf[7] == 0 || buf[7] == 3)
    && U16At(buf, 16) == 2 && U16At(buf, 18) == 62 && U32At(buf, 20) == 1
    && PhOff(buf) < |buf| && PhEntSize(buf) < |buf| && PhNum(buf) < |buf|
  }

  // ----- what is acceptable, in true integers

  function PhdrOff(buf: seq<u8>, i: nat): nat
    requires |buf| >= EHDR_SIZE
  {
    PhOff(buf) + i * PhEntSize(buf)
  }

  predicate PhdrsInFile(buf: seq<u8>, n: nat)
    requires |buf| >= EHDR_SIZE
  {
    forall i :: 0 <= i < n ==> PhdrOff(buf, i) + PHDR_SIZE <= |buf|
  }

  /** The loadable segments among the first n program headers, in order. */
  function Segments(buf: seq<u8>, n: nat): seq<Phdr>
    requires |buf| >= EHDR_SIZE && PhdrsInFile(buf, n)
  {
    if n == 0 then []
    else
      var p := PhdrAt(buf, PhdrOff(buf, n - 1));
      if p.Load() then Segments(buf, n - 1) + [p] else Segments(buf, n - 1)
  }

  predicate SegmentOk(p: Phdr, len: nat) {
    && (p.filesz != 0 ==> p.offset + p.filesz <= len)
    && (p.align == PAGE_SIZE || p.align == HUGE_PAGE_SIZE)
    && p.filesz <= p.memsz && p.vaddr + p.memsz < TWO64
  }

  /** Lowest page and end of the segments, from given starting values. */
  function Lowest(segs: seq<Phdr>): nat {
    if segs == [] then TWO64 - 1 else Min(Lowest(segs[..|segs| - 1]), segs[|segs| - 1].vaddr)
  }

  function Highest(segs: seq<Phdr>): nat {
    if segs == [] then 0
    else Max(Highest(segs[..|segs| - 1]), segs[|segs| - 1].vaddr + segs[|segs| - 1].memsz)
  }

  datatype AppConfig = AppConfig(memoryHardLimit: u64, stdin: seq<u8>, stdoutMaxSize: u64, stderrMaxSize: u64,
                                 ib: seq<u8>, ob: seq<u8>, obNeedClear: bool)

  /** Where everything goes; each region ends where the next one starts. */
  datatype Layout = Layout(loadBreak: nat, stdout: nat, stderr: nat, ib: nat, ob: nat,
                           image: nat, random: nat, break_: nat)

  /** Page-rounded sizes laid end to end, in true integers; stdin starts at loadBreak. */
  function LayoutOf(c: AppConfig): Layout {
    var loadBreak := KERNEL_BREAK + RoundUp(c.memoryHardLimit, PAGE_SIZE);
    var stdout := loadBreak + RoundUp(|c.stdin|, PAGE_SIZE);
    var stderr := stdout + RoundUp(c.stdoutMaxSize, PAGE_SIZE);
    var ib := stderr + RoundUp(c.stderrMaxSize, PAGE_SIZE);
    var ob := ib + RoundUp(|c.ib|, PAGE_SIZE);
    var image := ob + RoundUp(|c.ob|, PAGE_SIZE);
    Layout(loadBreak, stdout, stderr, ib, ob, image, image + PAGE_SIZE, image + 2 * PAGE_SIZE)
  }

  /** Every header, segment and region where it should be, without any wrap-around. */
  predicate Acceptable(buf: seq<u8>, c: AppConfig, vaddrBreak: nat) {
    && HeaderOk(buf) && PhdrsInFile(buf, PhNum(buf))
    && var segs := Segments(buf, PhNum(buf));
    && (forall i :: 0 <= i < |segs| ==> SegmentOk(segs[i], |buf|))
    && Fits(Lowest(segs), Highest(segs), c, vaddrBreak)
  }

  /** The segments start in the first page, leave a page for the stack below the limit, and all regions fit. */
  predicate Fits(lowest: nat, highest: nat, c: AppConfig, vaddrBreak: nat) {
    && RoundDown(lowest, PAGE_SIZE) == KERNEL_BREAK
    && KERNEL_BREAK < RoundUp(highest, PAGE_SIZE)
    && RoundUp(highest, PAGE_SIZE) + PAGE_SIZE <= LayoutOf(c).loadBreak
    && LayoutOf(c).break_ <= vaddrBreak
  }

  // ----- the checks as they are made

  /** round_up on 64-bit values */
  function RoundUp64(x: u64): u64 {
    Wrap64(x + PAGE_SIZE - 1) / PAGE_SIZE * PAGE_SIZE
  }

  lemma RoundUp64Exact(x: u64)
    ensures RoundUp(x, PAGE_SIZE) < TWO64 ==> RoundUp64(x) == RoundUp(x, PAGE_SIZE)
    ensures RoundUp(x, PAGE_SIZE) >= TWO64 ==> RoundUp64(x) == 0 && RoundUp(x, PAGE_SIZE) == TWO64 && x > 0
    ensures x <= RoundUp(x, PAGE_SIZE) < x + PAGE_SIZE && RoundUp(x, PAGE_SIZE) % PAGE_SIZE == 0
  {
  }

  /** One special region: its end, or failure if the size or the end does not fit 64 bits. */
  function Allocate(curr: u64, size: u64): (bool, u64) {
    var allocSize := RoundUp64(size);
    var break_ := Wrap64(curr + allocSize);
    (allocSize >= size && break_ >= curr, break_)
  }

  lemma WrapSum(a: u64, b: u64)
    ensures Wrap64(a + b) == if a + b < TWO64 then a + b else a + b - TWO64
  {
  }

  lemma AllocateExact(curr: u64, size: u64)
    ensures Allocate(curr, size).0 <==> curr + RoundUp(size, PAGE_SIZE) < TWO64
    ensures Allocate(curr, size).0 ==> Allocate(curr, size).1 == curr + RoundUp(size, PAGE_SIZE)
  {
    RoundUp64Exact(size);
    WrapSum(curr, RoundUp64(size));
    hide RoundUp, RoundUp64, Wrap64;
  }

  /** The checks on one segment as the loop makes them: sums may have wrapped. */
  predicate SegmentPasses(p: Phdr, len: nat) {
    && (p.filesz != 0 ==> p.offset <= len && Wrap64(p.offset + p.filesz) <= len)
    && (p.align == PAGE_SIZE || p.align == HUGE_PAGE_SIZE)
    && p.filesz <= p.memsz && Wrap64(p.vaddr + p.memsz) >= p.vaddr
  }

  /** A wrapped sum can only slip through for a segment that ends too high anyway. */
  lemma SegmentPassesExact(p: Phdr, len: u32)
    ensures SegmentOk(p, len) ==> SegmentPasses(p, len)
    ensures SegmentPasses(p, len) ==> p.vaddr + p.memsz < TWO64
    ensures SegmentPasses(p, len) && p.vaddr + p.memsz <= MAX_MEMORY_SIZE ==> SegmentOk(p, len)
  {
    WrapSum(p.vaddr, p.memsz);
    WrapSum(p.offset, p.filesz);
    hide Wrap64;
  }

  /** The file range reaches past the end of the file, and even past 2^64, so that its end wraps around. */
  predicate FileRangeWraps(p: Phdr, len: nat) {
    && p.filesz != 0 && p.offset <= len && p.offset + p.filesz >= TWO64
    && (p.align == PAGE_SIZE || p.align == HUGE_PAGE_SIZE)
    && p.filesz <= p.memsz && p.vaddr + p.memsz < TWO64
  }

  /**
   What the checks on one segment let through: the segments that are in order, and those whose file range wraps
   around. The latter end so high that the check on the highest address refuses the file.
   */
  lemma SegmentTest(p: Phdr, len: u32)
    ensures SegmentPasses(p, len) <==> SegmentOk(p, len) || FileRangeWraps(p, len)
    ensures FileRangeWraps(p, len) ==> !SegmentOk(p, len) && p.vaddr + p.memsz >= TWO64 - len > MAX_MEMORY_SIZE
  {
    WrapSum(p.vaddr, p.memsz);
    WrapSum(p.offset, p.filesz);
    hide Wrap64;
  }

  /** One that should not pass and does: 2^64 - 1 bytes from offset 1 of a file of 120 bytes. */
  lemma SegmentMissed(buf: seq<u8>, c: AppConfig, vaddrBreak: nat)
    ensures var p := Phdr(1, 5, 1, 0, TWO64 - 1, TWO64 - 1, PAGE_SIZE);
      && SegmentPasses(p, 120) && p.offset + p.filesz > 120 && p.vaddr + p.memsz < TWO64
      && (HeaderOk(buf) && |buf| == 120 && PhdrsInFile(buf, PhNum(buf)) && p in Segments(buf, PhNum(buf))
          ==> !Acceptable(buf, c, vaddrBreak))
  {
    hide HeaderOk, PhdrsInFile, Segments, Fits;
    var p := Phdr(1, 5, 1, 0, TWO64 - 1, TWO64 - 1, PAGE_SIZE);
    SegmentTest(p, 120);
  }

  lemma SegmentsBounded(segs: seq<Phdr>, i: nat)
    requires i < |segs|
    ensures segs[i].vaddr + segs[i].memsz <= Highest(segs) && Lowest(segs) <= segs[i].vaddr
  {
    var n := |segs| - 1;
    if i < n {
      assert segs[..n][i] == segs[i];
      SegmentsBounded(segs[..n], i);
    }
  }

  predicate AllPass(segs: seq<Phdr>, len: nat) {
    forall i :: 0 <= i < |segs| ==> SegmentPasses(segs[i], len)
  }

  lemma AllPassSnoc(segs: seq<Phdr>, p: Phdr, len: nat)
    ensures AllPass(segs + [p], len) <==> AllPass(segs, len) && SegmentPasses(p, len)
    ensures Lowest(segs + [p]) == Min(Lowest(segs), p.vaddr)
    ensures Highest(segs + [p]) == Max(Highest(segs), p.vaddr + p.memsz)
  {
    hide SegmentPasses;
    assert (segs + [p])[..|segs|] == segs;
    assert AllPass(segs + [p], len) ==> SegmentPasses((segs + [p])[|segs|], len);
    forall i | 0 <= i < |segs| && AllPass(segs + [p], len)
      ensures SegmentPasses(segs[i], len)
    {
      assert SegmentPasses((segs + [p])[i], len);
    }
  }

  /** The header checks on the first n program headers. */
  predicate Passes(buf: seq<u8>, n: nat)
    requires |buf| >= EHDR_SIZE
  {
    PhdrsInFile(buf, n) && AllPass(Segments(buf, n), |buf|)
  }

  lemma PassesStart(buf: seq<u8>)
    requires |buf| >= EHDR_SIZE
    ensures Passes(buf, 0) && PhdrsInFile(buf, 0) && Lowest(Segments(buf, 0)) == TWO64 - 1
      && Highest(Segments(buf, 0)) == 0
  {
  }

  lemma SegmentsStep(buf: seq<u8>, i: nat)
    requires |buf| >= EHDR_SIZE && PhdrsInFile(buf, i + 1)
    ensures PhdrsInFile(buf, i) && PhdrOff(buf, i) + PHDR_SIZE <= |buf|
    ensures var p := PhdrAt(buf, PhdrOff(buf, i));
      Segments(buf, i + 1) == if p.Load() then Segments(buf, i) + [p] else Segments(buf, i)
  {
    hide PhdrAt, PhOff, PhEntSize;
  }

  /** One more header: it must lie in the file, and if it is loadable it must pass. */
  lemma PassesStep(buf: seq<u8>, i: nat)
    requires |buf| >= EHDR_SIZE && Passes(buf, i)
    ensures PhdrsInFile(buf, i) && (PhdrsInFile(buf, i + 1) <==> PhdrOff(buf, i) + PHDR_SIZE <= |buf|)
    ensures PhdrsInFile(buf, i + 1) ==>
      var (p, segs, segs') := (PhdrAt(buf, PhdrOff(buf, i)), Segments(buf, i), Segments(buf, i + 1));
      && (Passes(buf, i + 1) <==> (p.Load() ==> SegmentPasses(p, |buf|)))
      && Lowest(segs') == (if p.Load() then Min(Lowest(segs), p.vaddr) else Lowest(segs))
      && Highest(segs') == (if p.Load() then Max(Highest(segs), p.vaddr + p.memsz) else Highest(segs))
  {
    hide Segments, PhdrAt, SegmentPasses, PhOff, PhEntSize, AllPass, Lowest, Highest;
    if PhdrsInFile(buf, i + 1) {
      SegmentsStep(buf, i);
      AllPassSnoc(Segments(buf, i), PhdrAt(buf, PhdrOff(buf, i)), |buf|);
    }
  }

  /** A failure among the first i headers is a failure of the whole. */
  lemma PassesPrefix(buf: seq<u8>, i: nat, n: nat)
    requires |buf| >= EHDR_SIZE && i <= n && Passes(buf, n)
    ensures Passes(buf, i)
  {
    hide Passes;
    if i < n {
      PassesDown(buf, n - 1);
      PassesPrefix(buf, i, n - 1);
    }
  }

  lemma PassesDown(buf: seq<u8>, n: nat)
    requires |buf| >= EHDR_SIZE && Passes(buf, n + 1)
    ensures Passes(buf, n)
  {
    hide Segments, PhdrAt, SegmentPasses, PhOff, PhEntSize, AllPass, Lowest, Highest;
    SegmentsStep(buf, n);
    AllPassSnoc(Segments(buf, n), PhdrAt(buf, PhdrOff(buf, n)), |buf|);
  }

  /** The first loop over the program headers. */
  method CheckSegments(buf: seq<u8>) returns (ok: bool, minVaddr: u64, maxVaddr: u64)
    requires HeaderOk(buf) && |buf| < TWO32
    ensures ok <==> Passes(buf, PhNum(buf))
    ensures ok ==> PhdrsInFile(buf, PhNum(buf))
    ensures ok ==> minVaddr == Lowest(Segments(buf, PhNum(buf))) && maxVaddr == Highest(Segments(buf, PhNum(buf)))
  {
    hide Passes, PhdrsInFile, SegmentPasses, Segments, Lowest, Highest, PhdrAt, PhOff, PhEntSize, PhNum;
    minVaddr, maxVaddr := TWO64 - 1, 0;
    PassesStart(buf);
    for i := 0 to PhNum(buf)
      invariant Passes(buf, i) && PhdrsInFile(buf, i)
      invariant minVaddr == Lowest(Segments(buf, i)) && maxVaddr == Highest(Segments(buf, i))
    {
      PassesStep(buf, i);
      var off := PhOff(buf) + i * PhEntSize(buf);
      ghost var passes := Passes(buf, PhNum(buf));
      if passes {
        PassesPrefix(buf, i + 1, PhNum(buf));
        PassesInFile(buf, i + 1);
      }
      if off + PHDR_SIZE > |buf| {
        return false, minVaddr, maxVaddr;
      }
      var p := PhdrAt(buf, off);
      if !p.Load() {
        continue;
      }
      if !SegmentPasses(p, |buf|) {
        return false, minVaddr, maxVaddr;
      }
      SegmentPassesExact(p, |buf|);
      minVaddr := Min(minVaddr, p.vaddr);
      maxVaddr := Max(maxVaddr, p.vaddr + p.memsz);
    }
    ok := true;
  }

  lemma PassesInFile(buf: seq<u8>, n: nat)
    requires |buf| >= EHDR_SIZE && Passes(buf, n)
    ensures PhdrsInFile(buf, n)
  {
  }

  /** Accepting in wrapping arithmetic is accepting in true integers. */
  lemma SegmentsExact(segs: seq<Phdr>, len: u32)
    requires Highest(segs) <= MAX_MEMORY_SIZE
    ensures AllPass(segs, len) <==> forall i :: 0 <= i < |segs| ==> SegmentOk(segs[i], len)
  {
    hide SegmentPasses, SegmentOk, Highest, Lowest;
    forall i | 0 <= i < |segs|
      ensures SegmentPasses(segs[i], len) <==> SegmentOk(segs[i], len)
    {
      SegmentPassesExact(segs[i], len);
      SegmentsBounded(segs, i);
    }
  }

  lemma LayoutOrdered(c: AppConfig)
    ensures var l := LayoutOf(c);
      KERNEL_BREAK <= l.loadBreak <= l.stdout <= l.stderr <= l.ib <= l.ob <= l.image < l.random < l.break_
  {
  }

  /** The special regions, one after the other; anything that does not fit 64 bits is refused. */
  method PlanRegions(c: AppConfig, loadBreak: u64) returns (ok: bool, l: Layout)
    requires |c.stdin| < TWO64 && |c.ib| < TWO64 && |c.ob| < TWO64
    requires loadBreak == LayoutOf(c).loadBreak
    ensures ok <==> LayoutOf(c).break_ < TWO64
    ensures ok ==> l == LayoutOf(c)
  {
    l := LayoutOf(AppConfig(0, [], 0, 0, [], [], false));
    LayoutOrdered(c);
    AllocateExact(loadBreak, |c.stdin|);
    var (ok1, stdinBreak) := Allocate(loadBreak, |c.stdin|);
    if !ok1 { return false, l; }
    AllocateExact(stdinBreak, c.stdoutMaxSize);
    var (ok2, stdoutBreak) := Allocate(stdinBreak, c.stdoutMaxSize);
    if !ok2 { return false, l; }
    AllocateExact(stdoutBreak, c.stderrMaxSize);
    var (ok3, stderrBreak) := Allocate(stdoutBreak, c.stderrMaxSize);
    if !ok3 { return false, l; }
    AllocateExact(stderrBreak, |c.ib|);
    var (ok4, ibBreak) := Allocate(stderrBreak, |c.ib|);
    if !ok4 { return false, l; }
    AllocateExact(ibBreak, |c.ob|);
    var (ok5, obBreak) := Allocate(ibBreak, |c.ob|);
    if !ok5 { return false, l; }
    WrapSum(obBreak, PAGE_SIZE);
    var imageBreak := Wrap64(obBreak + PAGE_SIZE);
    if imageBreak < obBreak { return false, l; }
    WrapSum(imageBreak, PAGE_SIZE);
    var randomBreak := Wrap64(imageBreak + PAGE_SIZE);
    if randomBreak < imageBreak { return false, l; }
    l := Layout(loadBreak, stdinBreak, stdoutBreak, stderrBreak, ibBreak, obBreak, imageBreak, randomBreak);
    ok := true;
  }

  lemma AcceptableExact(buf: seq<u8>, c: AppConfig, vaddrBreak: nat)
    requires HeaderOk(buf) && |buf| < TWO32 && vaddrBreak <= MAX_MEMORY_SIZE
    ensures Acceptable(buf, c, vaddrBreak) <==>
      && Passes(buf, PhNum(buf)) && PhdrsInFile(buf, PhNum(buf))
      && Fits(Lowest(Segments(buf, PhNum(buf))), Highest(Segments(buf, PhNum(buf))), c, vaddrBreak)
  {
    hide SegmentPasses, SegmentOk, Highest, Lowest, Segments, PhdrsInFile, AllPass;
    if PhdrsInFile(buf, PhNum(buf)) {
      var segs := Segments(buf, PhNum(buf));
      LayoutOrdered(c);
      if Highest(segs) <= MAX_MEMORY_SIZE {
        SegmentsExact(segs, |buf|);
      }
    }
  }

  lemma LimitOf(c: AppConfig)
    ensures LayoutOf(c).loadBreak == KERNEL_BREAK + RoundUp(c.memoryHardLimit, PAGE_SIZE)
  {
  }

  lemma RoundDownFacts(x: nat)
    ensures RoundDown(x, PAGE_SIZE) <= x < RoundDown(x, PAGE_SIZE) + PAGE_SIZE
  {
  }

  /** From the bounds of the segments on. */
  method ValidateBounds(lowest: u64, highest: u64, c: AppConfig, vaddrBreak: nat) returns (ok: bool, l: Layout)
    requires |c.stdin| < TWO64 && |c.ib| < TWO64 && |c.ob| < TWO64
    requires KERNEL_BREAK <= vaddrBreak <= MAX_MEMORY_SIZE
    ensures ok <==> Fits(lowest, highest, c, vaddrBreak)
    ensures ok ==> l == LayoutOf(c)
  {
    hide RoundUp, RoundDown, RoundUp64, Wrap64, LayoutOf;
    l := LayoutOf(AppConfig(0, [], 0, 0, [], [], false));
    LayoutOrdered(c);
    LimitOf(c);
    RoundDownFacts(lowest);
    var minVaddr := RoundDown(lowest, PAGE_SIZE);
    RoundUp64Exact(highest);
    var maxVaddr := RoundUp64(highest);
    RoundUp64Exact(c.memoryHardLimit);
    if minVaddr < KERNEL_BREAK { return false, l; }
    if maxVaddr <= minVaddr || maxVaddr > vaddrBreak { return false, l; }
    var memoryLimit := RoundUp64(c.memoryHardLimit);
    var memoryNeeded := maxVaddr - minVaddr;
    if memoryLimit < memoryNeeded { return false, l; }
    WrapSum(memoryNeeded, PAGE_SIZE);
    if memoryLimit < Wrap64(memoryNeeded + PAGE_SIZE) { return false, l; }
    if minVaddr != KERNEL_BREAK { return false, l; }
    WrapSum(KERNEL_BREAK, memoryLimit);
    var loadBreak := Wrap64(KERNEL_BREAK + memoryLimit);
    if loadBreak < KERNEL_BREAK || loadBreak > vaddrBreak { return false, l; }
    ok, l := PlanRegions(c, loadBreak);
    if !ok || l.break_ < loadBreak || l.break_ > vaddrBreak { return false, l; }
  }

  /**
   All checks of load_elf64 before it touches memory. They accept exactly the programs that are acceptable
   in true integers, although every sum and rounding is made in 64 bits and may wrap.
   */
  method Validate(buf: seq<u8>, c: AppConfig, vaddrBreak: nat) returns (ok: bool, l: Layout)
    requires |buf| < TWO32 && |c.stdin| < TWO64 && |c.ib| < TWO64 && |c.ob| < TWO64
    requires KERNEL_BREAK <= vaddrBreak <= MAX_MEMORY_SIZE
    ensures ok <==> Acceptable(buf, c, vaddrBreak)
    ensures ok ==> l == LayoutOf(c)
  {
    hide Passes, Segments, Lowest, Highest, PhdrsInFile, SegmentOk, Fits, LayoutOf;
    l := LayoutOf(AppConfig(0, [], 0, 0, [], [], false));
    if !HeaderOk(buf) { return false, l; }
    hide Acceptable, HeaderOk;
    AcceptableExact(buf, c, vaddrBreak);
    var passes, lowest, highest := CheckSegments(buf);
    if !passes { return false, l; }
    ok, l := ValidateBounds(lowest, highest, c, vaddrBreak);
  }

  lemma RoundUpFacts(x: nat)
    ensures x <= RoundUp(x, PAGE_SIZE) < x + PAGE_SIZE && RoundUp(x, PAGE_SIZE) % PAGE_SIZE == 0
  {
  }

  /** Every segment comes from inside the file and ends below the stack page. */
  predicate SegmentsPlaced(segs: seq<Phdr>, len: nat, loadBreak: nat) {
    forall i :: 0 <= i < |segs| ==>
      && (segs[i].filesz != 0 ==> segs[i].offset + segs[i].filesz <= len)
      && KERNEL_BREAK <= segs[i].vaddr && segs[i].filesz <= segs[i].memsz
      && segs[i].vaddr + segs[i].memsz + PAGE_SIZE <= loadBreak
  }

  /** The regions are page-aligned, consecutive and big enough. */
  predicate RegionsPlaced(c: AppConfig) {
    var l := LayoutOf(c);
    && KERNEL_BREAK <= l.loadBreak && l.loadBreak % PAGE_SIZE == 0
    && l.loadBreak + |c.stdin| <= l.stdout && l.stdout % PAGE_SIZE == 0
    && l.stdout + c.stdoutMaxSize <= l.stderr && l.stderr % PAGE_SIZE == 0
    && l.stderr + c.stderrMaxSize <= l.ib && l.ib % PAGE_SIZE == 0
    && l.ib + |c.ib| <= l.ob && l.ob % PAGE_SIZE == 0
    && l.ob + |c.ob| <= l.image && l.image % PAGE_SIZE == 0
    && l.image + PAGE_SIZE == l.random && l.random + PAGE_SIZE == l.break_
  }

  /** A region of x bytes behind an aligned address. */
  lemma RegionEnd(start: nat, x: nat)
    requires start % PAGE_SIZE == 0
    ensures start + x <= start + RoundUp(x, PAGE_SIZE) && (start + RoundUp(x, PAGE_SIZE)) % PAGE_SIZE == 0
  {
    hide RoundUp;
    RoundUpFacts(x);
  }

  lemma LayoutPlaced(c: AppConfig)
    ensures RegionsPlaced(c)
  {
    hide RoundUp;
    var l := LayoutOf(c);
    RegionEnd(KERNEL_BREAK, c.memoryHardLimit);
    RegionEnd(l.loadBreak, |c.stdin|);
    RegionEnd(l.stdout, c.stdoutMaxSize);
    RegionEnd(l.stderr, c.stderrMaxSize);
    RegionEnd(l.ib, |c.ib|);
    RegionEnd(l.ob, |c.ob|);
  }

  lemma FitsFacts(lowest: nat, highest: nat, c: AppConfig, vaddrBreak: nat)
    requires Fits(lowest, highest, c, vaddrBreak)
    ensures KERNEL_BREAK <= lowest && highest + PAGE_SIZE <= LayoutOf(c).loadBreak
    ensures KERNEL_BREAK + 2 * PAGE_SIZE <= LayoutOf(c).loadBreak && LayoutOf(c).break_ <= vaddrBreak
  {
    hide LayoutOf;
    RoundUpFacts(highest);
  }

  lemma AcceptableParts(buf: seq<u8>, c: AppConfig, vaddrBreak: nat)
    requires Acceptable(buf, c, vaddrBreak)
    ensures |buf| >= EHDR_SIZE && PhdrsInFile(buf, PhNum(buf))
  {
  }

  /** What acceptance gives, although it was decided in wrapping arithmetic. */
  lemma AcceptedLayout(buf: seq<u8>, c: AppConfig, vaddrBreak: nat)
    requires Acceptable(buf, c, vaddrBreak)
    ensures SegmentsPlaced(Segments(buf, PhNum(buf)), |buf|, LayoutOf(c).loadBreak)
    ensures RegionsPlaced(c) && LayoutOf(c).break_ <= vaddrBreak
      && KERNEL_BREAK + 2 * PAGE_SIZE <= LayoutOf(c).loadBreak
  {
    hide Segments, HeaderOk, PhdrsInFile, LayoutOf, Fits, RegionsPlaced, Highest, Lowest;
    AcceptableParts(buf, c, vaddrBreak);
    var segs := Segments(buf, PhNum(buf));
    LayoutPlaced(c);
    FitsFacts(Lowest(segs), Highest(segs), c, vaddrBreak);
    forall i | 0 <= i < |segs|
      ensures KERNEL_BREAK <= segs[i].vaddr && segs[i].vaddr + segs[i].memsz + PAGE_SIZE <= LayoutOf(c).loadBreak
    {
      SegmentsBounded(segs, i);
    }
  }

  /** The place of the i-th program header among the loadable segments. */
  lemma SegmentIndex(buf: seq<u8>, i: nat, n: nat)
    requires |buf| >= EHDR_SIZE && i < n && PhdrsInFile(buf, n)
    ensures PhdrsInFile(buf, i) && PhdrsInFile(buf, i + 1) && PhdrOff(buf, i) + PHDR_SIZE <= |buf|
    ensures var (p, k) := (PhdrAt(buf, PhdrOff(buf, i)), |Segments(buf, i)|);
      && k <= |Segments(buf, n)|
      && (p.Load() ==> k < |Segments(buf, n)| && Segments(buf, n)[k] == p && |Segments(buf, i + 1)| == k + 1)
      && (!p.Load() ==> |Segments(buf, i + 1)| == k)
  {
    hide PhdrAt, PhOff, PhEntSize;
    SegmentsStep(buf, n - 1);
    if i < n - 1 {
      SegmentIndex(buf, i, n - 1);
    }
  }
}
