/** Loading a 64-bit program into user memory (lib/elf.cpp), and what the memory holds afterwards. */
module ElfLoad {
  import opened Words
  import opened PageFlags
  import opened AddressSpace
  import opened UserMemory
  import opened ElfLayout

  /** A number in n little-endian bytes. */
  function Bytes(v: nat, n: nat): (b: seq<u8>)
    ensures |b| == n
  {
    if n == 0 then [] else [v % 256] + Bytes(v / 256, n - 1)
  }

  function Concat(words: seq<u64>): (b: seq<u8>)
    ensures |b| == 8 * |words|
  {
    if words == [] then [] else Bytes(words[0], 8) + Concat(words[1..])
  }

  // ----- the image of a program, from the job alone

  /** What a program is loaded from. */
  datatype Job = Job(buf: seq<u8>, config: AppConfig, tscFreq: u64)
  {
    predicate Ok() {
      |buf| < TWO32 && |config.stdin| < TWO64 && |config.ib| < TWO64 && |config.ob| < TWO64
    }

    function Layout(): Layout { LayoutOf(config) }

    function Segs(): seq<Phdr>
      requires HeaderOk(buf) && PhdrsInFile(buf, PhNum(buf))
    {
      Segments(buf, PhNum(buf))
    }

    predicate Accepted(vaddrBreak: nat) {
      Ok() && vaddrBreak <= MAX_MEMORY_SIZE && Acceptable(buf, config, vaddrBreak)
    }

    /** Pages of the region, up to the end of the special regions. */
    function Pages(): nat {
      LayoutOrdered(config);
      (Layout().break_ - KERNEL_BREAK) / PAGE_SIZE
    }
  }

  function SegmentWrite(buf: seq<u8>, p: Phdr): Write
    requires KERNEL_BREAK <= p.vaddr && (p.filesz != 0 ==> p.offset + p.filesz <= |buf|)
  {
    Write(p.vaddr - KERNEL_BREAK, if p.filesz != 0 then buf[p.offset..p.offset + p.filesz] else [])
  }

  /** The file contents of the segments, in the order of the program headers. */
  function SegmentWrites(buf: seq<u8>, segs: seq<Phdr>, loadBreak: nat): seq<Write>
    requires SegmentsPlaced(segs, |buf|, loadBreak)
  {
    seq(|segs|, i requires 0 <= i < |segs| => SegmentWrite(buf, segs[i]))
  }

  const RANDOM_BYTES_0: u64 := 0xf44c01c8
  const RANDOM_BYTES_1: u64 := 0x22b64652

  /** The inputs, the copy of the file's first page and the fixed random bytes. */
  function RegionWrites(job: Job): seq<Write>
    requires job.Ok()
  {
    LayoutOrdered(job.config);
    var (l, c) := (job.Layout(), job.config);
    [Write(l.loadBreak - KERNEL_BREAK, c.stdin), Write(l.ib - KERNEL_BREAK, c.ib)]
    + (if c.obNeedClear then [] else [Write(l.ob - KERNEL_BREAK, c.ob)])
    + [Write(l.image - KERNEL_BREAK, job.buf[..Min(|job.buf|, PAGE_SIZE)]),
       Write(l.random - KERNEL_BREAK, Bytes(RANDOM_BYTES_0, 8)),
       Write(l.random + 8 - KERNEL_BREAK, Bytes(RANDOM_BYTES_1, 8))]
  }

  const DUCKINFO_SIZE: nat := 112

  /** The duckinfo structure, field by field. */
  function DuckInfo(job: Job): (d: seq<u8>)
    requires job.Ok() && job.Layout().break_ < TWO64
    ensures |d| == DUCKINFO_SIZE
  {
    LayoutOrdered(job.config);
    var (l, c) := (job.Layout(), job.config);
    Concat([40, l.loadBreak, |c.stdin|, l.stdout, c.stdoutMaxSize, 0, l.stderr, c.stderrMaxSize, 0,
            l.ib, |c.ib|, l.ob, |c.ob|, job.tscFreq])
  }

  const N_STACK_WORDS: nat := 34

  /** The words pushed below duckinfo, in the order of pushing: auxiliary vector, then environment and arguments. */
  function StackWords(job: Job): (w: seq<u64>)
    requires job.Ok() && HeaderOk(job.buf) && job.Layout().break_ <= MAX_MEMORY_SIZE
    ensures |w| == N_STACK_WORDS
  {
    LayoutOrdered(job.config);
    var (l, buf) := (job.Layout(), job.buf);
    [0, PAGE_SIZE, 6, l.loadBreak - DUCKINFO_SIZE, 0x6b637564,
     l.image, 7, l.image + PhOff(buf), 3, Entry(buf), 9, PhEntSize(buf), 4, PhNum(buf), 5,
     0xbfebfbff, 16, 2, 16, 1000, 11, 1000, 12, 1000, 13, 1000, 14, 0, 23, l.random, 25,
     0, 0, 0]
  }

  /** Pushing words downwards from offset top. */
  function PushWrites(top: nat, words: seq<u64>): seq<Write>
    requires 8 * |words| <= top
  {
    seq(|words|, k requires 0 <= k < |words| => Write(top - 8 * (k + 1), Bytes(words[k], 8)))
  }

  /** The stack: duckinfo at the top of the load region, the words below it. */
  function StackWrites(job: Job): seq<Write>
    requires job.Ok() && HeaderOk(job.buf) && job.Layout().break_ <= MAX_MEMORY_SIZE
    requires KERNEL_BREAK + PAGE_SIZE <= job.Layout().loadBreak
  {
    LayoutOrdered(job.config);
    var top := job.Layout().loadBreak - KERNEL_BREAK - DUCKINFO_SIZE;
    [Write(top, DuckInfo(job))] + PushWrites(top, StackWords(job))
  }

  function PageOf(addr: nat): nat
    requires KERNEL_BREAK <= addr
  {
    (addr - KERNEL_BREAK) / PAGE_SIZE
  }

  /** Inputs, file image and random bytes are read-only. */
  function RegionGrants(job: Job): seq<Grant> {
    LayoutOrdered(job.config);
    var l := job.Layout();
    [Grant(PageOf(l.loadBreak), PageOf(l.stdout), false, true), Grant(PageOf(l.ib), PageOf(l.ob), false, true),
     Grant(PageOf(l.image), PageOf(l.random), false, true), Grant(PageOf(l.random), PageOf(l.break_), false, true)]
  }

  /** The pages a segment occupies, with the permissions its header asks for. */
  function SegmentGrant(p: Phdr): Grant
    requires KERNEL_BREAK <= p.vaddr
  {
    Grant(PageOf(p.vaddr), PageEnd(p.vaddr + p.memsz - KERNEL_BREAK), p.Writable(), !p.Executable())
  }

  function SegmentGrants(segs: seq<Phdr>, len: nat, loadBreak: nat): seq<Grant>
    requires SegmentsPlaced(segs, len, loadBreak)
  {
    seq(|segs|, i requires 0 <= i < |segs| => SegmentGrant(segs[i]))
  }

  /** All writes and grants of a load, from the job alone. */
  function ImageWrites(job: Job, vaddrBreak: nat): seq<Write>
    requires job.Accepted(vaddrBreak)
  {
    AcceptedLayout(job.buf, job.config, vaddrBreak);
    SegmentWrites(job.buf, job.Segs(), job.Layout().loadBreak) + RegionWrites(job) + StackWrites(job)
  }

  function ImageGrants(job: Job, vaddrBreak: nat): seq<Grant>
    requires job.Accepted(vaddrBreak)
  {
    AcceptedLayout(job.buf, job.config, vaddrBreak);
    RegionGrants(job) + SegmentGrants(job.Segs(), |job.buf|, job.Layout().loadBreak)
  }

  // ----- the loader

  /** memcpy, then set_duck_written on a range around it. */
  method MarkedStore(mem: Memory, addr: nat, data: seq<u8>, start: nat, end: nat,
                     ghost s0: Space, ghost n: nat, ghost writes: seq<Write>, ghost grants: seq<Grant>)
    requires mem.Valid() && Loading(mem.space, s0, n, writes, grants, -1)
    requires mem.PageRange(start, end) && mem.PageNo(end) <= n
    requires KERNEL_BREAK <= addr && addr + |data| <= mem.VaddrBreak() && addr + |data| <= KERNEL_BREAK + n * PAGE_SIZE
    requires data != [] ==> start <= addr && addr + |data| <= end
    modifies mem.bytes, mem.pte, mem`space
    ensures mem.Valid() && Loading(mem.space, s0, n, writes + [Write(addr - KERNEL_BREAK, data)], grants, -1)
  {
    hide Loading, Put, FlagRange;
    LoadingPut(mem.space, s0, n, writes, grants, -1, addr - KERNEL_BREAK, data, mem.PageNo(start), mem.PageNo(end));
    mem.Store(addr, data);
    mem.UpdateFlags(start, end, SetDuckWritten);
  }

  lemma LoadingNothing(s: Space, s0: Space, n: nat, writes: seq<Write>, grants: seq<Grant>, off: nat)
    requires Loading(s, s0, n, writes, grants, -1) && off <= n * PAGE_SIZE
    ensures Loading(s, s0, n, writes + [Write(off, [])], grants, -1)
  {
    LoadingPut(s, s0, n, writes, grants, -1, off, [], 0, 0);
    assert Flags(Put(s, off, []), 0, 0, SetDuckWritten).attrs == s.attrs;
  }

  /** One round of it. */
  method CopySegment(mem: Memory, buf: seq<u8>, p: Phdr, ghost s0: Space, ghost n: nat, ghost writes: seq<Write>)
    requires mem.Valid() && Loading(mem.space, s0, n, writes, [], -1)
      && KERNEL_BREAK + n * PAGE_SIZE <= mem.VaddrBreak()
    requires p.filesz != 0 ==> p.offset + p.filesz <= |buf|
    requires KERNEL_BREAK <= p.vaddr && p.vaddr + p.filesz <= KERNEL_BREAK + n * PAGE_SIZE
    modifies mem.bytes, mem.pte, mem`space
    ensures mem.Valid() && Loading(mem.space, s0, n, writes + [SegmentWrite(buf, p)], [], -1)
  {
    hide Loading, Memory.Valid;
    if p.filesz != 0 {
      var start := KERNEL_BREAK + RoundDown(p.vaddr - KERNEL_BREAK, PAGE_SIZE);
      var end := KERNEL_BREAK + RoundUp(p.vaddr + p.filesz - KERNEL_BREAK, PAGE_SIZE);
      MarkedStore(mem, p.vaddr, buf[p.offset..p.offset + p.filesz], start, end, s0, n, writes, []);
    } else {
      LoadingNothing(mem.space, s0, n, writes, [], p.vaddr - KERNEL_BREAK);
    }
  }

  lemma RegionsAligned(c: AppConfig)
    requires RegionsPlaced(c)
    ensures LayoutOf(c).break_ % PAGE_SIZE == 0 && LayoutOf(c).loadBreak % PAGE_SIZE == 0
  {
    hide LayoutOf;
  }

  lemma PagesFit(job: Job, vaddrBreak: nat)
    requires job.Accepted(vaddrBreak)
    ensures var (l, n) := (job.Layout(), job.Pages());
      && RegionsPlaced(job.config) && KERNEL_BREAK + n * PAGE_SIZE == l.break_ <= vaddrBreak
      && KERNEL_BREAK + 2 * PAGE_SIZE <= l.loadBreak && HeaderOk(job.buf) && PhdrsInFile(job.buf, PhNum(job.buf))
      && SegmentsPlaced(job.Segs(), |job.buf|, l.loadBreak)
  {
    hide LayoutOf, RegionsPlaced, SegmentsPlaced, HeaderOk, PhdrsInFile, Segments, Fits, SegmentOk;
    AcceptedLayout(job.buf, job.config, vaddrBreak);
    RegionsAligned(job.config);
  }

  /** The headers of a file that was accepted: all inside it, the loadable ones well placed below loadBreak. */
  ghost predicate HeadersOk(buf: seq<u8>, segs: seq<Phdr>, loadBreak: nat) {
    && |buf| >= EHDR_SIZE && PhdrsInFile(buf, PhNum(buf)) && segs == Segments(buf, PhNum(buf))
    && SegmentsPlaced(segs, |buf|, loadBreak)
  }

  /** How many of the first i headers are loadable. */
  ghost function Rank(buf: seq<u8>, i: nat): nat
    requires |buf| >= EHDR_SIZE && PhdrsInFile(buf, PhNum(buf)) && i <= PhNum(buf)
  {
    |Segments(buf, i)|
  }

  lemma RankEnds(buf: seq<u8>, segs: seq<Phdr>, loadBreak: nat)
    requires HeadersOk(buf, segs, loadBreak)
    ensures |buf| >= EHDR_SIZE && PhdrsInFile(buf, PhNum(buf)) && SegmentsPlaced(segs, |buf|, loadBreak)
    ensures Rank(buf, 0) == 0 && Rank(buf, PhNum(buf)) == |segs|
  {
  }

  /** Header i: inside the file, and if it is loadable, the next segment. */
  lemma HeaderFacts(buf: seq<u8>, segs: seq<Phdr>, loadBreak: nat, i: nat)
    requires HeadersOk(buf, segs, loadBreak) && i < PhNum(buf)
    ensures PhdrOff(buf, i) + PHDR_SIZE <= |buf|
    ensures var (p, k) := (PhdrAt(buf, PhdrOff(buf, i)), Rank(buf, i));
      && k <= |segs| && Rank(buf, i + 1) == (if p.Load() then k + 1 else k)
      && (p.Load() ==> k < |segs| && segs[k] == p)
      && (p.Load() && p.filesz != 0 ==> p.offset + p.filesz <= |buf|)
      && (p.Load() ==> KERNEL_BREAK <= p.vaddr && p.vaddr + p.filesz + PAGE_SIZE <= loadBreak)
      && (p.Load() ==> p.vaddr + p.memsz + PAGE_SIZE <= loadBreak)
  {
    hide PhdrAt, PhdrOff, PhNum, Segments;
    SegmentIndex(buf, i, PhNum(buf));
  }

  /** The second loop over the program headers: file contents to their addresses. */
  method CopySegments(mem: Memory, buf: seq<u8>, ghost segs: seq<Phdr>, ghost loadBreak: nat, ghost s0: Space,
          ghost n: nat)
    requires mem.Valid() && Loading(mem.space, s0, n, [], [], -1)
    requires HeadersOk(buf, segs, loadBreak) && loadBreak <= KERNEL_BREAK + n * PAGE_SIZE <= mem.VaddrBreak()
    modifies mem.bytes, mem.pte, mem`space
    ensures mem.Valid() && Loading(mem.space, s0, n, SegmentWrites(buf, segs, loadBreak), [], -1)
  {
    hide Loading, Rank, PhdrAt, PhdrOff, PhNum, SegmentWrite, HeadersOk, PhdrsInFile, SegmentsPlaced, Memory.Valid;
    RankEnds(buf, segs, loadBreak);
    ghost var writes := SegmentWrites(buf, segs, loadBreak);
    assert writes[..0] == [];
    for i := 0 to PhNum(buf)
      invariant mem.Valid() && Rank(buf, i) <= |segs|
      invariant Loading(mem.space, s0, n, writes[..Rank(buf, i)], [], -1)
    {
      HeaderFacts(buf, segs, loadBreak, i);
      var p := PhdrAt(buf, PhdrOff(buf, i));
      if !p.Load() {
        continue;
      }
      ghost var k := Rank(buf, i);
      CopySegment(mem, buf, p, s0, n, writes[..k]);
      assert writes[..k + 1] == writes[..k] + [SegmentWrite(buf, segs[k])];
    }
    assert writes[..|segs|] == writes;
  }

  /** A range of the layout is a range of pages of the region. */
  ghost predicate InRegion(mem: Memory, start: nat, end: nat, n: nat) {
    KERNEL_BREAK <= start <= end <= KERNEL_BREAK + n * PAGE_SIZE <= mem.VaddrBreak()
    && start % PAGE_SIZE == 0 && end % PAGE_SIZE == 0
  }

  /** A read-only region: memcpy, set_duck_written, set_page_flags_user_readonly. */
  method LoadReadonly(mem: Memory, start: nat, end: nat, data: seq<u8>,
                      ghost s0: Space, ghost n: nat, ghost writes: seq<Write>, ghost grants: seq<Grant>)
    requires mem.Valid() && Loading(mem.space, s0, n, writes, grants, -1)
    requires InRegion(mem, start, end, n) && start + |data| <= end
    modifies mem.bytes, mem.pte, mem`space
    ensures mem.Valid()
    ensures Loading(mem.space, s0, n, writes + [Write(start - KERNEL_BREAK, data)],
                    grants + [Grant(PageOf(start), PageOf(end), false, true)], -1)
  {
    hide Loading, Memory.Valid;
    MarkedStore(mem, start, data, start, end, s0, n, writes, grants);
    LoadingGrant(mem.space, s0, n, writes + [Write(start - KERNEL_BREAK, data)], grants,
                 Grant(PageOf(start), PageOf(end), false, true));
    mem.UpdateFlags(start, end, SetUserReadonly);
  }

  /** The random-bytes page: two words, then the marks and the permission. */
  method LoadRandom(mem: Memory, start: nat, end: nat,
                    ghost s0: Space, ghost n: nat, ghost writes: seq<Write>, ghost grants: seq<Grant>)
    requires mem.Valid() && Loading(mem.space, s0, n, writes, grants, -1)
    requires InRegion(mem, start, end, n) && start + PAGE_SIZE == end
    modifies mem.bytes, mem.pte, mem`space
    ensures mem.Valid()
    ensures Loading(mem.space, s0, n,
                    writes + [Write(start - KERNEL_BREAK, Bytes(RANDOM_BYTES_0, 8)),
                              Write(start + 8 - KERNEL_BREAK, Bytes(RANDOM_BYTES_1, 8))],
                    grants + [Grant(PageOf(start), PageOf(end), false, true)], -1)
  {
    hide Loading, Memory.Valid, Bytes, Put, FlagRange;
    ghost var (p, off) := (PageOf(start), start - KERNEL_BREAK);
    ghost var (w0, w1) := (Write(off, Bytes(RANDOM_BYTES_0, 8)), Write(off + 8, Bytes(RANDOM_BYTES_1, 8)));
    LoadingSize(mem.space, s0, n, writes, grants, -1);
    MemorySize(mem);
    LoadingLoose(mem.space, s0, n, writes, grants, p);
    LoadingPush(mem.space, s0, n, writes, grants, p, off, w0.data);
    mem.Store(start, Bytes(RANDOM_BYTES_0, 8));
    LoadingPush(mem.space, s0, n, writes + [w0], grants, p, off + 8, w1.data);
    mem.Store(start + 8, Bytes(RANDOM_BYTES_1, 8));
    assert writes + [w0] + [w1] == writes + [w0, w1];
    LoadingMarked(mem.space, s0, n, writes + [w0, w1], grants, p);
    mem.UpdateFlags(start, end, SetDuckWritten);
    LoadingGrant(mem.space, s0, n, writes + [w0, w1], grants, Grant(p, PageOf(end), false, true));
    mem.UpdateFlags(start, end, SetUserReadonly);
  }

  lemma LoadingSize(s: Space, s0: Space, n: nat, writes: seq<Write>, grants: seq<Grant>, loose: int)
    requires Loading(s, s0, n, writes, grants, loose)
    ensures n <= |s.attrs| && |s.bytes| == |s.attrs| * PAGE_SIZE
  {
  }

  lemma MemorySize(mem: Memory)
    requires mem.Valid()
    ensures mem.VaddrBreak() == KERNEL_BREAK + |mem.space.bytes|
  {
  }

  /** The output buffer keeps its contents only on demand; its pages are marked before the copy. */
  method LoadOutputBuffer(mem: Memory, start: nat, end: nat, data: seq<u8>,
                          ghost s0: Space, ghost n: nat, ghost writes: seq<Write>, ghost grants: seq<Grant>)
    requires mem.Valid() && Loading(mem.space, s0, n, writes, grants, -1)
    requires InRegion(mem, start, end, n) && start + |data| <= end
    modifies mem.bytes, mem.pte, mem`space
    ensures mem.Valid() && Loading(mem.space, s0, n, writes + [Write(start - KERNEL_BREAK, data)], grants, -1)
  {
    hide Loading, Memory.Valid, Put;
    MemorySize(mem);
    LoadingSize(mem.space, s0, n, writes, grants, -1);
    PageBounds(start - KERNEL_BREAK, |data|, end - KERNEL_BREAK);
    LoadingPut(mem.space, s0, n, writes, grants, -1, start - KERNEL_BREAK, data, PageOf(start), PageOf(end));
    PutMarkCommute(mem.space, start - KERNEL_BREAK, data, PageOf(start), PageOf(end));
    mem.UpdateFlags(start, end, SetDuckWritten);
    mem.Store(start, data);
  }

  lemma PageBounds(off: nat, len: nat, end: nat)
    requires off + len <= end && end % PAGE_SIZE == 0
    ensures PageEnd(off + len) <= end / PAGE_SIZE
  {
  }

  lemma PutMarkCommute(s: Space, off: nat, data: seq<u8>, lo: nat, hi: nat)
    requires off + |data| <= |s.bytes|
    ensures Put(Flags(s, lo, hi, SetDuckWritten), off, data) == Flags(Put(s, off, data), lo, hi, SetDuckWritten)
  {
    var (a, b) := (Put(Flags(s, lo, hi, SetDuckWritten), off, data), Flags(Put(s, off, data), lo, hi, SetDuckWritten));
    assert a.attrs == b.attrs;
  }

  lemma RegionsInside(mem: Memory, job: Job)
    requires job.Accepted(mem.VaddrBreak())
    ensures var (l, n) := (job.Layout(), job.Pages());
      && InRegion(mem, l.loadBreak, l.stdout, n) && l.loadBreak + |job.config.stdin| <= l.stdout
      && InRegion(mem, l.ib, l.ob, n) && l.ib + |job.config.ib| <= l.ob
      && InRegion(mem, l.ob, l.image, n) && l.ob + |job.config.ob| <= l.image
      && InRegion(mem, l.image, l.random, n) && l.image + PAGE_SIZE == l.random
      && InRegion(mem, l.random, l.break_, n) && l.random + PAGE_SIZE == l.break_
      && KERNEL_BREAK + 2 * PAGE_SIZE <= l.loadBreak && HeaderOk(job.buf) && l.break_ <= MAX_MEMORY_SIZE
      && KERNEL_BREAK + n * PAGE_SIZE == l.break_ && job.Ok()
  {
    hide LayoutOf, HeaderOk, PhdrsInFile, Segments, SegmentsPlaced, Acceptable;
    PagesFit(job, mem.VaddrBreak());
    LayoutOrdered(job.config);
  }

  /** Inputs, output buffer, file image and random bytes. */
  method LoadRegions(mem: Memory, job: Job, l: Layout, ghost s0: Space, ghost n: nat, ghost writes: seq<Write>)
    requires mem.Valid() && job.Accepted(mem.VaddrBreak()) && l == job.Layout() && n == job.Pages()
    requires Loading(mem.space, s0, n, writes, [], -1)
    modifies mem.bytes, mem.pte, mem`space
    ensures mem.Valid()
    ensures Loading(mem.space, s0, n, writes + RegionWrites(job), RegionGrants(job), -1)
  {
    hide Loading, Memory.Valid, Job.Accepted, Job.Pages, InRegion, LayoutOf, Bytes;
    RegionsInside(mem, job);
    LayoutOrdered(job.config);
    var c := job.config;
    ghost var (w, g) := (writes, []);
    LoadReadonly(mem, l.loadBreak, l.stdout, c.stdin, s0, n, w, g);
    w := w + [Write(l.loadBreak - KERNEL_BREAK, c.stdin)];
    g := g + [Grant(PageOf(l.loadBreak), PageOf(l.stdout), false, true)];
    LoadReadonly(mem, l.ib, l.ob, c.ib, s0, n, w, g);
    w := w + [Write(l.ib - KERNEL_BREAK, c.ib)];
    g := g + [Grant(PageOf(l.ib), PageOf(l.ob), false, true)];
    if !c.obNeedClear {
      LoadOutputBuffer(mem, l.ob, l.image, c.ob, s0, n, w, g);
      w := w + [Write(l.ob - KERNEL_BREAK, c.ob)];
    }
    var image := job.buf[..Min(|job.buf|, PAGE_SIZE)];
    LoadReadonly(mem, l.image, l.random, image, s0, n, w, g);
    w := w + [Write(l.image - KERNEL_BREAK, image)];
    g := g + [Grant(PageOf(l.image), PageOf(l.random), false, true)];
    LoadRandom(mem, l.random, l.break_, s0, n, w, g);
    w := w + [Write(l.random - KERNEL_BREAK, Bytes(RANDOM_BYTES_0, 8)),
              Write(l.random + 8 - KERNEL_BREAK, Bytes(RANDOM_BYTES_1, 8))];
    g := g + [Grant(PageOf(l.random), PageOf(l.break_), false, true)];
    assert w == writes + RegionWrites(job);
    assert g == RegionGrants(job);
  }

  /** The run of pushq calls below duckinfo. */
  method PushWords(mem: Memory, top: nat, words: seq<u64>,
                   ghost s0: Space, ghost n: nat, ghost writes: seq<Write>, ghost grants: seq<Grant>, ghost page: nat)
    returns (rsp: nat)
    requires mem.Valid() && Loading(mem.space, s0, n, writes, grants, page) && page < n
    requires KERNEL_BREAK + page * PAGE_SIZE + 8 * |words| <= top <= KERNEL_BREAK + (page + 1) * PAGE_SIZE
    modifies mem.bytes, mem.pte, mem`space
    ensures mem.Valid() && rsp == top - 8 * |words|
    ensures Loading(mem.space, s0, n, writes + PushWrites(top - KERNEL_BREAK, words), grants, page)
  {
    hide Loading, Memory.Valid, Bytes;
    ghost var pushes := PushWrites(top - KERNEL_BREAK, words);
    rsp := top;
    assert writes + pushes[..0] == writes;
    for k := 0 to |words|
      invariant mem.Valid() && rsp == top - 8 * k
      invariant Loading(mem.space, s0, n, writes + pushes[..k], grants, page)
    {
      rsp := rsp - 8;
      MemorySize(mem);
      LoadingSize(mem.space, s0, n, writes + pushes[..k], grants, page);
      LoadingPush(mem.space, s0, n, writes + pushes[..k], grants, page, rsp - KERNEL_BREAK, Bytes(words[k], 8));
      mem.Store(rsp, Bytes(words[k], 8));
      assert writes + pushes[..k + 1] == writes + pushes[..k] + [pushes[k]];
    }
    assert pushes[..|words|] == pushes;
  }

  /** duckinfo, and the words below it. */
  method PushAll(mem: Memory, job: Job, loadBreak: nat, ghost s0: Space, ghost n: nat,
                 ghost writes: seq<Write>, ghost grants: seq<Grant>, ghost page: nat) returns (rsp: nat)
    requires mem.Valid() && Loading(mem.space, s0, n, writes, grants, page) && page < n
    requires job.Ok() && HeaderOk(job.buf) && job.Layout().break_ <= MAX_MEMORY_SIZE
    requires loadBreak == job.Layout().loadBreak == KERNEL_BREAK + (page + 1) * PAGE_SIZE
    modifies mem.bytes, mem.pte, mem`space
    ensures mem.Valid() && Loading(mem.space, s0, n, writes + StackWrites(job), grants, page)
    ensures rsp == loadBreak - DUCKINFO_SIZE - 8 * N_STACK_WORDS
  {
    hide Loading, Memory.Valid, LayoutOf, Bytes, DuckInfo, StackWords, HeaderOk, PushWrites;
    LayoutOrdered(job.config);
    MemorySize(mem);
    LoadingSize(mem.space, s0, n, writes, grants, page);
    var top := loadBreak - DUCKINFO_SIZE;
    var info := DuckInfo(job);
    LoadingPush(mem.space, s0, n, writes, grants, page, top - KERNEL_BREAK, info);
    mem.Store(top, info);
    ghost var w := writes + [Write(top - KERNEL_BREAK, info)];
    var words := StackWords(job);
    rsp := PushWords(mem, top, words, s0, n, w, grants, page);
    assert w + PushWrites(top - KERNEL_BREAK, words) == writes + StackWrites(job);
  }

  /** The stack, and the mark on the one page it all fits in. */
  method PushStack(mem: Memory, job: Job, l: Layout,
                   ghost s0: Space, ghost n: nat, ghost writes: seq<Write>, ghost grants: seq<Grant>)
    returns (rsp: nat)
    requires mem.Valid() && l == job.Layout() && job.Ok() && InRegion(mem, l.loadBreak, l.stdout, n)
    requires Loading(mem.space, s0, n, writes, grants, -1)
    requires HeaderOk(job.buf) && l.break_ <= MAX_MEMORY_SIZE && KERNEL_BREAK + PAGE_SIZE <= l.loadBreak
    modifies mem.bytes, mem.pte, mem`space
    ensures mem.Valid() && Loading(mem.space, s0, n, writes + StackWrites(job), grants, -1)
    ensures rsp == l.loadBreak - DUCKINFO_SIZE - 8 * N_STACK_WORDS && rsp % 16 == 0
  {
    hide Loading, Memory.Valid, InRegion, LayoutOf, StackWrites, HeaderOk, PageOf, Memory.PageNo, Memory.PageRange;
    ghost var page := StackPage(mem, l.loadBreak, l.stdout, n);
    LoadingLoose(mem.space, s0, n, writes, grants, page);
    rsp := PushAll(mem, job, l.loadBreak, s0, n, writes, grants, page);
    RspAligned(page);  // so load_elf64 never realigns it
    LoadingMarked(mem.space, s0, n, writes + StackWrites(job), grants, page);
    mem.UpdateFlags(l.loadBreak - PAGE_SIZE, l.loadBreak, SetDuckWritten);
  }

  lemma RspAligned(page: nat)
    ensures (KERNEL_BREAK + (page + 1) * PAGE_SIZE - DUCKINFO_SIZE - 8 * N_STACK_WORDS) % 16 == 0
  {
    assert KERNEL_BREAK + (page + 1) * PAGE_SIZE - DUCKINFO_SIZE - 8 * N_STACK_WORDS ==
      16 * (262120 + (page + 1) * 256);
  }

  lemma StackPage(mem: Memory, loadBreak: nat, end: nat, n: nat) returns (page: nat)
    requires InRegion(mem, loadBreak, end, n) && KERNEL_BREAK + PAGE_SIZE <= loadBreak && mem.Valid()
    ensures page < n && loadBreak == KERNEL_BREAK + (page + 1) * PAGE_SIZE
    ensures mem.PageRange(loadBreak - PAGE_SIZE, loadBreak)
    ensures mem.PageNo(loadBreak - PAGE_SIZE) == page && mem.PageNo(loadBreak) == page + 1
  {
    page := (loadBreak - KERNEL_BREAK) / PAGE_SIZE - 1;
  }

  /** The last loop over the program headers: permissions. */
  method GrantSegments(mem: Memory, buf: seq<u8>, ghost segs: seq<Phdr>, ghost loadBreak: nat,
                       ghost s0: Space, ghost n: nat, ghost writes: seq<Write>, ghost grants: seq<Grant>)
    requires mem.Valid() && Loading(mem.space, s0, n, writes, grants, -1)
    requires HeadersOk(buf, segs, loadBreak) && loadBreak <= KERNEL_BREAK + n * PAGE_SIZE <= mem.VaddrBreak()
    requires SegmentsPlaced(segs, |buf|, loadBreak)
    modifies mem.bytes, mem.pte, mem`space
    ensures mem.Valid()
    ensures Loading(mem.space, s0, n, writes, grants + SegmentGrants(segs, |buf|, loadBreak), -1)
  {
    hide Loading, Rank, PhdrAt, PhdrOff, PhNum, SegmentGrant, HeadersOk, PhdrsInFile, SegmentsPlaced, Memory.Valid;
    RankEnds(buf, segs, loadBreak);
    ghost var added := SegmentGrants(segs, |buf|, loadBreak);
    assert grants + added[..0] == grants;
    for i := 0 to PhNum(buf)
      invariant mem.Valid() && Rank(buf, i) <= |segs|
      invariant Loading(mem.space, s0, n, writes, grants + added[..Rank(buf, i)], -1)
    {
      HeaderFacts(buf, segs, loadBreak, i);
      var p := PhdrAt(buf, PhdrOff(buf, i));
      if !p.Load() {
        continue;
      }
      ghost var k := Rank(buf, i);
      GrantOne(mem, p, s0, n, writes, grants + added[..k]);
      assert grants + added[..k + 1] == grants + added[..k] + [SegmentGrant(segs[k])];
    }
    assert added[..|segs|] == added;
  }

  /** One round of it. */
  method GrantOne(mem: Memory, p: Phdr, ghost s0: Space, ghost n: nat, ghost writes: seq<Write>,
          ghost grants: seq<Grant>)
    requires mem.Valid() && Loading(mem.space, s0, n, writes, grants, -1)
    requires KERNEL_BREAK <= p.vaddr && p.vaddr + p.memsz <= KERNEL_BREAK + n * PAGE_SIZE <= mem.VaddrBreak()
    modifies mem.bytes, mem.pte, mem`space
    ensures mem.Valid() && Loading(mem.space, s0, n, writes, grants + [SegmentGrant(p)], -1)
  {
    hide Loading, Memory.Valid, FlagRange;
    var start := KERNEL_BREAK + RoundDown(p.vaddr - KERNEL_BREAK, PAGE_SIZE);
    var end := KERNEL_BREAK + RoundUp(p.vaddr + p.memsz - KERNEL_BREAK, PAGE_SIZE);
    LoadingGrant(mem.space, s0, n, writes, grants, SegmentGrant(p));
    mem.UpdateFlags(start, end, SetUserReadonly);
    if p.Executable() {
      mem.UpdateFlags(start, end, AddExecutable);
    }
    if p.Writable() {
      mem.UpdateFlags(start, end, AddWritable);
    }
  }

  datatype App = App(entry: u64, rsp: nat, layout: Layout)

  lemma HeadersAccepted(job: Job, vaddrBreak: nat)
    requires job.Accepted(vaddrBreak)
    ensures HeaderOk(job.buf) && PhdrsInFile(job.buf, PhNum(job.buf))
    ensures HeadersOk(job.buf, job.Segs(), job.Layout().loadBreak)
    ensures SegmentsPlaced(job.Segs(), |job.buf|, job.Layout().loadBreak)
  {
    hide LayoutOf, Fits, SegmentOk, Segments, HeaderOk, PhdrsInFile, SegmentsPlaced;
    AcceptedLayout(job.buf, job.config, vaddrBreak);
    HeaderSize(job.buf);
  }

  /** The part of load_elf64 that touches memory, for an accepted program. */
  method LoadAccepted(mem: Memory, job: Job, l: Layout) returns (rsp: nat)
    requires mem.Valid() && Idle(mem.space) && job.Accepted(mem.VaddrBreak()) && l == job.Layout()
    modifies mem.bytes, mem.pte, mem`space
    ensures mem.Valid() && rsp == l.loadBreak - DUCKINFO_SIZE - 8 * N_STACK_WORDS
    ensures Loaded(mem.space, old(mem.space), job.Pages(), ImageWrites(job, mem.VaddrBreak()),
      ImageGrants(job, mem.VaddrBreak()))
  {
    hide Loading, Loaded, Idle, Memory.Valid, Job.Accepted, Job.Pages, Job.Segs, LayoutOf, InRegion, HeadersOk,
         FlagRange, DuckCleared, SegmentWrites, RegionWrites, StackWrites, SegmentGrants, RegionGrants, SegmentsPlaced;
    ghost var (s0, n, v) := (mem.space, job.Pages(), mem.VaddrBreak());
    MemoryAligned(mem);
    RegionsInside(mem, job);
    HeadersAccepted(job, v);
    LayoutOrdered(job.config);
    RegionRange(mem, l, n);
    mem.UpdateFlags(KERNEL_BREAK, l.break_, SetUserWritable);
    mem.UpdateFlags(l.break_, mem.VaddrBreak(), SetKernel);
    mem.ClearDuckWrittenPages(KERNEL_BREAK, l.break_);
    LoadingStart(s0, n, mem.space);
    CopySegments(mem, job.buf, job.Segs(), l.loadBreak, s0, n);
    ghost var w := SegmentWrites(job.buf, job.Segs(), l.loadBreak);
    LoadRegions(mem, job, l, s0, n, w);
    w := w + RegionWrites(job);
    rsp := PushStack(mem, job, l, s0, n, w, RegionGrants(job));
    w := w + StackWrites(job);
    GrantSegments(mem, job.buf, job.Segs(), l.loadBreak, s0, n, w, RegionGrants(job));
    LoadingDone(mem.space, s0, n, w, RegionGrants(job) + SegmentGrants(job.Segs(), |job.buf|, l.loadBreak));
    mem.UpdateFlags(KERNEL_BREAK, l.break_, ClearAccessedDirty);
  }

  lemma MemoryAligned(mem: Memory)
    requires mem.Valid()
    ensures mem.VaddrBreak() == KERNEL_BREAK + |mem.space.attrs| * PAGE_SIZE && mem.VaddrBreak() <= MAX_MEMORY_SIZE
  {
  }

  lemma RegionRange(mem: Memory, l: Layout, n: nat)
    requires InRegion(mem, l.random, l.break_, n) && KERNEL_BREAK + n * PAGE_SIZE == l.break_
    requires mem.VaddrBreak() == KERNEL_BREAK + |mem.space.attrs| * PAGE_SIZE
    ensures mem.PageRange(KERNEL_BREAK, l.break_) && mem.PageRange(l.break_, mem.VaddrBreak())
    ensures mem.PageNo(KERNEL_BREAK) == 0 && mem.PageNo(l.break_) == n
      && mem.PageNo(mem.VaddrBreak()) == |mem.space.attrs|
    ensures n <= |mem.space.attrs|
  {
  }

  /**
   load_elf64: a refused program leaves memory alone; an accepted one leaves the first pages of the user
   range in a state that is a function of the job, whatever ran before.
   */
  method LoadElf64(mem: Memory, job: Job) returns (ok: bool, app: App)
    requires mem.Valid() && Idle(mem.space) && job.Ok()
    modifies mem.bytes, mem.pte, mem`space
    ensures mem.Valid() && Idle(mem.space)
    ensures ok <==> Acceptable(job.buf, job.config, mem.VaddrBreak())
    ensures !ok ==> mem.space == old(mem.space)
    ensures ok ==> Loaded(mem.space, old(mem.space), job.Pages(),
                          ImageWrites(job, mem.VaddrBreak()), ImageGrants(job, mem.VaddrBreak()))
    ensures ok ==> app.layout == job.Layout() && app.rsp == app.layout.loadBreak - DUCKINFO_SIZE - 8 * N_STACK_WORDS
    ensures ok ==> |job.buf| >= EHDR_SIZE && app.entry == Entry(job.buf)
  {
    hide Loaded, Idle, Memory.Valid, Job.Pages, LayoutOf, ImageWrites, ImageGrants, HeaderOk, PhdrsInFile, Segments,
         Fits, SegmentOk;
    MemoryAligned(mem);
    var layout;
    ok, layout := Validate(job.buf, job.config, mem.VaddrBreak());
    app := App(0, 0, layout);
    if ok {
      ghost var s0 := mem.space;
      HeaderSize(job.buf);
      var rsp := LoadAccepted(mem, job, layout);
      LoadedIdle(mem.space, s0, job.Pages(), ImageWrites(job, mem.VaddrBreak()), ImageGrants(job, mem.VaddrBreak()));
      app := App(Entry(job.buf), rsp, layout);
    }
  }

  lemma HeaderSize(buf: seq<u8>)
    requires HeaderOk(buf)
    ensures |buf| >= EHDR_SIZE
  {
  }

  // ----- who may write or execute what

  lemma PermAtAppend(a: seq<Grant>, b: seq<Grant>, p: nat)
    requires forall i :: 0 <= i < |b| ==> !(b[i].lo <= p < b[i].hi)
    ensures PermAt(a + b, p) == PermAt(a, p)
  {
    if b == [] {
      assert a + b == a;
    } else {
      assert (a + b)[..|a + b| - 1] == a + b[..|b| - 1];
      PermAtAppend(a, b[..|b| - 1], p);
    }
  }

  /** A page that segment i covers and no later segment does has the permissions of segment i. */
  lemma LastSegmentDecides(job: Job, vaddrBreak: nat, i: nat, p: nat)
    requires job.Accepted(vaddrBreak) && HeaderOk(job.buf) && PhdrsInFile(job.buf, PhNum(job.buf))
    requires i < |job.Segs()| && forall k :: i <= k < |job.Segs()| ==> KERNEL_BREAK <= job.Segs()[k].vaddr
    requires SegmentGrant(job.Segs()[i]).lo <= p < SegmentGrant(job.Segs()[i]).hi
    requires forall k :: i < k < |job.Segs()| ==>
      !(SegmentGrant(job.Segs()[k]).lo <= p < SegmentGrant(job.Segs()[k]).hi)
    ensures PermAt(ImageGrants(job, vaddrBreak), p) == Perm(job.Segs()[i].Writable(), !job.Segs()[i].Executable())
  {
    hide SegmentGrant, LayoutOf, Acceptable, Segments, HeaderOk, PhdrsInFile, SegmentsPlaced, RegionGrants;
    HeadersAccepted(job, vaddrBreak);
    var (all, grants) := (ImageGrants(job, vaddrBreak), SegmentGrants(job.Segs(), |job.buf|, job.Layout().loadBreak));
    var (front, g, back) := (RegionGrants(job) + grants[..i], SegmentGrant(job.Segs()[i]), grants[i + 1..]);
    assert all == (front + [g]) + back;
    PermAtAppend(front + [g], back, p);
    PermAtSnoc(front, g, p);
    GrantPerms(job.Segs()[i]);
  }

  lemma GrantPerms(p: Phdr)
    requires KERNEL_BREAK <= p.vaddr
    ensures SegmentGrant(p).writable == p.Writable() && SegmentGrant(p).noExecute == !p.Executable()
  {
  }

  /**
   From the stack page on, no segment interferes: inputs, file image and random bytes are read-only, stack
   and outputs are writable, and nothing is executable.
   */
  lemma SpecialPerms(job: Job, vaddrBreak: nat, p: nat)
    requires job.Accepted(vaddrBreak) && KERNEL_BREAK + PAGE_SIZE <= job.Layout().loadBreak
    requires job.Layout().loadBreak - PAGE_SIZE <= KERNEL_BREAK + p * PAGE_SIZE < job.Layout().break_
    ensures var (l, a) := (job.Layout(), KERNEL_BREAK + p * PAGE_SIZE);
      PermAt(ImageGrants(job, vaddrBreak), p) ==
        Perm(!(l.loadBreak <= a < l.stdout || l.ib <= a < l.ob || l.image <= a), true)
  {
    hide LayoutOf, Acceptable, Segments, HeaderOk, PhdrsInFile;
    HeadersAccepted(job, vaddrBreak);
    AcceptedLayout(job.buf, job.config, vaddrBreak);
    LayoutOrdered(job.config);
    var (l, segs) := (job.Layout(), job.Segs());
    var grants := SegmentGrants(segs, |job.buf|, l.loadBreak);
    forall i | 0 <= i < |grants|
      ensures !(grants[i].lo <= p < grants[i].hi)
    {
      assert segs[i].vaddr + segs[i].memsz + PAGE_SIZE <= l.loadBreak;
      PageBounds(segs[i].vaddr - KERNEL_BREAK, segs[i].memsz, l.loadBreak - PAGE_SIZE - KERNEL_BREAK);
    }
    PermAtAppend(RegionGrants(job), grants, p);
    RegionPerms(job, p);
  }

  lemma RegionPerms(job: Job, p: nat)
    requires RegionsPlaced(job.config)
    ensures var (l, a) := (job.Layout(), KERNEL_BREAK + p * PAGE_SIZE);
      PermAt(RegionGrants(job), p) ==
        Perm(!(l.loadBreak <= a < l.stdout || l.ib <= a < l.ob || l.image <= a < l.break_), true)
  {
    hide LayoutOf, PageOf;
    LayoutOrdered(job.config);
    var (l, a) := (job.Layout(), KERNEL_BREAK + p * PAGE_SIZE);
    var g := RegionGrants(job);
    PageInRange(p, l.loadBreak, l.stdout);
    PageInRange(p, l.ib, l.ob);
    PageInRange(p, l.image, l.random);
    PageInRange(p, l.random, l.break_);
    assert g == [g[0]] + [g[1]] + [g[2]] + [g[3]];
    PermAtSnoc([], g[0], p);
    assert [] + [g[0]] == [g[0]];
    PermAtSnoc([g[0]], g[1], p);
    PermAtSnoc([g[0]] + [g[1]], g[2], p);
    PermAtSnoc([g[0]] + [g[1]] + [g[2]], g[3], p);
  }

  lemma PageInRange(p: nat, start: nat, end: nat)
    requires KERNEL_BREAK <= start <= end && start % PAGE_SIZE == 0 && end % PAGE_SIZE == 0
    ensures PageOf(start) <= p < PageOf(end) <==> start <= KERNEL_BREAK + p * PAGE_SIZE < end
  {
  }
}
