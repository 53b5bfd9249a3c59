/** Running the loaded program, accounting, and what one job can tell about another: nothing. */
module ElfRun {
  import opened Words
  import opened ByteSplice
  import opened PageFlags
  import opened AddressSpace
  import opened UserMemory
  import opened ElfLayout
  import opened ElfLoad

  /** What user code does to memory; the first access that is not allowed ends the program. */
  datatype Access = UserRead(addr: nat) | UserWrite(addr: nat, value: u8) | UserFetch(addr: nat)

  // ----- a program's view of its memory

  /** Contents and permissions of the region, and which pages the program has written. */
  datatype Image = Image(bytes: seq<u8>, perms: seq<Perm>, dirty: seq<bool>)

  ghost predicate ImageOk(img: Image) {
    |img.bytes| == |img.perms| * PAGE_SIZE && |img.dirty| == |img.perms|
  }

  predicate Allowed(img: Image, a: Access) {
    && KERNEL_BREAK <= a.addr < KERNEL_BREAK + |img.bytes|
    && (a.addr - KERNEL_BREAK) / PAGE_SIZE < |img.perms|
    && (a.UserWrite? ==> img.perms[(a.addr - KERNEL_BREAK) / PAGE_SIZE].writable)
    && (a.UserFetch? ==> !img.perms[(a.addr - KERNEL_BREAK) / PAGE_SIZE].noExecute)
  }

  function StepImage(img: Image, a: Access): (r: Image)
    requires ImageOk(img) && Allowed(img, a)
    ensures ImageOk(r)
  {
    match a
    case UserRead(_) => img
    case UserFetch(_) => img
    case UserWrite(addr, value) =>
      var off := addr - KERNEL_BREAK;
      img.(bytes := img.bytes[off := value], dirty := img.dirty[off / PAGE_SIZE := true])
  }

  /** A program: its next access, given the bytes its reads and fetches have returned so far. */
  type Strategy = seq<u8> -> Access

  /** What an access returns to the program. */
  function Seen(img: Image, a: Access): seq<u8>
    requires ImageOk(img) && Allowed(img, a)
  {
    if a.UserWrite? then [] else [img.bytes[a.addr - KERNEL_BREAK]]
  }

  /** The accesses a program makes in at most n steps, up to the first one that faults. */
  function Played(img: Image, p: Strategy, seen: seq<u8>, n: nat): seq<Access>
    requires ImageOk(img)
    decreases n
  {
    if n == 0 || !Allowed(img, p(seen)) then []
    else [p(seen)] + Played(StepImage(img, p(seen)), p, seen + Seen(img, p(seen)), n - 1)
  }

  /** The memory it leaves. */
  function Exec(img: Image, p: Strategy, seen: seq<u8>, n: nat): (r: Image)
    requires ImageOk(img)
    ensures ImageOk(r) && |r.bytes| == |img.bytes| && r.perms == img.perms
    decreases n
  {
    if n == 0 || !Allowed(img, p(seen)) then img
    else Exec(StepImage(img, p(seen)), p, seen + Seen(img, p(seen)), n - 1)
  }

  /** The image a job starts from. */
  ghost function InitialImage(job: Job, vaddrBreak: nat): (img: Image)
    requires job.Accepted(vaddrBreak)
    ensures ImageOk(img) && |img.perms| == job.Pages()
  {
    Image(seq(job.Pages() * PAGE_SIZE, i requires 0 <= i => ByteAt(ImageWrites(job, vaddrBreak), i)),
          seq(job.Pages(), p requires 0 <= p => PermAt(ImageGrants(job, vaddrBreak), p)),
          seq(job.Pages(), _ => false))
  }

  // ----- the real memory while the program runs

  /** The first pages of s are img, all of them the user's; everything not zero is marked or dirty. */
  ghost predicate Running(s: Space, img: Image) {
    var n := |img.perms|;
    && SpaceOk(s) && ImageOk(img) && n <= |s.attrs|
    && (forall i :: 0 <= i < n * PAGE_SIZE ==> s.bytes[i] == img.bytes[i])
    && (forall p :: 0 <= p < n ==> s.attrs[p].present && s.attrs[p].user)
    && (forall p :: 0 <= p < n ==> s.attrs[p].writable == img.perms[p].writable)
    && (forall p :: 0 <= p < n ==> s.attrs[p].noExecute == img.perms[p].noExecute)
    && (forall p :: 0 <= p < n ==> s.attrs[p].dirty == img.dirty[p])
    && (forall p :: n <= p < |s.attrs| ==> !s.attrs[p].user)
    && (forall i :: 0 <= i < |s.bytes| && s.bytes[i] != 0 ==>
         s.attrs[i / PAGE_SIZE].duck || (i / PAGE_SIZE < n && s.attrs[i / PAGE_SIZE].dirty))
  }

  lemma RunningOk(s: Space, img: Image)
    requires Running(s, img)
    ensures ImageOk(img)
  {
  }

  lemma LoadedRuns(s: Space, s0: Space, job: Job, vaddrBreak: nat)
    requires job.Accepted(vaddrBreak) && Idle(s0)
    requires Loaded(s, s0, job.Pages(), ImageWrites(job, vaddrBreak), ImageGrants(job, vaddrBreak))
    ensures Running(s, InitialImage(job, vaddrBreak))
  {
    hide ImageWrites, ImageGrants, Job.Accepted, Job.Pages;
    LoadedIdle(s, s0, job.Pages(), ImageWrites(job, vaddrBreak), ImageGrants(job, vaddrBreak));
  }

  /** Whether the processor lets user code through. */
  predicate UserMay(attr: Attr, a: Access) {
    attr.present && attr.user && (a.UserWrite? ==> attr.writable) && (a.UserFetch? ==> !attr.noExecute)
  }

  lemma AccessAllowed(s: Space, img: Image, a: Access)
    requires Running(s, img)
    ensures var off := a.addr - KERNEL_BREAK;
      Allowed(img, a) <==> 0 <= off < |s.bytes| && UserMay(s.attrs[off / PAGE_SIZE], a)
  {
  }

  lemma PutByte(s: Space, off: nat, value: u8)
    requires off < |s.bytes|
    ensures Put(s, off, [value]) ==
      Space(s.bytes[off := value], FlagRange(s.attrs, off / PAGE_SIZE, off / PAGE_SIZE + 1, Touch))
  {
    assert PageEnd(off + 1) == off / PAGE_SIZE + 1;
  }

  lemma WriteRuns(s: Space, img: Image, a: Access)
    requires Running(s, img) && Allowed(img, a) && a.UserWrite?
    ensures Running(Put(s, a.addr - KERNEL_BREAK, [a.value]), StepImage(img, a))
  {
    hide Put, PageEnd, Splice;
    PutByte(s, a.addr - KERNEL_BREAK, a.value);
  }

  lemma ReadRuns(s: Space, img: Image, off: nat)
    requires Running(s, img) && off < |img.bytes|
    ensures Running(Flags(s, off / PAGE_SIZE, off / PAGE_SIZE + 1, Fetch), img)
  {
  }

  /** set_duck_written_by_dirty after the run: the memory is fit for the next program. */
  lemma RunEnds(s: Space, img: Image)
    requires Running(s, img)
    ensures var t := Flags(s, 0, |img.perms|, SetDuckWrittenByDirty);
      Idle(t) && Running(t, img)
  {
  }

  // ----- what a run reports

  function CountTrue(flags: seq<bool>): nat {
    if flags == [] then 0 else CountTrue(flags[..|flags| - 1]) + if flags[|flags| - 1] then 1 else 0
  }

  lemma CountsAgree(attrs: seq<Attr>, dirty: seq<bool>)
    requires |dirty| <= |attrs| && forall p :: 0 <= p < |dirty| ==> attrs[p].dirty == dirty[p]
    ensures CountDirty(attrs, 0, |dirty|) == CountTrue(dirty)
  {
    if dirty != [] {
      CountsAgree(attrs, dirty[..|dirty| - 1]);
    }
  }

  /** Pages written in KiB, and the output the judge copies out. */
  datatype Outcome = Outcome(memoryKb: nat, stdout: seq<u8>, stderr: seq<u8>, ob: seq<u8>)

  const STDOUT_SIZE_FIELD: nat := 40
  const STDERR_SIZE_FIELD: nat := 64

  /** Offsets of the layout within the region. */
  ghost predicate Placed(job: Job, n: nat) {
    var (l, c) := (job.Layout(), job.config);
    && KERNEL_BREAK + DUCKINFO_SIZE <= l.loadBreak && l.loadBreak <= l.stdout
    && l.stdout + c.stdoutMaxSize <= l.stderr && l.stderr + c.stderrMaxSize <= l.ib
    && l.ib <= l.ob && l.ob + |c.ob| <= KERNEL_BREAK + n * PAGE_SIZE
  }

  lemma AcceptedPlaced(job: Job, vaddrBreak: nat)
    requires job.Accepted(vaddrBreak)
    ensures Placed(job, job.Pages())
  {
    hide LayoutOf, HeaderOk, PhdrsInFile, Segments, SegmentsPlaced, Acceptable;
    PagesFit(job, vaddrBreak);
    LayoutOrdered(job.config);
  }

  /** The size the program reports, cut off at the limit it was given. */
  function ReportedSize(bytes: seq<u8>, off: nat, limit: u64): nat
    requires off + 8 <= |bytes|
  {
    Min(limit, U64At(bytes, off))
  }

  /** Everything the judge takes from a finished run, from the bytes of the region. */
  function Outputs(b: seq<u8>, l: Layout, c: AppConfig, dirtyPages: nat): Outcome
    requires KERNEL_BREAK + DUCKINFO_SIZE <= l.loadBreak <= l.stdout && l.stdout + c.stdoutMaxSize <= l.stderr
    requires l.stderr + c.stderrMaxSize <= l.ib <= l.ob && l.ob + |c.ob| <= KERNEL_BREAK + |b|
  {
    var info := l.loadBreak - DUCKINFO_SIZE - KERNEL_BREAK;
    var (stdout, stderr, ob) := (l.stdout - KERNEL_BREAK, l.stderr - KERNEL_BREAK, l.ob - KERNEL_BREAK);
    Outcome(PAGE_SIZE * dirtyPages / 1024,
            b[stdout..stdout + ReportedSize(b, info + STDOUT_SIZE_FIELD, c.stdoutMaxSize)],
            b[stderr..stderr + ReportedSize(b, info + STDERR_SIZE_FIELD, c.stderrMaxSize)],
            b[ob..ob + |c.ob|])
  }

  ghost function Observe(job: Job, img: Image): Outcome
    requires ImageOk(img) && Placed(job, |img.perms|)
  {
    Outputs(img.bytes, job.Layout(), job.config, CountTrue(img.dirty))
  }

  /** One access: the processor checks the entry, then does it and records it there. */
  method AccessMemory(mem: Memory, a: Access, ghost img: Image) returns (allowed: bool, seen: seq<u8>)
    requires mem.Valid() && Running(mem.space, img)
    modifies mem.bytes, mem.pte, mem`space
    ensures mem.Valid() && ImageOk(img) && allowed == Allowed(img, a)
    ensures Running(mem.space, if allowed then StepImage(img, a) else img)
    ensures allowed ==> seen == Seen(img, a)
  {
    hide Running, Put, Allowed, StepImage, AttrOf, FlagRange, Seen;
    RunningOk(mem.space, img);
    seen := [];
    AccessAllowed(mem.space, img, a);
    MemorySize(mem);
    if a.addr < KERNEL_BREAK || a.addr >= mem.VaddrBreak() {
      return false, seen;
    }
    var page := (a.addr - KERNEL_BREAK) / PAGE_SIZE;
    EntryMeans(mem, page);
    allowed := UserMay(AttrOf(mem.pte[page]), a);
    if allowed {
      ByteSeen(mem, img, a);
      if a.UserWrite? {
        WriteRuns(mem.space, img, a);
        mem.Store(a.addr, [a.value]);
      } else {
        seen := [mem.bytes[a.addr - KERNEL_BREAK]];
        ReadAllowed(mem.space, img, a);
        var start := KERNEL_BREAK + page * PAGE_SIZE;
        mem.UpdateFlags(start, start + PAGE_SIZE, Fetch);
      }
    }
  }

  /** The byte in real memory is the byte of the program's view. */
  lemma ByteSeen(mem: Memory, img: Image, a: Access)
    requires mem.Valid() && Running(mem.space, img) && Allowed(img, a)
    ensures ImageOk(img) && a.addr - KERNEL_BREAK < mem.bytes.Length
    ensures Seen(img, a) == if a.UserWrite? then [] else [mem.bytes[a.addr - KERNEL_BREAK]]
  {
    hide AttrOf, FrameOf;
    assert mem.bytes[a.addr - KERNEL_BREAK] == mem.space.bytes[a.addr - KERNEL_BREAK];
  }

  lemma EntryMeans(mem: Memory, p: nat)
    requires mem.Valid() && p * PAGE_SIZE < |mem.space.bytes|
    ensures p < mem.pte.Length == |mem.space.attrs| && AttrOf(mem.pte[p]) == mem.space.attrs[p]
    ensures mem.VaddrBreak() == KERNEL_BREAK + |mem.space.attrs| * PAGE_SIZE
  {
    hide AttrOf, FrameOf;
  }

  lemma ReadAllowed(s: Space, img: Image, a: Access)
    requires Running(s, img) && Allowed(img, a) && !a.UserWrite?
    ensures var p := (a.addr - KERNEL_BREAK) / PAGE_SIZE;
      Running(Flags(s, p, p + 1, Fetch), img) && StepImage(img, a) == img
  {
    ReadRuns(s, img, a.addr - KERNEL_BREAK);
  }

  /** User code at work. */
  method RunUser(mem: Memory, p: Strategy, steps: nat, ghost img: Image) returns (accesses: seq<Access>)
    requires mem.Valid() && Running(mem.space, img)
    modifies mem.bytes, mem.pte, mem`space
    ensures mem.Valid() && ImageOk(img) && Running(mem.space, Exec(img, p, [], steps))
    ensures accesses == Played(img, p, [], steps)
  {
    hide Running, Memory.Valid, Allowed, StepImage, Seen;
    RunningOk(mem.space, img);
    ghost var cur := img;
    var seen: seq<u8>, n := [], steps;
    accesses := [];
    while n > 0
      invariant mem.Valid() && ImageOk(cur) && Running(mem.space, cur)
      invariant Exec(img, p, [], steps) == Exec(cur, p, seen, n)
      invariant Played(img, p, [], steps) == accesses + Played(cur, p, seen, n)
    {
      var a := p(seen);
      var allowed, got := AccessMemory(mem, a, cur);
      if !allowed {
        return;
      }
      cur := StepImage(cur, a);
      seen, accesses, n := seen + got, accesses + [a], n - 1;
    }
  }

  /** run: the program, the marks for the next clearing, and the accounting. */
  method Run(mem: Memory, job: Job, app: App, p: Strategy, steps: nat, ghost img: Image)
    returns (outcome: Outcome, accesses: seq<Access>)
    requires mem.Valid() && Running(mem.space, img) && job.Accepted(mem.VaddrBreak())
    requires |img.perms| == job.Pages() && app.layout == job.Layout() && ImageOk(img)
    modifies mem.bytes, mem.pte, mem`space
    ensures mem.Valid() && Idle(mem.space)
    ensures Placed(job, job.Pages()) && outcome == Observe(job, Exec(img, p, [], steps))
    ensures accesses == Played(img, p, [], steps)
  {
    hide Running, Idle, Memory.Valid, Job.Accepted, Job.Pages, LayoutOf, InRegion, FlagRange, Outputs, Placed;
    AcceptedPlaced(job, mem.VaddrBreak());
    RegionsInside(mem, job);
    LayoutOrdered(job.config);
    var (l, c) := (app.layout, job.config);
    accesses := RunUser(mem, p, steps, img);
    ghost var end := Exec(img, p, [], steps);
    RunEnds(mem.space, end);
    MemoryAligned(mem);
    RegionRange(mem, l, |img.perms|);
    mem.UpdateFlags(KERNEL_BREAK, l.break_, SetDuckWrittenByDirty);
    var dirty := mem.CountDirtyPages(KERNEL_BREAK, l.break_);
    RunningBytes(mem, end);
    PlacedOffsets(job, |img.perms|);
    var region := mem.bytes[..l.break_ - KERNEL_BREAK];
    assert region == end.bytes;
    outcome := Outputs(region, l, c, dirty);
  }

  lemma RunningBytes(mem: Memory, img: Image)
    requires mem.Valid() && Running(mem.space, img)
    ensures |img.bytes| <= mem.bytes.Length && mem.bytes[..|img.bytes|] == img.bytes && ImageOk(img)
    ensures |img.perms| <= |mem.space.attrs| && CountDirty(mem.space.attrs, 0, |img.perms|) == CountTrue(img.dirty)
  {
    hide AttrOf, FrameOf;
    CountsAgree(mem.space.attrs, img.dirty);
    assert mem.bytes[..|img.bytes|] == mem.space.bytes[..|img.bytes|];
  }

  lemma PlacedOffsets(job: Job, n: nat)
    requires Placed(job, n)
    ensures var (l, c) := (job.Layout(), job.config);
      && KERNEL_BREAK + DUCKINFO_SIZE <= l.loadBreak <= l.stdout <= l.stdout + c.stdoutMaxSize <= l.stderr
      && l.stderr + c.stderrMaxSize <= l.ib <= l.ob && l.ob + |c.ob| <= KERNEL_BREAK + n * PAGE_SIZE
  {
  }

  // ----- a server that runs one job after another

  /** A job and the program's behaviour, stopped after so many accesses. */
  datatype Task = Task(job: Job, program: Strategy, steps: nat)

  datatype Reply = CannotLoad | Finished(outcome: Outcome)

  /** What a task reports on a machine of the given size, as a function of its job and program alone. */
  ghost function TaskReply(t: Task, vaddrBreak: nat): Reply
    requires t.job.Ok() && vaddrBreak <= MAX_MEMORY_SIZE
  {
    if Acceptable(t.job.buf, t.job.config, vaddrBreak) then
      AcceptedPlaced(t.job, vaddrBreak);
      Finished(Observe(t.job, Exec(InitialImage(t.job, vaddrBreak), t.program, [], t.steps)))
    else CannotLoad
  }

  /** And which accesses its program makes. */
  ghost function TaskTrace(t: Task, vaddrBreak: nat): seq<Access>
    requires t.job.Ok() && vaddrBreak <= MAX_MEMORY_SIZE
  {
    if Acceptable(t.job.buf, t.job.config, vaddrBreak) then
      Played(InitialImage(t.job, vaddrBreak), t.program, [], t.steps)
    else []
  }

  /**
   Isolation over every history: although memory is never wiped between programs, and a program may act on every
   byte it reads, each task makes the accesses and reports what it would on its own, and the memory stays fit for
   the next load.
   */
  method Serve(mem: Memory, tasks: seq<Task>) returns (replies: seq<Reply>, traces: seq<seq<Access>>)
    requires mem.Valid() && Idle(mem.space)
    requires forall i :: 0 <= i < |tasks| ==> tasks[i].job.Ok()
    modifies mem.bytes, mem.pte, mem`space
    ensures mem.Valid() && Idle(mem.space) && mem.VaddrBreak() <= MAX_MEMORY_SIZE
    ensures |replies| == |traces| == |tasks|
    ensures forall i :: 0 <= i < |tasks| ==> replies[i] == TaskReply(tasks[i], mem.VaddrBreak())
    ensures forall i :: 0 <= i < |tasks| ==> traces[i] == TaskTrace(tasks[i], mem.VaddrBreak())
  {
    hide Idle, Memory.Valid, Running, Loaded, Acceptable, Observe, InitialImage, Job.Pages, ImageWrites, ImageGrants,
         LayoutOf, Placed, Exec, Played;
    MemoryAligned(mem);
    replies, traces := [], [];
    for i := 0 to |tasks|
      invariant mem.Valid() && Idle(mem.space) && |replies| == |traces| == i
      invariant forall k :: 0 <= k < i ==> replies[k] == TaskReply(tasks[k], mem.VaddrBreak())
      invariant forall k :: 0 <= k < i ==> traces[k] == TaskTrace(tasks[k], mem.VaddrBreak())
    {
      var job := tasks[i].job;
      ghost var s0 := mem.space;
      var ok, app := LoadElf64(mem, job);
      if !ok {
        replies, traces := replies + [CannotLoad], traces + [[]];
      } else {
        ghost var img := InitialImage(job, mem.VaddrBreak());
        LoadedRuns(mem.space, s0, job, mem.VaddrBreak());
        var outcome, accesses := Run(mem, job, app, tasks[i].program, tasks[i].steps, img);
        replies, traces := replies + [Finished(outcome)], traces + [accesses];
      }
    }
  }
}
