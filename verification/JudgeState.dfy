/** What a judge request does to the judger (kern/judger.cpp), and what holds over every history of requests. */
module JudgeState {
  import opened Words
  import opened ByteSplice
  import opened ElfLayout
  import opened ElfLoad
  import opened ElfRun

  datatype BufferDesc = BufferDesc(off: u64, len: u64)

  datatype JudgeRequest = JudgeRequest(
    seqNum: u64, timeLimitNs: u64, memoryHardLimitKb: u64,
    elf: BufferDesc, stdin: BufferDesc, stdout: BufferDesc, stderr: BufferDesc, ib: BufferDesc, ob: BufferDesc,
    obNeedClear: u64)

  datatype Error = NoError | NotJudged | CannotLoadElf | InvalidTimeLimit

  /** Counters and trap registers, as the processor reports them after a run. */
  datatype Measured = Measured(
    countInst: u64, clkThread: u64, clkRefTsc: u64, timeNs: u64, timeNsRefTsc: u64, timeNsReal: u64, timeTsc: u64,
    memoryKbAccessed: u64, returnCode: int, trapNum: u8, trapEpc: u64, trapCr2: u64)

  datatype JudgeResult = JudgeResult(
    error: Error, measured: Measured, memoryKb: nat, stdoutSize: nat, stderrSize: nat, isRE: bool, isTLE: bool)

  const ZERO_RESULT := JudgeResult(NotJudged, Measured(0, 0, 0, 0, 0, 0, 0, 0, 0, 0, 0, 0), 0, 0, 0, false, false)
  const MAX_TIME_LIMIT_NS: u64 := 500_000_000_000
  const NO_SEQ: u64 := 0xffff_ffff_ffff_ffff
  const TRAP_SYSCALL: u8 := 255
  const TRAP_TIMER: u8 := 32
  const EHDR32_SIZE := 52

  // ----- buffer ranges

  /** In true integers: inside the buffer and not starting at its end. */
  predicate InRange(b: BufferDesc, size: nat) {
    b.off < size && b.off + b.len <= size
  }

  /** An empty range clashes only with a range it lies strictly inside of. */
  predicate Overlap(b: BufferDesc, c: BufferDesc) {
    !(b.off + b.len <= c.off || c.off + c.len <= b.off)
  }

  predicate BuffersOk(bs: seq<BufferDesc>, size: nat) {
    && (forall i :: 0 <= i < |bs| ==> InRange(bs[i], size))
    && (forall i, j :: 0 <= j < i < |bs| ==> !Overlap(bs[i], bs[j]))
  }

  function Buffers(req: JudgeRequest): seq<BufferDesc> {
    [req.elf, req.stdin, req.stdout, req.stderr, req.ib, req.ob]
  }

  function Slice(buf: seq<u8>, b: BufferDesc): seq<u8>
    requires InRange(b, |buf|)
  {
    buf[b.off..b.off + b.len]
  }

  // ----- the program of a request

  /**
   How the user program behaves in one run, stopped after so many accesses, and what the counters say. The load
   and run of a 32-bit image are not modelled; other is what they give.
   */
  datatype Behaviour = Behaviour(program: Strategy, steps: nat, measured: Measured, other: Reply)

  function JobOf(req: JudgeRequest, buf: seq<u8>, tscFreq: u64): Job
    requires BuffersOk(Buffers(req), |buf|)
  {
    BuffersInRange(req, |buf|);
    Job(Slice(buf, req.elf),
        AppConfig(Wrap64(req.memoryHardLimitKb * 1024), Slice(buf, req.stdin), req.stdout.len, req.stderr.len,
                  Slice(buf, req.ib), Slice(buf, req.ob), req.obNeedClear != 0),
        tscFreq)
  }

  /** What of a request the program gets. */
  lemma JobIs(req: JudgeRequest, buf: seq<u8>, tscFreq: u64)
    requires BuffersOk(Buffers(req), |buf|)
    ensures InRange(req.elf, |buf|) && InRange(req.stdin, |buf|) && InRange(req.ib, |buf|) && InRange(req.ob, |buf|)
    ensures var (job, c) := (JobOf(req, buf, tscFreq), JobOf(req, buf, tscFreq).config);
      && job.buf == buf[req.elf.off..req.elf.off + req.elf.len] && job.tscFreq == tscFreq
      && c.memoryHardLimit == req.memoryHardLimitKb * 1024 % 0x1_0000_0000_0000_0000
      && c.stdin == buf[req.stdin.off..req.stdin.off + req.stdin.len]
      && c.stdoutMaxSize == req.stdout.len && c.stderrMaxSize == req.stderr.len
      && c.ib == buf[req.ib.off..req.ib.off + req.ib.len] && c.ob == buf[req.ob.off..req.ob.off + req.ob.len]
      && (c.obNeedClear <==> req.obNeedClear != 0)
  {
    hide BuffersOk;
    BuffersInRange(req, |buf|);
  }

  lemma BuffersInRange(req: JudgeRequest, size: nat)
    requires BuffersOk(Buffers(req), size)
    ensures InRange(req.elf, size) && InRange(req.stdin, size) && InRange(req.stdout, size)
    ensures InRange(req.stderr, size) && InRange(req.ib, size) && InRange(req.ob, size)
    ensures !Overlap(req.stdout, req.stderr) && !Overlap(req.stdout, req.ob) && !Overlap(req.stderr, req.ob)
  {
    var bs := Buffers(req);
    assert InRange(bs[0], size) && InRange(bs[1], size) && InRange(bs[2], size);
    assert InRange(bs[3], size) && InRange(bs[4], size) && InRange(bs[5], size);
    assert !Overlap(bs[3], bs[2]) && !Overlap(bs[5], bs[2]) && !Overlap(bs[5], bs[3]);
  }

  /** Output a run may hand back for a request. */
  predicate ReplyFits(r: Reply, req: JudgeRequest) {
    r.Finished? ==>
      |r.outcome.stdout| <= req.stdout.len && |r.outcome.stderr| <= req.stderr.len && |r.outcome.ob| == req.ob.len
  }

  datatype Machine = Machine(vaddrBreak: nat, tscFreq: u64)

  predicate MachineOk(m: Machine) {
    m.vaddrBreak <= MAX_MEMORY_SIZE
  }

  /** What load and run give: a function of the request, the buffer and the program's behaviour. */
  ghost function Program(m: Machine, req: JudgeRequest, buf: seq<u8>, b: Behaviour): (r: Reply)
    requires MachineOk(m) && |buf| < TWO32 && BuffersOk(Buffers(req), |buf|) && ReplyFits(b.other, req)
    ensures ReplyFits(r, req)
  {
    BuffersInRange(req, |buf|);
    var image := Slice(buf, req.elf);
    if |image| < EHDR32_SIZE then CannotLoad
    else if image[4] == 2 then
      var t := Task(JobOf(req, buf, m.tscFreq), b.program, b.steps);
      TaskReplyFits(t, m.vaddrBreak, req);
      TaskReply(t, m.vaddrBreak)
    else if image[4] == 1 then b.other
    else CannotLoad
  }

  lemma TaskReplyFits(t: Task, vaddrBreak: nat, req: JudgeRequest)
    requires t.job.Ok() && vaddrBreak <= MAX_MEMORY_SIZE
    requires t.job.config.stdoutMaxSize == req.stdout.len && t.job.config.stderrMaxSize == req.stderr.len
    requires |t.job.config.ob| == req.ob.len
    ensures ReplyFits(TaskReply(t, vaddrBreak), req)
  {
    hide Acceptable, Placed, LayoutOf;
    if Acceptable(t.job.buf, t.job.config, vaddrBreak) {
      AcceptedPlaced(t.job, vaddrBreak);
      ObserveFits(t.job, Exec(InitialImage(t.job, vaddrBreak), t.program, [], t.steps));
    }
  }

  lemma ObserveFits(job: Job, img: Image)
    requires ImageOk(img) && Placed(job, |img.perms|)
    ensures var o := Observe(job, img);
      && |o.stdout| <= job.config.stdoutMaxSize && |o.stderr| <= job.config.stderrMaxSize
      && |o.ob| == |job.config.ob|
  {
    hide LayoutOf, CountTrue;
    PlacedOffsets(job, |img.perms|);
  }

  // ----- one request

  /** The buffer, the retransmission state and the statistics. */
  datatype State = State(buf: seq<u8>, seqNum: u64, result: JudgeResult, cleared: bool, nJudges: u64, totalTime: u64)

  /** A cleared result is the initial one, under the sequence number 2^64-1. */
  predicate StateOk(s: State) {
    |s.buf| < TWO32 && (s.cleared ==> s.seqNum == NO_SEQ && s.result == ZERO_RESULT)
  }

  function ClearResult(s: State): State {
    if s.cleared then s else s.(cleared := true, seqNum := NO_SEQ, result := ZERO_RESULT)
  }

  /** A run that was too slow counts as the time limit, whatever ended it. */
  function ResultOf(o: Outcome, m: Measured, limit: u64): JudgeResult {
    var late := m.timeNs > limit || m.trapNum == TRAP_TIMER;
    JudgeResult(NoError, if late then m.(timeNs := limit) else m, o.memoryKb, |o.stdout|, |o.stderr|,
                m.trapNum != TRAP_SYSCALL && !late, late)
  }

  /** The outputs copied over their ranges, only as many bytes of stdout and stderr as there are. */
  function CopyOut(buf: seq<u8>, req: JudgeRequest, o: Outcome): (r: seq<u8>)
    requires BuffersOk(Buffers(req), |buf|) && ReplyFits(Finished(o), req)
    ensures |r| == |buf|
  {
    BuffersInRange(req, |buf|);
    Splice(Splice(Splice(buf, req.stdout.off, o.stdout), req.stderr.off, o.stderr), req.ob.off, o.ob)
  }

  /** Refused before anything is loaded. */
  predicate BadSize(req: JudgeRequest, size: nat) {
    Wrap64(req.memoryHardLimitKb * 1024) < req.memoryHardLimitKb || !BuffersOk(Buffers(req), size)
  }

  predicate BadTime(req: JudgeRequest) {
    req.timeLimitNs == 0 || req.timeLimitNs > MAX_TIME_LIMIT_NS
  }

  /** judge: the new state holds the reply. A refusal changes only the error of the last result. */
  ghost function Judged(m: Machine, s: State, req: JudgeRequest, b: Behaviour): (r: State)
    requires StateOk(s) && MachineOk(m) && ReplyFits(b.other, req)
    ensures StateOk(r)
  {
    if req.seqNum == s.seqNum then s
    else
      var t := s.(seqNum := req.seqNum, cleared := false, nJudges := Wrap64(s.nJudges + 1));
      if BadSize(req, |s.buf|) then t.(result := t.result.(error := CannotLoadElf))
      else if BadTime(req) then t.(result := t.result.(error := InvalidTimeLimit))
      else
        match Program(m, req, s.buf, b)
        case CannotLoad => t.(result := t.result.(error := CannotLoadElf))
        case Finished(o) =>
          var result := ResultOf(o, b.measured, req.timeLimitNs);
          t.(buf := CopyOut(s.buf, req, o), result := result,
             totalTime := Wrap64(s.totalTime + result.measured.timeNs))
  }

  // ----- what a verdict says

  predicate Within(i: int, b: BufferDesc) {
    b.off <= i < b.off + b.len
  }

  /** Two ranges overlap if they share a byte, or one is empty and lies strictly inside the other. */
  lemma OverlapIs(b: BufferDesc, c: BufferDesc)
    ensures Overlap(b, c) <==>
      || (exists i: nat :: Within(i, b) && Within(i, c))
      || (b.len == 0 && c.off < b.off < c.off + c.len)
      || (c.len == 0 && b.off < c.off < b.off + b.len)
  {
    var i := Max(b.off, c.off);
    assert Overlap(b, c) && b.len > 0 && c.len > 0 ==> Within(i, b) && Within(i, c);
  }

  predicate RangesInside(req: JudgeRequest, size: nat) {
    && req.elf.off < size && req.elf.off + req.elf.len <= size
    && req.stdin.off < size && req.stdin.off + req.stdin.len <= size
    && req.stdout.off < size && req.stdout.off + req.stdout.len <= size
    && req.stderr.off < size && req.stderr.off + req.stderr.len <= size
    && req.ib.off < size && req.ib.off + req.ib.len <= size
    && req.ob.off < size && req.ob.off + req.ob.len <= size
  }

  predicate RangesApart(req: JudgeRequest) {
    && !Overlap(req.stdin, req.elf)
    && !Overlap(req.stdout, req.elf) && !Overlap(req.stdout, req.stdin)
    && !Overlap(req.stderr, req.elf) && !Overlap(req.stderr, req.stdin) && !Overlap(req.stderr, req.stdout)
    && !Overlap(req.ib, req.elf) && !Overlap(req.ib, req.stdin) && !Overlap(req.ib, req.stdout)
    && !Overlap(req.ib, req.stderr)
    && !Overlap(req.ob, req.elf) && !Overlap(req.ob, req.stdin) && !Overlap(req.ob, req.stdout)
    && !Overlap(req.ob, req.stderr) && !Overlap(req.ob, req.ib)
  }

  /** The six ranges of a request lie in the buffer, pairwise apart. */
  predicate RangesOk(req: JudgeRequest, size: nat) {
    RangesInside(req, size) && RangesApart(req)
  }

  lemma BuffersOkIs(req: JudgeRequest, size: nat)
    ensures BuffersOk(Buffers(req), size) <==> RangesOk(req, size)
  {
    hide Overlap, InRange, RangesInside, RangesApart, Buffers;
    InsideIs(req, size);
    ApartIs(req);
  }

  lemma InsideIs(req: JudgeRequest, size: nat)
    ensures var bs := Buffers(req);
      RangesInside(req, size) <==> forall i :: 0 <= i < |bs| ==> InRange(bs[i], size)
  {
    var bs := Buffers(req);
    assert bs[0] == req.elf && bs[1] == req.stdin && bs[2] == req.stdout;
    assert bs[3] == req.stderr && bs[4] == req.ib && bs[5] == req.ob;
  }

  lemma ApartIs(req: JudgeRequest)
    ensures var bs := Buffers(req);
      RangesApart(req) <==> forall i, j :: 0 <= j < i < |bs| ==> !Overlap(bs[i], bs[j])
  {
    hide Overlap;
    var bs := Buffers(req);
    assert bs[0] == req.elf && bs[1] == req.stdin && bs[2] == req.stdout;
    assert bs[3] == req.stderr && bs[4] == req.ib && bs[5] == req.ob;
  }

  /**
   The verdict of a new request that was run to its end: too late is a time over the limit or the timer's trap; a
   runtime error is any end but the exit call that was not too late; a late run is reported with the limit.
   */
  lemma Verdict(m: Machine, s: State, req: JudgeRequest, b: Behaviour)
    requires StateOk(s) && MachineOk(m) && ReplyFits(b.other, req) && req.seqNum != s.seqNum
    requires Judged(m, s, req, b).result.error == NoError
    ensures var (t, p) := (Judged(m, s, req, b), b.measured);
      var r := t.result;
      && (r.isTLE <==> p.timeNs > req.timeLimitNs || p.trapNum == 32)
      && (r.isRE <==> p.trapNum != 255 && !r.isTLE)
      && r.measured.timeNs == (if r.isTLE then req.timeLimitNs else p.timeNs)
      && r.measured.countInst == p.countInst && r.measured.clkThread == p.clkThread
      && r.measured.clkRefTsc == p.clkRefTsc && r.measured.timeNsRefTsc == p.timeNsRefTsc
      && r.measured.timeNsReal == p.timeNsReal && r.measured.timeTsc == p.timeTsc
      && r.measured.memoryKbAccessed == p.memoryKbAccessed && r.measured.returnCode == p.returnCode
      && r.measured.trapNum == p.trapNum && r.measured.trapEpc == p.trapEpc && r.measured.trapCr2 == p.trapCr2
      && t.totalTime == (s.totalTime + r.measured.timeNs) % 0x1_0000_0000_0000_0000
      && t.nJudges == (s.nJudges + 1) % 0x1_0000_0000_0000_0000 && t.seqNum == req.seqNum && !t.cleared
    ensures BuffersOk(Buffers(req), |s.buf|)
    ensures var p := Program(m, req, s.buf, b);
      var r := Judged(m, s, req, b).result;
      p.Finished? && r.stdoutSize == |p.outcome.stdout| && r.stderrSize == |p.outcome.stderr|
      && r.memoryKb == p.outcome.memoryKb
  {
    hide Program, CopyOut, BuffersOk;
  }

  /** The image cannot be loaded: too short, of neither class, not acceptable, or refused by the 32-bit loader. */
  ghost predicate Unloadable(m: Machine, req: JudgeRequest, buf: seq<u8>, b: Behaviour)
    requires MachineOk(m) && |buf| < TWO32 && BuffersOk(Buffers(req), |buf|)
  {
    BuffersInRange(req, |buf|);
    var image := buf[req.elf.off..req.elf.off + req.elf.len];
    || |image| < 52
    || (image[4] != 1 && image[4] != 2)
    || (image[4] == 1 && b.other.CannotLoad?)
    || (image[4] == 2 && !Acceptable(image, JobOf(req, buf, m.tscFreq).config, m.vaddrBreak))
  }

  /** Exactly when a new request is answered with which error. */
  lemma ErrorIs(m: Machine, s: State, req: JudgeRequest, b: Behaviour)
    requires StateOk(s) && MachineOk(m) && ReplyFits(b.other, req) && req.seqNum != s.seqNum
    ensures BuffersOk(Buffers(req), |s.buf|) <==> RangesOk(req, |s.buf|)
    ensures var error := Judged(m, s, req, b).result.error;
      var sized := req.memoryHardLimitKb * 1024 % 0x1_0000_0000_0000_0000 >= req.memoryHardLimitKb
                   && RangesOk(req, |s.buf|);
      var timed := 0 < req.timeLimitNs <= 500_000_000_000;
      && (error == InvalidTimeLimit <==> sized && !timed)
      && (error == CannotLoadElf <==> !sized || (timed && Unloadable(m, req, s.buf, b)))
      && (error == NoError <==> sized && timed && !Unloadable(m, req, s.buf, b))
      && error != NotJudged
    ensures var t := Judged(m, s, req, b);
      && t.seqNum == req.seqNum && !t.cleared && t.nJudges == (s.nJudges + 1) % 0x1_0000_0000_0000_0000
      && (t.result.error != NoError ==> t.buf == s.buf && t.totalTime == s.totalTime)
  {
    hide CopyOut, BuffersOk, RangesOk, Acceptable, Observe, Exec, InitialImage;
    BuffersOkIs(req, |s.buf|);
    if BuffersOk(Buffers(req), |s.buf|) {
      BuffersInRange(req, |s.buf|);
      assert Program(m, req, s.buf, b).CannotLoad? <==> Unloadable(m, req, s.buf, b);
    }
  }

  // ----- the buffer outside the request's output ranges

  lemma CopyOutFrame(buf: seq<u8>, req: JudgeRequest, o: Outcome, i: nat)
    requires BuffersOk(Buffers(req), |buf|) && ReplyFits(Finished(o), req) && i < |buf|
    ensures var r := CopyOut(buf, req, o);
      && (!Within(i, req.stdout) && !Within(i, req.stderr) && !Within(i, req.ob) ==> r[i] == buf[i])
      && (Within(i, req.ob) ==> r[i] == o.ob[i - req.ob.off])
      && (Within(i, req.stdout) ==>
          r[i] == if i - req.stdout.off < |o.stdout| then o.stdout[i - req.stdout.off] else buf[i])
      && (Within(i, req.stderr) ==>
          r[i] == if i - req.stderr.off < |o.stderr| then o.stderr[i - req.stderr.off] else buf[i])
  {
    hide Splice;
    BuffersInRange(req, |buf|);
    var one := Splice(buf, req.stdout.off, o.stdout);
    var two := Splice(one, req.stderr.off, o.stderr);
    SpliceByteAt(buf, req.stdout.off, o.stdout, i);
    SpliceByteAt(one, req.stderr.off, o.stderr, i);
    SpliceByteAt(two, req.ob.off, o.ob, i);
  }

  lemma SpliceByteAt(s: seq<u8>, b: nat, w: seq<u8>, i: nat)
    requires b + |w| <= |s| && i < |s|
    ensures Splice(s, b, w)[i] == if b <= i < b + |w| then w[i - b] else s[i]
  {
  }

  /**
   Whatever the program does, only bytes in the requested stdout, stderr and OB ranges change: OB becomes the
   program's, stdout and stderr change as far as the program reports output and no further than their ranges.
   */
  lemma JudgeFrame(m: Machine, s: State, req: JudgeRequest, b: Behaviour, i: nat)
    requires StateOk(s) && MachineOk(m) && ReplyFits(b.other, req) && i < |s.buf|
    ensures var t := Judged(m, s, req, b);
      && |t.buf| == |s.buf|
      && (t.buf[i] != s.buf[i] ==>
          && t.result.error == NoError
          && (Within(i, req.ob)
              || (Within(i, req.stdout) && i - req.stdout.off < t.result.stdoutSize)
              || (Within(i, req.stderr) && i - req.stderr.off < t.result.stderrSize)))
  {
    hide Program, CopyOut, BuffersOk, Slice, JobOf;
    if req.seqNum != s.seqNum && !BadSize(req, |s.buf|) && !BadTime(req) {
      match Program(m, req, s.buf, b)
      case CannotLoad =>
      case Finished(o) => CopyOutFrame(s.buf, req, o, i);
    }
  }

  /** A finished run's verdict and output do not depend on what was judged before, nor on the rest of the buffer. */
  lemma VerdictIsFresh(m: Machine, s: State, t: State, req: JudgeRequest, b: Behaviour)
    requires StateOk(s) && StateOk(t) && MachineOk(m) && ReplyFits(b.other, req) && |s.buf| == |t.buf|
    requires s.seqNum != req.seqNum && t.seqNum != req.seqNum
    requires forall d, i :: d in Buffers(req) && 0 <= i < |s.buf| && Within(i, d) ==> s.buf[i] == t.buf[i]
    ensures var (u, v) := (Judged(m, s, req, b), Judged(m, t, req, b));
      && u.result.error == v.result.error && u.seqNum == v.seqNum
      && (u.result.error == NoError ==> u.result == v.result)
      && (forall d, i :: d in Buffers(req) && 0 <= i < |s.buf| && Within(i, d) ==> u.buf[i] == v.buf[i])
  {
    hide BuffersOk, Program, CopyOut;
    if !BadSize(req, |s.buf|) && !BadTime(req) {
      SameProgram(m, s.buf, t.buf, req, b);
      match Program(m, req, s.buf, b)
      case CannotLoad =>
      case Finished(o) =>
        forall d, i | d in Buffers(req) && 0 <= i < |s.buf| && Within(i, d)
          ensures CopyOut(s.buf, req, o)[i] == CopyOut(t.buf, req, o)[i]
        {
          CopyOutFrame(s.buf, req, o, i);
          CopyOutFrame(t.buf, req, o, i);
        }
    }
  }

  lemma SameSlice(s: seq<u8>, t: seq<u8>, d: BufferDesc)
    requires |s| == |t| && InRange(d, |s|) && forall i :: 0 <= i < |s| && Within(i, d) ==> s[i] == t[i]
    ensures Slice(s, d) == Slice(t, d)
  {
  }

  lemma SameProgram(m: Machine, s: seq<u8>, t: seq<u8>, req: JudgeRequest, b: Behaviour)
    requires MachineOk(m) && |s| == |t| < TWO32 && BuffersOk(Buffers(req), |s|) && ReplyFits(b.other, req)
    requires forall d, i :: d in Buffers(req) && 0 <= i < |s| && Within(i, d) ==> s[i] == t[i]
    ensures Program(m, req, s, b) == Program(m, req, t, b)
  {
    hide BuffersOk, TaskReply, Slice, Within;
    BuffersInRange(req, |s|);
    assert Buffers(req)[0] == req.elf && Buffers(req)[1] == req.stdin && Buffers(req)[4] == req.ib
      && Buffers(req)[5] == req.ob;
    SameSlice(s, t, req.elf);
    SameSlice(s, t, req.stdin);
    SameSlice(s, t, req.ib);
    SameSlice(s, t, req.ob);
  }

  // ----- histories

  /** For load_cache, the bytes a cache found; that they fit is the caller's responsibility in the source. */
  datatype Op =
    | ClearBuffer(off: u64, len: u64)
    | WriteBuffer(off: u64, data: seq<u8>)
    | CopyBuffer(dst: u64, src: u64, len: u64)
    | LoadCache(dst: u64, found: seq<u8>)
    | Judge(req: JudgeRequest, b: Behaviour)

  /** Whether an operation changes the buffer and so invalidates the last verdict; in true integers. */
  predicate Mutates(op: Op, size: nat) {
    match op
    case ClearBuffer(off, len) => InRange(BufferDesc(off, len), size)
    case WriteBuffer(off, data) => off < size && off + |data| <= size
    case CopyBuffer(dst, src, len) =>
      var (d, s) := (BufferDesc(dst, len), BufferDesc(src, len));
      InRange(d, size) && InRange(s, size) && !Overlap(d, s)
    case LoadCache(_, _) => true
    case Judge(_, _) => false
  }

  predicate OpOk(op: Op, size: nat) {
    match op
    case LoadCache(dst, found) => found == [] || dst + |found| <= size
    case Judge(req, b) => ReplyFits(b.other, req)
    case _ => true
  }

  function NewBuffer(buf: seq<u8>, op: Op): (r: seq<u8>)
    requires Mutates(op, |buf|) && OpOk(op, |buf|)
    ensures |r| == |buf|
  {
    match op
    case ClearBuffer(off, len) => Splice(buf, off, Zeros(len))
    case WriteBuffer(off, data) => Splice(buf, off, data)
    case CopyBuffer(dst, src, len) => Splice(buf, dst, buf[src..src + len])
    case LoadCache(dst, found) => Copied(buf, dst, found)
  }

  ghost function Step(m: Machine, s: State, op: Op): (r: State)
    requires StateOk(s) && MachineOk(m) && OpOk(op, |s.buf|)
    ensures StateOk(r) && |r.buf| == |s.buf|
  {
    if op.Judge? then Judged(m, s, op.req, op.b)
    else if !Mutates(op, |s.buf|) then s
    else ClearResult(s.(buf := NewBuffer(s.buf, op)))
  }

  ghost function Run(m: Machine, s: State, ops: seq<Op>): (r: State)
    requires StateOk(s) && MachineOk(m) && forall i :: 0 <= i < |ops| ==> OpOk(ops[i], |s.buf|)
    ensures StateOk(r) && |r.buf| == |s.buf|
  {
    if |ops| == 0 then s else Step(m, Run(m, s, ops[..|ops| - 1]), ops[|ops| - 1])
  }

  /** Neither a change of the buffer nor a request with another number. */
  predicate Quiet(op: Op, size: nat, seqNum: u64) {
    !Mutates(op, size) && (op.Judge? ==> op.req.seqNum == seqNum)
  }

  /**
   Retransmission: after a request has been answered, any number of repeats of it and failed operations
   changes nothing, and a repeat gets the same reply, whatever a second run would have done.
   */
  lemma {:induction false} RepeatsChangeNothing(m: Machine, s: State, req: JudgeRequest, b: Behaviour, ops: seq<Op>)
    requires StateOk(s) && MachineOk(m) && ReplyFits(b.other, req)
    requires forall i :: 0 <= i < |ops| ==> OpOk(ops[i], |s.buf|) && Quiet(ops[i], |s.buf|, req.seqNum)
    ensures Run(m, Step(m, s, Judge(req, b)), ops) == Step(m, s, Judge(req, b))
  {
    var t := Step(m, s, Judge(req, b));
    if |ops| > 0 {
      RepeatsChangeNothing(m, s, req, b, ops[..|ops| - 1]);
      JudgedSeq(m, s, req, b);
    }
  }

  lemma JudgedSeq(m: Machine, s: State, req: JudgeRequest, b: Behaviour)
    requires StateOk(s) && MachineOk(m) && ReplyFits(b.other, req)
    ensures Judged(m, s, req, b).seqNum == req.seqNum
  {
    hide Program, CopyOut, BuffersOk;
  }

  /** A request is really judged exactly when its number differs from the last one. */
  lemma JudgedExactly(m: Machine, s: State, req: JudgeRequest, b: Behaviour)
    requires StateOk(s) && MachineOk(m) && ReplyFits(b.other, req)
    ensures Judged(m, s, req, b).nJudges != s.nJudges <==> req.seqNum != s.seqNum
    ensures req.seqNum != s.seqNum ==> Judged(m, s, req, b).result.error != NotJudged
  {
    hide Program, CopyOut, BuffersOk;
  }

  /**
   After a successful mutation, with any failed operations in between, a request is judged anew if and only if
   its number is not 2^64-1; that number is answered with the initial result, without running anything.
   */
  lemma MutationForcesRerun(m: Machine, s: State, op: Op, ops: seq<Op>, req: JudgeRequest, b: Behaviour)
    requires StateOk(s) && MachineOk(m) && OpOk(op, |s.buf|) && Mutates(op, |s.buf|) && ReplyFits(b.other, req)
    requires forall i :: 0 <= i < |ops| ==> OpOk(ops[i], |s.buf|) && !ops[i].Judge?
    ensures var t := Run(m, Step(m, s, op), ops);
      var u := Judged(m, t, req, b);
      && (u.nJudges != t.nJudges <==> req.seqNum != 0xffff_ffff_ffff_ffff)
      && (req.seqNum == 0xffff_ffff_ffff_ffff ==> u == t)
      && (req.seqNum == 0xffff_ffff_ffff_ffff ==>
           u.result == JudgeResult(NotJudged, Measured(0, 0, 0, 0, 0, 0, 0, 0, 0, 0, 0, 0), 0, 0, 0, false, false))
  {
    hide Judged;
    ClearedStays(m, Step(m, s, op), ops);
    var t := Run(m, Step(m, s, op), ops);
    JudgedExactly(m, t, req, b);
    SameNumber(m, t, req, b);
  }

  lemma SameNumber(m: Machine, s: State, req: JudgeRequest, b: Behaviour)
    requires StateOk(s) && MachineOk(m) && ReplyFits(b.other, req)
    ensures req.seqNum == s.seqNum ==> Judged(m, s, req, b) == s
  {
  }

  lemma {:induction false} ClearedStays(m: Machine, s: State, ops: seq<Op>)
    requires StateOk(s) && MachineOk(m) && s.cleared
    requires forall i :: 0 <= i < |ops| ==> OpOk(ops[i], |s.buf|) && !ops[i].Judge?
    ensures Run(m, s, ops).cleared
  {
    if |ops| > 0 {
      ClearedStays(m, s, ops[..|ops| - 1]);
    }
  }

  // ----- the check of the memory limit

  const KB_UNIT: nat := 0x40_0000_0000_0000

  /**
   What the overflow test catches: with q whole multiples of 2^54 KiB and r KiB left over, it fires exactly for
   1023 r < q 2^54. The product overflows exactly for q > 0, so the test is right exactly when there is no
   overflow or r is small enough.
   */
  lemma OverflowTest(kb: u64)
    ensures var (q, r) := (kb / KB_UNIT, kb % KB_UNIT);
      && (Wrap64(kb * 1024) < kb <==> 1023 * r < q * KB_UNIT)
      && (kb * 1024 >= TWO64 <==> q > 0)
      && ((Wrap64(kb * 1024) < kb <==> kb * 1024 >= TWO64) <==> q == 0 || 1023 * r < q * KB_UNIT)
  {
    var (q, r) := (kb / KB_UNIT, kb % KB_UNIT);
    assert kb * 1024 == q * TWO64 + r * 1024;
    QuotientIs(kb * 1024, q, r * 1024, TWO64);
  }

  /** Whether the ELF range of a request holds an image for the 32-bit loader. */
  predicate Is32Bit(req: JudgeRequest, buf: seq<u8>)
    requires InRange(req.elf, |buf|)
  {
    req.elf.len >= EHDR32_SIZE && buf[req.elf.off + 4] == 1
  }

  /** No image is accepted under a limit beyond the machine's memory. */
  lemma LimitWithinMemory(buf: seq<u8>, c: AppConfig, vaddrBreak: nat)
    requires Acceptable(buf, c, vaddrBreak) && vaddrBreak <= MAX_MEMORY_SIZE
    ensures c.memoryHardLimit <= MAX_MEMORY_SIZE
  {
    hide HeaderOk, PhdrsInFile, Segments, SegmentOk, Lowest, Highest;
    LayoutOrdered(c);
    RoundUpFacts(c.memoryHardLimit);
  }

  /** A wrapped limit that passes the test is beyond any machine's memory. */
  lemma WrappedLimitHuge(kb: u64)
    requires Wrap64(kb * 1024) >= kb && kb * 1024 >= TWO64
    ensures Wrap64(kb * 1024) > MAX_MEMORY_SIZE
  {
    OverflowTest(kb);
  }

  lemma ProgramLimit(m: Machine, req: JudgeRequest, buf: seq<u8>, b: Behaviour)
    requires MachineOk(m) && |buf| < TWO32 && BuffersOk(Buffers(req), |buf|) && ReplyFits(b.other, req)
    requires InRange(req.elf, |buf|) && !Is32Bit(req, buf)
    requires Wrap64(req.memoryHardLimitKb * 1024) >= req.memoryHardLimitKb
    ensures Program(m, req, buf, b).Finished? ==> req.memoryHardLimitKb * 1024 < TWO64
  {
    hide BuffersOk, Acceptable, Observe, Exec, InitialImage, Wrap64;
    BuffersInRange(req, |buf|);
    var job := JobOf(req, buf, m.tscFreq);
    if Acceptable(job.buf, job.config, m.vaddrBreak) {
      LimitWithinMemory(job.buf, job.config, m.vaddrBreak);
      if req.memoryHardLimitKb * 1024 >= TWO64 {
        WrappedLimitHuge(req.memoryHardLimitKb);
      }
    }
  }

  /**
   Although the test misses overflows, no 64-bit program is ever run under a wrapped limit: a request that is
   judged without an error was judged under exactly the limit it asked for.
   */
  lemma LimitNeverWrong(m: Machine, s: State, req: JudgeRequest, b: Behaviour)
    requires StateOk(s) && MachineOk(m) && ReplyFits(b.other, req) && req.seqNum != s.seqNum
    requires InRange(req.elf, |s.buf|) ==> !Is32Bit(req, s.buf)
    ensures Judged(m, s, req, b).result.error == NoError ==>
      && BuffersOk(Buffers(req), |s.buf|)
      && JobOf(req, s.buf, m.tscFreq).config.memoryHardLimit == req.memoryHardLimitKb * 1024
  {
    hide BuffersOk, Program, CopyOut, Is32Bit, Wrap64;
    if !BadSize(req, |s.buf|) && !BadTime(req) {
      BuffersInRange(req, |s.buf|);
      ProgramLimit(m, req, s.buf, b);
      LimitOfJob(req, s.buf, m.tscFreq);
    }
  }

  lemma LimitOfJob(req: JudgeRequest, buf: seq<u8>, tscFreq: u64)
    requires BuffersOk(Buffers(req), |buf|)
    ensures req.memoryHardLimitKb * 1024 < TWO64 ==>
      JobOf(req, buf, tscFreq).config.memoryHardLimit == req.memoryHardLimitKb * 1024
  {
    hide BuffersOk;
    BuffersInRange(req, |buf|);
  }

  /**
   An overflow the test misses: a limit of 3 * 2^53 KiB passes it although the product overflows. The request is
   refused all the same, by the loader and not by the test.
   */
  lemma OverflowMissed(m: Machine, s: State, req: JudgeRequest, b: Behaviour)
    requires StateOk(s) && MachineOk(m) && ReplyFits(b.other, req) && req.seqNum != s.seqNum
    requires BuffersOk(Buffers(req), |s.buf|) && !BadTime(req) && InRange(req.elf, |s.buf|) && !Is32Bit(req, s.buf)
    requires req.memoryHardLimitKb == 0x60_0000_0000_0000
    ensures req.memoryHardLimitKb * 1024 >= TWO64 && !BadSize(req, |s.buf|)
    ensures Judged(m, s, req, b).result == s.result.(error := CannotLoadElf)
  {
    hide BuffersOk, Program, CopyOut, Is32Bit;
    ProgramLimit(m, req, s.buf, b);
  }

  // ----- what a refused request returns

  /** A result in which nothing but the error is as in r. */
  function Different(r: JudgeResult): JudgeResult {
    r.(memoryKb := r.memoryKb + 1)
  }

  /** The last result replaced, whatever state the judger is in. */
  function WithResult(s: State, r: JudgeResult): State {
    s.(result := r, cleared := false)
  }

  /**
   A reply is a fresh one, independent of the last result, exactly when the request was run to its end. Any
   other reply to a new request carries the last result's fields.
   */
  lemma FreshExactly(m: Machine, s: State, req: JudgeRequest, b: Behaviour)
    requires StateOk(s) && MachineOk(m) && ReplyFits(b.other, req) && req.seqNum != s.seqNum
    ensures (!BadSize(req, |s.buf|) && !BadTime(req) && Program(m, req, s.buf, b).Finished?) <==>
      forall r: JudgeResult :: Judged(m, WithResult(s, r), req, b).result == Judged(m, s, req, b).result
    ensures !(!BadSize(req, |s.buf|) && !BadTime(req) && Program(m, req, s.buf, b).Finished?) ==>
      var t := Judged(m, s, req, b); t.result == s.result.(error := t.result.error) && t.result.error != NoError
  {
    hide BuffersOk, Program, CopyOut;
    var r := Different(s.result);
    assert !(!BadSize(req, |s.buf|) && !BadTime(req) && Program(m, req, s.buf, b).Finished?) ==>
      Judged(m, WithResult(s, r), req, b).result != Judged(m, s, req, b).result;
  }

  /** A request with nothing but empty ranges, for time limit 0. */
  function EmptyRequest(seqNum: u64): JudgeRequest {
    var none := BufferDesc(0, 0);
    JudgeRequest(seqNum, 0, 0, none, none, none, none, none, none, 0)
  }

  /** Right after any finished run, a request refused for its time limit returns that run's counters and sizes. */
  lemma StaleReply(m: Machine, s0: State, first: JudgeRequest, b0: Behaviour, b: Behaviour)
    requires StateOk(s0) && MachineOk(m) && ReplyFits(b0.other, first) && ReplyFits(b.other, EmptyRequest(2))
    requires first.seqNum != s0.seqNum && first.seqNum != 2 && Judged(m, s0, first, b0).result.error == NoError
    ensures var s := Judged(m, s0, first, b0);
      Judged(m, s, EmptyRequest(2), b).result == s.result.(error := InvalidTimeLimit)
  {
    hide Program, CopyOut, BuffersOk;
    FreshExactly(m, s0, first, b0);
    RunHasBuffer(first, |s0.buf|);
    EmptyBuffersOk(2, |s0.buf|);
  }

  lemma RunHasBuffer(req: JudgeRequest, size: nat)
    ensures BuffersOk(Buffers(req), size) ==> size > 0
  {
    if BuffersOk(Buffers(req), size) {
      BuffersInRange(req, size);
    }
  }

  lemma EmptyBuffersOk(seqNum: u64, size: nat)
    requires size > 0
    ensures BuffersOk(Buffers(EmptyRequest(seqNum)), size)
  {
    var bs := Buffers(EmptyRequest(seqNum));
    assert forall i :: 0 <= i < |bs| ==> bs[i] == BufferDesc(0, 0);
  }
}
