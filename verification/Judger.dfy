/** The judger's buffer and requests (kern/judger.cpp) on real memory. */
module Judger {
  import opened Words
  import opened ByteSplice
  import opened AddressSpace
  import opened UserMemory
  import opened ElfLayout
  import opened ElfLoad
  import opened ElfRun
  import opened JudgeState

  /** A sum that would leave 64 bits wraps; between ranges known to be in the buffer none does. */
  method CheckOverlap(b: BufferDesc, c: BufferDesc, size: nat) returns (overlap: bool)
    requires InRange(b, size) && InRange(c, size) && size < TWO64
    ensures overlap == Overlap(b, c)
  {
    overlap := !(Wrap64(b.off + b.len) <= c.off || Wrap64(c.off + c.len) <= b.off);
  }

  /** is_valid_buffer: no sum, so nothing to wrap around. */
  method IsValidBuffer(b: BufferDesc, size: nat) returns (valid: bool)
    ensures valid == InRange(b, size)
  {
    valid := b.off < size && b.len <= size - b.off;
  }

  /** check_buffers: sums wrap around in 64 bits, and still the answer is that of true integers. */
  method CheckBuffers(bs: seq<BufferDesc>, size: nat) returns (ok: bool)
    requires size < TWO64
    ensures ok == BuffersOk(bs, size)
  {
    hide Overlap, InRange;
    for i := 0 to |bs|
      invariant forall k :: 0 <= k < i ==> InRange(bs[k], size)
      invariant forall k, l :: 0 <= l < k < i ==> !Overlap(bs[k], bs[l])
    {
      var valid := IsValidBuffer(bs[i], size);
      if !valid {
        return false;
      }
      for j := 0 to i
        invariant forall l :: 0 <= l < j ==> !Overlap(bs[i], bs[l])
      {
        var overlap := CheckOverlap(bs[i], bs[j], size);
        if overlap {
          return false;
        }
      }
    }
    ok := true;
  }

  class Service {
    const buffer: array<u8>
    const mem: Memory
    const tscFreq: u64
    var judgeSeqNum: u64
    var judgeResult: JudgeResult
    var judgeResultCleared: bool
    var nJudges: u64
    var totalTimeNs: u64

    /** The user memory is fit for a load. */
    ghost predicate MemoryReady()
      reads mem, mem.bytes, mem.pte
    {
      mem.Valid() && Idle(mem.space)
    }

    ghost predicate Valid()
      reads this, buffer, mem, mem.bytes, mem.pte
    {
      MemoryReady() && buffer != mem.bytes && (buffer as object) != mem.pte && StateOk(State())
    }

    ghost function State(): State
      reads this, buffer
    {
      JudgeState.State(buffer[..], judgeSeqNum, judgeResult, judgeResultCleared, nJudges, totalTimeNs)
    }

    ghost function Machine(): Machine {
      JudgeState.Machine(mem.VaddrBreak(), tscFreq)
    }

    /** init, with the buffer and the user memory already allocated. The largest buffer the source tries is 3 GiB. */
    constructor (buffer: array<u8>, mem: Memory, tscFreq: u64)
      requires mem.Valid() && Idle(mem.space) && buffer.Length < TWO32
      requires buffer != mem.bytes && (buffer as object) != mem.pte
      modifies buffer
      ensures Valid() && this.buffer == buffer && this.mem == mem && this.tscFreq == tscFreq
      ensures State() == JudgeState.State(Zeros(buffer.Length), NO_SEQ, ZERO_RESULT, true, 0, 0)
    {
      hide Memory.Valid, Idle, Splice;
      this.buffer, this.mem, this.tscFreq := buffer, mem, tscFreq;
      judgeSeqNum, judgeResult, judgeResultCleared := NO_SEQ, ZERO_RESULT, true;
      nJudges, totalTimeNs := 0, 0;
      new;
      Clear(buffer, 0, buffer.Length);
      assert buffer[..] == buffer[..][0..0 + buffer.Length];
    }

    method ClearJudgeResult()
      modifies this`judgeSeqNum, this`judgeResult, this`judgeResultCleared
      ensures State() == ClearResult(old(State()))
    {
      if judgeResultCleared {
        return;
      }
      judgeResultCleared := true;
      judgeSeqNum := NO_SEQ;
      judgeResult := ZERO_RESULT;
    }

    method ClearBuffer(off: u64, len: u64) returns (ok: bool)
      requires Valid()
      modifies this, buffer
      ensures Valid() && State() == Step(Machine(), old(State()), Op.ClearBuffer(off, len))
      ensures ok == Mutates(Op.ClearBuffer(off, len), buffer.Length)
    {
      hide MemoryReady, Splice;
      ok := off < buffer.Length && len <= buffer.Length - off;
      if ok {
        Clear(buffer, off, len);
        ClearJudgeResult();
      }
    }

    method ReadBuffer(off: u64, len: u64) returns (ok: bool, data: seq<u8>)
      requires Valid()
      ensures ok == InRange(BufferDesc(off, len), buffer.Length)
      ensures ok ==> data == Slice(buffer[..], BufferDesc(off, len))
    {
      hide MemoryReady;
      data := [];
      ok := off < buffer.Length && len <= buffer.Length - off;
      if ok {
        data := buffer[off..off + len];
      }
    }

    method WriteBuffer(off: u64, data: seq<u8>) returns (ok: bool)
      requires Valid() && |data| < TWO64
      modifies this, buffer
      ensures Valid() && State() == Step(Machine(), old(State()), Op.WriteBuffer(off, data))
      ensures ok == Mutates(Op.WriteBuffer(off, data), buffer.Length)
    {
      hide MemoryReady, Splice;
      ok := off < buffer.Length && |data| <= buffer.Length - off;
      if ok {
        Copy(buffer, off, data);
        ClearJudgeResult();
      }
    }

    /** The end of load_cache, after a cache has copied what it found into the buffer. */
    method LoadedFromCache(ghost was: State, dst: u64, ghost found: seq<u8>)
      requires MemoryReady() && buffer != mem.bytes && (buffer as object) != mem.pte
      requires StateOk(was) && OpOk(Op.LoadCache(dst, found), |was.buf|)
      requires State() == was.(buf := Copied(was.buf, dst, found))
      modifies this`judgeSeqNum, this`judgeResult, this`judgeResultCleared
      ensures Valid() && State() == Step(Machine(), was, Op.LoadCache(dst, found))
    {
      hide MemoryReady, Splice;
      ClearJudgeResult();
    }

    /** The overlap test wraps around for ranges outside the buffer, which the range tests refuse anyway. */
    method CopyBuffer(dst: u64, src: u64, len: u64) returns (ok: bool)
      requires Valid()
      modifies this, buffer
      ensures Valid() && State() == Step(Machine(), old(State()), Op.CopyBuffer(dst, src, len))
      ensures ok == Mutates(Op.CopyBuffer(dst, src, len), buffer.Length)
    {
      hide MemoryReady, Splice;
      var dstInRange := dst < buffer.Length && len <= buffer.Length - dst;
      var srcInRange := src < buffer.Length && len <= buffer.Length - src;
      var noOverlap := Wrap64(dst + len) <= src || Wrap64(src + len) <= dst;
      ok := dstInRange && srcInRange && noOverlap;
      if ok {
        CopyWithin(buffer, dst, src, len);
        ClearJudgeResult();
        assert old(buffer[src..src + len]) == old(buffer[..])[src..src + len];
      }
    }

    method CompareBuffer(off1: u64, off2: u64, len: u64) returns (ok: bool, same: bool)
      requires Valid()
      ensures ok == (InRange(BufferDesc(off1, len), buffer.Length) && InRange(BufferDesc(off2, len), buffer.Length))
      ensures ok ==> (same <==> Slice(buffer[..], BufferDesc(off1, len)) == Slice(buffer[..], BufferDesc(off2, len)))
    {
      hide MemoryReady;
      var inRange1 := off1 < buffer.Length && len <= buffer.Length - off1;
      var inRange2 := off2 < buffer.Length && len <= buffer.Length - off2;
      ok, same := inRange1 && inRange2, true;
      if ok {
        ghost var (s, t) := (buffer[off1..off1 + len], buffer[off2..off2 + len]);
        var i := 0;
        while i < len && same
          invariant 0 <= i <= len
          invariant same ==> forall k :: 0 <= k < i ==> s[k] == t[k]
          invariant !same ==> i > 0 && s[i - 1] != t[i - 1]
        {
          same := buffer[off1 + i] == buffer[off2 + i];
          i := i + 1;
        }
      }
    }

    /** can_not_load_elf and invalid_time_limit: the other fields of the last result stay. */
    method Refuse(error: Error) returns (r: JudgeResult)
      modifies this`judgeResult
      ensures judgeResult == old(judgeResult).(error := error) == r
    {
      judgeResult := judgeResult.(error := error);
      r := judgeResult;
    }

    /** load and run; a 32-bit image gives b.other. */
    method LoadAndRun(req: JudgeRequest, b: Behaviour) returns (r: Reply)
      requires Valid() && BuffersOk(Buffers(req), buffer.Length) && ReplyFits(b.other, req)
      modifies mem.bytes, mem.pte, mem`space
      ensures Valid() && r == Program(Machine(), req, buffer[..], b)
    {
      hide Memory.Valid, Idle, BuffersOk, Loaded, Running, Acceptable, Observe, InitialImage, Job.Pages, Placed;
      hide ImageWrites, ImageGrants, LayoutOf;
      BuffersInRange(req, buffer.Length);
      ghost var buf := buffer[..];
      ghost var vaddrBreak := mem.VaddrBreak();
      MemoryAligned(mem);
      var job := BuildJob(req);
      if |job.buf| < EHDR32_SIZE {
        return CannotLoad;
      }
      if job.buf[4] != 2 {
        return if job.buf[4] == 1 then b.other else CannotLoad;
      }
      ghost var s0 := mem.space;
      var ok, app := LoadElf64(mem, job);
      if !ok {
        return CannotLoad;
      }
      ghost var img := InitialImage(job, vaddrBreak);
      LoadedRuns(mem.space, s0, job, vaddrBreak);
      var outcome, accesses := ElfRun.Run(mem, job, app, b.program, b.steps, img);
      r := Finished(outcome);
    }

    method BuildJob(req: JudgeRequest) returns (job: Job)
      requires StateOk(State()) && BuffersOk(Buffers(req), buffer.Length)
      ensures job == JobOf(req, buffer[..], tscFreq) && job.Ok()
    {
      hide BuffersOk;
      BuffersInRange(req, buffer.Length);
      var config := AppConfig(
        Wrap64(req.memoryHardLimitKb * 1024), buffer[req.stdin.off..req.stdin.off + req.stdin.len],
        req.stdout.len, req.stderr.len,
        buffer[req.ib.off..req.ib.off + req.ib.len], buffer[req.ob.off..req.ob.off + req.ob.len],
        req.obNeedClear != 0);
      job := Job(buffer[req.elf.off..req.elf.off + req.elf.len], config, tscFreq);
    }

    /** The outputs of the run into their ranges. */
    method CopyOutputs(req: JudgeRequest, o: Outcome)
      requires BuffersOk(Buffers(req), buffer.Length) && ReplyFits(Finished(o), req)
      modifies buffer
      ensures buffer[..] == CopyOut(old(buffer[..]), req, o)
    {
      hide Splice, BuffersOk;
      BuffersInRange(req, buffer.Length);
      Copy(buffer, req.stdout.off, o.stdout);
      Copy(buffer, req.stderr.off, o.stderr);
      Copy(buffer, req.ob.off, o.ob);
    }

    /** judge; b is what the user program does, should it come to a run. */
    method Judge(req: JudgeRequest, b: Behaviour) returns (r: JudgeResult)
      requires Valid() && ReplyFits(b.other, req)
      modifies this, buffer, mem.bytes, mem.pte, mem`space
      ensures Valid() && State() == Step(Machine(), old(State()), Op.Judge(req, b))
      ensures r == State().result
      ensures old(judgeSeqNum) == req.seqNum ==> r == old(judgeResult)
      ensures old(judgeSeqNum) != req.seqNum && r.error == NoError ==>
        && (r.isTLE <==> b.measured.timeNs > req.timeLimitNs || b.measured.trapNum == 32)
        && (r.isRE <==> b.measured.trapNum != 255 && !r.isTLE)
        && r.measured == b.measured.(timeNs := if r.isTLE then req.timeLimitNs else b.measured.timeNs)
    {
      hide Memory.Valid, Idle, BuffersOk, Program, CopyOut, Slice, JobOf, Buffers;
      if req.seqNum == judgeSeqNum {
        return judgeResult;
      }
      MemoryAligned(mem);
      nJudges := Wrap64(nJudges + 1);
      judgeResultCleared := false;
      judgeSeqNum := req.seqNum;
      if Wrap64(req.memoryHardLimitKb * 1024) < req.memoryHardLimitKb {
        r := Refuse(CannotLoadElf);
        return;
      }
      var ok := CheckBuffers(Buffers(req), buffer.Length);
      if !ok {
        r := Refuse(CannotLoadElf);
        return;
      }
      if req.timeLimitNs == 0 || req.timeLimitNs > MAX_TIME_LIMIT_NS {
        r := Refuse(InvalidTimeLimit);
        return;
      }
      var reply := LoadAndRun(req, b);
      if reply.CannotLoad? {
        r := Refuse(CannotLoadElf);
        return;
      }
      var (o, m) := (reply.outcome, b.measured);
      judgeResult := JudgeResult(NoError, m, o.memoryKb, |o.stdout|, |o.stderr|,
                                 m.trapNum != TRAP_SYSCALL, m.trapNum == TRAP_TIMER);
      if m.timeNs > req.timeLimitNs || judgeResult.isTLE {
        judgeResult := judgeResult.(isRE := false, isTLE := true, measured := m.(timeNs := req.timeLimitNs));
      }
      CopyOutputs(req, o);
      totalTimeNs := Wrap64(totalTimeNs + judgeResult.measured.timeNs);
      r := judgeResult;
    }
  }
}
