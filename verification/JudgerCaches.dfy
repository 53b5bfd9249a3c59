/** The judger's two caches beside its buffer (kern/judger.cpp): what is loaded is what was once stored. */
module JudgerCaches {
  import opened Words
  import opened ByteSplice
  import opened Digest
  import opened Arena
  import opened DuckCache
  import opened AddressSpace
  import opened UserMemory
  import opened ElfLoad
  import opened Judger
  import J = JudgeState
  import H = CacheHistory

  // ----- sessions, on values

  datatype CachedState = CachedState(judger: J.State, elf: H.State, data: H.State)

  datatype Op =
    | OnBuffer(op: J.Op)
    | LoadCache(name: string, dst: u64, len: u64, hex: string, now: u64)
    | StoreCache(name: string, src: u64, len: u64, hex: string, now: u64)

  /** What does not change: the machine, and slots and pages of the two caches. */
  datatype Config = Config(machine: J.Machine, elfMax: nat, elfTotal: nat, dataMax: nat, dataTotal: nat)

  predicate Named(name: string) {
    name == "elf" || name == "data"
  }

  /** The operation names one of the caches, and a digest. */
  ghost predicate Addressed(op: Op) {
    !op.OnBuffer? && Named(op.name) && |op.hex| >= 64 && AllHex(op.hex[..64])
  }

  ghost predicate OnCache(op: Op, name: string) {
    Addressed(op) && op.name == name
  }

  ghost function DigestOf(op: Op): Digest256
    requires Addressed(op)
  {
    DigestOfHex(op.hex[..64])
  }

  function CacheOf(s: CachedState, name: string): H.State {
    if name == "elf" then s.elf else s.data
  }

  function WithCache(s: CachedState, name: string, c: H.State): CachedState {
    if name == "elf" then s.(elf := c) else s.(data := c)
  }

  function MaxOf(z: Config, name: string): nat {
    if name == "elf" then z.elfMax else z.dataMax
  }

  function TotalOf(z: Config, name: string): nat {
    if name == "elf" then z.elfTotal else z.dataTotal
  }

  predicate Inside(off: u64, len: u64, size: nat) {
    len == 0 || off + len <= size
  }

  /** Where the i-th byte of a range lies, counted from the start of the buffer; addresses wrap around. */
  function Place(off: u64, i: nat): u64 {
    Wrap64(off + i)
  }

  /** In addresses that wrap around, every byte of a range lies in the buffer exactly when the range ends in it. */
  lemma InsideExact(off: u64, len: u64, size: nat)
    requires size < TWO64
    ensures Inside(off, len, size) <==> forall i :: 0 <= i < len ==> Place(off, i) < size
  {
    if len > 0 && off + len > size {
      var i := if off >= size then 0 else size - off;
      assert Place(off, i) >= size;
    }
  }

  /** The bytes a store reads. One that only looks its digest up reads none, and its range does not matter. */
  function SourceBytes(buf: seq<u8>, src: u64, len: u64): (r: seq<u8>)
    ensures |r| == len
  {
    if src + len <= |buf| then buf[src..src + len] else Zeros(len)
  }

  /** The pages store asks for; the rounding may wrap around. */
  function NPages64(len: u64): nat {
    Max(Wrap64(len + ONE_PAGE_CONTENT_SIZE - 1) / ONE_PAGE_CONTENT_SIZE, 1)
  }

  /** A length for which it does fits no buffer, so a store that stays inside goes by the true number of pages. */
  lemma NPages64Exact(src: u64, len: u64, size: nat, total: nat)
    requires size < TWO32 && (NPages64(len) <= total ==> Inside(src, len, size))
    ensures NPages64(len) <= total <==> NPages(len) <= total
  {
    AtMostTrue(len);
    if len + ONE_PAGE_CONTENT_SIZE - 1 < TWO64 {
      assert NPages64(len) == NPages(len);
    }
  }

  lemma AtMostTrue(len: u64)
    ensures NPages64(len) <= NPages(len)
  {
  }

  /**
   The source does not check the ranges of these two. The operation stays inside the buffer unless it is a load that
   finds its object, or a store that has to keep its bytes, with a range that leaves it.
   */
  ghost predicate Stays(z: Config, s: CachedState, op: Op) {
    Addressed(op) ==>
      var (objs, d) := (CacheOf(s, op.name).objs, DigestOf(op));
      match op
      case LoadCache(_, dst, len, _, _) =>
        d in objs && |objs[d].data| == len ==> Inside(dst, len, |s.judger.buf|)
      case StoreCache(name, src, len, _, _) =>
        d !in objs && NPages64(len) <= TotalOf(z, name) ==> Inside(src, len, |s.judger.buf|)
  }

  predicate OpValid(op: Op, size: nat) {
    match op
    case OnBuffer(j) => J.OpOk(j, size) && !j.LoadCache? && (j.WriteBuffer? ==> |j.data| < TWO64)
    case _ => op.now != 0
  }

  /** What the buffer sees of an operation. */
  function BufferOps(op: Op, reply: H.Reply): (r: seq<J.Op>)
    ensures |r| <= 1
  {
    match op
    case OnBuffer(j) => [j]
    case LoadCache(_, dst, _, _, _) => if reply.Hit? then [J.LoadCache(dst, reply.data)] else []
    case StoreCache(_, _, _, _, _) => []
  }

  /** And the cache. */
  ghost function CacheOp(s: CachedState, op: Op): H.Op
    requires Addressed(op)
  {
    match op
    case LoadCache(_, _, len, _, now) => H.LoadOp(DigestOf(op), len, now)
    case StoreCache(_, src, len, _, now) => H.StoreOp(DigestOf(op), SourceBytes(s.judger.buf, src, len), now)
  }

  ghost predicate JudgerOk(z: Config, s: CachedState) {
    J.StateOk(s.judger) && J.MachineOk(z.machine)
  }

  /** One operation: a step of the buffer, and a step of the cache it names, if it names one. */
  ghost predicate Step(z: Config, s: CachedState, op: Op, reply: H.Reply, s': CachedState) {
    && JudgerOk(z, s)
    && (var b := BufferOps(op, reply); |b| > 0 ==> J.OpOk(b[0], |s.judger.buf|))
    && s'.judger == J.Run(z.machine, s.judger, BufferOps(op, reply))
    && if Addressed(op) then
         && H.Step(MaxOf(z, op.name), TotalOf(z, op.name), CacheOf(s, op.name), CacheOp(s, op), reply,
           CacheOf(s', op.name))
         && s' == WithCache(s, op.name, CacheOf(s', op.name)).(judger := s'.judger)
       else
         reply == (if op.OnBuffer? then H.Done else H.Refused) && s' == s.(judger := s'.judger)
  }

  /** A run from states[0] on; every operation stays inside the buffer. */
  ghost predicate Session(z: Config, ops: seq<Op>, replies: seq<H.Reply>, states: seq<CachedState>) {
    && |states| == |replies| + 1 && |replies| <= |ops|
    && forall i :: 0 <= i < |replies| ==>
        Stays(z, states[i], ops[i]) && Step(z, states[i], ops[i], replies[i], states[i + 1])
  }

  /** All that the buffer sees of a session. */
  function AllBufferOps(ops: seq<Op>, replies: seq<H.Reply>): seq<J.Op>
    requires |ops| == |replies|
  {
    if |ops| == 0 then []
    else AllBufferOps(ops[..|ops| - 1], replies[..|ops| - 1]) + BufferOps(ops[|ops| - 1], replies[|ops| - 1])
  }

  lemma RunAppend(m: J.Machine, s: J.State, a: seq<J.Op>, b: seq<J.Op>)
    requires J.StateOk(s) && J.MachineOk(m) && |b| <= 1
    requires forall i :: 0 <= i < |a| ==> J.OpOk(a[i], |s.buf|)
    requires |b| > 0 ==> J.OpOk(b[0], |s.buf|)
    ensures forall i :: 0 <= i < |a + b| ==> J.OpOk((a + b)[i], |s.buf|)
    ensures J.Run(m, s, a + b) == J.Run(m, J.Run(m, s, a), b)
  {
    hide J.Step, J.OpOk;
    if |b| == 0 {
      assert a + b == a;
    } else {
      assert (a + b)[..|a|] == a && (a + b)[|a|] == b[0] && b[..0] == [];
    }
  }

  /** The buffer and its verdicts go through a history of JudgeState, so all that is proved there holds here. */
  lemma {:induction false} SessionRuns(z: Config, ops: seq<Op>, replies: seq<H.Reply>, states: seq<CachedState>, j: nat)
    requires Session(z, ops, replies, states) && j <= |replies| && JudgerOk(z, states[0])
    ensures var b := AllBufferOps(ops[..j], replies[..j]);
      && (forall i :: 0 <= i < |b| ==> J.OpOk(b[i], |states[0].judger.buf|))
      && states[j].judger == J.Run(z.machine, states[0].judger, b)
  {
    hide J.Step, J.OpOk, Stays, Addressed, H.Step;
    if j > 0 {
      var i := j - 1;
      SessionRuns(z, ops, replies, states, i);
      assert ops[..j][..i] == ops[..i] && replies[..j][..i] == replies[..i];
      assert Step(z, states[i], ops[i], replies[i], states[j]);
      RunAppend(z.machine, states[0].judger, AllBufferOps(ops[..i], replies[..i]), BufferOps(ops[i], replies[i]));
    }
  }

  /** An operation on one cache leaves the other alone, and one on neither leaves both. */
  lemma OtherCache(z: Config, s: CachedState, op: Op, reply: H.Reply, s': CachedState)
    requires Step(z, s, op, reply, s')
    ensures !op.OnBuffer? && op.name == "elf" ==> s'.data == s.data
    ensures !op.OnBuffer? && op.name == "data" ==> s'.elf == s.elf
    ensures op.OnBuffer? || (op.name != "elf" && op.name != "data") ==> s'.elf == s.elf && s'.data == s.data
    ensures op.StoreCache? ==> s'.judger == s.judger
  {
    hide H.Step, DigestOf, SourceBytes, J.Step, J.OpOk, AllHex;
    assert J.Run(z.machine, s.judger, []) == s.judger;
  }

  // ----- what is loaded is what was stored

  /** The objects of one cache across one operation. */
  lemma StepOnCache(z: Config, s: CachedState, op: Op, reply: H.Reply, s': CachedState, name: string)
    requires Step(z, s, op, reply, s') && Named(name)
    ensures if OnCache(op, name)
            then H.Step(MaxOf(z, name), TotalOf(z, name), CacheOf(s, name), CacheOp(s, op), reply, CacheOf(s', name))
            else CacheOf(s', name) == CacheOf(s, name)
  {
    hide H.Step, DigestOf, SourceBytes, J.Run, J.OpOk, AllHex;
  }

  /** From one insertion on, while it is not evicted, an object keeps its bytes. */
  lemma {:induction false} BytesKept(z: Config, ops: seq<Op>, replies: seq<H.Reply>, states: seq<CachedState>,
                                     name: string, d: Digest256, i: nat, j: nat)
    requires Session(z, ops, replies, states) && i <= j <= |replies| && Named(name)
    requires forall k :: i <= k <= j ==> d in CacheOf(states[k], name).objs
    ensures CacheOf(states[j], name).objs[d].data == CacheOf(states[i], name).objs[d].data
  {
    hide Step, Stays, H.Step, Addressed;
    if i < j {
      BytesKept(z, ops, replies, states, name, d, i, j - 1);
      assert Step(z, states[j - 1], ops[j - 1], replies[j - 1], states[j]);
      StepOnCache(z, states[j - 1], ops[j - 1], replies[j - 1], states[j], name);
      var (c, c') := (CacheOf(states[j - 1], name), CacheOf(states[j], name));
      if OnCache(ops[j - 1], name) {
        H.DataStays(MaxOf(z, name), TotalOf(z, name), c, CacheOp(states[j - 1], ops[j - 1]), replies[j - 1], c', d);
      }
    }
  }

  /** Operation i put digest d into the cache of that name, and d has stayed there until state j. */
  ghost predicate StoredAt(ops: seq<Op>, states: seq<CachedState>, name: string, d: Digest256, i: nat, j: nat) {
    && i < j < |states| && i < |ops|
    && ops[i].StoreCache? && OnCache(ops[i], name) && DigestOf(ops[i]) == d
    && d !in CacheOf(states[i], name).objs
    && forall k :: i < k <= j ==> d in CacheOf(states[k], name).objs
  }

  /** What is in a cache that was empty at first was stored there by some operation. */
  lemma {:induction false} StoredSomewhere(z: Config, ops: seq<Op>, replies: seq<H.Reply>, states: seq<CachedState>,
                                           name: string, d: Digest256, j: nat) returns (i: nat)
    requires Session(z, ops, replies, states) && j <= |replies| && Named(name)
    requires CacheOf(states[0], name).objs == map[] && d in CacheOf(states[j], name).objs
    ensures StoredAt(ops, states, name, d, i, j)
  {
    hide Step, Stays, H.Step, StoredAt, OnCache;
    assert Step(z, states[j - 1], ops[j - 1], replies[j - 1], states[j]);
    if d in CacheOf(states[j - 1], name).objs {
      i := StoredSomewhere(z, ops, replies, states, name, d, j - 1);
      StoredLonger(ops, states, name, d, i, j - 1);
    } else {
      i := j - 1;
      StoredNow(z, ops, replies, states, name, d, i);
    }
  }

  lemma StoredLonger(ops: seq<Op>, states: seq<CachedState>, name: string, d: Digest256, i: nat, j: nat)
    requires StoredAt(ops, states, name, d, i, j) && j + 1 < |states| && d in CacheOf(states[j + 1], name).objs
    ensures StoredAt(ops, states, name, d, i, j + 1)
  {
    hide OnCache, DigestOf;
  }

  lemma StoredNow(z: Config, ops: seq<Op>, replies: seq<H.Reply>, states: seq<CachedState>, name: string,
          d: Digest256, i: nat)
    requires i < |ops| && i < |replies| && i + 1 < |states| && Named(name)
    requires Step(z, states[i], ops[i], replies[i], states[i + 1])
    requires d !in CacheOf(states[i], name).objs && d in CacheOf(states[i + 1], name).objs
    ensures StoredAt(ops, states, name, d, i, i + 1)
    ensures CacheOf(states[i + 1], name).objs[d].data == SourceBytes(states[i].judger.buf, ops[i].src, ops[i].len)
    ensures NPages(ops[i].len) <= TotalOf(z, name)
  {
    hide Step, H.Step, DigestOf, SourceBytes;
    StepOnCache(z, states[i], ops[i], replies[i], states[i + 1], name);
    var (c, c') := (CacheOf(states[i], name), CacheOf(states[i + 1], name));
    H.DataInserted(MaxOf(z, name), TotalOf(z, name), c, CacheOp(states[i], ops[i]), replies[i], c', d);
  }

  /** The bytes an insertion took from the buffer. */
  lemma StoredBytes(z: Config, ops: seq<Op>, replies: seq<H.Reply>, states: seq<CachedState>,
                    name: string, d: Digest256, i: nat, j: nat)
    requires Session(z, ops, replies, states) && j <= |replies| && Named(name) && StoredAt(ops, states, name, d, i, j)
    ensures Inside(ops[i].src, ops[i].len, |states[i].judger.buf|)
    ensures CacheOf(states[j], name).objs[d].data == SourceBytes(states[i].judger.buf, ops[i].src, ops[i].len)
  {
    hide Step, H.Step, SourceBytes, DigestOf;
    assert Stays(z, states[i], ops[i]) && Step(z, states[i], ops[i], replies[i], states[i + 1]);
    StoredNow(z, ops, replies, states, name, d, i);
    AtMostTrue(ops[i].len);
    BytesKept(z, ops, replies, states, name, d, i + 1, j);
  }

  /** The load at j put the bytes that the store at i read back into the buffer. */
  ghost predicate Restored(ops: seq<Op>, states: seq<CachedState>, i: nat, j: nat)
    requires i < |ops| && j < |ops| && i < |states| && j + 1 < |states| && ops[i].StoreCache? && ops[j].LoadCache?
  {
    var (buf, buf') := (states[i].judger.buf, states[j + 1].judger.buf);
    var (src, dst, len) := (ops[i].src, ops[j].dst, ops[i].len);
    ops[j].len == len && (len > 0 ==>
      src + len <= |buf| && dst + len <= |buf'| && buf'[dst..dst + len] == buf[src..src + len])
  }

  /**
   store_cache and then load_cache, whatever happens in between: as long as the object is not evicted, the load
   succeeds exactly for the length that was stored, and then restores the bytes.
   */
  lemma StoreThenLoad(z: Config, ops: seq<Op>, replies: seq<H.Reply>, states: seq<CachedState>, i: nat, j: nat)
    requires Session(z, ops, replies, states) && i < j < |replies|
    requires ops[j].LoadCache? && Addressed(ops[j]) && StoredAt(ops, states, ops[j].name, DigestOf(ops[j]), i, j)
    ensures replies[j].Hit? <==> ops[j].len == ops[i].len
    ensures replies[j].Hit? ==> Restored(ops, states, i, j)
  {
    hide Session, Step, SourceBytes, StoredAt, DigestOf, Inside;
    SessionStep(z, ops, replies, states, j);
    var (name, d) := (ops[j].name, DigestOf(ops[j]));
    StoredBytes(z, ops, replies, states, name, d, i, j);
    StoredFacts(ops, states, name, d, i, j);
    LoadStep(z, states[j], ops[j], replies[j], states[j + 1]);
    SourceInside(states[i].judger.buf, ops[i].src, ops[i].len);
  }

  lemma SessionStep(z: Config, ops: seq<Op>, replies: seq<H.Reply>, states: seq<CachedState>, i: nat)
    requires Session(z, ops, replies, states) && i < |replies|
    ensures i + 1 < |states| && i < |ops| && Step(z, states[i], ops[i], replies[i], states[i + 1])
  {
  }

  lemma StoredFacts(ops: seq<Op>, states: seq<CachedState>, name: string, d: Digest256, i: nat, j: nat)
    requires StoredAt(ops, states, name, d, i, j)
    ensures i < |ops| && ops[i].StoreCache? && i < j < |states| && d in CacheOf(states[j], name).objs
  {
  }

  /** A load that hits, and its bytes in the buffer. */
  lemma LoadStep(z: Config, s: CachedState, op: Op, reply: H.Reply, s': CachedState)
    requires Step(z, s, op, reply, s') && op.LoadCache?
    ensures Addressed(op) ==>
      var (objs, d) := (CacheOf(s, op.name).objs, DigestOf(op));
      && (reply.Hit? <==> d in objs && |objs[d].data| == op.len)
      && (reply.Hit? ==> reply.data == objs[d].data)
    ensures reply.Hit? ==> Addressed(op) && |reply.data| == op.len
    ensures reply.Hit? && op.len > 0 ==>
      var buf' := s'.judger.buf; op.dst + op.len <= |buf'| && buf'[op.dst..op.dst + op.len] == reply.data
  {
    hide J.Run, J.OpOk, DigestOf;
    if reply.Hit? {
      LoadedBytes(z.machine, s.judger, op.dst, reply.data);
    }
  }

  lemma SourceInside(buf: seq<u8>, src: u64, len: u64)
    requires Inside(src, len, |buf|)
    ensures len > 0 ==> src + len <= |buf| && SourceBytes(buf, src, len) == buf[src..src + len]
  {
  }

  lemma LoadedBytes(m: J.Machine, s: J.State, dst: u64, data: seq<u8>)
    requires J.StateOk(s) && J.MachineOk(m) && J.OpOk(J.LoadCache(dst, data), |s.buf|)
    ensures var t := J.Run(m, s, [J.LoadCache(dst, data)]);
      |t.buf| == |s.buf| && (|data| > 0 ==> dst + |data| <= |s.buf| && t.buf[dst..dst + |data|] == data)
  {
    assert [J.LoadCache(dst, data)][..0] == [];
  }

  /** Every load that finds something restores the bytes of one earlier store into the same cache. */
  lemma LoadRestores(z: Config, ops: seq<Op>, replies: seq<H.Reply>, states: seq<CachedState>, j: nat) returns (i: nat)
    requires Session(z, ops, replies, states) && j < |replies|
    requires states[0].elf.objs == map[] && states[0].data.objs == map[]
    requires ops[j].LoadCache? && replies[j].Hit?
    ensures Addressed(ops[j]) && StoredAt(ops, states, ops[j].name, DigestOf(ops[j]), i, j)
    ensures Restored(ops, states, i, j)
  {
    hide Session, Step, StoredAt, DigestOf, Restored;
    SessionStep(z, ops, replies, states, j);
    LoadStep(z, states[j], ops[j], replies[j], states[j + 1]);
    i := StoredSomewhere(z, ops, replies, states, ops[j].name, DigestOf(ops[j]), j);
    StoredFacts(ops, states, ops[j].name, DigestOf(ops[j]), i, j);
    StoreThenLoad(z, ops, replies, states, i, j);
  }

  // ----- on real memory

  const ELF_CACHE_N: nat := 1000
  const DATA_CACHE_N: nat := 100000

  ghost function CacheRepr(c: Cache): set<object>
    reads c
  {
    {c, c.objHash, c.objDigest, c.objMetadata, c.sortIds, c.arena}
  }

  ghost function ServiceRepr(s: Service): set<object> {
    {s, s.buffer, s.mem, s.mem.bytes, s.mem.pte}
  }

  ghost function AsState(c: Cache): H.State
    reads c
  {
    H.State(c.Objects(), c.nFreePages)
  }

  /** An empty cache whose objects are all new. */
  method NewCache(nMaxObjects: nat, cacheSize: nat) returns (c: Cache)
    requires nMaxObjects >= 1 && ArenaPages(nMaxObjects, cacheSize) > 0
    ensures fresh(CacheRepr(c)) && c.Valid()
    ensures c.nMaxObjects == nMaxObjects && c.nTotalPages == ArenaPages(nMaxObjects, cacheSize)
    ensures AsState(c) == H.State(map[], c.nTotalPages)
  {
    hide Cache.Valid, Cache.Objects, ArenaPages;
    c := new Cache(nMaxObjects, cacheSize);
  }

  class CachedService {
    const service: Service
    const elfCache: Cache
    const dataCache: Cache

    ghost predicate Apart()
      reads elfCache, dataCache
    {
      && CacheRepr(elfCache) !! CacheRepr(dataCache)
      && CacheRepr(elfCache) !! ServiceRepr(service) && CacheRepr(dataCache) !! ServiceRepr(service)
    }

    ghost predicate Valid()
      reads this, ServiceRepr(service), CacheRepr(elfCache), CacheRepr(dataCache)
    {
      service.Valid() && elfCache.Valid() && dataCache.Valid() && Apart()
    }

    ghost function State(): CachedState
      reads service, service.buffer, elfCache, dataCache
    {
      CachedState(service.State(), AsState(elfCache), AsState(dataCache))
    }

    ghost function Conf(): Config
      reads service.mem, service.mem.bytes, service.mem.pte, elfCache, dataCache
    {
      Config(service.Machine(), elfCache.nMaxObjects, elfCache.nTotalPages, dataCache.nMaxObjects,
        dataCache.nTotalPages)
    }

    /** The rest of init: two empty caches, of the sizes chosen. */
    constructor (service: Service, elfCacheSize: nat, dataCacheSize: nat)
      requires service.Valid()
      requires ArenaPages(ELF_CACHE_N, elfCacheSize) > 0 && ArenaPages(DATA_CACHE_N, dataCacheSize) > 0
      ensures Valid() && this.service == service
      ensures fresh(CacheRepr(elfCache)) && fresh(CacheRepr(dataCache))
      ensures Conf() == Config(service.Machine(), ELF_CACHE_N, ArenaPages(ELF_CACHE_N, elfCacheSize),
                               DATA_CACHE_N, ArenaPages(DATA_CACHE_N, dataCacheSize))
      ensures State() == CachedState(service.State(), H.State(map[], Conf().elfTotal), H.State(map[], Conf().dataTotal))
    {
      hide AsState, Cache.Valid, Cache.Objects, ArenaPages, Service.Valid, Service.State, Service.Machine;
      this.service := service;
      var elf := NewCache(ELF_CACHE_N, elfCacheSize);
      elfCache := elf;
      var data := NewCache(DATA_CACHE_N, dataCacheSize);
      dataCache := data;
    }

    ghost predicate Ours(cache: Cache, other: Cache) {
      (cache == elfCache && other == dataCache) || (cache == dataCache && other == elfCache)
    }

    /** Loads from one of the caches, straight into the buffer. */
    method LoadFrom(cache: Cache, ghost other: Cache, digest: Digest256, dst: u64, len: u64, now: u64)
        returns (ok: bool, reply: H.Reply)
      requires Valid() && now != 0 && Ours(cache, other)
      requires cache.Hits(digest, len) ==> Inside(dst, len, service.buffer.Length)
      modifies service, service.buffer, cache`view, cache.objMetadata
      ensures Valid() && Conf() == old(Conf()) && AsState(other) == old(AsState(other)) && ok == reply.Hit?
      ensures H.Step(cache.nMaxObjects, cache.nTotalPages, old(AsState(cache)), H.LoadOp(digest, len, now), reply,
                     AsState(cache))
      ensures reply.Hit? ==> J.OpOk(J.LoadCache(dst, reply.data), service.buffer.Length)
      ensures service.State() ==
        if ok then J.Step(service.Machine(), old(service.State()), J.LoadCache(dst, reply.data))
        else old(service.State())
    {
      hide Cache.Valid, Service.MemoryReady, Copied, J.Step;
      ghost var was := service.State();
      ghost var found := if cache.Hits(digest, len) then cache.Objects()[digest].data else [];
      ok := cache.Load(digest, service.buffer, dst, len, now);
      reply := if ok then H.Hit(SourceBytes(service.buffer[..], dst, len)) else H.Miss;
      if ok {
        CopiedBack(was.buf, dst, found);
        service.LoadedFromCache(was, dst, found);
      }
    }

    /** load_cache: into the buffer, at an offset it does not check. */
    method LoadCache(name: string, dst: u64, len: u64, hex: string, now: u64) returns (ok: bool, reply: H.Reply)
      requires Valid() && now != 0 && Stays(Conf(), State(), Op.LoadCache(name, dst, len, hex, now))
      modifies service, service.buffer
      modifies elfCache`view, elfCache.objMetadata, dataCache`view, dataCache.objMetadata
      ensures Valid() && Conf() == old(Conf())
      ensures Step(Conf(), old(State()), Op.LoadCache(name, dst, len, hex, now), reply, State())
      ensures ok == reply.Hit?
    {
      hide Service.Valid, Cache.Valid, H.Step, J.Step, DigestOfHex, J.OpOk;
      ghost var (z, s, op) := (Conf(), State(), Op.LoadCache(name, dst, len, hex, now));
      ServiceOk();
      ok, reply := false, H.Refused;
      var valid, digest := DigestFromHex(hex);
      if !valid {
        return;
      }
      if name == "elf" {
        ok, reply := LoadFrom(elfCache, dataCache, digest, dst, len, now);
        LoadIsStep(z, s, op, reply, State());
      } else if name == "data" {
        ok, reply := LoadFrom(dataCache, elfCache, digest, dst, len, now);
        LoadIsStep(z, s, op, reply, State());
      }
    }

    /** Stores into one of the caches, straight from the buffer. */
    method StoreFrom(cache: Cache, ghost other: Cache, digest: Digest256, src: u64, len: u64, now: u64)
        returns (ok: bool, reply: H.Reply)
      requires Valid() && now != 0 && Ours(cache, other)
      modifies cache, cache.objHash, cache.objDigest, cache.objMetadata, cache.sortIds, cache.arena
      ensures Valid() && Conf() == old(Conf()) && AsState(other) == old(AsState(other)) && ok == reply.Done?
      ensures CacheRepr(cache) == old(CacheRepr(cache))
      ensures H.Step(cache.nMaxObjects, cache.nTotalPages, old(AsState(cache)),
                     H.StoreOp(digest, SourceBytes(service.buffer[..], src, len), now), reply, AsState(cache))
      ensures service.State() == old(service.State())
    {
      hide Cache.Valid, Service.Valid, SourceBytes, H.Step;
      var op := H.StoreOp(digest, SourceBytes(service.buffer[..], src, len), now);
      reply := H.Apply(cache, op);
      ok := reply.Done?;
    }

    /** store_cache: from the buffer, at an offset it does not check. */
    method StoreCache(name: string, src: u64, len: u64, hex: string, now: u64) returns (ok: bool, reply: H.Reply)
      requires Valid() && now != 0 && Stays(Conf(), State(), Op.StoreCache(name, src, len, hex, now))
      modifies CacheRepr(elfCache), CacheRepr(dataCache)
      ensures Valid() && Conf() == old(Conf()) && SameRepr(old(CacheRepr(elfCache)), old(CacheRepr(dataCache)))
      ensures Step(Conf(), old(State()), Op.StoreCache(name, src, len, hex, now), reply, State())
      ensures ok == reply.Done?
    {
      hide Service.Valid, Cache.Valid, H.Step, SourceBytes, DigestOfHex, J.Run;
      ghost var (z, s, op) := (Conf(), State(), Op.StoreCache(name, src, len, hex, now));
      ServiceOk();
      ok, reply := false, H.Refused;
      NothingSeen(z, s);
      var valid, digest := DigestFromHex(hex);
      if !valid {
        return;
      }
      if name == "elf" {
        ok, reply := StoreFrom(elfCache, dataCache, digest, src, len, now);
      } else if name == "data" {
        ok, reply := StoreFrom(dataCache, elfCache, digest, src, len, now);
      }
    }

    ghost predicate SameRepr(elfRepr: set<object>, dataRepr: set<object>)
      reads elfCache, dataCache
    {
      CacheRepr(elfCache) == elfRepr && CacheRepr(dataCache) == dataRepr
    }

    /** Tells whether the next operation stays inside the buffer. */
    method StaysInside(op: Op) returns (stays: bool)
      requires Valid()
      ensures stays == Stays(Conf(), State(), op)
    {
      hide Service.Valid, Cache.Valid, DigestOfHex;
      if op.OnBuffer? || !Named(op.name) {
        return true;
      }
      var valid, digest := DigestFromHex(op.hex);
      if !valid {
        return true;
      }
      var cache := if op.name == "elf" then elfCache else dataCache;
      match op {
        case LoadCache(_, dst, len, _, _) =>
          var hit, idx := cache.Lookup(digest, len);
          stays := !hit || Inside(dst, len, service.buffer.Length);
        case StoreCache(_, src, len, _, _) =>
          var found := cache.Contains(digest);
          stays := found || NPages64(len) > cache.nTotalPages || Inside(src, len, service.buffer.Length);
      }
    }

    /** Any operation. */
    method Do(op: Op) returns (reply: H.Reply)
      requires Valid() && OpValid(op, service.buffer.Length) && Stays(Conf(), State(), op)
      modifies ServiceRepr(service), CacheRepr(elfCache), CacheRepr(dataCache)
      ensures Valid() && Conf() == old(Conf()) && SameRepr(old(CacheRepr(elfCache)), old(CacheRepr(dataCache)))
      ensures Step(Conf(), old(State()), op, reply, State())
    {
      hide Service.Valid, Cache.Valid, H.Step, Step, J.Step, Stays;
      match op {
        case OnBuffer(j) =>
          OnService(j);
          reply := H.Done;
        case LoadCache(name, dst, len, hex, now) =>
          var ok;
          ok, reply := LoadCache(name, dst, len, hex, now);
        case StoreCache(name, src, len, hex, now) =>
          var ok;
          ok, reply := StoreCache(name, src, len, hex, now);
      }
    }

    /** An operation of the service alone. */
    method OnService(j: J.Op)
      requires Valid() && OpValid(OnBuffer(j), service.buffer.Length)
      modifies ServiceRepr(service)
      ensures Valid() && Conf() == old(Conf()) && SameRepr(old(CacheRepr(elfCache)), old(CacheRepr(dataCache)))
      ensures Step(Conf(), old(State()), OnBuffer(j), H.Done, State())
    {
      hide Service.Valid, Cache.Valid, J.Step;
      ServiceOk();
      ghost var (z, s) := (Conf(), State());
      match j {
        case ClearBuffer(off, len) =>
          var ok := service.ClearBuffer(off, len);
        case WriteBuffer(off, data) =>
          var ok := service.WriteBuffer(off, data);
        case CopyBuffer(dst, src, len) =>
          var ok := service.CopyBuffer(dst, src, len);
        case Judge(req, b) =>
          var r := service.Judge(req, b);
      }
      OneStep(z.machine, s.judger, j);
    }

    lemma ServiceOk()
      requires Valid()
      ensures JudgerOk(Conf(), State())
    {
      hide Memory.Valid, Idle;
      MemoryAligned(service.mem);
    }
  }

  lemma CopiedBack(s: seq<u8>, dst: u64, w: seq<u8>)
    requires |w| < TWO64 && Inside(dst, |w|, |s|)
    ensures SourceBytes(Copied(s, dst, w), dst, |w|) == w
  {
  }

  lemma NothingSeen(z: Config, s: CachedState)
    requires JudgerOk(z, s)
    ensures J.Run(z.machine, s.judger, []) == s.judger
  {
  }

  lemma OneStep(m: J.Machine, s: J.State, op: J.Op)
    requires J.StateOk(s) && J.MachineOk(m) && J.OpOk(op, |s.buf|)
    ensures J.Run(m, s, [op]) == J.Step(m, s, op)
  {
    hide J.Step, J.OpOk;
    assert [op][..0] == [];
    assert J.Run(m, s, []) == s;
  }

  /** The two parts of a load make a step. */
  lemma LoadIsStep(z: Config, s: CachedState, op: Op, reply: H.Reply, s': CachedState)
    requires JudgerOk(z, s) && op.LoadCache? && Addressed(op)
    requires H.Step(MaxOf(z, op.name), TotalOf(z, op.name), CacheOf(s, op.name), CacheOp(s, op), reply,
      CacheOf(s', op.name))
    requires s' == WithCache(s, op.name, CacheOf(s', op.name)).(judger := s'.judger)
    requires reply.Hit? ==> J.OpOk(J.LoadCache(op.dst, reply.data), |s.judger.buf|)
    requires s'.judger ==
      if reply.Hit? then J.Step(z.machine, s.judger, J.LoadCache(op.dst, reply.data)) else s.judger
    ensures Step(z, s, op, reply, s')
  {
    hide H.Step, J.Step, DigestOf, J.OpOk;
    NothingSeen(z, s);
    if reply.Hit? {
      OneStep(z.machine, s.judger, J.LoadCache(op.dst, reply.data));
    }
  }

  lemma SessionStart(z: Config, ops: seq<Op>, s: CachedState)
    ensures Session(z, ops, [], [s])
  {
  }

  lemma SessionNext(z: Config, ops: seq<Op>, replies: seq<H.Reply>, states: seq<CachedState>, reply: H.Reply,
                    s: CachedState)
    requires Session(z, ops, replies, states) && |states| == |replies| + 1 && |replies| < |ops|
    requires var i := |replies|; Stays(z, states[i], ops[i]) && Step(z, states[i], ops[i], reply, s)
    ensures Session(z, ops, replies + [reply], states + [s])
  {
    hide Step, Stays;
    var (r, t) := (replies + [reply], states + [s]);
    forall i | 0 <= i < |r| ensures Stays(z, t[i], ops[i]) && Step(z, t[i], ops[i], r[i], t[i + 1]) {
    }
  }

  /**
   A session of buffer operations, requests, loads and stores, on real memory, goes through these steps, until an
   operation would leave the buffer.
   */
  method RunSession(service: CachedService, ops: seq<Op>)
      returns (replies: seq<H.Reply>, ghost states: seq<CachedState>)
    requires service.Valid() && forall i :: 0 <= i < |ops| ==> OpValid(ops[i], service.service.buffer.Length)
    modifies ServiceRepr(service.service), CacheRepr(service.elfCache), CacheRepr(service.dataCache)
    ensures service.Valid() && Session(service.Conf(), ops, replies, states) && |states| == |replies| + 1
    ensures states[0] == old(service.State()) && states[|replies|] == service.State()
    ensures |replies| < |ops| ==> !Stays(service.Conf(), service.State(), ops[|replies|])
  {
    hide CachedService.Valid, CachedService.State, CachedService.Conf, Session, Stays, OpValid;
    ghost var (z, elfRepr, dataRepr) := (service.Conf(), CacheRepr(service.elfCache), CacheRepr(service.dataCache));
    replies, states := [], [service.State()];
    SessionStart(z, ops, states[0]);
    for i := 0 to |ops|
      invariant service.Valid() && service.Conf() == z && service.SameRepr(elfRepr, dataRepr)
      invariant |replies| == i && |states| == i + 1 && Session(z, ops, replies, states)
      invariant states[0] == old(service.State()) && states[i] == service.State()
    {
      var stays := service.StaysInside(ops[i]);
      if !stays {
        return;
      }
      var reply := service.Do(ops[i]);
      SessionNext(z, ops, replies, states, reply, service.State());
      replies := replies + [reply];
      states := states + [service.State()];
    }
  }
}
