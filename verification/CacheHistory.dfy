/**
 Whole histories of a cache, over the maps it stands for: each step is what the contracts of
 DuckCache.Cache.Load and DuckCache.Cache.Store promise.
 */
module CacheHistory {
  import opened Words
  import opened Digest
  import opened Arena
  import opened CacheState
  import opened DuckCache

  datatype State = State(objs: Objects, nFree: nat)

  datatype Op =
    | LoadOp(digest: Digest256, len: nat, now: nat)
    | StoreOp(digest: Digest256, data: seq<u8>, now: nat)

  datatype Reply = Hit(data: seq<u8>) | Miss | Done | Refused

  /** One operation of a cache of total pages and nMax entries. The victims are not determined when stamps tie. */
  ghost predicate Step(nMax: nat, total: nat, s: State, op: Op, reply: Reply, s': State) {
    match op
    case LoadOp(d, len, now) =>
      if d in s.objs && |s.objs[d].data| == len
      then reply == Hit(s.objs[d].data) && s' == s.(objs := s.objs[d := s.objs[d].(lastUsed := now)])
      else reply == Miss && s' == s
    case StoreOp(d, data, now) =>
      if d in s.objs then reply == Done && s' == s
      else if NPages(|data|) > total then reply == Refused && s' == s
      else reply == Done && exists victims :: StoresAfter(nMax, s, d, data, now, victims, s')
  }

  ghost predicate StoresAfter(nMax: nat, s: State, d: Digest256, data: seq<u8>, now: nat,
                              victims: seq<Digest256>, s': State)
  {
    && IsEviction(s.objs, s.nFree, nMax, NPages(|data|), victims)
    && s'.objs == (s.objs - Elements(victims))[d := Object(now, data)]
    && s'.nFree == s.nFree + PagesOf(s.objs, victims) - NPages(|data|)
  }

  /** A history: states[0] is the empty cache, and ops[i] leads from states[i] to states[i + 1]. */
  ghost predicate History(nMax: nat, total: nat, ops: seq<Op>, replies: seq<Reply>, states: seq<State>) {
    && |states| == |ops| + 1 && |replies| == |ops|
    && states[0] == State(map[], total)
    && forall i :: 0 <= i < |ops| ==> Step(nMax, total, states[i], ops[i], replies[i], states[i + 1])
  }

  /** One call on a cache is one step of its history. */
  method Apply(cache: Cache, op: Op) returns (reply: Reply)
    requires cache.Valid() && op.now != 0
    modifies cache, cache.objHash, cache.objDigest, cache.objMetadata, cache.sortIds, cache.arena
    ensures cache.Valid() && cache.nMaxObjects == old(cache.nMaxObjects) && cache.nTotalPages == old(cache.nTotalPages)
    ensures cache.objHash == old(cache.objHash) && cache.objDigest == old(cache.objDigest)
    ensures cache.objMetadata == old(cache.objMetadata) && cache.sortIds == old(cache.sortIds)
    ensures cache.arena == old(cache.arena)
    ensures Step(cache.nMaxObjects, cache.nTotalPages, old(State(cache.Objects(), cache.nFreePages)), op, reply,
                 State(cache.Objects(), cache.nFreePages))
  {
    hide Cache.Valid, IsEviction;
    match op
    case LoadOp(digest, len, now) =>
      var dst := new u8[len];
      var ok := cache.Load(digest, dst, 0, len, now);
      reply := if ok then Hit(dst[..]) else Miss;
    case StoreOp(digest, data, now) =>
      var ok, victims := cache.Store(digest, data, now);
      reply := if ok then Done else Refused;
      assert digest !in old(cache.Objects()) && ok ==>
        StoresAfter(cache.nMaxObjects, old(State(cache.Objects(), cache.nFreePages)), digest, data, now, victims,
                    State(cache.Objects(), cache.nFreePages));
  }

  /** Any sequence of calls on a new cache goes through a history of the map. */
  method Replay(nMaxObjects: nat, cacheSize: nat, ops: seq<Op>) returns (replies: seq<Reply>, ghost states: seq<State>)
    requires nMaxObjects >= 1 && ArenaPages(nMaxObjects, cacheSize) > 0
    requires forall i :: 0 <= i < |ops| ==> ops[i].now != 0
    ensures History(nMaxObjects, ArenaPages(nMaxObjects, cacheSize), ops, replies, states)
  {
    hide Cache.Valid, Step, ArenaPages;
    var cache := new Cache(nMaxObjects, cacheSize);
    replies := [];
    states := [State(map[], cache.nTotalPages)];
    for i := 0 to |ops|
      invariant cache.Valid() && fresh(cache) && fresh(cache.objHash) && fresh(cache.objDigest)
      invariant fresh(cache.objMetadata) && fresh(cache.sortIds) && fresh(cache.arena)
      invariant cache.nMaxObjects == nMaxObjects && cache.nTotalPages == ArenaPages(nMaxObjects, cacheSize)
      invariant |states| == i + 1 && states[i] == State(cache.Objects(), cache.nFreePages)
      invariant History(nMaxObjects, ArenaPages(nMaxObjects, cacheSize), ops[..i], replies, states)
    {
      var reply := Apply(cache, ops[i]);
      replies := replies + [reply];
      states := states + [State(cache.Objects(), cache.nFreePages)];
      assert ops[..i + 1] == ops[..i] + [ops[i]];
    }
    assert ops[..|ops|] == ops;
  }

  // ----- what comes back is what went in

  /** ops[i] put d into the cache, and d has stayed there until state j. */
  ghost predicate InsertedAt(ops: seq<Op>, states: seq<State>, d: Digest256, i: nat, j: nat)
    requires |states| == |ops| + 1 && j <= |ops|
  {
    && i < j && ops[i].StoreOp? && ops[i].digest == d && d !in states[i].objs
    && forall k :: i < k <= j ==> d in states[k].objs
  }

  lemma DataStays(nMax: nat, total: nat, s: State, op: Op, reply: Reply, s': State, d: Digest256)
    requires Step(nMax, total, s, op, reply, s') && d in s.objs && d in s'.objs
    ensures s'.objs[d].data == s.objs[d].data
  {
    hide IsEviction, Elements;
  }

  lemma DataInserted(nMax: nat, total: nat, s: State, op: Op, reply: Reply, s': State, d: Digest256)
    requires Step(nMax, total, s, op, reply, s') && d !in s.objs && d in s'.objs
    ensures op.StoreOp? && op.digest == d && s'.objs[d].data == op.data && NPages(|op.data|) <= total
  {
    hide IsEviction, Elements;
  }

  /** In every reachable state every object holds the bytes of the store that put it there. */
  lemma {:induction false} Provenance(nMax: nat, total: nat, ops: seq<Op>, replies: seq<Reply>, states: seq<State>,
                                      d: Digest256, j: nat) returns (i: nat)
    requires History(nMax, total, ops, replies, states) && j <= |ops| && d in states[j].objs
    ensures InsertedAt(ops, states, d, i, j) && ops[i].data == states[j].objs[d].data
  {
    var (s, s', op) := (states[j - 1], states[j], ops[j - 1]);
    assert Step(nMax, total, s, op, replies[j - 1], s');
    if d in s.objs {
      i := Provenance(nMax, total, ops, replies, states, d, j - 1);
    } else {
      i := j - 1;
    }
  }

  /** As long as d is not evicted, every later load of the right length returns exactly what was stored. */
  lemma LoadReturnsStored(nMax: nat, total: nat, ops: seq<Op>, replies: seq<Reply>, states: seq<State>, i: nat, j: nat)
    requires History(nMax, total, ops, replies, states) && i < j < |ops|
    requires InsertedAt(ops, states, ops[i].digest, i, j)
    requires ops[j].LoadOp? && ops[j].digest == ops[i].digest
    ensures replies[j] == if ops[j].len == |ops[i].data| then Hit(ops[i].data) else Miss
  {
    var d := ops[i].digest;
    var k := Provenance(nMax, total, ops, replies, states, d, j);
    assert forall m :: i < m <= j ==> d in states[m].objs;
    assert forall m :: k < m <= j ==> d in states[m].objs;
    assert k == i;
    assert Step(nMax, total, states[j], ops[j], replies[j], states[j + 1]);
  }

  // ----- conservation and capacity

  /** order lists the objects, each once. */
  ghost predicate Listing(order: seq<Digest256>, objs: Objects) {
    Distinct(order) && forall d :: d in order <==> d in objs
  }

  lemma PagesAsChains(objs: Objects, chains: map<Digest256, seq<nat>>, order: seq<Digest256>)
    requires forall d :: d in order ==> d in objs && d in chains && |chains[d]| == NPages(|objs[d].data|)
    ensures PagesOf(objs, order) == TotalLength(chains, order)
  {
    if order != [] {
      var n := |order| - 1;
      PagesAsChains(objs, chains, order[..n]);
      TotalLengthSnoc(chains, order[..n], order[n]);
      assert order[..n] + [order[n]] == order;
    }
  }

  lemma TotalLengthSnoc(chains: map<Digest256, seq<nat>>, order: seq<Digest256>, d: Digest256)
    requires d in chains && forall e :: e in order ==> e in chains
    ensures TotalLength(chains, order + [d]) == TotalLength(chains, order) + |chains[d]|
  {
    if order == [] {
      assert order + [d] == [d];
    } else {
      assert (order + [d])[1..] == order[1..] + [d];
      assert forall e :: e in order[1..] ==> e in order;
      TotalLengthSnoc(chains, order[1..], d);
    }
  }

  /** Whatever a cache holds, the pages of its objects and its free pages are the arena. */
  lemma CacheConservation(v: View, order: seq<Digest256>)
    requires Coherent(v) && AllLive(v.meta) && Listing(order, v.objs)
    ensures |v.shape.free| + PagesOf(v.objs, order) == |v.pages|
  {
    Conservation(v.shape, |v.pages|, order);
    LiveCount(v);
    forall d | d in order
      ensures |v.shape.chains[d]| == NPages(|v.objs[d].data|)
    {
      var i :| 0 <= i < |v.digest| && v.digest[i] == d;
      LiveEntry(v, i);
    }
    PagesAsChains(v.objs, v.shape.chains, order);
  }

  lemma PagesOfConcat(objs: Objects, a: seq<Digest256>, b: seq<Digest256>)
    requires forall d :: d in a || d in b ==> d in objs
    ensures PagesOf(objs, a + b) == PagesOf(objs, a) + PagesOf(objs, b)
  {
    if b == [] {
      assert a + b == a;
    } else {
      var n := |b| - 1;
      assert (a + b)[..|a + b| - 1] == a + b[..n];
      PagesOfConcat(objs, a, b[..n]);
    }
  }

  lemma PagesOfFrame(objs: Objects, objs': Objects, order: seq<Digest256>)
    requires forall d :: d in order ==> d in objs && d in objs' && objs[d] == objs'[d]
    ensures PagesOf(objs, order) == PagesOf(objs', order)
  {
    if order != [] {
      PagesOfFrame(objs, objs', order[..|order| - 1]);
    }
  }

  lemma SomeElement<T>(s: seq<T>)
    ensures s != [] ==> exists e :: e in s
  {
    if s != [] {
      assert s[0] in s;
    }
  }

  /** Takes one element out of a list without repetitions. */
  lemma TakeOut<T>(s: seq<T>, x: T) returns (rest: seq<T>, k: nat)
    requires Distinct(s) && x in s
    ensures k < |s| && s[k] == x && s == s[..k] + [x] + s[k + 1..] && rest == s[..k] + s[k + 1..]
    ensures Distinct(rest) && forall e :: e in rest <==> e in s && e != x
  {
    k :| 0 <= k < |s| && s[k] == x;
    rest := s[..k] + s[k + 1..];
    forall e | e in s && e != x
      ensures e in rest
    {
      var i :| 0 <= i < |s| && s[i] == e;
      assert rest[if i < k then i else i - 1] == e;
    }
  }

  lemma PagesOfTakeOut(objs: Objects, order: seq<Digest256>, d: Digest256) returns (rest: seq<Digest256>)
    requires Distinct(order) && d in order && forall e :: e in order ==> e in objs
    ensures Distinct(rest) && (forall e :: e in rest <==> e in order && e != d)
    ensures PagesOf(objs, order) == PagesOf(objs, rest) + NPages(|objs[d].data|)
  {
    var k;
    rest, k := TakeOut(order, d);
    assert forall e :: e in order[..k] || e in order[k + 1..] ==> e in order;
    PagesOfConcat(objs, order[..k], order[k + 1..]);
    PagesOfConcat(objs, order[..k] + [d], order[k + 1..]);
    PagesOfConcat(objs, order[..k], [d]);
  }

  ghost predicate Balanced(s: State, total: nat) {
    forall order :: Listing(order, s.objs) ==> s.nFree + PagesOf(s.objs, order) == total
  }

  /** A list of the survivors of an eviction completes the victims to a list of all objects. */
  lemma VictimsAndRest(objs: Objects, victims: seq<Digest256>, rest: seq<Digest256>)
    requires Distinct(victims) && (forall v :: v in victims ==> v in objs)
    requires Listing(rest, objs - Elements(victims))
    ensures Listing(victims + rest, objs)
  {
    assert forall d :: d in victims <==> d in Elements(victims);
    assert forall d :: d in victims + rest <==> d in victims || d in rest;
    forall i, j | 0 <= i < |victims| && 0 <= j < |rest|
      ensures victims[i] != rest[j]
    {
      assert rest[j] in rest && victims[i] in victims;
    }
  }

  lemma StoreBalanced(nMax: nat, total: nat, s: State, d: Digest256, data: seq<u8>, now: nat,
                      victims: seq<Digest256>, s': State, order: seq<Digest256>)
    requires Balanced(s, total) && d !in s.objs && StoresAfter(nMax, s, d, data, now, victims, s')
    requires Listing(order, s'.objs)
    ensures s'.nFree + PagesOf(s'.objs, order) == total
  {
    var left := s.objs - Elements(victims);
    var rest := PagesOfTakeOut(s'.objs, order, d);
    assert Listing(rest, left);
    VictimsAndRest(s.objs, victims, rest);
    hide Listing, IsEviction;
    PagesOfConcat(s.objs, victims, rest);
    PagesOfFrame(s.objs, s'.objs, rest);
  }

  lemma StoreWithinLimit(nMax: nat, s: State, d: Digest256, data: seq<u8>, now: nat, victims: seq<Digest256>, s': State)
    requires StoresAfter(nMax, s, d, data, now, victims, s')
    ensures |s'.objs| <= nMax
  {
    hide IsEviction, NPages;
    EvictionFacts(s.objs, s.nFree, nMax, NPages(|data|), victims);
    assert s'.objs.Keys == (s.objs - Elements(victims)).Keys + {d};
  }

  lemma StepBalanced(nMax: nat, total: nat, s: State, op: Op, reply: Reply, s': State)
    requires Step(nMax, total, s, op, reply, s') && Balanced(s, total) && |s.objs| <= nMax
    ensures Balanced(s', total) && |s'.objs| <= nMax
  {
    match op
    case LoadOp(d, len, now) =>
      assert s'.objs.Keys == s.objs.Keys;
      forall order | Listing(order, s'.objs)
        ensures s'.nFree + PagesOf(s'.objs, order) == total
      {
        assert Listing(order, s.objs);
        PagesOfSameSizes(s.objs, s'.objs, order);
      }
    case StoreOp(d, data, now) =>
      if d !in s.objs && NPages(|data|) <= total {
        var victims :| StoresAfter(nMax, s, d, data, now, victims, s');
        StoreWithinLimit(nMax, s, d, data, now, victims, s');
        forall order | Listing(order, s'.objs)
          ensures s'.nFree + PagesOf(s'.objs, order) == total
        {
          StoreBalanced(nMax, total, s, d, data, now, victims, s', order);
        }
      }
  }

  /** In every reachable state the limits hold, and objects and free pages add up to the arena. */
  lemma {:induction false} Capacity(nMax: nat, total: nat, ops: seq<Op>, replies: seq<Reply>, states: seq<State>,
          j: nat)
    requires History(nMax, total, ops, replies, states) && j <= |ops|
    ensures Balanced(states[j], total) && |states[j].objs| <= nMax
  {
    if j == 0 {
      forall order | Listing(order, states[0].objs)
        ensures order == []
      {
        SomeElement(order);
      }
    } else {
      Capacity(nMax, total, ops, replies, states, j - 1);
      StepBalanced(nMax, total, states[j - 1], ops[j - 1], replies[j - 1], states[j]);
    }
  }

  lemma PagesOfSameSizes(objs: Objects, objs': Objects, order: seq<Digest256>)
    requires forall d :: d in order ==> d in objs && d in objs' && |objs[d].data| == |objs'[d].data|
    ensures PagesOf(objs, order) == PagesOf(objs', order)
  {
    if order != [] {
      PagesOfSameSizes(objs, objs', order[..|order| - 1]);
    }
  }

  // ----- which objects go

  ghost predicate DistinctStamps(objs: Objects) {
    forall d, e :: d in objs && e in objs && d != e ==> objs[d].lastUsed != objs[e].lastUsed
  }

  lemma LruPrefixesAgree(objs: Objects, a: seq<Digest256>, b: seq<Digest256>, k: nat)
    requires DistinctStamps(objs) && LruPrefix(objs, a) && LruPrefix(objs, b) && k <= |a| && k <= |b|
    ensures a[..k] == b[..k]
  {
    if k > 0 {
      var i := k - 1;
      LruPrefixesAgree(objs, a, b, i);
      if a[i] != b[i] {
        FirstDifference(objs, a, b, i);
        FirstDifference(objs, b, a, i);
      }
    }
  }

  /** Where two LRU orders part, the next one of b cannot be older than the next one of a. */
  lemma FirstDifference(objs: Objects, a: seq<Digest256>, b: seq<Digest256>, i: nat)
    requires LruPrefix(objs, a) && LruPrefix(objs, b) && i < |a| && i < |b| && a[..i] == b[..i]
    ensures objs[a[i]].lastUsed <= objs[b[i]].lastUsed
  {
    if b[i] in a {
      var m :| 0 <= m < |a| && a[m] == b[i];
      NotEarlier(a, b, i, m);
    }
  }

  lemma NotEarlier(a: seq<Digest256>, b: seq<Digest256>, i: nat, m: nat)
    requires Distinct(b) && i < |a| && i < |b| && a[..i] == b[..i] && m < |a| && a[m] == b[i]
    ensures m >= i
  {
    forall j | 0 <= j < i
      ensures a[j] != b[i]
    {
      assert a[j] == a[..i][j] == b[..i][j] == b[j];
    }
  }

  /** With distinct stamps the victims are determined: any two evictions from one state agree. */
  lemma EvictionUnique(objs: Objects, nFree: nat, nMax: nat, need: nat, a: seq<Digest256>, b: seq<Digest256>)
    requires DistinctStamps(objs)
    ensures IsEviction(objs, nFree, nMax, need, a) && IsEviction(objs, nFree, nMax, need, b) ==> a == b
  {
    if IsEviction(objs, nFree, nMax, need, a) && IsEviction(objs, nFree, nMax, need, b) {
      var k := Min(|a|, |b|);
      LruPrefixesAgree(objs, a, b, k);
      assert a[..|a|] == a && b[..|b|] == b;
    }
  }

  /**
   What one operation costs the others: an object goes only in a store of something new for which the free pages or
   the slots do not suffice, and no object that stays was used before one that goes.
   */
  lemma OldestGoes(nMax: nat, total: nat, s: State, op: Op, reply: Reply, s': State, d: Digest256)
    requires Step(nMax, total, s, op, reply, s') && d in s.objs && d !in s'.objs
    ensures op.StoreOp? && op.digest !in s.objs && (NPages(|op.data|) > s.nFree || |s.objs| + 1 > nMax)
    ensures forall e :: e in s.objs && e in s'.objs ==> s.objs[d].lastUsed <= s.objs[e].lastUsed
  {
    hide NPages;
    var victims :| StoresAfter(nMax, s, op.digest, op.data, op.now, victims, s');
    assert d in victims;
    assert !Enough(s.objs, s.nFree, nMax, NPages(|op.data|), victims[..0]);
  }

  // ----- nothing goes without need

  /** The bytes of the first store of each digest: what a cache without limits would hold. */
  ghost function FirstStored(ops: seq<Op>): map<Digest256, seq<u8>> {
    if ops == [] then map[]
    else
      var (m, op) := (FirstStored(ops[..|ops| - 1]), ops[|ops| - 1]);
      if op.StoreOp? && op.digest !in m then m[op.digest := op.data] else m
  }

  /** The pages they take together. */
  ghost function Demand(ops: seq<Op>): nat {
    if ops == [] then 0
    else
      var (m, op) := (FirstStored(ops[..|ops| - 1]), ops[|ops| - 1]);
      Demand(ops[..|ops| - 1]) + if op.StoreOp? && op.digest !in m then NPages(|op.data|) else 0
  }

  /** The objects are exactly these. */
  ghost predicate HoldsAll(objs: Objects, m: map<Digest256, seq<u8>>) {
    objs.Keys == m.Keys && forall d :: d in m ==> objs[d].data == m[d]
  }

  /** A list of everything first stored, and the pages it comes to. */
  lemma {:induction false} DemandListed(ops: seq<Op>, objs: Objects) returns (order: seq<Digest256>)
    requires FirstStored(ops).Keys <= objs.Keys
    requires forall d :: d in FirstStored(ops) ==> objs[d].data == FirstStored(ops)[d]
    ensures Distinct(order) && (forall d :: d in order <==> d in FirstStored(ops))
    ensures PagesOf(objs, order) == Demand(ops)
  {
    if ops == [] {
      order := [];
    } else {
      var (m, op) := (FirstStored(ops[..|ops| - 1]), ops[|ops| - 1]);
      order := DemandListed(ops[..|ops| - 1], objs);
      if op.StoreOp? && op.digest !in m {
        assert (order + [op.digest])[..|order|] == order;
        order := order + [op.digest];
      }
    }
  }

  lemma StoreWithRoom(nMax: nat, s: State, d: Digest256, data: seq<u8>, now: nat, s': State)
    requires exists victims :: StoresAfter(nMax, s, d, data, now, victims, s')
    requires NPages(|data|) <= s.nFree && |s.objs| + 1 <= nMax
    ensures s'.objs == s.objs[d := Object(now, data)] && s'.nFree == s.nFree - NPages(|data|)
  {
    var victims :| StoresAfter(nMax, s, d, data, now, victims, s');
    assert Enough(s.objs, s.nFree, nMax, NPages(|data|), victims[..0]);
    assert victims == [] && s.objs - Elements(victims) == s.objs;
  }

  /** While what was first stored under each digest fits, the cache is one without limits. */
  lemma {:induction false} FittingKept(nMax: nat, total: nat, ops: seq<Op>, replies: seq<Reply>,
                                       states: seq<State>, j: nat)
    requires History(nMax, total, ops, replies, states) && j <= |ops|
    requires Demand(ops[..j]) <= total && |FirstStored(ops[..j])| <= nMax
    ensures HoldsAll(states[j].objs, FirstStored(ops[..j])) && states[j].nFree + Demand(ops[..j]) == total
  {
    hide Step, HoldsAll;
    if j == 0 {
      NothingHeld();
    } else {
      assert ops[..j][..j - 1] == ops[..j - 1];
      var (s, op, s', m) := (states[j - 1], ops[j - 1], states[j], FirstStored(ops[..j - 1]));
      FirstStoredGrows(m, op);
      FittingKept(nMax, total, ops, replies, states, j - 1);
      assert Step(nMax, total, s, op, replies[j - 1], s');
      FittingStep(nMax, total, s, op, replies[j - 1], s', m);
    }
  }

  lemma NothingHeld()
    ensures HoldsAll(map[], map[])
  {
  }

  lemma FittingStep(nMax: nat, total: nat, s: State, op: Op, reply: Reply, s': State, m: map<Digest256, seq<u8>>)
    requires Step(nMax, total, s, op, reply, s') && HoldsAll(s.objs, m)
    requires op.StoreOp? && op.digest !in m ==> |m| + 1 <= nMax && NPages(|op.data|) <= s.nFree <= total
    ensures HoldsAll(s'.objs, if op.StoreOp? && op.digest !in m then m[op.digest := op.data] else m)
    ensures s'.nFree + (if op.StoreOp? && op.digest !in m then NPages(|op.data|) else 0) == s.nFree
  {
    hide StoresAfter;
    if op.StoreOp? && op.digest !in m {
      SameCount(s.objs, m);
      StoreWithRoom(nMax, s, op.digest, op.data, op.now, s');
    }
  }

  lemma FirstStoredGrows(m: map<Digest256, seq<u8>>, op: Op)
    ensures op.StoreOp? && op.digest !in m ==> |m[op.digest := op.data]| == |m| + 1
  {
    if op.StoreOp? && op.digest !in m {
      assert m[op.digest := op.data].Keys == m.Keys + {op.digest};
    }
  }

  lemma SameCount(objs: Objects, m: map<Digest256, seq<u8>>)
    requires objs.Keys == m.Keys
    ensures |objs| == |m|
  {
    assert |objs.Keys| == |objs| && |m.Keys| == |m|;
  }

  /**
   A cache holds everything ever stored in it, as it was first stored, exactly as long as that fits its pages and
   its slots. Loads and repeated stores count for nothing.
   */
  lemma NoPressureNoLoss(nMax: nat, total: nat, ops: seq<Op>, replies: seq<Reply>, states: seq<State>, j: nat)
    requires History(nMax, total, ops, replies, states) && j <= |ops|
    ensures HoldsAll(states[j].objs, FirstStored(ops[..j]))
       <==> Demand(ops[..j]) <= total && |FirstStored(ops[..j])| <= nMax
  {
    var (objs, m) := (states[j].objs, FirstStored(ops[..j]));
    if Demand(ops[..j]) <= total && |m| <= nMax {
      FittingKept(nMax, total, ops, replies, states, j);
    } else if HoldsAll(objs, m) {
      Capacity(nMax, total, ops, replies, states, j);
      SameCount(objs, m);
      var order := DemandListed(ops[..j], objs);
      assert Listing(order, objs);
    }
  }
}
