/** Sending over IPv4 with packets held back until the address is known (ducknet/lib/ipv4.cpp, udp.cpp). */
module Ipv4 {
  import opened Words
  import opened ByteSplice
  import opened Wire
  import opened NetBuffer
  import opened Pending
  import opened SlotTable

  /** The IPv4 frames a log says were given to the link layer. */
  function Frames(log: seq<Event>): seq<seq<u8>> {
    if |log| == 0 then []
    else
      var e := log[|log| - 1];
      Frames(log[..|log| - 1]) + if e.Direct? || e.Handed? then [e.frame] else []
  }

  /** The addresses a log says were asked for. */
  function Queries(log: seq<Event>): seq<u32> {
    if |log| == 0 then []
    else
      var e := log[|log| - 1];
      Queries(log[..|log| - 1]) + if e.Asked? then [e.ip] else []
  }

  lemma {:induction false} OutputsAppend(a: seq<Event>, b: seq<Event>)
    ensures Frames(a + b) == Frames(a) + Frames(b) && Queries(a + b) == Queries(a) + Queries(b)
  {
    if |b| == 0 {
      assert a + b == a;
    } else {
      assert (a + b)[..|a + b| - 1] == a + b[..|b| - 1];
      OutputsAppend(a, b[..|b| - 1]);
    }
  }

  lemma OutputsOne(e: Event)
    ensures Frames([e]) == if e.Direct? || e.Handed? then [e.frame] else []
    ensures Queries([e]) == if e.Asked? then [e.ip] else []
  {
    assert [e][..0] == [];
  }

  /** The value ducknet_ipv4_send returns; phy is what the link layer says about a frame sent at once. */
  function SendResult(s: State, op: Op, phy: int): int
    requires op.Send?
  {
    if op.dst in op.arp then if Fits(op.len) then phy else -1
    else if FirstFree(s.slots) == |s.slots| || !Fits(op.len) then -1
    else 0
  }

  /** What the caller is told: the link layer's word for a frame sent at once, 0 for a packet queued, else -1. */
  lemma SendResultIs(s: State, op: Op, phy: int)
    requires op.Send?
    ensures var (fits, known) := (0 <= op.len <= 1480, op.dst in op.arp);
      var room := exists i :: 0 <= i < |s.slots| && s.slots[i].Free?;
      && (fits && known ==> SendResult(s, op, phy) == phy)
      && (fits && !known && room ==> SendResult(s, op, phy) == 0)
      && (!fits || (!known && !room) ==> SendResult(s, op, phy) == -1)
  {
    var id := FirstFree(s.slots);
    assert id < |s.slots| ==> s.slots[id].Free?;
  }

  class Stack {
    const me: Host
    const tscFreq: u64
    const idleDelay: u64
    const free: array<bv32>
    const dstIp: array<u32>
    const expire: array<u64>
    const pktLen: array<nat>
    const pkts: array<u8>
    const sendbuf: array<u8>
    const udpbuf: array<u8>
    var cnt: nat
    var lastIdle: u64
    // every IPv4 frame given to ducknet_phy_send so far
    var phy: seq<seq<u8>>
    // every address given to ducknet_arp_query so far
    var asked: seq<u32>
    ghost var s: State

    ghost predicate Apart(o: object) {
      o != free && o != dstIp && o != expire && o != pktLen
    }

    /** No two of the static arrays overlap. */
    ghost predicate Distinct() {
      && pkts != sendbuf && pkts != udpbuf && sendbuf != udpbuf
      && Apart(pkts) && Apart(sendbuf) && Apart(udpbuf)
      && (dstIp as object) != expire && (dstIp as object) != pktLen && (expire as object) != pktLen
      && pkts.Length == SLOTS * SLOT_BYTES && sendbuf.Length == MTU + 64 && udpbuf.Length == MTU + 64
    }

    ghost function Tab(): Table
      reads free, dstIp, expire, pktLen, pkts
    {
      Table(free[..], dstIp[..], expire[..], pktLen[..], pkts[..])
    }

    ghost function Repr(): set<object> {
      {this, free, dstIp, expire, pktLen, pkts, sendbuf, udpbuf}
    }

    /** The abstract state s is what the fields and buffers say. */
    ghost predicate Valid()
      reads this, Repr()
    {
      && Distinct()
      && Represents(Tab(), s.slots)
      && cnt == s.cnt && lastIdle == s.lastIdle
      && idleDelay == IdleDelay(tscFreq)
      && phy == Frames(s.log) && asked == Queries(s.log)
    }

    ghost function Conf(): Config {
      Config(me, tscFreq)
    }

    /** ducknet_ipv4_init */
    constructor (me: Host, tscFreq: u64, now: u64)
      ensures Valid() && fresh(Repr())
      ensures s == Start(now) && this.me == me && this.tscFreq == tscFreq
    {
      hide Valid, Represents, Frames, Queries, IsFree, SetFree, Wrap64, IdleDelay, Start;
      this.me, this.tscFreq := me, tscFreq;
      this.idleDelay := IdleDelay(tscFreq);
      this.free := new bv32[2](_ => 0);
      this.dstIp := new u32[SLOTS];
      this.expire := new u64[SLOTS];
      this.pktLen := new nat[SLOTS];
      this.pkts := new u8[SLOTS * SLOT_BYTES];
      this.sendbuf := new u8[MTU + 64];
      this.udpbuf := new u8[MTU + 64];
      this.cnt, this.lastIdle, this.phy, this.asked := 0, now, [], [];
      this.s := Start(now);
      new;
      FreeAll();
      StartValid(now);
    }

    lemma StartValid(now: u64)
      requires Distinct() && Shaped(Tab()) && forall j :: 0 <= j < SLOTS ==> IsFree(free[..], j)
      requires s == Start(now) && cnt == 0 && lastIdle == now && phy == [] && asked == []
      requires idleDelay == IdleDelay(tscFreq)
      ensures Valid()
    {
      hide Represents, Frames, Queries, IsFree, IdleDelay;
      EmptyTable(Tab());
      NoOutputs();
    }

    /** The bitmap of an empty table. */
    method FreeAll()
      requires free.Length == 2
      modifies free
      ensures forall j :: 0 <= j < SLOTS ==> IsFree(free[..], j)
    {
      hide IsFree, SetFree;
      var i := 0;
      while i < SLOTS
        invariant 0 <= i <= SLOTS
        invariant forall j :: 0 <= j < i ==> IsFree(free[..], j)
      {
        ghost var was := free[..];
        SetSlotFree(i);
        forall j | 0 <= j <= i ensures IsFree(free[..], j) {
          FreeUpdate(was, i, j);
        }
        i := i + 1;
      }
    }

    /** Marks slot i as free in the bitmap. */
    method SetSlotFree(i: nat)
      requires free.Length == 2 && i < SLOTS
      modifies free
      ensures free[..] == SetFree(old(free[..]), i)
    {
      free[i / 32] := With(free[i / 32], i % 32);
    }

    method TestSlotFree(i: nat) returns (b: bool)
      requires free.Length == 2 && i < SLOTS
      ensures b == IsFree(free[..], i)
    {
      b := Has(free[i / 32], i % 32);
    }

    /** find_tosend_free */
    method FindFree() returns (id: int)
      requires Valid()
      ensures id == if FirstFree(s.slots) == SLOTS then -1 else FirstFree(s.slots)
    {
      hide Has, FirstFree;
      BitmapIsFree(Tab(), s.slots);
      var i := 0;
      while i < 2
        invariant 0 <= i <= 2
        invariant forall j :: 0 <= j < i * 32 ==> !IsFree(free[..], j)
      {
        if free[i] != 0 {
          var bit := LowerBitIndex(free[i]);
          id := i * 32 + bit;
          WordFirst(free[..], i, bit);
          FirstFreeBit(free[..], s.slots, id);
          return;
        }
        WordEmpty(free[..], i);
        i := i + 1;
      }
      FirstFreeBit(free[..], s.slots, SLOTS);
      id := -1;
    }

    method PhySend(frame: seq<u8>)
      modifies `phy
      ensures phy == old(phy) + [frame]
    {
      phy := phy + [frame];
    }

    /** ducknet_arp_query; its result is ignored everywhere. */
    method ArpQuery(ip: u32)
      modifies `asked
      ensures asked == old(asked) + [ip]
    {
      asked := asked + [ip];
    }

    /** The address is known: build in ducknet_sendbuf and send at once. */
    method SendNow(mac: Mac, dst: u32, protocol: u8, payload: seq<u8>, len: int, result: int) returns (r: int)
      requires Valid() && len <= |payload|
      modifies this`phy, sendbuf
      ensures Tab() == old(Tab())
      ensures Fits(len) ==> r == result && phy == old(phy) + [mac + Tail(me, dst, protocol, payload[..len])]
      ensures !Fits(len) ==> r == -1 && phy == old(phy)
    {
      hide Splice, Tail, Represents;
      r := BuildPacket(me, sendbuf, 0, dst, protocol, payload, len);
      if r < 0 {
        return;
      }
      ghost var (b, tail) := (sendbuf[..], Tail(me, dst, protocol, payload[..len]));
      Copy(sendbuf, 0, mac);
      FrameAt(old(sendbuf[..]), b, sendbuf[..], 0, mac, tail);
      var frame := sendbuf[..len + IP_SIZE + ETHER_SIZE];
      assert frame == sendbuf[..][0..0 + 6 + |tail|];
      PhySend(frame);
      r := result;
    }

    /** The packet takes slot id. */
    method Enqueue(id: nat, dst: u32, protocol: u8, payload: seq<u8>, len: int, now: u64) returns (r: int)
      requires Valid() && len <= |payload| && id < SLOTS
      modifies free, dstIp, expire, pktLen, pkts
      ensures r == if Fits(len) then 0 else -1
      ensures !Fits(len) ==> Tab() == old(Tab())
      ensures Fits(len) ==> forall t: nat ::
        var p := Packet(dst, now, Expiry(tscFreq, now), Tail(me, dst, protocol, payload[..len]));
        Represents(Tab(), s.slots[id := Waiting(t, p)])
    {
      hide Splice, Tail, Represents, Expiry;
      ghost var was := Tab();
      ShapedOf(was, s.slots);
      r := BuildPacket(me, pkts, id * SLOT_BYTES, dst, protocol, payload, len);
      if r < 0 {
        return;
      }
      dstIp[id] := dst;
      expire[id] := Expiry(tscFreq, now);
      pktLen[id] := len + IP_SIZE + ETHER_SIZE;
      ClearSlotFree(id);
      ghost var p := Packet(dst, now, Expiry(tscFreq, now), Tail(me, dst, protocol, payload[..len]));
      forall t: nat ensures Represents(Tab(), s.slots[id := Waiting(t, p)]) {
        Stored(was, Tab(), s.slots, id, t, p);
      }
    }

    /** Marks slot i as used in the bitmap. */
    method ClearSlotFree(i: nat)
      requires free.Length == 2 && i < SLOTS
      modifies free
      ensures free[..] == ClearFree(old(free[..]), i)
    {
      free[i / 32] := Without(free[i / 32], i % 32);
    }

    /** ducknet_ipv4_send; arp holds the answers of ducknet_arp_lookup. */
    method Send(now: u64, arp: map<u32, Mac>, dst: u32, protocol: u8, payload: seq<u8>, len: int, result: int)
        returns (r: int)
      requires Valid() && len <= |payload|
      modifies this, free, dstIp, expire, pktLen, pkts, sendbuf
      ensures Valid()
      ensures s == StepSend(Conf(), old(s), Op.Send(now, arp, dst, protocol, payload, len))
      ensures r == SendResult(old(s), Op.Send(now, arp, dst, protocol, payload, len), result)
      ensures dst in arp && 0 <= len <= 1480 ==>
        |phy| == |old(phy)| + 1 && old(phy) <= phy && phy[|old(phy)|][..6] == arp[dst]
      ensures !(dst in arp && 0 <= len <= 1480) ==> phy == old(phy)
      ensures asked == if dst in arp then old(asked) else old(asked) + [dst]
    {
      hide Represents, FirstFree, Expiry, Tail, IdleDelay, Frames, Queries;
      ghost var op := Op.Send(now, arp, dst, protocol, payload, len);
      if dst in arp {
        r := SendNow(arp[dst], dst, protocol, payload, len, result);
        ghost var was := s;
        s := StepSend(Conf(), s, op);
        if Fits(len) {
          OutputsAppend(was.log, [Direct(arp[dst] + PacketOf(Conf(), op).tail)]);
          OutputsOne(Direct(arp[dst] + PacketOf(Conf(), op).tail));
        }
        return;
      }
      ArpQuery(dst);
      OutputsAppend(s.log, [Asked(dst)]);
      OutputsOne(Asked(dst));
      ghost var before := s;
      s := s.(log := s.log + [Asked(dst)]);
      var id := FindFree();
      SlotCountOf(Tab(), s.slots);
      if id == -1 {
        return -1;
      }
      r := Enqueue(id, dst, protocol, payload, len, now);
      s := StepSend(Conf(), before, op);
    }

    /** An expired packet gives up its slot. */
    method Drop(i: nat, now: u64, arp: map<u32, Mac>)
      requires Valid() && i < SLOTS == |s.slots| && s.slots[i].Waiting? && now > s.slots[i].packet.expire
      modifies free, this`s
      ensures Valid()
      ensures s == old(s).(slots := old(s).slots[i := Free], log := old(s).log + Settled(old(s).slots[i], now, arp))
    {
      hide Represents, IdleDelay, Splice, Frames, Queries, SetFree;
      ghost var (was, events) := (Tab(), Settled(s.slots[i], now, arp));
      ShapedOf(was, s.slots);
      SetSlotFree(i);
      SpliceNothing(was.bytes, i * SLOT_BYTES, 0);
      Released(was, Tab(), s.slots, i, 0, []);
      OutputsAppend(s.log, events);
      OutputsOne(events[0]);
      s := s.(slots := s.slots[i := Free], log := s.log + events);
    }

    /** A packet whose address is known gets its destination and goes out. */
    method HandOver(i: nat, now: u64, arp: map<u32, Mac>)
      requires Valid() && i < SLOTS == |s.slots| && s.slots[i].Waiting?
      requires now <= s.slots[i].packet.expire && s.slots[i].packet.dst in arp
      modifies free, pkts, this`phy, this`s
      ensures Valid()
      ensures s == old(s).(slots := old(s).slots[i := Free], log := old(s).log + Settled(old(s).slots[i], now, arp))
    {
      hide Represents, IdleDelay, Splice, Frames, Queries, SetFree, IsFree;
      ghost var (was, slot) := (Tab(), s.slots[i]);
      ghost var events := Settled(slot, now, arp);
      ShapedOf(was, s.slots);
      SlotAt(was, s.slots, i);
      SetSlotFree(i);
      var base := i * SLOT_BYTES;
      Copy(pkts, base, arp[dstIp[i]]);
      Released(was, Tab(), s.slots, i, 0, arp[dstIp[i]]);
      FrameInPlace(was.bytes, pkts[..], base, arp[dstIp[i]], slot.packet.tail);
      assert pkts[base..base + pktLen[i]] == pkts[..][base..base + 6 + |slot.packet.tail|];
      PhySend(pkts[base..base + pktLen[i]]);
      OutputsAppend(s.log, events);
      OutputsOne(events[0]);
      s := s.(slots := s.slots[i := Free], log := s.log + events);
    }

    /** A packet whose address is not known yet stays, and the address is asked for once more. */
    method AskAgain(i: nat, now: u64, arp: map<u32, Mac>)
      requires Valid() && i < SLOTS == |s.slots| && s.slots[i].Waiting?
      requires now <= s.slots[i].packet.expire && s.slots[i].packet.dst !in arp
      modifies this`asked, this`s
      ensures Valid()
      ensures s == old(s).(log := old(s).log + Settled(old(s).slots[i], now, arp))
    {
      hide Represents, IdleDelay, Splice, Frames, Queries, IsFree;
      ghost var events := Settled(s.slots[i], now, arp);
      ShapedOf(Tab(), s.slots);
      SlotAt(Tab(), s.slots, i);
      ArpQuery(dstIp[i]);
      OutputsAppend(s.log, events);
      OutputsOne(events[0]);
      s := s.(log := s.log + events);
    }

    /** One slot of the idle sweep. */
    method SettleSlot(i: nat, now: u64, arp: map<u32, Mac>)
      requires Valid() && i < SLOTS == |s.slots|
      modifies free, pkts, this`phy, this`asked, this`s
      ensures Valid()
      ensures s == old(s).(slots := old(s).slots[i := Settle(old(s).slots[i], now, arp)],
                           log := old(s).log + Settled(old(s).slots[i], now, arp))
    {
      hide Represents, IdleDelay, Splice, Frames, Queries, IsFree;
      ghost var slot := s.slots[i];
      ShapedOf(Tab(), s.slots);
      SlotAt(Tab(), s.slots, i);
      var isFree := TestSlotFree(i);
      if !isFree && now > expire[i] {
        Drop(i, now, arp);
      } else if !isFree && dstIp[i] in arp {
        HandOver(i, now, arp);
      } else if !isFree {
        AskAgain(i, now, arp);
        assert s.slots[i := Settle(slot, now, arp)] == s.slots;
      } else {
        assert s.slots[i := Settle(slot, now, arp)] == s.slots;
        assert s.log + Settled(slot, now, arp) == s.log;
      }
    }

    /** ducknet_ipv4_idle */
    method Idle(now: u64, arp: map<u32, Mac>)
      requires Valid()
      modifies this, free, pkts
      ensures Valid()
      ensures s == StepIdle(Conf(), old(s), Op.Idle(now, arp))
    {
      hide Represents, Settle, Settled, IdleDelay, Frames, Queries;
      ghost var before := s;
      SlotCountOf(Tab(), s.slots);
      cnt := cnt + 1;
      if cnt < 1024 && Wrap64(now - lastIdle) <= idleDelay {
        s := s.(cnt := cnt);
        return;
      }
      cnt := 0;
      lastIdle := now;
      s := s.(cnt := 0, lastIdle := now);
      var i := 0;
      while i < SLOTS
        invariant 0 <= i <= SLOTS == |before.slots|
        invariant Valid()
        invariant var (slots, events) := SweepTo(before.slots, now, arp, i);
          s == State(slots, before.issued, before.log + events, 0, now)
      {
        SettleSlot(i, now, arp);
        i := i + 1;
      }
    }

    /** ducknet_udp_send */
    method UdpSend(now: u64, arp: map<u32, Mac>, dst: u32, dport: u16, sport: u16, payload: seq<u8>, len: int,
            result: int)
        returns (r: int)
      requires Valid() && len <= |payload|
      modifies Repr()
      ensures Valid()
      ensures 0 <= len <= MTU - IP_SIZE - UDP_SIZE ==>
        var op := Op.Send(now, arp, dst, UDP_PROTOCOL, Segment(me.ip, dst, sport, dport, payload[..len]),
          len + UDP_SIZE);
        s == StepSend(Conf(), old(s), op) && r == SendResult(old(s), op, result)
      ensures !(0 <= len <= MTU - IP_SIZE - UDP_SIZE) ==> s == old(s) && r == -1
    {
      hide Represents, IdleDelay, Segment, StepSend, SendResult, Frames, Queries;
      if len < 0 {
        return -1;
      }
      if len + UDP_SIZE + IP_SIZE > MTU {
        return -1;
      }
      BuildSegment(me, udpbuf, dst, dport, sport, payload, len);
      r := Send(now, arp, dst, UDP_PROTOCOL, udpbuf[..len + UDP_SIZE], len + UDP_SIZE, result);
    }
  }

  /**
   A whole run of a fresh stack hands over exactly the IPv4 frames the state machine says, and asks for its
   addresses.
   */
  method Replay(me: Host, tscFreq: u64, now: u64, ops: seq<Op>) returns (frames: seq<seq<u8>>, asked: seq<u32>)
    requires forall op :: op in ops ==> ValidOp(op)
    ensures frames == Frames(Run(Config(me, tscFreq), now, ops).log)
    ensures asked == Queries(Run(Config(me, tscFreq), now, ops).log)
  {
    hide Represents, IdleDelay, Step, StepSend, StepIdle, SendResult, Frames, Queries, Start;
    var stack := new Stack(me, tscFreq, now);
    ghost var c := Config(me, tscFreq);
    for i := 0 to |ops|
      invariant stack.Valid() && fresh(stack.Repr()) && stack.Conf() == c
      invariant stack.s == Run(c, now, ops[..i])
    {
      var op := ops[i];
      assert ops[..i + 1][..i] == ops[..i] && op in ops;
      StepCases(c, stack.s, op);
      match op {
        case Send(at, arp, dst, protocol, payload, len) =>
          var r := stack.Send(at, arp, dst, protocol, payload, len, 0);
        case Idle(at, arp) =>
          stack.Idle(at, arp);
      }
    }
    assert ops[..|ops|] == ops;
    frames, asked := stack.phy, stack.asked;
  }

  lemma StepCases(c: Config, s: State, op: Op)
    requires ValidOp(op)
    ensures op.Send? ==> op.len <= |op.payload|
    ensures Step(c, s, op) == if op.Send? then StepSend(c, s, op) else StepIdle(c, s, op)
  {
  }

  // ----- datagrams from one host to another

  /** What a sender is told: a datagram, or that time has passed. */
  datatype Act =
    | Datagram(now: u64, arp: map<u32, Mac>, dst: u32, sport: u16, dport: u16, payload: seq<u8>)
    | Tick(now: u64, arp: map<u32, Mac>)

  predicate Sendable(a: Act) {
    a.Datagram? && |a.payload| + UDP_SIZE + IP_SIZE <= MTU
  }

  /** The operations of the IPv4 layer this comes to; datagrams that are too long come to none. */
  function OpsOf(from: Host, acts: seq<Act>): (ops: seq<Op>)
    ensures forall op :: op in ops ==> ValidOp(op)
  {
    if |acts| == 0 then []
    else OpsOf(from, acts[..|acts| - 1]) + OpOf(from, acts[|acts| - 1])
  }

  function OpOf(from: Host, a: Act): (ops: seq<Op>)
    ensures forall op :: op in ops ==> ValidOp(op)
  {
    match a
    case Tick(now, arp) => [Op.Idle(now, arp)]
    case Datagram(now, arp, dst, sport, dport, payload) =>
      if Sendable(a) then
        [Op.Send(now, arp, dst, UDP_PROTOCOL, Segment(from.ip, dst, sport, dport, payload), |payload| + UDP_SIZE)]
      else []
  }

  /** What a host makes of the frame of a datagram. */
  function Arrival(from: Host, me: Host, a: Act, to: seq<u8>): Outcome
    requires Sendable(a)
  {
    if to in {me.mac, BROADCAST_MAC} && a.dst in {me.ip, BROADCAST_IP}
    then Udp(from.ip, a.dst, a.sport, a.dport, |a.payload| + UDP_SIZE, a.payload)
    else Rejected
  }

  /**
   The frame is that of datagram i, to the address found for it at the send or, if there was none then, at a later
   tick j; and it was received as that datagram or by a host it is not for.
   */
  ghost predicate ArrivesAs(from: Host, me: Host, acts: seq<Act>, frame: seq<u8>, o: Outcome, i: nat, j: nat) {
    && FrameOf(from, acts, frame, i, j)
    && o == Arrival(from, me, acts[i], acts[j].arp[acts[i].dst])
  }

  ghost predicate FrameOf(from: Host, acts: seq<Act>, frame: seq<u8>, i: nat, j: nat) {
    && i <= j < |acts| && Sendable(acts[i]) && acts[i].dst in acts[j].arp
    && var a := acts[i];
       frame == UdpFrame(acts[j].arp[a.dst], from, a.dst, a.sport, a.dport, a.payload)
       && (i == j || (acts[j].Tick? && a.dst !in a.arp))
  }

  ghost predicate Arrives(from: Host, me: Host, acts: seq<Act>, frame: seq<u8>, o: Outcome) {
    exists i: nat, j: nat :: ArrivesAs(from, me, acts, frame, o, i, j)
  }

  /** A datagram whose address is known when it is sent has its frame among these. */
  ghost predicate KnownIn(from: Host, acts: seq<Act>, frames: seq<seq<u8>>, i: nat)
    requires i < |acts|
  {
    var a := acts[i];
    Sendable(a) && a.dst in a.arp ==> UdpFrame(a.arp[a.dst], from, a.dst, a.sport, a.dport, a.payload) in frames
  }

  /** The receiving side, for one frame of a run. */
  method Receive(from: Host, me: Host, tscFreq: u64, start: u64, acts: seq<Act>, frame: seq<u8>, padding: seq<u8>)
      returns (o: Outcome)
    requires frame in Frames(Run(Config(from, tscFreq), start, OpsOf(from, acts)).log)
    ensures Arrives(from, me, acts, frame, o)
  {
    hide Run, Arrives, Frames, OpsOf, Segment, Tail, EtherDecode, IpDecode, UdpDecode, IpHeader, Splice;
    var recvbuf := new u8[|frame| + |padding|];
    Copy(recvbuf, 0, frame + padding);
    assert recvbuf[..recvbuf.Length] == recvbuf[..][0..0 + recvbuf.Length] == frame + padding;
    o := EtherHandle(me, ACCEPT, recvbuf, recvbuf.Length);
    ghost var i, j := FrameOfAct(Config(from, tscFreq), start, acts, frame);
    ghost var a := acts[i];
    ghost var (to: Mac, content) := (acts[j].arp[a.dst], Segment(from.ip, a.dst, a.sport, a.dport, a.payload));
    ghost var packet := IpHeader(from.ip, a.dst, UDP_PROTOCOL, |content|) + content + padding;
    FrameParts(to, from, a.dst, content, padding);
    if to in {me.mac, BROADCAST_MAC} {
      EtherRoundTrip(me, ACCEPT, to, from.mac, packet);
      if a.dst in {me.ip, BROADCAST_IP} {
        IpRoundTrip(me.ip, 0, from.ip, a.dst, content, padding);
        SegmentRoundTrip(from.ip, a.dst, a.sport, a.dport, a.payload);
      } else {
        IpForeign(me.ip, 0, from.ip, a.dst, content, padding);
      }
    } else {
      assert frame + padding == to + (from.mac + [8, 0] + packet);
      EtherForeign(me, ACCEPT, to, from.mac + [8, 0] + packet);
    }
    assert ArrivesAs(from, me, acts, frame, o, i, j) by { ArrivalIs(from, me, a, to, o); }
    ArrivesBy(from, me, acts, frame, o, i, j);
  }

  /**
   The same on the frames of the stack: every frame a sender hands to its link layer, at once or after waiting for an
   address, received with any padding behind it, is accepted by the hosts it is for and delivers the sender's
   address, both ports and exactly the payload of a datagram that was sent; any other host turns it away.
   */
  method Exchange(from: Host, me: Host, tscFreq: u64, start: u64, acts: seq<Act>, padding: seq<u8>)
      returns (frames: seq<seq<u8>>, outcomes: seq<Outcome>)
    ensures frames == Frames(Run(Config(from, tscFreq), start, OpsOf(from, acts)).log)
    ensures |outcomes| == |frames|
    ensures forall i :: 0 <= i < |frames| ==> Arrives(from, me, acts, frames[i], outcomes[i])
    ensures forall i :: 0 <= i < |acts| ==> KnownIn(from, acts, frames, i)
  {
    hide Run, Arrives, Frames, OpsOf, KnownIn;
    frames := Transmit(from, tscFreq, start, acts);
    forall i | 0 <= i < |acts| ensures KnownIn(from, acts, frames, i) {
      KnownFrame(Config(from, tscFreq), start, acts, i);
    }
    outcomes := [];
    for i := 0 to |frames|
      invariant |outcomes| == i
      invariant forall k :: 0 <= k < i ==> Arrives(from, me, acts, frames[k], outcomes[k])
    {
      var o := Receive(from, me, tscFreq, start, acts, frames[i], padding);
      outcomes := outcomes + [o];
    }
  }

  lemma ArrivalIs(from: Host, me: Host, a: Act, to: Mac, o: Outcome)
    requires Sendable(a)
    requires o == if to in {me.mac, BROADCAST_MAC} && a.dst in {me.ip, BROADCAST_IP}
                  then Udp(from.ip, a.dst, a.sport, a.dport, |a.payload| + UDP_SIZE, a.payload) else Rejected
    ensures o == Arrival(from, me, a, to)
  {
  }

  lemma ArrivesBy(from: Host, me: Host, acts: seq<Act>, frame: seq<u8>, o: Outcome, i: nat, j: nat)
    requires ArrivesAs(from, me, acts, frame, o, i, j)
    ensures Arrives(from, me, acts, frame, o)
  {
  }

  /** The sender's side. */
  method Transmit(from: Host, tscFreq: u64, start: u64, acts: seq<Act>) returns (frames: seq<seq<u8>>)
    ensures frames == Frames(Run(Config(from, tscFreq), start, OpsOf(from, acts)).log)
  {
    hide Represents, IdleDelay, Step, StepSend, StepIdle, SendResult, Frames, Queries, Start, Segment;
    var stack := new Stack(from, tscFreq, start);
    ghost var c := Config(from, tscFreq);
    for i := 0 to |acts|
      invariant stack.Valid() && fresh(stack.Repr()) && stack.Conf() == c
      invariant stack.s == Run(c, start, OpsOf(from, acts[..i]))
    {
      var a := acts[i];
      assert acts[..i + 1][..i] == acts[..i];
      OpsStep(c, start, OpsOf(from, acts[..i]), a);
      match a {
        case Datagram(now, arp, dst, sport, dport, payload) =>
          assert payload[..|payload|] == payload;
          var r := stack.UdpSend(now, arp, dst, dport, sport, payload, |payload|, 0);
        case Tick(now, arp) =>
          stack.Idle(now, arp);
      }
    }
    assert acts[..|acts|] == acts;
    frames := stack.phy;
  }

  lemma OpsStep(c: Config, start: u64, ops: seq<Op>, a: Act)
    requires forall op :: op in ops ==> ValidOp(op)
    ensures var (s, t) := (Run(c, start, ops), Run(c, start, ops + OpOf(c.me, a)));
      t == if |OpOf(c.me, a)| == 0 then s
           else if a.Tick? then StepIdle(c, s, OpOf(c.me, a)[0]) else StepSend(c, s, OpOf(c.me, a)[0])
  {
    hide StepIdle, StepSend, Start;
    var next := OpOf(c.me, a);
    if |next| == 0 {
      assert ops + next == ops;
    } else {
      assert (ops + next)[..|ops|] == ops && (ops + next)[|ops|] == next[0];
    }
  }

  /** The datagram a frame of a run belongs to, and when its address was found. */
  lemma FrameOfAct(c: Config, start: u64, acts: seq<Act>, frame: seq<u8>) returns (i: nat, j: nat)
    requires frame in Frames(Run(c, start, OpsOf(c.me, acts)).log)
    ensures FrameOf(c.me, acts, frame, i, j)
  {
    hide Run, Segment, Tail, OpsOf;
    var ops := OpsOf(c.me, acts);
    var e := EventOfFrame(Run(c, start, ops).log, frame);
    var k, l := FrameSource(c, start, ops, e);
    i := ActIndex(c.me, acts, k);
    j := i;
    if k < l {
      j := ActIndex(c.me, acts, l);
      if i > j {
        OpsGrow(c.me, acts, j, i);
      }
    }
    FrameFrom(c, acts[i], acts[j].arp, ops[k], frame);
  }

  lemma FrameFrom(c: Config, a: Act, arp: map<u32, Mac>, op: Op, frame: seq<u8>)
    requires [op] == OpOf(c.me, a) && |frame| >= 6 && Sends(c, op, frame[6..])
    requires op.dst in arp && frame[..6] == arp[op.dst]
    ensures Sendable(a) && op.dst == a.dst
    ensures frame == UdpFrame(arp[a.dst], c.me, a.dst, a.sport, a.dport, a.payload)
  {
    hide Segment, Tail;
    assert [op][0] == OpOf(c.me, a)[0];
    assert op.payload[..op.len] == op.payload;
    assert frame == frame[..6] + frame[6..];
  }

  /** Which act operation k comes from. */
  lemma {:induction false} ActIndex(from: Host, acts: seq<Act>, k: nat) returns (i: nat)
    requires k < |OpsOf(from, acts)|
    ensures i < |acts| && |OpsOf(from, acts[..i])| == k && OpOf(from, acts[i]) == [OpsOf(from, acts)[k]]
    ensures acts[i].arp == OpsOf(from, acts)[k].arp && (acts[i].Tick? <==> OpsOf(from, acts)[k].Idle?)
  {
    hide Segment;
    var last := |acts| - 1;
    if k < |OpsOf(from, acts[..last])| {
      i := ActIndex(from, acts[..last], k);
      assert acts[..last][..i] == acts[..i];
    } else {
      i := last;
    }
  }

  lemma {:induction false} OpsGrow(from: Host, acts: seq<Act>, j: nat, i: nat)
    requires j < i <= |acts|
    ensures |OpsOf(from, acts[..i])| >= |OpsOf(from, acts[..j])| + |OpOf(from, acts[j])|
    ensures OpsOf(from, acts[..j]) + OpOf(from, acts[j]) <= OpsOf(from, acts[..i])
  {
    hide OpOf;
    assert acts[..i][..i - 1] == acts[..i - 1];
    if j < i - 1 {
      OpsGrow(from, acts, j, i - 1);
    }
  }

  /** A datagram to a known address is given to the link layer, behind that address. */
  lemma KnownFrame(c: Config, start: u64, acts: seq<Act>, i: nat)
    requires i < |acts|
    ensures KnownIn(c.me, acts, Frames(Run(c, start, OpsOf(c.me, acts)).log), i)
  {
    hide Run, Segment, Tail, OpsOf, Frames;
    var (a, ops) := (acts[i], OpsOf(c.me, acts));
    if Sendable(a) && a.dst in a.arp {
      OpsGrow(c.me, acts, i, |acts|);
      assert acts[..|acts|] == acts;
      var (k, op) := (|OpsOf(c.me, acts[..i])|, OpOf(c.me, a)[0]);
      assert ops[k] == op;
      KnownSent(c, start, ops, k);
      assert op.payload[..op.len] == op.payload;
      FrameOfEvent(Run(c, start, ops).log, Direct(op.arp[op.dst] + PacketOf(c, op).tail));
    }
  }

  lemma {:induction false} FrameOfEvent(log: seq<Event>, e: Event)
    requires e in log && e.Direct?
    ensures e.frame in Frames(log)
  {
    var last := |log| - 1;
    if e in log[..last] {
      FrameOfEvent(log[..last], e);
    }
  }

  lemma {:induction false} EventOfFrame(log: seq<Event>, frame: seq<u8>) returns (e: Event)
    requires frame in Frames(log)
    ensures e in log && (e.Direct? || e.Handed?) && e.frame == frame
  {
    var last := log[|log| - 1];
    if (last.Direct? || last.Handed?) && last.frame == frame {
      e := last;
    } else {
      e := EventOfFrame(log[..|log| - 1], frame);
    }
  }

  // ----- the proof steps of the methods

  lemma ShapedOf(t: Table, slots: seq<Slot>)
    requires Represents(t, slots)
    ensures Shaped(t) && |slots| == SLOTS
  {
  }

  lemma SlotCountOf(t: Table, slots: seq<Slot>)
    requires Represents(t, slots)
    ensures |slots| == SLOTS
  {
  }

  lemma BitmapIsFree(t: Table, slots: seq<Slot>)
    requires Represents(t, slots)
    ensures |t.free| == 2 && |slots| == SLOTS && forall i :: 0 <= i < SLOTS ==> (IsFree(t.free, i) <==> slots[i].Free?)
  {
    forall i | 0 <= i < SLOTS ensures IsFree(t.free, i) <==> slots[i].Free? {
      assert SlotOk(t, i, slots[i]);
    }
  }

  lemma NoOutputs()
    ensures Frames([]) == [] && Queries([]) == []
  {
  }

  lemma EmptyTable(t: Table)
    requires Shaped(t) && forall j :: 0 <= j < SLOTS ==> IsFree(t.free, j)
    ensures Represents(t, seq(SLOTS, _ => Free))
  {
  }

  lemma FrameAt(was: seq<u8>, bytes: seq<u8>, after: seq<u8>, base: nat, mac: Mac, tail: seq<u8>)
    requires base + 6 + |tail| <= |was| && bytes == Splice(was, base + 6, tail) && after == Splice(bytes, base, mac)
    ensures after[base..base + 6 + |tail|] == mac + tail
  {
    FrameInPlace(bytes, after, base, mac, tail);
  }
}
