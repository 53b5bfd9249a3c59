/** The queue of packets waiting for address resolution (ducknet/lib/ipv4.cpp), as a state machine with a log. */
module Pending {
  import opened Words
  import opened Wire
  import opened TimeArith

  const SLOTS: nat := 64
  const TIMEOUT_MS: u64 := 5000

  /** An accepted packet: everything of its frame behind the destination MAC address, and its times. */
  datatype Packet = Packet(dst: u32, queuedAt: u64, expire: u64, tail: seq<u8>)

  /** Packets are numbered in the order of acceptance. */
  datatype Slot = Free | Waiting(ticket: nat, packet: Packet)

  /** Frames handed to the link layer, packets dropped, and addresses the resolution protocol was asked for. */
  datatype Event =
    | Direct(frame: seq<u8>)
    | Asked(ip: u32)
    | Handed(ticket: nat, frame: seq<u8>)
    | Dropped(ticket: nat, at: u64)

  datatype Config = Config(me: Host, tscFreq: u64)

  /** issued[t] is the packet with ticket t; log is what happened, frames handed to the link layer included. */
  datatype State = State(slots: seq<Slot>, issued: seq<Packet>, log: seq<Event>, cnt: nat, lastIdle: u64)

  /** arp answers the address lookups made during the operation. */
  datatype Op =
    | Send(now: u64, arp: map<u32, Mac>, dst: u32, protocol: u8, payload: seq<u8>, len: int)
    | Idle(now: u64, arp: map<u32, Mac>)

  predicate ValidOp(op: Op) {
    op.Send? ==> op.len <= |op.payload|
  }

  // ----- one step

  /** The lowest free slot, or SLOTS. */
  function FirstFree(slots: seq<Slot>): (id: nat)
    ensures id <= |slots|
    ensures id < |slots| ==> slots[id].Free?
    ensures forall i :: 0 <= i < id ==> slots[i].Waiting?
  {
    if |slots| == 0 then 0
    else
      var last := |slots| - 1;
      var id := FirstFree(slots[..last]);
      if id < last then id else if slots[last].Free? then last else |slots|
  }

  predicate Fits(len: int) {
    0 <= len <= MTU - IP_SIZE
  }

  function Expiry(tscFreq: u64, now: u64): u64 {
    Wrap64(now + ToTicks(tscFreq, 1000, TIMEOUT_MS))
  }

  function PacketOf(c: Config, op: Op): Packet
    requires op.Send? && ValidOp(op) && Fits(op.len)
  {
    Packet(op.dst, op.now, Expiry(c.tscFreq, op.now), Tail(c.me, op.dst, op.protocol, op.payload[..op.len]))
  }

  function StepSend(c: Config, s: State, op: Op): State
    requires op.Send? && ValidOp(op)
  {
    if op.dst in op.arp then
      if Fits(op.len) then s.(log := s.log + [Direct(op.arp[op.dst] + PacketOf(c, op).tail)]) else s
    else
      var (id, t) := (FirstFree(s.slots), s.(log := s.log + [Asked(op.dst)]));
      if id == |s.slots| || !Fits(op.len) then t
      else t.(slots := s.slots[id := Waiting(|s.issued|, PacketOf(c, op))], issued := s.issued + [PacketOf(c, op)])
  }

  /** What an idle sweep makes of one slot. */
  function Settle(slot: Slot, now: u64, arp: map<u32, Mac>): Slot {
    if slot.Waiting? && (now > slot.packet.expire || slot.packet.dst in arp) then Free else slot
  }

  function Settled(slot: Slot, now: u64, arp: map<u32, Mac>): seq<Event> {
    if slot.Free? then []
    else if now > slot.packet.expire then [Dropped(slot.ticket, now)]
    else if slot.packet.dst in arp then [Handed(slot.ticket, arp[slot.packet.dst] + slot.packet.tail)]
    else [Asked(slot.packet.dst)]
  }

  /** The slots and the events after the sweep has passed the first n slots. */
  function SweepTo(slots: seq<Slot>, now: u64, arp: map<u32, Mac>, n: nat): (r: (seq<Slot>, seq<Event>))
    requires n <= |slots|
    ensures |r.0| == |slots|
    ensures forall i :: 0 <= i < |slots| ==> r.0[i] == if i < n then Settle(slots[i], now, arp) else slots[i]
  {
    if n == 0 then (slots, [])
    else
      var (t, e) := SweepTo(slots, now, arp, n - 1);
      (t[n - 1 := Settle(slots[n - 1], now, arp)], e + Settled(slots[n - 1], now, arp))
  }

  /** Too soon and not yet the 1024th call. */
  predicate Gated(c: Config, s: State, now: u64, idleDelay: u64) {
    s.cnt + 1 < 1024 && Wrap64(now - s.lastIdle) <= idleDelay
  }

  function StepIdle(c: Config, s: State, op: Op): State
    requires op.Idle?
  {
    if Gated(c, s, op.now, IdleDelay(c.tscFreq)) then s.(cnt := s.cnt + 1)
    else
      var (slots, events) := SweepTo(s.slots, op.now, op.arp, |s.slots|);
      State(slots, s.issued, s.log + events, 0, op.now)
  }

  /** A tenth of a millisecond in ticks, as computed in 64 bits. */
  function IdleDelay(tscFreq: u64): u64 {
    Wrap64(tscFreq * 100) / 1000 / 1000
  }

  function Step(c: Config, s: State, op: Op): State
    requires ValidOp(op)
  {
    if op.Send? then StepSend(c, s, op) else StepIdle(c, s, op)
  }

  function Start(now: u64): State {
    State(seq(SLOTS, _ => Free), [], [], 0, now)
  }

  /** The state after every operation of a run. */
  function Run(c: Config, now: u64, ops: seq<Op>): State
    requires forall op :: op in ops ==> ValidOp(op)
  {
    if |ops| == 0 then Start(now) else Step(c, Run(c, now, ops[..|ops| - 1]), ops[|ops| - 1])
  }

  // ----- where a ticket is

  function WaitingCount(slots: seq<Slot>, t: nat): nat {
    if |slots| == 0 then 0
    else
      var last := slots[|slots| - 1];
      (if last.Waiting? && last.ticket == t then 1 else 0) + WaitingCount(slots[..|slots| - 1], t)
  }

  predicate About(e: Event, t: nat) {
    (e.Handed? || e.Dropped?) && e.ticket == t
  }

  function EventCount(log: seq<Event>, t: nat): nat {
    if |log| == 0 then 0 else (if About(log[|log| - 1], t) then 1 else 0) + EventCount(log[..|log| - 1], t)
  }

  lemma {:induction false} EventCountAppend(a: seq<Event>, b: seq<Event>, t: nat)
    ensures EventCount(a + b, t) == EventCount(a, t) + EventCount(b, t)
  {
    if |b| == 0 {
      assert a + b == a;
    } else {
      assert (a + b)[..|a + b| - 1] == a + b[..|b| - 1];
      EventCountAppend(a, b[..|b| - 1], t);
    }
  }

  lemma {:induction false} WaitingCountUpdate(slots: seq<Slot>, i: nat, x: Slot, t: nat)
    requires i < |slots|
    ensures WaitingCount(slots[i := x], t) + WaitingCount([slots[i]], t) ==
      WaitingCount(slots, t) + WaitingCount([x], t)
  {
    var last := |slots| - 1;
    if i == last {
      assert slots[i := x][..last] == slots[..last];
    } else {
      assert slots[i := x][..last] == slots[..last][i := x];
      WaitingCountUpdate(slots[..last], i, x, t);
    }
  }

  lemma {:induction false} NobodyWaits(slots: seq<Slot>, t: nat)
    requires forall i :: 0 <= i < |slots| ==> slots[i].Waiting? ==> slots[i].ticket != t
    ensures WaitingCount(slots, t) == 0
  {
    if |slots| > 0 {
      NobodyWaits(slots[..|slots| - 1], t);
    }
  }

  lemma {:induction false} NothingHappened(log: seq<Event>, t: nat)
    requires forall i :: 0 <= i < |log| ==> !About(log[i], t)
    ensures EventCount(log, t) == 0
  {
    if |log| > 0 {
      NothingHappened(log[..|log| - 1], t);
    }
  }

  lemma Singles(slot: Slot, t: nat)
    ensures WaitingCount([slot], t) == if slot.Waiting? && slot.ticket == t then 1 else 0
  {
    assert [slot][..0] == [];
  }

  lemma {:induction false} SweepCounts(slots: seq<Slot>, now: u64, arp: map<u32, Mac>, n: nat, t: nat)
    requires n <= |slots|
    ensures var (after, events) := SweepTo(slots, now, arp, n);
      WaitingCount(after, t) + EventCount(events, t) == WaitingCount(slots, t)
  {
    hide WaitingCount, EventCount, Settled, Settle;
    if n > 0 {
      var (before, e) := SweepTo(slots, now, arp, n - 1);
      SweepCounts(slots, now, arp, n - 1, t);
      WaitingCountUpdate(before, n - 1, Settle(slots[n - 1], now, arp), t);
      EventCountAppend(e, Settled(slots[n - 1], now, arp), t);
      SlotSettles(slots[n - 1], now, arp, t);
    } else {
      NothingHappened([], t);
    }
  }

  lemma SlotSettles(slot: Slot, now: u64, arp: map<u32, Mac>, t: nat)
    ensures WaitingCount([Settle(slot, now, arp)], t) + EventCount(Settled(slot, now, arp), t) ==
      WaitingCount([slot], t)
  {
    var e := Settled(slot, now, arp);
    assert |e| == 1 ==> e[..0] == [];
    Singles(slot, t);
    Singles(Free, t);
  }

  // ----- what holds in every run

  /** A logged event is the right one for its packet. */
  predicate Justified(e: Event, issued: seq<Packet>) {
    match e
    case Direct(_) => true
    case Asked(_) => true
    case Handed(t, frame) => t < |issued| && |frame| >= 6 && frame[6..] == issued[t].tail
    case Dropped(t, at) => t < |issued| && at > issued[t].expire
  }

  predicate Genuine(slot: Slot, issued: seq<Packet>) {
    slot.Waiting? ==> slot.ticket < |issued| && slot.packet == issued[slot.ticket]
  }

  ghost predicate Invariant(s: State) {
    && |s.slots| == SLOTS
    && (forall i :: 0 <= i < SLOTS ==> Genuine(s.slots[i], s.issued))
    && (forall i :: 0 <= i < |s.log| ==> Justified(s.log[i], s.issued))
    && (forall t: nat :: t < |s.issued| ==> WaitingCount(s.slots, t) + EventCount(s.log, t) == 1)
  }

  lemma EnqueueKeeps(s: State, id: nat, p: Packet)
    requires Invariant(s) && id < SLOTS && s.slots[id].Free?
    ensures Invariant(s.(slots := s.slots[id := Waiting(|s.issued|, p)], issued := s.issued + [p]))
  {
    hide WaitingCount, EventCount;
    var t := |s.issued|;
    var s' := s.(slots := s.slots[id := Waiting(t, p)], issued := s.issued + [p]);
    forall u: nat | u < |s'.issued| ensures WaitingCount(s'.slots, u) + EventCount(s'.log, u) == 1 {
      WaitingCountUpdate(s.slots, id, Waiting(t, p), u);
      Singles(Waiting(t, p), u);
      Singles(Free, u);
      if u == t {
        NobodyWaits(s.slots, t);
        NothingHappened(s.log, t);
      }
    }
  }

  lemma NeutralKeeps(s: State, e: Event)
    requires Invariant(s) && (e.Direct? || e.Asked?)
    ensures Invariant(s.(log := s.log + [e]))
  {
    hide WaitingCount, EventCount;
    forall t: nat | t < |s.issued| ensures EventCount(s.log + [e], t) == EventCount(s.log, t) {
      EventCountAppend(s.log, [e], t);
      NothingHappened([e], t);
    }
  }

  lemma SlotJustified(slot: Slot, now: u64, arp: map<u32, Mac>, issued: seq<Packet>)
    requires Genuine(slot, issued)
    ensures forall e :: e in Settled(slot, now, arp) ==> Justified(e, issued)
  {
    if slot.Waiting? && slot.packet.dst in arp {
      assert (arp[slot.packet.dst] + slot.packet.tail)[6..] == slot.packet.tail;
    }
  }

  lemma {:induction false} SweepJustified(slots: seq<Slot>, now: u64, arp: map<u32, Mac>, n: nat, issued: seq<Packet>)
    requires n <= |slots| && forall i :: 0 <= i < |slots| ==> Genuine(slots[i], issued)
    ensures forall e :: e in SweepTo(slots, now, arp, n).1 ==> Justified(e, issued)
  {
    hide Genuine, Justified, Settled;
    if n > 0 {
      SweepJustified(slots, now, arp, n - 1, issued);
      SlotJustified(slots[n - 1], now, arp, issued);
    }
  }

  lemma SweepKeeps(s: State, now: u64, arp: map<u32, Mac>)
    requires Invariant(s)
    ensures var (slots, events) := SweepTo(s.slots, now, arp, |s.slots|);
      Invariant(State(slots, s.issued, s.log + events, 0, now))
  {
    hide WaitingCount, EventCount, Settled, Justified;
    var (slots, events) := SweepTo(s.slots, now, arp, |s.slots|);
    SweepJustified(s.slots, now, arp, |s.slots|, s.issued);
    forall t: nat | t < |s.issued| ensures WaitingCount(slots, t) + EventCount(s.log + events, t) == 1 {
      EventCountAppend(s.log, events, t);
      SweepCounts(s.slots, now, arp, |s.slots|, t);
    }
    forall i | 0 <= i < SLOTS ensures Genuine(slots[i], s.issued) {
      assert Genuine(s.slots[i], s.issued);
    }
  }

  lemma StepKeeps(c: Config, s: State, op: Op)
    requires Invariant(s) && ValidOp(op)
    ensures Invariant(Step(c, s, op))
  {
    hide Invariant, SweepTo, PacketOf;
    if op.Idle? {
      SweepKeeps(s, op.now, op.arp);
      TickKeeps(s, s.cnt + 1);
    } else {
      SlotCount(s);
      NeutralKeeps(s, Asked(op.dst));
      if op.dst in op.arp {
        if Fits(op.len) {
          NeutralKeeps(s, Direct(op.arp[op.dst] + PacketOf(c, op).tail));
        }
      } else if Fits(op.len) {
        var id := FirstFree(s.slots);
        if id < SLOTS {
          EnqueueKeeps(s.(log := s.log + [Asked(op.dst)]), id, PacketOf(c, op));
        }
      }
    }
  }

  lemma SlotCount(s: State)
    requires Invariant(s)
    ensures |s.slots| == SLOTS
  {
  }

  lemma TickKeeps(s: State, cnt: nat)
    requires Invariant(s)
    ensures Invariant(s.(cnt := cnt))
  {
  }

  lemma StartKeeps(now: u64)
    ensures Invariant(Start(now))
  {
  }

  lemma {:induction false} RunInvariant(c: Config, now: u64, ops: seq<Op>)
    requires forall op :: op in ops ==> ValidOp(op)
    ensures Invariant(Run(c, now, ops))
  {
    hide Invariant, Step, Start;
    if |ops| == 0 {
      StartKeeps(now);
    } else {
      RunInvariant(c, now, ops[..|ops| - 1]);
      assert ops[|ops| - 1] in ops;
      StepKeeps(c, Run(c, now, ops[..|ops| - 1]), ops[|ops| - 1]);
    }
  }

  /**
   In every run, every accepted packet either sits in exactly one slot or left the queue exactly once: handed
   over byte for byte behind the destination MAC address, or dropped after its expiry. Nothing else leaves.
   */
  lemma EachPacketOnce(c: Config, now: u64, ops: seq<Op>, t: nat)
    requires forall op :: op in ops ==> ValidOp(op)
    ensures var s := Run(c, now, ops);
      && (t < |s.issued| ==> WaitingCount(s.slots, t) + EventCount(s.log, t) == 1)
      && (forall i :: 0 <= i < |s.log| && About(s.log[i], t) ==> t < |s.issued| && Justified(s.log[i], s.issued))
  {
    hide WaitingCount, EventCount, Run;
    RunInvariant(c, now, ops);
  }

  /**
   A slot in use is left alone by everything but a sweep that settles it, and a sweep settles it exactly when the
   packet has expired or its address is known by then; an unexpired one is handed to that address.
   */
  lemma SlotFate(c: Config, s: State, op: Op, i: nat)
    requires Invariant(s) && ValidOp(op) && i < SLOTS && s.slots[i].Waiting?
    ensures var (p, t, s') := (s.slots[i].packet, s.slots[i].ticket, Step(c, s, op));
      var swept := op.Idle? && !Gated(c, s, op.now, IdleDelay(c.tscFreq));
      && |s'.slots| == SLOTS
      && (s'.slots[i] != s.slots[i] <==> swept && (op.now > p.expire || p.dst in op.arp))
      && (swept && op.now <= p.expire && p.dst in op.arp ==> Handed(t, op.arp[p.dst] + p.tail) in s'.log)
      && (swept && op.now > p.expire ==> Dropped(t, op.now) in s'.log)
      && (swept && op.now <= p.expire && p.dst !in op.arp ==> Asked(p.dst) in s'.log)
  {
    hide WaitingCount, EventCount, IdleDelay, Justified, PacketOf;
    if op.Idle? {
      SweepLogs(s.slots, op.now, op.arp, |s.slots|, i);
    }
  }

  lemma {:induction false} SweepLogs(slots: seq<Slot>, now: u64, arp: map<u32, Mac>, n: nat, i: nat)
    requires i < n <= |slots| && slots[i].Waiting?
    ensures forall e :: e in Settled(slots[i], now, arp) ==> e in SweepTo(slots, now, arp, n).1
  {
    if i < n - 1 {
      SweepLogs(slots, now, arp, n - 1, i);
    }
  }

  /** A sweep takes place on the 1024th call or when more than a ten-thousandth of a second has passed. */
  lemma IdleGate(c: Config, s: State, op: Op)
    requires op.Idle? && c.tscFreq * 100 < TWO64
    ensures var t := Step(c, s, op);
      if s.cnt + 1 >= 1024 || (op.now - s.lastIdle) % 0x1_0000_0000_0000_0000 > c.tscFreq / 10000
      then t.cnt == 0 && t.lastIdle == op.now && |t.slots| == |s.slots|
           && forall i :: 0 <= i < |s.slots| ==>
                var slot := s.slots[i];
                t.slots[i] == if slot.Waiting? && (op.now > slot.packet.expire || slot.packet.dst in op.arp)
                              then Free else slot
      else t == s.(cnt := s.cnt + 1)
  {
    TenThousandth(c.tscFreq);
  }

  lemma TenThousandth(tscFreq: u64)
    requires tscFreq * 100 < TWO64
    ensures IdleDelay(tscFreq) == tscFreq / 10000
  {
    var n := tscFreq * 100;
    assert n / 1000 / 1000 == tscFreq / 10000;
  }

  // ----- what one send does

  /** To a known address with a fitting length: one frame, to that address, and nothing is queued. */
  lemma SendKnown(c: Config, s: State, op: Op)
    requires op.Send? && ValidOp(op) && op.dst in op.arp && 0 <= op.len <= 1480
    ensures var t := Step(c, s, op);
      && |t.log| == |s.log| + 1 && t.log[..|s.log|] == s.log && t.log[|s.log|].Direct?
      && t == s.(log := t.log)
      && var f := t.log[|s.log|].frame;
         |f| == 34 + op.len && f[..6] == op.arp[op.dst] && f[6..12] == c.me.mac && f[12] == 8 && f[13] == 0
         && Big4(f, 30) == op.dst && f[23] == op.protocol && f[34..] == op.payload[..op.len]
  {
    hide IpHeader, Expiry, Big4, FirstFree;
    var (tail, mac, content) := (PacketOf(c, op).tail, op.arp[op.dst], op.payload[..op.len]);
    var h := IpHeader(c.me.ip, op.dst, op.protocol, op.len);
    assert mac + tail == mac + c.me.mac + [8, 0] + h + content;
    TailSlices(mac, c.me.mac, h, content);
    HeaderBytes(c.me.ip, op.dst, op.protocol, op.len);
    var f: seq<u8> := mac + tail;
    Inner(f, 14, h, 16);
    assert f[14..34][9] == f[23];
  }

  lemma TailSlices(to: Mac, from: Mac, h: seq<u8>, content: seq<u8>)
    requires |h| == 20
    ensures var f := to + from + [8, 0] + h + content;
      && |f| == 34 + |content| && f[..6] == to && f[6..12] == from && f[12] == 8 && f[13] == 0
      && f[14..34] == h && f[34..] == content
  {
  }

  /**
   To an unknown address: the address is asked for, and with room and a fitting length one packet is queued for it.
   */
  lemma SendUnknown(c: Config, s: State, op: Op)
    requires op.Send? && ValidOp(op) && op.dst !in op.arp
    ensures var t := Step(c, s, op);
      && t.log == s.log + [Asked(op.dst)] && t.cnt == s.cnt && t.lastIdle == s.lastIdle
      && if 0 <= op.len <= 1480 && exists i :: 0 <= i < |s.slots| && s.slots[i].Free? then
           && |t.issued| == |s.issued| + 1 && t.issued[..|s.issued|] == s.issued
           && var p := t.issued[|s.issued|];
             && p.dst == op.dst && p.queuedAt == op.now && p.expire == Expiry(c.tscFreq, op.now)
             && |p.tail| == 28 + op.len && p.tail[28..] == op.payload[..op.len]
             && exists i :: 0 <= i < |s.slots| && s.slots[i].Free? && (forall k :: 0 <= k < i ==> s.slots[k].Waiting?)
                            && t.slots == s.slots[i := Waiting(|s.issued|, p)]
         else t.issued == s.issued && t.slots == s.slots
  {
    hide IpHeader, Expiry;
    var id := FirstFree(s.slots);
    assert id < |s.slots| ==> s.slots[id].Free?;
  }

  /** To a known address with a length that does not fit: nothing at all. */
  lemma SendRefused(c: Config, s: State, op: Op)
    requires op.Send? && ValidOp(op) && op.dst in op.arp && !(0 <= op.len <= 1480)
    ensures Step(c, s, op) == s
  {
  }

  // ----- where frames come from

  /** A send that was not refused for its length, and what it puts behind the destination address. */
  ghost predicate Sends(c: Config, op: Op, tail: seq<u8>) {
    op.Send? && ValidOp(op) && Fits(op.len) && tail == PacketOf(c, op).tail
  }

  /**
   The frame is what send i put together, to the address found for its destination: at the send itself, or in a
   later sweep j when it was not known at the send.
   */
  ghost predicate SentAs(c: Config, ops: seq<Op>, frame: seq<u8>, i: nat, j: nat) {
    && i <= j < |ops| && |frame| >= 6
    && Sends(c, ops[i], frame[6..])
    && ops[i].dst in ops[j].arp && frame[..6] == ops[j].arp[ops[i].dst]
    && (i == j || (ops[j].Idle? && ops[i].dst !in ops[i].arp))
  }

  /** A packet that send i queued. */
  ghost predicate QueuedBy(c: Config, ops: seq<Op>, p: Packet, i: nat) {
    i < |ops| && Sends(c, ops[i], p.tail) && ops[i].dst == p.dst && p.dst !in ops[i].arp
  }

  ghost predicate HasSource(c: Config, ops: seq<Op>, frame: seq<u8>) {
    exists i: nat, j: nat :: SentAs(c, ops, frame, i, j)
  }

  ghost predicate HasSender(c: Config, ops: seq<Op>, p: Packet) {
    exists i: nat :: QueuedBy(c, ops, p, i)
  }

  /** Every packet and every frame comes from one of the operations. */
  ghost predicate Sourced(c: Config, s: State, ops: seq<Op>) {
    && (forall t :: 0 <= t < |s.issued| ==> HasSender(c, ops, s.issued[t]))
    && (forall e :: e in s.log && (e.Direct? || e.Handed?) ==> HasSource(c, ops, e.frame))
  }

  lemma SourceLonger(c: Config, ops: seq<Op>, op: Op, frame: seq<u8>)
    requires HasSource(c, ops, frame)
    ensures HasSource(c, ops + [op], frame)
  {
    var i: nat, j: nat :| SentAs(c, ops, frame, i, j);
    assert SentAs(c, ops + [op], frame, i, j);
  }

  lemma SenderLonger(c: Config, ops: seq<Op>, op: Op, p: Packet)
    requires HasSender(c, ops, p)
    ensures HasSender(c, ops + [op], p)
  {
    var i: nat :| QueuedBy(c, ops, p, i);
    assert QueuedBy(c, ops + [op], p, i);
  }

  lemma SourcedLonger(c: Config, s: State, ops: seq<Op>, op: Op)
    requires Sourced(c, s, ops)
    ensures Sourced(c, s, ops + [op])
  {
    hide HasSource, HasSender;
    forall t | 0 <= t < |s.issued| ensures HasSender(c, ops + [op], s.issued[t]) {
      SenderLonger(c, ops, op, s.issued[t]);
    }
    forall e | e in s.log && (e.Direct? || e.Handed?) ensures HasSource(c, ops + [op], e.frame) {
      SourceLonger(c, ops, op, e.frame);
    }
  }

  lemma StepSourced(c: Config, s: State, ops: seq<Op>, op: Op)
    requires Sourced(c, s, ops) && Invariant(s) && ValidOp(op)
    ensures Sourced(c, Step(c, s, op), ops + [op])
  {
    hide Sourced, Invariant, PacketOf, Fits, FirstFree, IdleDelay, SweepTo;
    SourcedLonger(c, s, ops, op);
    if op.Send? {
      SendSourced(c, s, ops, op);
    } else {
      SweepSourced(c, s, ops, op);
      SourcedTick(c, s, ops + [op], s.cnt + 1);
    }
  }

  lemma SourcedTick(c: Config, s: State, ops: seq<Op>, cnt: nat)
    requires Sourced(c, s, ops)
    ensures Sourced(c, s.(cnt := cnt), ops)
  {
    hide HasSource, HasSender;
  }

  lemma SendSourced(c: Config, s: State, ops: seq<Op>, op: Op)
    requires op.Send? && ValidOp(op) && Sourced(c, s, ops + [op])
    ensures Sourced(c, StepSend(c, s, op), ops + [op])
  {
    hide PacketOf, Fits, FirstFree;
    var all := ops + [op];
    if Fits(op.len) {
      var p := PacketOf(c, op);
      PacketIs(c, op);
      if op.dst in op.arp {
        var f := op.arp[op.dst] + p.tail;
        assert f[6..] == p.tail && f[..6] == op.arp[op.dst];
        assert SentAs(c, all, f, |ops|, |ops|);
      } else {
        assert QueuedBy(c, all, p, |ops|);
      }
    }
  }

  lemma PacketIs(c: Config, op: Op)
    requires op.Send? && ValidOp(op) && Fits(op.len)
    ensures PacketOf(c, op).dst == op.dst
  {
  }

  lemma SweepSourced(c: Config, s: State, ops: seq<Op>, op: Op)
    requires op.Idle? && Sourced(c, s, ops + [op]) && Sourced(c, s, ops) && Invariant(s)
    ensures var (slots, events) := SweepTo(s.slots, op.now, op.arp, |s.slots|);
      Sourced(c, State(slots, s.issued, s.log + events, 0, op.now), ops + [op])
  {
    hide HasSource, HasSender, Justified, WaitingCount, EventCount;
    var events := SweepTo(s.slots, op.now, op.arp, |s.slots|).1;
    forall e | e in events && (e.Direct? || e.Handed?) ensures HasSource(c, ops + [op], e.frame) {
      var k := EventSlot(s.slots, op.now, op.arp, |s.slots|, e);
      assert Genuine(s.slots[k], s.issued);
      HandedSource(c, ops, op, s.slots[k], e);
    }
  }

  lemma HandedSource(c: Config, ops: seq<Op>, op: Op, slot: Slot, e: Event)
    requires op.Idle? && slot.Waiting? && e in Settled(slot, op.now, op.arp) && e.Handed?
    requires HasSender(c, ops, slot.packet)
    ensures HasSource(c, ops + [op], e.frame)
  {
    hide Sends;
    var i: nat :| QueuedBy(c, ops, slot.packet, i);
    assert e.frame[6..] == slot.packet.tail && e.frame[..6] == op.arp[slot.packet.dst];
    assert SentAs(c, ops + [op], e.frame, i, |ops|);
  }

  lemma {:induction false} EventSlot(slots: seq<Slot>, now: u64, arp: map<u32, Mac>, n: nat, e: Event) returns (k: nat)
    requires n <= |slots| && e in SweepTo(slots, now, arp, n).1 && (e.Direct? || e.Handed?)
    ensures k < n && slots[k].Waiting? && e.Handed? && e in Settled(slots[k], now, arp)
  {
    if e in Settled(slots[n - 1], now, arp) {
      k := n - 1;
    } else {
      k := EventSlot(slots, now, arp, n - 1, e);
    }
  }

  lemma {:induction false} RunSourced(c: Config, now: u64, ops: seq<Op>)
    requires forall op :: op in ops ==> ValidOp(op)
    ensures Sourced(c, Run(c, now, ops), ops)
  {
    hide Step, Sourced, Start, Invariant;
    if |ops| == 0 {
      StartSourced(c, now);
    } else {
      var (last, before) := (ops[|ops| - 1], ops[..|ops| - 1]);
      RunSourced(c, now, before);
      RunInvariant(c, now, before);
      assert ops == before + [last] && last in ops;
      StepSourced(c, Run(c, now, before), before, last);
    }
  }

  lemma StartSourced(c: Config, now: u64)
    ensures Sourced(c, Start(now), [])
  {
  }

  lemma SourceOf(c: Config, ops: seq<Op>, frame: seq<u8>) returns (i: nat, j: nat)
    requires HasSource(c, ops, frame)
    ensures SentAs(c, ops, frame, i, j)
  {
    i, j :| SentAs(c, ops, frame, i, j);
  }

  /**
   Every frame of a run, sent at once or handed over later, is what one send put together, behind the address
   found for its destination then or in a later sweep.
   */
  lemma FrameSource(c: Config, now: u64, ops: seq<Op>, e: Event) returns (i: nat, j: nat)
    requires forall op :: op in ops ==> ValidOp(op)
    requires e in Run(c, now, ops).log && (e.Direct? || e.Handed?)
    ensures SentAs(c, ops, e.frame, i, j)
  {
    hide Run;
    RunSourced(c, now, ops);
    i, j := SourceOf(c, ops, e.frame);
  }

  /** And every send of a fitting length to an address known then has its frame in the log of the run. */
  lemma {:induction false} KnownSent(c: Config, now: u64, ops: seq<Op>, i: nat)
    requires forall op :: op in ops ==> ValidOp(op)
    requires i < |ops| && ops[i].Send? && ops[i].dst in ops[i].arp && Fits(ops[i].len)
    ensures Direct(ops[i].arp[ops[i].dst] + PacketOf(c, ops[i]).tail) in Run(c, now, ops).log
  {
    hide PacketOf, SweepTo, FirstFree, IdleDelay;
    var last := |ops| - 1;
    assert ops[last] in ops;
    if i < last {
      KnownSent(c, now, ops[..last], i);
    }
  }

  /** With no wrap-around of the clock, packets expire five seconds after they were queued. */
  lemma ExpiryIsFiveSeconds(tscFreq: u64, now: u64)
    requires now + 5 * tscFreq < TWO64
    ensures Expiry(tscFreq, now) == now + 5 * tscFreq
  {
    hide MulDiv;
    MulDivSmall(TIMEOUT_MS, tscFreq, 1000);
    assert 5000 * tscFreq / 1000 == 5 * tscFreq;
  }
}
