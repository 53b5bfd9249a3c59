/** The descriptor rings of lib/e1000.cpp: the driver's side, and the network card as the other party. */
module Rings {
  import opened Words

  const MAX_PACKET: nat := 1500
  const BUFFER_SIZE: nat := 2048

  /** Places in a ring of n slots are told apart by counts less than n apart. */
  lemma SlotsDiffer(i: nat, j: nat, n: nat)
    requires n > 0 && i < j < i + n
    ensures i % n != j % n
  {
    var (q, r) := (i / n, j / n);
    assert j - i == (r - q) * n + (j % n - i % n);
    assert r - q >= 1 ==> (r - q) * n >= n;
    assert r - q <= 0 ==> (r - q) * n <= 0;
  }

  lemma SlotAgain(i: nat, n: nat)
    requires n > 0
    ensures (i + n) % n == i % n
  {
    var q := i / n;
    assert i + n == (q + 1) * n + i % n;
    QuotientIs(i + n, q + 1, i % n, n);
  }

  lemma SlotNext(i: nat, n: nat)
    requires n > 0
    ensures (i % n + 1) % n == (i + 1) % n
  {
    var q := i / n;
    if i % n + 1 == n {
      assert i + 1 == (q + 1) * n;
      QuotientIs(i + 1, q + 1, 0, n);
      QuotientIs(n, 1, 0, n);
    } else {
      QuotientIs(i + 1, q, i % n + 1, n);
      QuotientIs(i % n + 1, 0, i % n + 1, n);
    }
  }

  /** The transmit ring. */
  class TxRing {
    const n: nat
    const flushCount: nat
    const buffers: array<seq<u8>>
    const lengths: array<nat>

    /** The driver's tail, what it last told the card, and the card's head when it last looked. */
    var tdt: nat
    var tdtReal: nat
    var tdh: nat
    /** The card's registers. */
    var regTDH: nat
    var regTDT: nat

    /** Packets taken by send, and packets on the wire. */
    ghost var accepted: seq<seq<u8>>
    ghost var transmitted: seq<seq<u8>>
    /** How many packets had been handed over, and sent, when tail and head were last written and read. */
    ghost var published: nat
    ghost var seen: nat

    ghost predicate Valid()
      reads this, buffers, lengths
    {
      && n >= 2 && flushCount >= 1 && buffers.Length == lengths.Length == n
      && (forall k :: 0 <= k < n ==> |buffers[k]| == BUFFER_SIZE && lengths[k] <= MAX_PACKET)
      && seen <= |transmitted| <= published <= |accepted| < seen + n
      && tdt == |accepted| % n && tdtReal == regTDT == published % n
      && regTDH == |transmitted| % n && tdh == seen % n
      && transmitted == accepted[..|transmitted|]
      && (forall i :: |transmitted| <= i < |accepted| ==> Holds(i, accepted[i]))
    }

    /** Slot of count i holds this packet, descriptor and buffer. */
    ghost predicate Holds(i: nat, packet: seq<u8>)
      requires n > 0 && buffers.Length == lengths.Length == n
      reads buffers, lengths
    {
      lengths[i % n] == |packet| <= |buffers[i % n]| && buffers[i % n][..|packet|] == packet
    }

    constructor (n: nat, flushCount: nat)
      requires n >= 2 && flushCount >= 1
      ensures Valid() && accepted == [] && transmitted == [] && published == 0
      ensures this.n == n && this.flushCount == flushCount && fresh(buffers) && fresh(lengths)
    {
      this.n := n;
      this.flushCount := flushCount;
      var blank := seq(BUFFER_SIZE, _ => 0 as u8);
      buffers := new seq<u8>[n](_ => blank);
      lengths := new nat[n](_ => 0);
      tdt, tdtReal, tdh, regTDH, regTDT := 0, 0, 0, 0, 0;
      accepted, transmitted, published, seen := [], [], 0, 0;
    }

    /**
     send: a packet is refused only for its size or when all slots but one really wait for the card; a packet
     taken is appended, and no slot the card may still read is touched.
     */
    method Send(buf: seq<u8>, cnt: int) returns (r: int)
      requires Valid() && cnt <= |buf|
      modifies this, buffers, lengths
      ensures Valid() && transmitted == old(transmitted)
      ensures r == 0 || r == -1
      ensures r == -1 <==> cnt < 0 || cnt > MAX_PACKET || |old(accepted)| - |old(transmitted)| == n - 1
      ensures accepted == if r == 0 then old(accepted) + [buf[..cnt]] else old(accepted)
      ensures published == if r == 0 && |accepted| % n % flushCount == 0 then |accepted| else old(published)
      ensures forall i :: |transmitted| <= i < |old(accepted)| ==>
        buffers[i % n] == old(buffers[i % n]) && lengths[i % n] == old(lengths[i % n])
    {
      if cnt < 0 || cnt > MAX_PACKET {
        return -1;
      }
      ghost var a := |accepted|;
      SlotNext(a, n);
      TellFull(seen, a + 1, n);
      if (tdt + 1) % n == tdh {
        tdh := regTDH;
        seen := |transmitted|;
        TellFull(seen, a + 1, n);
      }
      if (tdt + 1) % n == tdh {
        return -1;
      }
      Enqueue(buf, cnt);
      r := 0;
    }

    /** The rest of send: the packet into the slot at the tail, and now and then the tail to the card. */
    method Enqueue(buf: seq<u8>, cnt: nat)
      requires Valid() && cnt <= |buf| && cnt <= MAX_PACKET && |accepted| + 1 < seen + n
      modifies this, buffers, lengths
      ensures Valid() && transmitted == old(transmitted) && accepted == old(accepted) + [buf[..cnt]]
      ensures published == if |accepted| % n % flushCount == 0 then |accepted| else old(published)
      ensures forall i :: |transmitted| <= i < |old(accepted)| ==>
        buffers[i % n] == old(buffers[i % n]) && lengths[i % n] == old(lengths[i % n])
    {
      hide Valid, Holds;
      SlotTaken();
      Append(buf[..cnt]);
      if tdt % flushCount == 0 {
        Publish();
      }
    }

    lemma SlotTaken()
      requires Valid()
      ensures n > 0 && flushCount > 0 && buffers.Length == lengths.Length == n && tdt == |accepted| % n
    {
    }

    /** The packet into the slot at the tail, and the tail behind it. */
    method Append(packet: seq<u8>)
      requires Valid() && |packet| <= MAX_PACKET && |accepted| + 1 < seen + n
      modifies this`accepted, this`tdt, buffers, lengths
      ensures Valid() && accepted == old(accepted) + [packet] && tdt == |accepted| % n
      ensures forall i :: |transmitted| <= i < |old(accepted)| ==>
        buffers[i % n] == old(buffers[i % n]) && lengths[i % n] == old(lengths[i % n])
    {
      hide Holds;
      SlotNext(|accepted|, n);
      FillSlot(packet);
      accepted := accepted + [packet];
      tdt := (tdt + 1) % n;
    }

    /** The tail to the card. */
    method Publish()
      requires Valid()
      modifies this`regTDT, this`tdtReal, this`published
      ensures Valid() && published == |accepted|
    {
      hide Holds;
      regTDT := tdt;
      tdtReal := tdt;
      published := |accepted|;
    }

    /** The packet into the slot at the tail; every slot that waits for the card keeps what it holds. */
    method FillSlot(packet: seq<u8>)
      requires Valid() && |packet| <= MAX_PACKET && |accepted| + 1 < seen + n
      modifies buffers, lengths
      ensures forall k :: 0 <= k < n ==> |buffers[k]| == BUFFER_SIZE && lengths[k] <= MAX_PACKET
      ensures Holds(|accepted|, packet)
      ensures forall i :: |transmitted| <= i < |accepted| ==> Holds(i, accepted[i])
      ensures forall i :: |transmitted| <= i < |accepted| ==>
        buffers[i % n] == old(buffers[i % n]) && lengths[i % n] == old(lengths[i % n])
    {
      forall i | |transmitted| <= i < |accepted|
        ensures i % n != |accepted| % n
      {
        SlotsDiffer(i, |accepted|, n);
      }
      buffers[tdt] := packet + buffers[tdt][|packet|..];
      lengths[tdt] := |packet|;
    }

    /** flush: afterwards the card knows about every packet taken. */
    method Flush()
      requires Valid()
      modifies this
      ensures Valid() && published == |accepted|
      ensures accepted == old(accepted) && transmitted == old(transmitted)
    {
      if tdt != tdtReal {
        Publish();
      } else if published < |accepted| {
        SlotsDiffer(published, |accepted|, n);
        assert false;
      }
    }

    /** The card sends the packet at its head, if its tail lets it. */
    method CardTransmits() returns (moved: bool, packet: seq<u8>)
      requires Valid()
      modifies this
      ensures Valid() && accepted == old(accepted) && published == old(published)
      ensures moved <==> |old(transmitted)| < published
      ensures moved ==> packet == accepted[|old(transmitted)|]
      ensures transmitted == if moved then old(transmitted) + [packet] else old(transmitted)
    {
      ghost var t := |transmitted|;
      packet := [];
      moved := regTDH != regTDT;
      if t < published {
        SlotsDiffer(t, published, n);
        assert Holds(t, accepted[t]);
      }
      if moved {
        SlotNext(t, n);
        packet := buffers[regTDH][..lengths[regTDH]];
        transmitted := transmitted + [packet];
        regTDH := (regTDH + 1) % n;
      }
    }
  }

  /** Comparing slots tells whether the ring is full. */
  lemma TellFull(lo: nat, hi: nat, n: nat)
    requires n > 0 && lo < hi <= lo + n
    ensures hi % n == lo % n <==> hi == lo + n
  {
    if hi < lo + n {
      SlotsDiffer(lo, hi, n);
    } else {
      SlotAgain(lo, n);
    }
  }

  /** The receive ring. A slot's status bit says that the card has filled it and the driver has not read it. */
  class RxRing {
    const n: nat
    const flushCount: nat
    const buffers: array<seq<u8>>
    const lengths: array<nat>
    const done: array<bool>

    /** The driver's tail, and the card's registers. */
    var rdt: nat
    var regRDH: nat
    var regRDT: nat

    /** Packets the card put into the ring, packets the driver took out, and how many of those the tail told. */
    ghost var delivered: seq<seq<u8>>
    ghost var received: seq<seq<u8>>
    ghost var published: nat

    ghost predicate Valid()
      reads this, buffers, lengths, done
    {
      && n >= 2 && flushCount >= 1 && buffers.Length == lengths.Length == done.Length == n
      && (forall k :: 0 <= k < n ==> |buffers[k]| == BUFFER_SIZE)
      && published <= |received| <= |delivered| < published + n
      && rdt == (|received| + n - 1) % n && regRDT == (published + n - 1) % n && regRDH == |delivered| % n
      && received == delivered[..|received|]
      && (forall i :: |received| <= i < |delivered| ==> Holds(i, delivered[i]))
      && (forall i :: |delivered| <= i < |received| + n ==> !done[i % n])
    }

    ghost predicate Holds(i: nat, packet: seq<u8>)
      requires n > 0 && buffers.Length == lengths.Length == done.Length == n
      reads buffers, lengths, done
    {
      done[i % n] && lengths[i % n] == |packet| <= |buffers[i % n]| && buffers[i % n][..|packet|] == packet
    }

    constructor (n: nat, flushCount: nat)
      requires n >= 2 && flushCount >= 1
      ensures Valid() && delivered == [] && received == [] && published == 0
      ensures this.n == n && this.flushCount == flushCount && fresh(buffers) && fresh(lengths) && fresh(done)
    {
      this.n := n;
      this.flushCount := flushCount;
      var blank := seq(BUFFER_SIZE, _ => 0 as u8);
      buffers := new seq<u8>[n](_ => blank);
      lengths := new nat[n](_ => 0);
      done := new bool[n](_ => false);
      rdt, regRDH, regRDT := n - 1, 0, n - 1;
      delivered, received, published := [], [], 0;
      QuotientIs(n - 1, 0, n - 1, n);
      QuotientIs(0, 0, 0, n);
    }

    /**
     receive: takes out the oldest packet not yet read, and finds none only when there is none. The result is
     its length, cut off at the size of a buffer.
     */
    method Receive() returns (len: int, packet: seq<u8>)
      requires Valid()
      modifies this, done
      ensures Valid() && delivered == old(delivered)
      ensures len >= -1 && (len == -1 <==> |old(received)| == |delivered|)
      ensures len >= 0 ==> len == |packet| && received == old(received) + [packet]
      ensures len == -1 ==> received == old(received)
      ensures published == if len >= 0 && |old(received)| % n % flushCount == 0 then |received| else old(published)
    {
      packet := [];
      ghost var k := |received|;
      SlotNext(k + n - 1, n);
      SlotAgain(k, n);
      var idx := (rdt + 1) % n;
      assert idx == k % n;
      if !done[idx] {
        assert k < |delivered| ==> Holds(k, delivered[k]);
        return -1, packet;
      }
      assert done[k % n] && k < |delivered|;
      assert Holds(k, delivered[k]);
      len := Min(lengths[idx], BUFFER_SIZE);
      packet := buffers[idx][..len];
      Take(idx, packet);
      if rdt % flushCount == 0 {
        Publish();
      }
    }

    /** The slot given back, and the tail on it. */
    method Take(idx: nat, ghost packet: seq<u8>)
      requires Valid() && |received| < |delivered| && packet == delivered[|received|] && idx == |received| % n
      modifies this`rdt, this`received, done
      ensures Valid() && received == old(received) + [packet] && rdt == idx
    {
      ghost var k := |received|;
      forall i | k < i < k + n
        ensures i % n != k % n
      {
        SlotsDiffer(k, i, n);
      }
      SlotAgain(k, n);
      done[idx] := false;
      rdt := idx;
      received := received + [packet];
    }

    /** The tail to the card. */
    method Publish()
      requires Valid()
      modifies this`regRDT, this`published
      ensures Valid() && published == |received|
    {
      hide Holds;
      regRDT := rdt;
      published := |received|;
    }

    lemma TakenInOrder()
      requires Valid()
      ensures |received| <= |delivered| && received == delivered[..|received|]
    {
    }

    /** Receiving until there is nothing left. */
    method ReceiveAll() returns (packets: seq<seq<u8>>)
      requires Valid()
      modifies this, done
      ensures Valid() && delivered == old(delivered)
      ensures received == old(received) + packets && |received| == |delivered|
    {
      hide Valid;
      packets := [];
      var len := 0;
      while len >= 0
        invariant Valid() && delivered == old(delivered)
        invariant received == old(received) + packets
        invariant len < 0 ==> |received| == |delivered|
        decreases |delivered| - |received|, len >= 0
      {
        TakenInOrder();
        var packet;
        len, packet := Receive();
        TakenInOrder();
        if len >= 0 {
          packets := packets + [packet];
        }
      }
    }

    /** The card puts a packet into the slot at its head, if that is not the driver's tail. */
    method CardDelivers(packet: seq<u8>) returns (moved: bool)
      requires Valid() && |packet| <= BUFFER_SIZE
      modifies this, buffers, lengths, done
      ensures Valid() && received == old(received) && published == old(published)
      ensures moved <==> |old(delivered)| < published + n - 1
      ensures delivered == if moved then old(delivered) + [packet] else old(delivered)
      ensures forall i :: |received| <= i < |old(delivered)| ==>
        buffers[i % n] == old(buffers[i % n]) && lengths[i % n] == old(lengths[i % n])
    {
      ghost var d := |delivered|;
      moved := regRDH != regRDT;
      if d < published + n - 1 {
        SlotsDiffer(d, published + n - 1, n);
      }
      if moved {
        forall i | |received| <= i < |received| + n && i != d
          ensures i % n != d % n
        {
          SlotsDiffer(if i < d then i else d, if i < d then d else i, n);
        }
        SlotNext(d, n);
        buffers[regRDH] := packet + buffers[regRDH][|packet|..];
        lengths[regRDH] := |packet|;
        done[regRDH] := true;
        assert Holds(d, packet);
        delivered := delivered + [packet];
        regRDH := (regRDH + 1) % n;
      }
    }
  }

  // ----- any interleaving of the two parties

  datatype TxAction = DriverSends(buf: seq<u8>, cnt: int) | DriverFlushes | CardTakes

  /** The packets taken so far, how many are on the wire, and how many the card knows of. */
  datatype TxState = TxState(accepted: seq<seq<u8>>, sent: nat, published: nat)

  predicate TxOk(a: TxAction) {
    a.DriverSends? ==> a.cnt <= |a.buf|
  }

  /** A send is refused for its size, or because all slots but one wait for the card. */
  predicate Refused(n: nat, s: TxState, a: TxAction) {
    a.DriverSends? && (a.cnt < 0 || a.cnt > MAX_PACKET || |s.accepted| - s.sent == n - 1)
  }

  function TxStep(n: nat, flushCount: nat, s: TxState, a: TxAction): TxState
    requires n > 0 && flushCount > 0 && TxOk(a)
  {
    match a
    case DriverSends(buf, cnt) =>
      if Refused(n, s, a) then s
      else
        var accepted := s.accepted + [buf[..cnt]];
        TxState(accepted, s.sent, if |accepted| % n % flushCount == 0 then |accepted| else s.published)
    case DriverFlushes => s.(published := |s.accepted|)
    case CardTakes => if s.sent < s.published then s.(sent := s.sent + 1) else s
  }

  function TxRun(n: nat, flushCount: nat, actions: seq<TxAction>): TxState
    requires n > 0 && flushCount > 0 && forall a :: a in actions ==> TxOk(a)
  {
    if |actions| == 0 then TxState([], 0, 0)
    else TxStep(n, flushCount, TxRun(n, flushCount, actions[..|actions| - 1]), actions[|actions| - 1])
  }

  lemma TxRunStep(n: nat, flushCount: nat, actions: seq<TxAction>, i: nat)
    requires n > 0 && flushCount > 0 && (forall a :: a in actions ==> TxOk(a)) && i < |actions|
    ensures TxOk(actions[i])
    ensures TxRun(n, flushCount, actions[..i + 1]) ==
      TxStep(n, flushCount, TxRun(n, flushCount, actions[..i]), actions[i])
  {
    assert actions[i] in actions && actions[..i + 1][..i] == actions[..i];
  }

  /**
   Whatever the order of sends, flushes and card steps: a send is refused exactly when its size is wrong or the
   ring is really full at that moment; what is on the wire is a prefix of the packets taken, in order and intact;
   and one flush followed by enough card steps puts exactly the rest of them on the wire.
   */
  method TxSchedule(n: nat, flushCount: nat, actions: seq<TxAction>)
    returns (results: seq<int>, wire: seq<seq<u8>>, rest: seq<seq<u8>>)
    requires n >= 2 && flushCount >= 1
    requires forall a :: a in actions ==> TxOk(a)
    ensures |results| == |actions|
    ensures forall i :: 0 <= i < |actions| ==>
      results[i] == if Refused(n, TxRun(n, flushCount, actions[..i]), actions[i]) then -1 else 0
    ensures wire + rest == TxRun(n, flushCount, actions).accepted
    ensures |wire| == TxRun(n, flushCount, actions).sent
  {
    hide TxRing.Holds, TxRun;
    var ring := new TxRing(n, flushCount);
    results, wire, rest := [], [], [];
    TxStart(n, flushCount);
    for i := 0 to |actions|
      invariant ring.Valid() && fresh(ring) && fresh(ring.buffers) && fresh(ring.lengths)
      invariant ring.n == n && ring.flushCount == flushCount
      invariant |results| == i && wire == ring.transmitted
      invariant TxState(ring.accepted, |ring.transmitted|, ring.published) == TxRun(n, flushCount, actions[..i])
      invariant forall k :: 0 <= k < i ==>
        results[k] == if Refused(n, TxRun(n, flushCount, actions[..k]), actions[k]) then -1 else 0
    {
      var r := 0;
      TxRunStep(n, flushCount, actions, i);
      match actions[i] {
        case DriverSends(buf, cnt) =>
          r := ring.Send(buf, cnt);
        case DriverFlushes =>
          ring.Flush();
        case CardTakes =>
          var moved, packet := ring.CardTransmits();
          wire := if moved then wire + [packet] else wire;
      }
      results := results + [r];
    }
    assert actions[..|actions|] == actions;
    ring.Flush();
    ghost var accepted := ring.accepted;
    var moved := true;
    while moved
      invariant ring.Valid() && fresh(ring) && fresh(ring.buffers) && fresh(ring.lengths)
      invariant ring.accepted == accepted && ring.published == |accepted| && ring.transmitted == wire + rest
      invariant !moved ==> |ring.transmitted| == |accepted|
      decreases |accepted| - |ring.transmitted|, moved
    {
      var packet;
      moved, packet := ring.CardTransmits();
      rest := if moved then rest + [packet] else rest;
    }
  }

  lemma TxStart(n: nat, flushCount: nat)
    requires n > 0 && flushCount > 0
    ensures TxRun(n, flushCount, []) == TxState([], 0, 0)
  {
  }

  datatype RxAction = CardPuts(packet: seq<u8>) | DriverReceives

  /** The packets the card found room for, how many the driver read, and how many slots it gave back. */
  datatype RxState = RxState(delivered: seq<seq<u8>>, received: nat, published: nat)

  predicate HasRoom(n: nat, s: RxState, a: RxAction) {
    a.CardPuts? && |s.delivered| < s.published + n - 1
  }

  function RxStep(n: nat, flushCount: nat, s: RxState, a: RxAction): RxState
    requires n > 0 && flushCount > 0
  {
    match a
    case CardPuts(packet) => if HasRoom(n, s, a) then s.(delivered := s.delivered + [packet]) else s
    case DriverReceives =>
      if s.received >= |s.delivered| then s
      else
        var published := if s.received % n % flushCount == 0 then s.received + 1 else s.published;
        RxState(s.delivered, s.received + 1, published)
  }

  function RxRun(n: nat, flushCount: nat, actions: seq<RxAction>): RxState
    requires n > 0 && flushCount > 0
  {
    if |actions| == 0 then RxState([], 0, 0)
    else RxStep(n, flushCount, RxRun(n, flushCount, actions[..|actions| - 1]), actions[|actions| - 1])
  }

  lemma RxStart(n: nat, flushCount: nat)
    requires n > 0 && flushCount > 0
    ensures RxRun(n, flushCount, []) == RxState([], 0, 0)
  {
  }

  lemma RxRunStep(n: nat, flushCount: nat, actions: seq<RxAction>, i: nat)
    requires n > 0 && flushCount > 0 && i < |actions|
    ensures RxRun(n, flushCount, actions[..i + 1]) ==
      RxStep(n, flushCount, RxRun(n, flushCount, actions[..i]), actions[i])
  {
    assert actions[..i + 1][..i] == actions[..i];
  }

  /**
   Whatever the order of deliveries and receives: the card finds no room exactly when all slots but one are
   filled or not given back; what the driver handed out is a prefix of what the card put in, in order and intact;
   and enough receives hand out exactly the rest.
   */
  method RxSchedule(n: nat, flushCount: nat, actions: seq<RxAction>)
    returns (room: seq<bool>, handedOut: seq<seq<u8>>, rest: seq<seq<u8>>)
    requires n >= 2 && flushCount >= 1
    requires forall i :: 0 <= i < |actions| && actions[i].CardPuts? ==> |actions[i].packet| <= BUFFER_SIZE
    ensures |room| == |actions|
    ensures forall i :: 0 <= i < |actions| ==> room[i] == HasRoom(n, RxRun(n, flushCount, actions[..i]), actions[i])
    ensures handedOut + rest == RxRun(n, flushCount, actions).delivered
    ensures |handedOut| == RxRun(n, flushCount, actions).received
  {
    hide RxRing.Valid, RxRun;
    var ring := new RxRing(n, flushCount);
    room, handedOut, rest := [], [], [];
    RxStart(n, flushCount);
    for i := 0 to |actions|
      invariant ring.Valid() && fresh(ring) && fresh(ring.buffers) && fresh(ring.lengths) && fresh(ring.done)
      invariant ring.n == n && ring.flushCount == flushCount
      invariant |room| == i && handedOut == ring.received
      invariant RxState(ring.delivered, |ring.received|, ring.published) == RxRun(n, flushCount, actions[..i])
      invariant forall k :: 0 <= k < i ==> room[k] == HasRoom(n, RxRun(n, flushCount, actions[..k]), actions[k])
    {
      var moved := false;
      ring.TakenInOrder();
      RxRunStep(n, flushCount, actions, i);
      match actions[i] {
        case CardPuts(packet) =>
          moved := ring.CardDelivers(packet);
        case DriverReceives =>
          var len, packet := ring.Receive();
          if len >= 0 {
            handedOut := handedOut + [packet];
          }
      }
      room := room + [moved];
    }
    assert actions[..|actions|] == actions;
    rest := ring.ReceiveAll();
    ring.TakenInOrder();
  }
}
