/** The network stack on the card's ring: which frames get onto the wire (ducknet/lib/phy.cpp, lib/e1000.cpp). */
module Link {
  import opened Words
  import opened Wire
  import opened Pending
  import opened Ipv4
  import opened Rings

  /** What is done to the ring, with the next frame of a list for each send. */
  datatype Move = SendNext | Flush | CardMoves

  function Sends(moves: seq<Move>): nat {
    if |moves| == 0 then 0
    else Sends(moves[..|moves| - 1]) + if moves[|moves| - 1] == SendNext then 1 else 0
  }

  function Actions(frames: seq<seq<u8>>, moves: seq<Move>): (actions: seq<TxAction>)
    ensures forall a :: a in actions ==> TxOk(a) && (a.DriverSends? ==> a.buf in frames && a.cnt == |a.buf|)
  {
    if |moves| == 0 then []
    else
      var (actions, k) := (Actions(frames, moves[..|moves| - 1]), Sends(moves[..|moves| - 1]));
      match moves[|moves| - 1]
      case SendNext => if k < |frames| then actions + [DriverSends(frames[k], |frames[k]|)] else actions
      case Flush => actions + [DriverFlushes]
      case CardMoves => actions + [CardTakes]
  }

  lemma FrameSize(to: Mac, from: Host, dst: u32, sport: u16, dport: u16, payload: seq<u8>)
    requires |payload| + UDP_SIZE + IP_SIZE <= MTU
    ensures |UdpFrame(to, from, dst, sport, dport, payload)| == ETHER_SIZE + IP_SIZE + UDP_SIZE + |payload|
  {
  }

  /**
   The stack accepts payloads of up to 1472 bytes. The card refuses their frames if they are longer than 1458,
   whatever the state of the ring, and otherwise only while the ring is full.
   */
  lemma LongRefused(n: nat, s: TxState, to: Mac, from: Host, dst: u32, sport: u16, dport: u16, payload: seq<u8>)
    requires |payload| + UDP_SIZE + IP_SIZE <= MTU
    ensures var f := UdpFrame(to, from, dst, sport, dport, payload);
      Refused(n, s, DriverSends(f, |f|)) <==> |payload| > 1458 || |s.accepted| - s.sent == n - 1
  {
    hide UdpFrame;
    FrameSize(to, from, dst, sport, dport, payload);
  }

  /** The ring takes only what it is given, and nothing that is too long. */
  lemma {:induction false} TakenFrom(n: nat, flushCount: nat, frames: seq<seq<u8>>, actions: seq<TxAction>)
    requires n > 0 && flushCount > 0
    requires forall a :: a in actions ==> TxOk(a) && (a.DriverSends? ==> a.buf in frames && a.cnt == |a.buf|)
    ensures forall p :: p in TxRun(n, flushCount, actions).accepted ==> p in frames && |p| <= MAX_PACKET
  {
    if |actions| > 0 {
      TakenFrom(n, flushCount, frames, actions[..|actions| - 1]);
      var a := actions[|actions| - 1];
      assert a.DriverSends? ==> a.buf[..a.cnt] == a.buf;
    }
  }

  /**
   From datagrams to the wire and to a receiver, with the card at work whenever it likes: a frame is refused exactly
   when its size is wrong or the ring is full; all others, in order, are what the wire carries in the end; and each
   arrives as a datagram that was sent, with at most 1458 bytes.
   */
  method Deliver(from: Host, me: Host, tscFreq: u64, start: u64, acts: seq<Act>, n: nat, flushCount: nat,
                 moves: seq<Move>, padding: seq<u8>)
      returns (frames: seq<seq<u8>>, results: seq<int>, wire: seq<seq<u8>>, outcomes: seq<Outcome>)
    requires n >= 2 && flushCount >= 1
    ensures frames == Frames(Run(Config(from, tscFreq), start, OpsOf(from, acts)).log)
    ensures var actions := Actions(frames, moves);
      && |results| == |actions|
      && (forall i :: 0 <= i < |actions| ==>
           results[i] == if Refused(n, TxRun(n, flushCount, actions[..i]), actions[i]) then -1 else 0)
      && wire == TxRun(n, flushCount, actions).accepted
    ensures |outcomes| == |wire|
    ensures forall i :: 0 <= i < |wire| ==>
      && Arrives(from, me, acts, wire[i], outcomes[i])
      && |wire[i]| <= 42 + 1458
    ensures forall i :: 0 <= i < |acts| ==> KnownIn(from, acts, frames, i)
  {
    hide Run, Frames, OpsOf, Arrives, KnownIn, TxRun, Refused;
    frames := Transmit(from, tscFreq, start, acts);
    forall i | 0 <= i < |acts| ensures KnownIn(from, acts, frames, i) {
      KnownFrame(Config(from, tscFreq), start, acts, i);
    }
    var actions := Actions(frames, moves);
    var first, rest;
    results, first, rest := TxSchedule(n, flushCount, actions);
    wire := first + rest;
    TakenFrom(n, flushCount, frames, actions);
    outcomes := [];
    for i := 0 to |wire|
      invariant |outcomes| == i
      invariant forall k :: 0 <= k < i ==> Arrives(from, me, acts, wire[k], outcomes[k])
    {
      assert wire[i] in wire;
      var o := Receive(from, me, tscFreq, start, acts, wire[i], padding);
      outcomes := outcomes + [o];
    }
  }
}
