/**
 The bytes ducknet puts on the wire and how a host reads them: Ethernet, IPv4 (section 3.1 of RFC 791), UDP
 (RFC 768).
 */
module Wire {
  import opened Words
  import opened Checksum

  type Mac = s: seq<u8> | |s| == 6 witness [0, 0, 0, 0, 0, 0]

  datatype Host = Host(mac: Mac, ip: u32)

  const BROADCAST_MAC: Mac := [255, 255, 255, 255, 255, 255]
  const BROADCAST_IP: u32 := 0xffff_ffff
  const MTU := 1500
  const ETHER_SIZE := 14
  const IP_SIZE := 20
  const UDP_SIZE := 8
  const ICMP_PROTOCOL: u8 := 1
  const UDP_PROTOCOL: u8 := 17

  // ----- network byte order

  function Be16(x: u16): (s: seq<u8>)
    ensures |s| == 2
  {
    var (hi: u8, lo: u8) := (x / 256, x % 256);
    [hi, lo]
  }

  function Be32(x: u32): (s: seq<u8>)
    ensures |s| == 4
  {
    Be16(x / TWO16) + Be16(x % TWO16)
  }

  function FromBe16(s: seq<u8>, k: nat): u16
    requires k + 1 < |s|
  {
    LoadWord(s[k + 1], s[k])
  }

  function FromBe32(s: seq<u8>, k: nat): u32
    requires k + 3 < |s|
  {
    var h: int := FromBe16(s, k);
    h * TWO16 + FromBe16(s, k + 2)
  }

  lemma Be32RoundTrip(x: u32, a: seq<u8>, b: seq<u8>)
    ensures FromBe32(a + Be32(x) + b, |a|) == x
  {
    var s := a + Be32(x) + b;
    assert s[|a|] == Be16(x / TWO16)[0] && s[|a| + 1] == Be16(x / TWO16)[1];
    assert s[|a| + 2] == Be16(x % TWO16)[0] && s[|a| + 3] == Be16(x % TWO16)[1];
  }

  // ----- what a host sends

  function BareIpHeader(src: u32, dst: u32, protocol: u8, len: nat): (s: seq<u8>)
    requires len + IP_SIZE <= MTU
    ensures |s| == IP_SIZE
  {
    [0x45, 0] + Be16(len + IP_SIZE) + Be16(2333) + [0, 0] + [233, protocol] + [0, 0] + Be32(src) + Be32(dst)
  }

  function IpHeader(src: u32, dst: u32, protocol: u8, len: nat): (s: seq<u8>)
    requires len + IP_SIZE <= MTU
    ensures |s| == IP_SIZE
  {
    var bare := BareIpHeader(src, dst, protocol, len);
    Store16(bare, 10, Complement(Sum16(bare)))
  }

  /** Everything of the frame behind the destination MAC address. */
  function Tail(from: Host, dst: u32, protocol: u8, content: seq<u8>): (s: seq<u8>)
    requires |content| + IP_SIZE <= MTU
    ensures |s| == |content| + 28
  {
    from.mac + [8, 0] + IpHeader(from.ip, dst, protocol, |content|) + content
  }

  function PseudoHeader(src: u32, dst: u32, udpLen: u16): (s: seq<u8>)
    ensures |s| == 12
  {
    Be32(src) + Be32(dst) + [0, UDP_PROTOCOL] + Be16(udpLen)
  }

  function BareSegment(sport: u16, dport: u16, payload: seq<u8>): (s: seq<u8>)
    requires |payload| + UDP_SIZE + IP_SIZE <= MTU
    ensures |s| == UDP_SIZE + |payload|
  {
    Be16(sport) + Be16(dport) + Be16(|payload| + UDP_SIZE) + [0, 0] + payload
  }

  function Segment(src: u32, dst: u32, sport: u16, dport: u16, payload: seq<u8>): (s: seq<u8>)
    requires |payload| + UDP_SIZE + IP_SIZE <= MTU
    ensures |s| == UDP_SIZE + |payload|
  {
    var bare := BareSegment(sport, dport, payload);
    Store16(bare, 6, Complement(Sum16(PseudoHeader(src, dst, |bare|)) + Sum16(bare)))
  }

  /** The frame of one datagram. */
  function UdpFrame(to: Mac, from: Host, dst: u32, sport: u16, dport: u16, payload: seq<u8>): seq<u8>
    requires |payload| + UDP_SIZE + IP_SIZE <= MTU
  {
    to + Tail(from, dst, UDP_PROTOCOL, Segment(from.ip, dst, sport, dport, payload))
  }

  /** Two and four bytes as a number, the highest first. */
  function Big2(s: seq<u8>, k: nat): nat
    requires k + 1 < |s|
  {
    var (a: int, b: int) := (s[k], s[k + 1]);
    256 * a + b
  }

  function Big4(s: seq<u8>, k: nat): nat
    requires k + 3 < |s|
  {
    0x1_0000 * Big2(s, k) + Big2(s, k + 2)
  }

  lemma BytesOf16(x: u16)
    ensures Big2(Be16(x), 0) == x
  {
  }

  lemma BytesOf32(x: u32)
    ensures Big4(Be32(x), 0) == x
  {
  }

  /** Where the parts of a frame are. */
  lemma FramePlaces(to: Mac, from: Host, dst: u32, sport: u16, dport: u16, payload: seq<u8>)
    requires |payload| + UDP_SIZE + IP_SIZE <= MTU
    ensures var f := UdpFrame(to, from, dst, sport, dport, payload);
      && |f| == 42 + |payload| && f[0..6] == to && f[6..12] == from.mac && f[12] == 8 && f[13] == 0
      && f[14..34] == IpHeader(from.ip, dst, 17, |payload| + 8)
      && f[34..42 + |payload|] == Segment(from.ip, dst, sport, dport, payload)
  {
    hide IpHeader, Segment;
    var (h, s) := (IpHeader(from.ip, dst, UDP_PROTOCOL, |payload| + 8), Segment(from.ip, dst, sport, dport, payload));
    FrameSlices(to, from.mac, h, s);
    assert UdpFrame(to, from, dst, sport, dport, payload) == to + from.mac + [8, 0] + h + s;
  }

  /** A number inside a part of s. */
  lemma Inner(s: seq<u8>, b: nat, part: seq<u8>, k: nat)
    requires b + |part| <= |s| && s[b..b + |part|] == part && k + 2 <= |part|
    ensures Big2(s, b + k) == Big2(part, k)
    ensures k + 4 <= |part| ==> Big4(s, b + k) == Big4(part, k)
  {
    assert s[b + k] == part[k] && s[b + k + 1] == part[k + 1];
    assert k + 4 <= |part| ==> s[b + k + 2] == part[k + 2] && s[b + k + 3] == part[k + 3];
  }

  lemma FrameSlices(to: Mac, from: Mac, h: seq<u8>, s: seq<u8>)
    requires |h| == 20 && |s| >= 8
    ensures var f := to + from + [8, 0] + h + s;
      && |f| == 34 + |s| && f[0..6] == to && f[6..12] == from && f[12] == 8 && f[13] == 0
      && f[14..34] == h && f[34..34 + |s|] == s && f[42..] == s[8..]
  {
  }

  /** The IPv4 header byte by byte, but for its checksum. */
  lemma HeaderBytes(src: u32, dst: u32, protocol: u8, len: nat)
    requires len + IP_SIZE <= MTU
    ensures var h := IpHeader(src, dst, protocol, len);
      && h[0] == 0x45 && h[1] == 0 && Big2(h, 2) == 20 + len && Big2(h, 4) == 2333
      && h[6] == 0 && h[7] == 0 && h[8] == 233 && h[9] == protocol && Big4(h, 12) == src && Big4(h, 16) == dst
  {
    hide Be16, Be32, Complement, Sum16;
    var (bare, h) := (BareIpHeader(src, dst, protocol, len), IpHeader(src, dst, protocol, len));
    assert forall i :: 0 <= i < 20 && i != 10 && i != 11 ==> h[i] == bare[i];
    BytesOf16(len + IP_SIZE);
    BytesOf16(2333);
    BytesOf32(src);
    BytesOf32(dst);
    assert bare[2..4] == Be16(len + IP_SIZE) && bare[4..6] == Be16(2333);
    assert bare[12..16] == Be32(src) && bare[16..20] == Be32(dst);
    Inner(bare, 2, Be16(len + IP_SIZE), 0);
    Inner(bare, 4, Be16(2333), 0);
    Inner(bare, 12, Be32(src), 0);
    Inner(bare, 16, Be32(dst), 0);
  }

  /** And the datagram. */
  lemma SegmentBytes(src: u32, dst: u32, sport: u16, dport: u16, payload: seq<u8>)
    requires |payload| + UDP_SIZE + IP_SIZE <= MTU
    ensures var s := Segment(src, dst, sport, dport, payload);
      && Big2(s, 0) == sport && Big2(s, 2) == dport && Big2(s, 4) == 8 + |payload| && s[8..] == payload
  {
    hide Be16, Be32, Complement, Sum16, PseudoHeader;
    var (bare, s) := (BareSegment(sport, dport, payload), Segment(src, dst, sport, dport, payload));
    assert forall i :: 0 <= i < |s| && i != 6 && i != 7 ==> s[i] == bare[i];
    assert s[8..] == bare[8..] == payload;
    BytesOf16(sport);
    BytesOf16(dport);
    BytesOf16(|payload| + UDP_SIZE);
    assert bare[0..2] == Be16(sport) && bare[2..4] == Be16(dport) && bare[4..6] == Be16(|payload| + UDP_SIZE);
    Inner(bare, 0, Be16(sport), 0);
    Inner(bare, 2, Be16(dport), 0);
    Inner(bare, 4, Be16(|payload| + UDP_SIZE), 0);
  }

  // ----- what a host makes of a frame

  /**
   Which protocol handler a frame ends up with, and what the handler is given. For UDP, length is the header's
   field.
   */
  datatype Outcome =
    | Rejected
    | Arp(content: seq<u8>)
    | Icmp(src: u32, dst: u32, contentLen: int)
    | Udp(src: u32, dst: u32, sport: u16, dport: u16, length: u16, payload: seq<u8>)

  /** What the configured packet hooks say to a frame and to its packet, 0 without a hook; negative refuses. */
  datatype Hooks = Hooks(ether: int, ip: int)

  const ACCEPT := Hooks(0, 0)

  function UdpDecode(src: u32, dst: u32, s: seq<u8>): Outcome {
    if |s| < UDP_SIZE then Rejected
    else Udp(src, dst, FromBe16(s, 0), FromBe16(s, 2), FromBe16(s, 4), s[UDP_SIZE..])
  }

  /** Fragments are refused; only the "don't fragment" flag may be set. */
  predicate IpAccepted(ip: u32, p: seq<u8>)
    requires |p| >= IP_SIZE
  {
    && p[0] == 0x45
    && FromBe16(p, 2) <= |p|
    && FromBe16(p, 6) in {0, 0x4000}
    && FromBe32(p, 16) in {BROADCAST_IP, ip}
  }

  function IpDecode(ip: u32, hook: int, p: seq<u8>): Outcome {
    if |p| < IP_SIZE || hook < 0 || !IpAccepted(ip, p) then Rejected
    else
      var (src, dst, length) := (FromBe32(p, 12), FromBe32(p, 16), FromBe16(p, 2));
      if p[9] == ICMP_PROTOCOL then Icmp(src, dst, length - IP_SIZE)
      else if p[9] != UDP_PROTOCOL || length < IP_SIZE then Rejected
      else UdpDecode(src, dst, p[IP_SIZE..length])
  }

  function EtherDecode(me: Host, hooks: Hooks, f: seq<u8>): Outcome {
    if |f| < ETHER_SIZE || hooks.ether < 0 || f[..6] !in {me.mac, BROADCAST_MAC} then Rejected
    else if FromBe16(f, 12) == 0x0806 then Arp(f[ETHER_SIZE..])
    else if FromBe16(f, 12) == 0x0800 then IpDecode(me.ip, hooks.ip, f[ETHER_SIZE..])
    else Rejected
  }

  /** A frame is for this host. */
  predicate ForMe(me: Host, f: seq<u8>) {
    |f| >= 14 && (f[0..6] == me.mac || f[0..6] == [255, 255, 255, 255, 255, 255])
  }

  /** An IPv4 packet without options, complete and no fragment, for this host. */
  predicate ForMyIp(ip: u32, p: seq<u8>) {
    && |p| >= 20 && p[0] == 0x45 && Big2(p, 2) <= |p|
    && (p[6] == 0 || p[6] == 0x40) && p[7] == 0
    && (Big4(p, 16) == ip || Big4(p, 16) == 0xffff_ffff)
  }

  /** What becomes of every frame, byte by byte: handed to ARP, to the IPv4 layer, or turned away. */
  lemma FrameMeaning(me: Host, hooks: Hooks, f: seq<u8>)
    ensures var (o, mine) := (EtherDecode(me, hooks, f), ForMe(me, f) && hooks.ether >= 0);
      && (o.Arp? <==> mine && f[12] == 8 && f[13] == 6)
      && (o.Arp? ==> o.content == f[14..])
      && (mine && f[12] == 8 && f[13] == 0 ==> o == IpDecode(me.ip, hooks.ip, f[14..]))
      && (!(mine && f[12] == 8 && (f[13] == 0 || f[13] == 6)) ==> o == Rejected)
  {
    hide IpDecode;
    if |f| >= 14 && hooks.ip >= 0 {
      NotArp(me.ip, hooks.ip, f[14..]);
    } else if |f| >= 14 {
      NotArp(me.ip, hooks.ip, f[14..]);
    }
  }

  lemma NotArp(ip: u32, hook: int, p: seq<u8>)
    ensures !IpDecode(ip, hook, p).Arp?
  {
  }

  /** And what becomes of every packet: handed to ICMP or UDP with what, or turned away. */
  lemma PacketMeaning(ip: u32, hook: int, p: seq<u8>)
    ensures IpDecode(ip, hook, p) ==
      if !ForMyIp(ip, p) || hook < 0 then Rejected
      else if p[9] == 1 then Icmp(Big4(p, 12), Big4(p, 16), Big2(p, 2) - 20)
      else if p[9] != 17 || Big2(p, 2) < 28 then Rejected
      else Udp(Big4(p, 12), Big4(p, 16), Big2(p, 20), Big2(p, 22), Big2(p, 24), p[28..Big2(p, 2)])
  {
    hide Big4, Big2, FromBe16, FromBe32, UdpDecode, IpAccepted, ForMyIp;
    AcceptedIs(ip, p);
    if |p| >= 20 {
      ReadersAgree(p, 2);
      ReadersAgree(p, 12);
      ReadersAgree(p, 16);
      ContentMeaning(p, Big2(p, 2));
    }
  }

  lemma AcceptedIs(ip: u32, p: seq<u8>)
    ensures ForMyIp(ip, p) <==> |p| >= 20 && IpAccepted(ip, p)
    ensures ForMyIp(ip, p) ==> Big2(p, 2) <= |p|
  {
    hide Big4, Big2, FromBe16, FromBe32;
    if |p| >= 20 {
      ReadersAgree(p, 2);
      ReadersAgree(p, 16);
      FlagBytes(p);
    }
  }

  lemma ContentMeaning(p: seq<u8>, length: nat)
    ensures 20 <= length <= |p| ==>
      var (src, dst) := (FromBe32(p, 12), FromBe32(p, 16));
      UdpDecode(src, dst, p[20..length]) ==
        if length < 28 then Rejected
        else Udp(src, dst, Big2(p, 20), Big2(p, 22), Big2(p, 24), p[28..length])
  {
    hide Big4, Big2, FromBe16, FromBe32, UdpDecode;
    if 20 <= length <= |p| {
      DatagramMeaning(FromBe32(p, 12), FromBe32(p, 16), p[20..length]);
      if length >= 28 {
        assert p[20..length][8..] == p[28..length];
        assert p[20..20 + |p[20..length]|] == p[20..length];
        Inner(p, 20, p[20..length], 0);
        Inner(p, 20, p[20..length], 2);
        Inner(p, 20, p[20..length], 4);
      }
    }
  }

  lemma ReadersAgree(s: seq<u8>, k: nat)
    requires k + 1 < |s|
    ensures FromBe16(s, k) == Big2(s, k)
    ensures k + 3 < |s| ==> FromBe32(s, k) == Big4(s, k)
  {
  }

  lemma FlagBytes(p: seq<u8>)
    requires |p| >= 8
    ensures FromBe16(p, 6) in {0, 0x4000} <==> (p[6] == 0 || p[6] == 0x40) && p[7] == 0
  {
  }

  lemma DatagramMeaning(src: u32, dst: u32, s: seq<u8>)
    ensures UdpDecode(src, dst, s) ==
      if |s| < 8 then Rejected else Udp(src, dst, Big2(s, 0), Big2(s, 2), Big2(s, 4), s[8..])
  {
    if |s| >= 8 {
      ReadersAgree(s, 0);
      ReadersAgree(s, 2);
      ReadersAgree(s, 4);
    }
  }

  // ----- round trip

  lemma IpHeaderFields(src: u32, dst: u32, protocol: u8, len: nat)
    requires len + IP_SIZE <= MTU
    ensures var h := IpHeader(src, dst, protocol, len);
      && h[0] == 0x45 && h[9] == protocol && FromBe16(h, 2) == len + IP_SIZE && FromBe16(h, 6) == 0
      && FromBe32(h, 12) == src && FromBe32(h, 16) == dst
  {
    hide Sum16, Complement;
    var bare := BareIpHeader(src, dst, protocol, len);
    var front := [0x45, 0] + Be16(len + IP_SIZE) + Be16(2333) + [0, 0] + [233, protocol] + [0, 0];
    assert bare == front + Be32(src) + Be32(dst);
    Be32RoundTrip(src, front, Be32(dst));
    assert bare == front + Be32(src) + Be32(dst) + [];
    Be32RoundTrip(dst, front + Be32(src), []);
  }

  lemma IpRoundTrip(me: u32, hook: int, src: u32, dst: u32, content: seq<u8>, padding: seq<u8>)
    requires |content| + IP_SIZE <= MTU && dst in {me, BROADCAST_IP} && hook >= 0
    ensures IpDecode(me, hook, IpHeader(src, dst, UDP_PROTOCOL, |content|) + content + padding) ==
      UdpDecode(src, dst, content)
  {
    hide IpHeader, UdpDecode;
    var h := IpHeader(src, dst, UDP_PROTOCOL, |content|);
    var p := h + content + padding;
    IpHeaderFields(src, dst, UDP_PROTOCOL, |content|);
    assert p[..IP_SIZE] == h;
    assert p[IP_SIZE..IP_SIZE + |content|] == content;
  }

  lemma SegmentRoundTrip(src: u32, dst: u32, sport: u16, dport: u16, payload: seq<u8>)
    requires |payload| + UDP_SIZE + IP_SIZE <= MTU
    ensures UdpDecode(src, dst, Segment(src, dst, sport, dport, payload)) ==
      Udp(src, dst, sport, dport, |payload| + UDP_SIZE, payload)
  {
    hide Sum16, Complement;
    assert Segment(src, dst, sport, dport, payload)[UDP_SIZE..] == payload;
  }

  lemma EtherRoundTrip(me: Host, hooks: Hooks, to: Mac, from: Mac, packet: seq<u8>)
    requires to in {me.mac, BROADCAST_MAC} && hooks.ether >= 0
    ensures EtherDecode(me, hooks, to + from + [8, 0] + packet) == IpDecode(me.ip, hooks.ip, packet)
  {
    hide IpDecode;
    var f := to + from + [8, 0] + packet;
    assert f[..6] == to;
    assert f[ETHER_SIZE..] == packet;
  }

  /** No host but the addressed one takes it: a frame for another MAC address is turned away whatever it holds. */
  lemma EtherForeign(me: Host, hooks: Hooks, to: Mac, rest: seq<u8>)
    requires to !in {me.mac, BROADCAST_MAC}
    ensures EtherDecode(me, hooks, to + rest) == Rejected
  {
    hide IpDecode, FromBe16;
    assert |rest| >= 8 ==> (to + rest)[..6] == to;
  }

  /** And a packet for another IP address. */
  lemma IpForeign(me: u32, hook: int, src: u32, dst: u32, content: seq<u8>, padding: seq<u8>)
    requires |content| + IP_SIZE <= MTU && dst !in {me, BROADCAST_IP}
    ensures IpDecode(me, hook, IpHeader(src, dst, UDP_PROTOCOL, |content|) + content + padding) == Rejected
  {
    hide IpHeader, UdpDecode;
    var h := IpHeader(src, dst, UDP_PROTOCOL, |content|);
    IpHeaderFields(src, dst, UDP_PROTOCOL, |content|);
    assert (h + content + padding)[..IP_SIZE] == h;
  }

  // ----- both checksums verify

  /** The words of an outgoing IPv4 header add up to all ones. */
  lemma IpChecksumVerifies(src: u32, dst: u32, protocol: u8, len: nat)
    requires len + IP_SIZE <= MTU
    ensures Fold(Sum16(IpHeader(src, dst, protocol, len))) == 0xffff
  {
    hide Sum16, Fold, Complement;
    ChecksumVerifies(BareIpHeader(src, dst, protocol, len), 10, 0);
  }

  /** So do those of the pseudo header and the datagram, for payloads of odd length too. */
  lemma UdpChecksumVerifies(src: u32, dst: u32, sport: u16, dport: u16, payload: seq<u8>)
    requires |payload| + UDP_SIZE + IP_SIZE <= MTU
    ensures var s := Segment(src, dst, sport, dport, payload);
      Fold(Sum16(PseudoHeader(src, dst, |s|) + s)) == 0xffff
  {
    hide Sum16, Fold, Complement;
    var bare := BareSegment(sport, dport, payload);
    var ph := PseudoHeader(src, dst, |bare|);
    assert Load16(bare, 6) == 0;
    ChecksumVerifies(bare, 6, Sum16(ph));
    SumAppend(ph, Segment(src, dst, sport, dport, payload));
  }
}
