/** Headers written and byte-swapped in place in packet buffers. */
module NetBuffer {
  import opened Words
  import opened Checksum
  import opened ByteSplice
  import opened Wire

  // ----- a header inside a buffer

  function Swap16(w: seq<u8>, k: nat): (r: seq<u8>)
    requires k + 1 < |w|
    ensures |r| == |w|
  {
    w[k := w[k + 1]][k + 1 := w[k]]
  }

  function Swap32(w: seq<u8>, k: nat): (r: seq<u8>)
    requires k + 3 < |w|
    ensures |r| == |w|
  {
    w[k := w[k + 3]][k + 1 := w[k + 2]][k + 2 := w[k + 1]][k + 3 := w[k]]
  }

  function Store32(w: seq<u8>, k: nat, x: u32): (r: seq<u8>)
    requires k + 3 < |w|
    ensures |r| == |w|
  {
    Store16(Store16(w, k, x % TWO16), k + 2, x / TWO16)
  }

  /** The header being worked on: window w at b of a buffer whose other bytes are those of s. */
  ghost predicate Window(buf: array<u8>, s: seq<u8>, b: nat, w: seq<u8>)
    reads buf
  {
    b + |w| <= |s| && buf[..] == Splice(s, b, w)
  }

  method Write8(buf: array<u8>, b: nat, k: nat, x: u8, ghost s: seq<u8>, ghost w: seq<u8>)
    requires Window(buf, s, b, w) && k < |w|
    modifies buf
    ensures Window(buf, s, b, w[k := x])
  {
    SpliceByte(s, b, w, k, x);
    buf[b + k] := x;
  }

  method Write16(buf: array<u8>, b: nat, k: nat, x: u16, ghost s: seq<u8>, ghost w: seq<u8>)
    requires Window(buf, s, b, w) && k + 1 < |w|
    modifies buf
    ensures Window(buf, s, b, Store16(w, k, x))
  {
    var (lo: u8, hi: u8) := (x % 256, x / 256);
    Write8(buf, b, k, lo, s, w);
    Write8(buf, b, k + 1, hi, s, w[k := lo]);
  }

  method Write32(buf: array<u8>, b: nat, k: nat, x: u32, ghost s: seq<u8>, ghost w: seq<u8>)
    requires Window(buf, s, b, w) && k + 3 < |w|
    modifies buf
    ensures Window(buf, s, b, Store32(w, k, x))
  {
    Write16(buf, b, k, x % TWO16, s, w);
    Write16(buf, b, k + 2, x / TWO16, s, Store16(w, k, x % TWO16));
  }

  method ReadWindow(buf: array<u8>, b: nat, k: nat, ghost s: seq<u8>, ghost w: seq<u8>) returns (x: u8)
    requires Window(buf, s, b, w) && k < |w|
    ensures x == w[k]
  {
    SpliceByte(s, b, w, k, 0);
    assert buf[..][b + k] == w[k];
    x := buf[b + k];
  }

  /** Turns a 16-bit field from one byte order to the other. */
  method Hton16(buf: array<u8>, b: nat, k: nat, ghost s: seq<u8>, ghost w: seq<u8>)
    requires Window(buf, s, b, w) && k + 1 < |w|
    modifies buf
    ensures Window(buf, s, b, Swap16(w, k))
  {
    var x := ReadWindow(buf, b, k, s, w);
    var y := ReadWindow(buf, b, k + 1, s, w);
    Write8(buf, b, k, y, s, w);
    Write8(buf, b, k + 1, x, s, w[k := y]);
  }

  /** The same for a 32-bit field. */
  method Hton32(buf: array<u8>, b: nat, k: nat, ghost s: seq<u8>, ghost w: seq<u8>)
    requires Window(buf, s, b, w) && k + 3 < |w|
    modifies buf
    ensures Window(buf, s, b, Swap32(w, k))
  {
    var x0 := ReadWindow(buf, b, k, s, w);
    var x1 := ReadWindow(buf, b, k + 1, s, w);
    var x2 := ReadWindow(buf, b, k + 2, s, w);
    var x3 := ReadWindow(buf, b, k + 3, s, w);
    Write8(buf, b, k, x3, s, w);
    Write8(buf, b, k + 1, x2, s, w[k := x3]);
    Write8(buf, b, k + 2, x1, s, w[k := x3][k + 1 := x2]);
    Write8(buf, b, k + 3, x0, s, w[k := x3][k + 1 := x2][k + 2 := x1]);
  }

  // ----- the IPv4 header

  /** Exchanges the two 4-bit fields of the first byte; the version is the low half in memory. */
  function SwapNibbles(x: u8): u8 {
    x % 16 * 16 + x / 16
  }

  function HtonIp(w: seq<u8>): (r: seq<u8>)
    requires |w| == IP_SIZE
    ensures |r| == IP_SIZE
  {
    Swap32(Swap32(Swap16(Swap16(Swap16(w[0 := SwapNibbles(w[0])], 2), 4), 6), 12), 16)
  }

  /** ducknet_ipv4_hton */
  method IpHton(buf: array<u8>, b: nat, ghost s: seq<u8>, ghost w: seq<u8>)
    requires Window(buf, s, b, w) && |w| == IP_SIZE
    modifies buf
    ensures Window(buf, s, b, HtonIp(w))
  {
    hide Swap16, Swap32, Splice;
    var first := ReadWindow(buf, b, 0, s, w);
    var swapped := SwapNibbles(first);
    Write8(buf, b, 0, swapped, s, w);
    ghost var v := w[0 := swapped];
    Hton16(buf, b, 2, s, v);
    v := Swap16(v, 2);
    Hton16(buf, b, 4, s, v);
    v := Swap16(v, 4);
    Hton16(buf, b, 6, s, v);
    v := Swap16(v, 6);
    Hton32(buf, b, 12, s, v);
    v := Swap32(v, 12);
    Hton32(buf, b, 16, s, v);
  }

  method Read16(buf: array<u8>, b: nat, k: nat, ghost s: seq<u8>, ghost w: seq<u8>) returns (x: u16)
    requires Window(buf, s, b, w) && k + 1 < |w|
    ensures x == Load16(w, k)
  {
    var lo := ReadWindow(buf, b, k, s, w);
    var hi := ReadWindow(buf, b, k + 1, s, w);
    x := LoadWord(lo, hi);
  }

  function Load32(w: seq<u8>, k: nat): u32
    requires k + 3 < |w|
  {
    var h: int := Load16(w, k + 2);
    h * TWO16 + Load16(w, k)
  }

  method Read32(buf: array<u8>, b: nat, k: nat, ghost s: seq<u8>, ghost w: seq<u8>) returns (x: u32)
    requires Window(buf, s, b, w) && k + 3 < |w|
    ensures x == Load32(w, k)
  {
    var lo := Read16(buf, b, k, s, w);
    var h: int := Read16(buf, b, k + 2, s, w);
    x := h * TWO16 + lo;
  }

  /** The header fields as ipv4_build_packet assigns them, in the machine's byte order, over old bytes w. */
  function HostIpHeader(w: seq<u8>, src: u32, dst: u32, protocol: u8, len: nat): (r: seq<u8>)
    requires |w| == IP_SIZE && len + IP_SIZE <= MTU
    ensures |r| == IP_SIZE
  {
    var v := w[0 := 0x54][1 := 0];
    var v := Store16(Store16(Store16(v, 2, len + IP_SIZE), 4, 2333), 6, 0);
    Store16(Store32(Store32(v[8 := 233][9 := protocol], 12, src), 16, dst), 10, 0)
  }

  lemma HtonOfHost(w: seq<u8>, src: u32, dst: u32, protocol: u8, len: nat)
    requires |w| == IP_SIZE && len + IP_SIZE <= MTU
    ensures HtonIp(HostIpHeader(w, src, dst, protocol, len)) == BareIpHeader(src, dst, protocol, len)
  {
  }

  method FillIpHeader(buf: array<u8>, b: nat, src: u32, dst: u32, protocol: u8, len: nat)
    requires b + IP_SIZE <= buf.Length && len + IP_SIZE <= MTU
    modifies buf
    ensures buf[..] == Splice(old(buf[..]), b, IpHeader(src, dst, protocol, len))
  {
    hide Store16, Store32, HtonIp, BareIpHeader, Splice, Sum16, Complement;
    ghost var s := buf[..];
    ghost var w := s[b..b + IP_SIZE];
    SpliceNothing(s, b, IP_SIZE);
    var first := ReadWindow(buf, b, 0, s, w);
    var version: u8 := first / 16 * 16 + 4;
    Write8(buf, b, 0, version, s, w);
    var ihl: u8 := 5 * 16 + version % 16;
    Write8(buf, b, 0, ihl, s, w[0 := version]);
    assert w[0 := version][0 := ihl] == w[0 := 0x54];
    Write8(buf, b, 1, 0, s, w[0 := 0x54]);
    ghost var v := w[0 := 0x54][1 := 0];
    Write16(buf, b, 2, len + IP_SIZE, s, v);
    v := Store16(v, 2, len + IP_SIZE);
    Write16(buf, b, 4, 2333, s, v);
    v := Store16(v, 4, 2333);
    Write16(buf, b, 6, 0, s, v);
    v := Store16(v, 6, 0);
    Write8(buf, b, 8, 233, s, v);
    Write8(buf, b, 9, protocol, s, v[8 := 233]);
    v := v[8 := 233][9 := protocol];
    Write32(buf, b, 12, src, s, v);
    v := Store32(v, 12, src);
    Write32(buf, b, 16, dst, s, v);
    v := Store32(v, 16, dst);
    Write16(buf, b, 10, 0, s, v);
    v := Store16(v, 10, 0);
    IpHton(buf, b, s, v);
    HtonOfHost(w, src, dst, protocol, len);
    ghost var bare := BareIpHeader(src, dst, protocol, len);
    assert buf[b..b + IP_SIZE] == buf[..][b..b + IP_SIZE] == bare;
    var sum := Checksum.Checksum(buf, b, IP_SIZE, 0);
    Write16(buf, b, 10, sum, s, bare);
  }

  // ----- building frames

  /** ipv4_build_packet, into the packet buffer at base. The destination MAC address is not assigned. */
  method BuildPacket(me: Host, buf: array<u8>, base: nat, dst: u32, protocol: u8, payload: seq<u8>, len: int)
      returns (r: int)
    requires base + MTU + 64 <= buf.Length && len <= |payload|
    modifies buf
    ensures r == if 0 <= len <= MTU - IP_SIZE then 0 else -1
    ensures buf[..] == if r == 0 then Splice(old(buf[..]), base + 6, Tail(me, dst, protocol, payload[..len]))
                       else old(buf[..])
  {
    hide Splice, IpHeader;
    if len < 0 {
      return -1;
    }
    if len + IP_SIZE > MTU {
      return -1;
    }
    ghost var s := buf[..];
    Copy(buf, base + 6, me.mac);
    Copy(buf, base + 12, [8, 0]);
    SpliceJoin(s, base + 6, me.mac, [8, 0]);
    FillIpHeader(buf, base + ETHER_SIZE, me.ip, dst, protocol, len);
    SpliceJoin(s, base + 6, me.mac + [8, 0], IpHeader(me.ip, dst, protocol, len));
    Copy(buf, base + ETHER_SIZE + IP_SIZE, payload[..len]);
    SpliceJoin(s, base + 6, me.mac + [8, 0] + IpHeader(me.ip, dst, protocol, len), payload[..len]);
    r := 0;
  }

  function HostUdpHeader(w: seq<u8>, sport: u16, dport: u16, len: u16): (r: seq<u8>)
    requires |w| == UDP_SIZE
    ensures |r| == UDP_SIZE
  {
    Store16(Store16(Store16(Store16(w, 0, sport), 2, dport), 4, len), 6, 0)
  }

  function HtonUdp(w: seq<u8>): (r: seq<u8>)
    requires |w| == UDP_SIZE
    ensures |r| == UDP_SIZE
  {
    Swap16(Swap16(Swap16(w, 0), 2), 4)
  }

  lemma HtonOfUdp(w: seq<u8>, sport: u16, dport: u16, len: u16)
    requires |w| == UDP_SIZE
    ensures HtonUdp(HostUdpHeader(w, sport, dport, len)) == Be16(sport) + Be16(dport) + Be16(len) + [0, 0]
  {
  }

  /** ducknet_udp_hton */
  method UdpHton(buf: array<u8>, b: nat, ghost s: seq<u8>, ghost w: seq<u8>)
    requires Window(buf, s, b, w) && |w| == UDP_SIZE
    modifies buf
    ensures Window(buf, s, b, HtonUdp(w))
  {
    Hton16(buf, b, 0, s, w);
    Hton16(buf, b, 2, s, Swap16(w, 0));
    Hton16(buf, b, 4, s, Swap16(Swap16(w, 0), 2));
  }

  /** The pseudo header ducknet_udp_send lays out on its stack. */
  method FillPseudoHeader(src: u32, dst: u32, udpLen: u16) returns (ph: array<u8>)
    ensures fresh(ph) && ph[..] == PseudoHeader(src, dst, udpLen)
  {
    var (s, d, l) := (Be32(src), Be32(dst), Be16(udpLen));
    ph := new u8[][s[0], s[1], s[2], s[3], d[0], d[1], d[2], d[3], 0, UDP_PROTOCOL, l[0], l[1]];
  }

  method FillUdpHeader(buf: array<u8>, sport: u16, dport: u16, len: u16)
    requires buf.Length >= UDP_SIZE
    modifies buf
    ensures buf[..] == Splice(old(buf[..]), 0, Be16(sport) + Be16(dport) + Be16(len) + [0, 0])
  {
    hide Store16, Splice, HtonUdp, Swap16;
    ghost var s := buf[..];
    ghost var w := s[0..UDP_SIZE];
    SpliceNothing(s, 0, UDP_SIZE);
    Write16(buf, 0, 0, sport, s, w);
    ghost var v := Store16(w, 0, sport);
    Write16(buf, 0, 2, dport, s, v);
    v := Store16(v, 2, dport);
    Write16(buf, 0, 4, len, s, v);
    v := Store16(v, 4, len);
    Write16(buf, 0, 6, 0, s, v);
    v := Store16(v, 6, 0);
    UdpHton(buf, 0, s, v);
    HtonOfUdp(w, sport, dport, len);
  }

  /** The part of ducknet_udp_send that fills its static buffer. */
  method BuildSegment(me: Host, buf: array<u8>, dst: u32, dport: u16, sport: u16, payload: seq<u8>, len: nat)
    requires buf.Length == MTU + 64 && len <= |payload| && len + UDP_SIZE + IP_SIZE <= MTU
    modifies buf
    ensures buf[..len + UDP_SIZE] == Segment(me.ip, dst, sport, dport, payload[..len])
  {
    hide Splice, Store16, Sum16, Complement, PseudoHeader;
    ghost var s := buf[..];
    var udpLen: u16 := len + UDP_SIZE;
    FillUdpHeader(buf, sport, dport, udpLen);
    ghost var header := Be16(sport) + Be16(dport) + Be16(udpLen) + [0, 0];
    Copy(buf, UDP_SIZE, payload[..len]);
    SpliceJoin(s, 0, header, payload[..len]);
    ghost var bare := BareSegment(sport, dport, payload[..len]);
    assert header + payload[..len] == bare;
    assert buf[0..0 + udpLen] == buf[..][0..udpLen] == bare;
    var ph := FillPseudoHeader(me.ip, dst, udpLen);
    var start := ChecksumSum(ph, 0, 12);
    assert ph[0..0 + 12] == ph[..];
    SumBound(ph[..]);
    var sum := Checksum.Checksum(buf, 0, udpLen, start);
    Write16(buf, 0, 6, sum, s, bare);
    assert buf[..udpLen] == buf[..][0..udpLen];
  }

  // ----- taking frames apart, header by header, in the receive buffer

  lemma UdpHostFields(w: seq<u8>)
    requires |w| == UDP_SIZE
    ensures var v := HtonUdp(w);
      Load16(v, 0) == FromBe16(w, 0) && Load16(v, 2) == FromBe16(w, 2) && Load16(v, 4) == FromBe16(w, 4)
  {
  }

  lemma IpHostFields(w: seq<u8>)
    requires |w| == IP_SIZE
    ensures var v := HtonIp(w);
      && v[0] == SwapNibbles(w[0]) && v[9] == w[9]
      && Load16(v, 2) == FromBe16(w, 2) && Load16(v, 6) == FromBe16(w, 6)
      && Load32(v, 12) == FromBe32(w, 12) && Load32(v, 16) == FromBe32(w, 16)
  {
  }

  /** ducknet_udp_packet_handle on len bytes at b. A negative length comes from an IPv4 length field below 20. */
  method UdpHandle(src: u32, dst: u32, pkt: array<u8>, b: nat, len: int) returns (o: Outcome)
    requires b + len <= pkt.Length
    modifies pkt
    ensures o == if len < 0 then Rejected else UdpDecode(src, dst, old(pkt[b..b + len]))
  {
    hide Splice, HtonUdp, FromBe16, Load16;
    if len < UDP_SIZE {
      return Rejected;
    }
    ghost var s := pkt[..];
    ghost var w := s[b..b + UDP_SIZE];
    SpliceNothing(s, b, UDP_SIZE);
    UdpHton(pkt, b, s, w);
    ghost var v := HtonUdp(w);
    var sport := Read16(pkt, b, 0, s, v);
    var dport := Read16(pkt, b, 2, s, v);
    var length := Read16(pkt, b, 4, s, v);
    SpliceElsewhere(s, b, v, b + UDP_SIZE, b + len);
    assert pkt[b + UDP_SIZE..b + len] == pkt[..][b + UDP_SIZE..b + len];
    o := Udp(src, dst, sport, dport, length, pkt[b + UDP_SIZE..b + len]);
    UdpHostFields(w);
    ghost var p := s[b..b + len];
    SameBe(p, w);
    assert p[UDP_SIZE..] == s[b + UDP_SIZE..b + len];
    assert o == Udp(src, dst, FromBe16(p, 0), FromBe16(p, 2), FromBe16(p, 4), p[UDP_SIZE..]);
  }

  lemma SliceOfSlice(s: seq<u8>, b: nat, e: nat, i: nat, j: nat)
    requires b <= e <= |s| && i <= j <= e - b
    ensures s[b..e][i..j] == s[b + i..b + j]
  {
    var (t, u) := (s[b..e][i..j], s[b + i..b + j]);
    assert forall k :: 0 <= k < j - i ==> t[k] == u[k];
  }

  lemma SameBe(p: seq<u8>, w: seq<u8>)
    requires |w| <= |p| && w == p[..|w|]
    ensures forall k :: 0 <= k && k + 1 < |w| ==> FromBe16(w, k) == FromBe16(p, k)
    ensures forall k :: 0 <= k && k + 3 < |w| ==> FromBe32(w, k) == FromBe32(p, k)
  {
  }

  /** ducknet_ipv4_packet_handle on len bytes at b. */
  method IpHandle(ip: u32, hook: int, pkt: array<u8>, b: nat, len: nat) returns (o: Outcome)
    requires b + len <= pkt.Length
    modifies pkt
    ensures o == IpDecode(ip, hook, old(pkt[b..b + len]))
  {
    hide Splice, HtonIp, FromBe16, FromBe32, Load16, Load32, UdpDecode;
    if len < IP_SIZE {
      return Rejected;
    }
    ghost var s := pkt[..];
    ghost var p := s[b..b + len];
    ghost var w := s[b..b + IP_SIZE];
    SpliceNothing(s, b, IP_SIZE);
    IpHton(pkt, b, s, w);
    ghost var v := HtonIp(w);
    IpHostFields(w);
    SameBe(p, w);
    assert p == old(pkt[b..b + len]) && w == p[..IP_SIZE];
    assert IpAccepted(ip, p) <==>
      && w[0] == 0x45 && Load16(v, 2) <= len && Load16(v, 6) in {0, 0x4000} && Load32(v, 16) in {BROADCAST_IP, ip};
    if hook < 0 {
      return Rejected;
    }
    var first := ReadWindow(pkt, b, 0, s, v);
    if first % 16 != 4 {
      return Rejected;
    }
    if first / 16 != 5 {
      return Rejected;
    }
    var length := Read16(pkt, b, 2, s, v);
    if length > len {
      return Rejected;
    }
    var flags := Read16(pkt, b, 6, s, v);
    // every bit but the don't-fragment flag
    if flags - flags / 0x4000 % 2 * 0x4000 != 0 {
      return Rejected;
    }
    var dst := Read32(pkt, b, 16, s, v);
    if !(dst == BROADCAST_IP || dst == ip) {
      return Rejected;
    }
    var src := Read32(pkt, b, 12, s, v);
    var protocol := ReadWindow(pkt, b, 9, s, v);
    var contentLen := length - IP_SIZE;
    if protocol == ICMP_PROTOCOL {
      o := Icmp(src, dst, contentLen);
    } else if protocol == UDP_PROTOCOL {
      if contentLen >= 0 {
        SpliceElsewhere(s, b, v, b + IP_SIZE, b + IP_SIZE + contentLen);
        assert pkt[b + IP_SIZE..b + IP_SIZE + contentLen] == pkt[..][b + IP_SIZE..b + IP_SIZE + contentLen];
        SliceOfSlice(s, b, b + len, IP_SIZE, length);
      }
      o := UdpHandle(src, dst, pkt, b + IP_SIZE, contentLen);
    } else {
      o := Rejected;
    }
  }

  /** is_equal: a 32-bit and a 16-bit comparison. */
  method SameMac(pkt: array<u8>, b: nat, mac: Mac) returns (same: bool)
    requires b + 6 <= pkt.Length
    ensures same <==> pkt[b..b + 6] == mac
  {
    ghost var w := pkt[b..b + 6];
    LoadsDetermine(w, mac);
    var lo := LoadWord(pkt[b], pkt[b + 1]);
    var mid := LoadWord(pkt[b + 2], pkt[b + 3]);
    var hi := LoadWord(pkt[b + 4], pkt[b + 5]);
    same := lo == Load16(mac, 0) && mid == Load16(mac, 2) && hi == Load16(mac, 4);
  }

  lemma LoadsDetermine(a: Mac, b: Mac)
    ensures a == b <==> Load16(a, 0) == Load16(b, 0) && Load16(a, 2) == Load16(b, 2) && Load16(a, 4) == Load16(b, 4)
  {
  }

  /** ducknet_ether_packet_handle: the frame is the first len bytes of the buffer. */
  method EtherHandle(me: Host, hooks: Hooks, pkt: array<u8>, len: nat) returns (o: Outcome)
    requires len <= pkt.Length
    modifies pkt
    ensures o == EtherDecode(me, hooks, old(pkt[..len]))
  {
    hide Splice, FromBe16, Load16, Swap16, IpDecode;
    if len < ETHER_SIZE {
      return Rejected;
    }
    ghost var s := pkt[..];
    ghost var w := s[0..ETHER_SIZE];
    SpliceNothing(s, 0, ETHER_SIZE);
    Hton16(pkt, 0, 12, s, w);
    ghost var v := Swap16(w, 12);
    EtherType(w);
    if hooks.ether < 0 {
      return Rejected;
    }
    assert pkt[0..0 + 6] == pkt[..][0..ETHER_SIZE][..6] == w[..6] == s[..len][..6];
    var mine := SameMac(pkt, 0, me.mac);
    var all := SameMac(pkt, 0, BROADCAST_MAC);
    SameBe(s[..len], w);
    assert mine || all <==> s[..len][..6] in {me.mac, BROADCAST_MAC};
    if !mine && !all {
      return Rejected;
    }
    var ethertype := Read16(pkt, 0, 12, s, v);
    SpliceElsewhere(s, 0, v, ETHER_SIZE, len);
    assert pkt[ETHER_SIZE..len] == pkt[..][ETHER_SIZE..len] == s[..len][ETHER_SIZE..];
    if ethertype == 0x0806 {
      o := Arp(pkt[ETHER_SIZE..len]);
    } else if ethertype == 0x0800 {
      o := IpHandle(me.ip, hooks.ip, pkt, ETHER_SIZE, len - ETHER_SIZE);
    } else {
      o := Rejected;
    }
  }

  lemma EtherType(w: seq<u8>)
    requires |w| == ETHER_SIZE
    ensures Load16(Swap16(w, 12), 12) == FromBe16(w, 12) && Swap16(w, 12)[..6] == w[..6]
  {
  }

  // ----- there and back

  /** The destination address written in front of a packet already in place. */
  lemma FrameInPlace(bytes: seq<u8>, after: seq<u8>, base: nat, mac: Mac, tail: seq<u8>)
    requires base + 6 + |tail| <= |bytes| && bytes[base + 6..base + 6 + |tail|] == tail
    requires after == Splice(bytes, base, mac)
    ensures after[base..base + 6 + |tail|] == mac + tail
  {
    SpliceElsewhere(bytes, base, mac, base + 6, base + 6 + |tail|);
    assert after[base..base + 6 + |tail|] == after[base..base + 6] + after[base + 6..base + 6 + |tail|];
  }

  lemma FrameParts(to: Mac, from: Host, dst: u32, content: seq<u8>, padding: seq<u8>)
    requires |content| + IP_SIZE <= MTU
    ensures to + Tail(from, dst, UDP_PROTOCOL, content) + padding
         == to + from.mac + [8, 0] + (IpHeader(from.ip, dst, UDP_PROTOCOL, |content|) + content + padding)
  {
    hide IpHeader;
  }

  /**
   Whatever is sent comes back: the frame of a datagram, built in one host's buffers and received with any padding
   behind it in the buffer of the addressed host, or of a host reached by broadcast, is accepted there and delivers
   the sender's address, both ports and exactly the payload.
   */
  method RoundTrip(me: Host, to: Mac, from: Host, dst: u32, sport: u16, dport: u16, payload: seq<u8>, padding: seq<u8>,
                   hooks: Hooks)
      returns (o: Outcome)
    requires |payload| + UDP_SIZE + IP_SIZE <= MTU
    requires to in {me.mac, BROADCAST_MAC} && dst in {me.ip, BROADCAST_IP} && hooks.ether >= 0 && hooks.ip >= 0
    ensures o == Udp(from.ip, dst, sport, dport, |payload| + UDP_SIZE, payload)
  {
    hide Splice, Tail, Segment, EtherDecode, IpDecode, UdpDecode, IpHeader;
    var segment, sendbuf := new u8[MTU + 64], new u8[MTU + 64];
    BuildSegment(from, segment, dst, dport, sport, payload, |payload|);
    ghost var content := segment[..|payload| + UDP_SIZE];
    assert payload[..|payload|] == payload;
    var r := BuildPacket(from, sendbuf, 0, dst, UDP_PROTOCOL, segment[..|payload| + UDP_SIZE], |payload| + UDP_SIZE);
    assert content[..|payload| + UDP_SIZE] == content;
    ghost var (b, tail) := (sendbuf[..], Tail(from, dst, UDP_PROTOCOL, content));
    Copy(sendbuf, 0, to);
    FrameInPlace(b, sendbuf[..], 0, to, tail);
    var len := |payload| + UDP_SIZE + IP_SIZE + ETHER_SIZE;
    assert sendbuf[..len] == sendbuf[..][0..0 + 6 + |tail|] == to + tail;
    var recvbuf := new u8[len + |padding|];
    Copy(recvbuf, 0, sendbuf[..len] + padding);
    assert recvbuf[..recvbuf.Length] == recvbuf[..][0..0 + recvbuf.Length] == to + tail + padding;
    o := EtherHandle(me, hooks, recvbuf, recvbuf.Length);
    FrameParts(to, from, dst, content, padding);
    EtherRoundTrip(me, hooks, to, from.mac, IpHeader(from.ip, dst, UDP_PROTOCOL, |content|) + content + padding);
    IpRoundTrip(me.ip, hooks.ip, from.ip, dst, content, padding);
    SegmentRoundTrip(from.ip, dst, sport, dport, payload);
  }
}
