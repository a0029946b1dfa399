/**
 Outgoing frames: send of listener/canary/canary_linux.go builds a TCP segment, an IPv4
 header and an Ethernet header around it, and fills in the two checksums in place.
 */
module Frames {
  import opened Words
  import opened Checksum
  import opened Connection
  import TcpHeader
  import Ipv4
  import Ethernet

  /** The endpoints of a connection, and the link layer addresses that reach the peer. */
  datatype Route = Route(
    localIp: Address, localPort: u16, peerIp: Address, peerPort: u16,
    localMac: Ethernet.HardwareAddr, peerMac: Ethernet.HardwareAddr)

  const RECEIVE_WINDOW: u16 := 65535

  function TcpFields(r: Route, e: Emission): TcpHeader.Fields {
    TcpHeader.BLANK.(
      source := r.localPort, destination := r.peerPort, seqNum := e.seqNum, ackNum := e.ackNum,
      ctrl := e.flags.Ctrl(), window := RECEIVE_WINDOW, payload := e.payload)
  }

  /** The whole frame fits its two-byte length prefix. */
  predicate Fits(e: Emission) {
    14 + 20 + 20 + |e.payload| < 0x1_0000
  }

  function IpHeader(r: Route, id: u32, length: nat): Ipv4.Header {
    Ipv4.BLANK.(
      version := 4, len := 20, ttl := 128, protocol := 6, id := id, totalLen := 20 + length,
      src := Ipv4.Mapped(r.localIp), dst := Ipv4.Mapped(r.peerIp))
  }

  function SegmentBytes(r: Route, e: Emission): (s: seq<byte>)
    ensures |s| == 20 + |e.payload|
  {
    TcpHeader.PlainSize(TcpFields(r, e));
    var s := TcpHeader.Encoded(TcpFields(r, e));
    WithField(s, 16, SenderChecksum(s, r.localIp, r.peerIp))
  }

  function IpBytes(r: Route, id: u32, length: nat): (b: seq<byte>)
    ensures |b| == 20
  {
    Ipv4.To4OfMapped(r.peerIp);
    var b := Ipv4.HeaderBytes(IpHeader(r, id, length));
    WithField(b, 10, IpChecksum(b))
  }

  function FrameBytes(r: Route, id: u32, e: Emission): seq<byte> {
    var segment := SegmentBytes(r, e);
    Ethernet.HeaderBytes(Ethernet.Frame(r.localMac, r.peerMac, 0x0800, [])) +
    (IpBytes(r, id, |segment|) + segment)
  }

  /** send, up to the point where the frame is queued. */
  method Send(r: Route, id: u32, e: Emission) returns (frame: seq<byte>)
    ensures frame == FrameBytes(r, id, e)
  {
    var th := new TcpHeader.Header(TcpFields(r, e));
    TcpHeader.MarshalledIsEncoded(TcpFields(r, e));
    var data1 := th.Marshal();
    ghost var plain := data1[..];
    var iph := IpHeader(r, id, data1.Length);
    Ipv4.To4OfMapped(r.peerIp);
    var header, status := Ipv4.Marshal(iph);
    UpdateTcpChecksum(r.localIp, r.peerIp, data1);
    assert data1[..] == SegmentBytes(r, e);
    var whole := header[..] + data1[..];
    var data := new byte[|whole|](i requires 0 <= i < |whole| => whole[i]);
    assert data[..] == whole;
    UpdateIpChecksum(data);
    FieldInPrefix(header[..], data1[..], 10, IpChecksum(header[..]));
    var data2 := Ethernet.Marshal(Ethernet.Frame(r.localMac, r.peerMac, 0x0800, []));
    frame := data2[..] + data[..];
  }

  lemma FieldInPrefix(a: seq<byte>, b: seq<byte>, at: nat, c: u16)
    requires at + 2 <= |a|
    ensures WithField(a + b, at, c) == WithField(a, at, c) + b
    ensures (a + b)[..|a|] == a
  {
  }

  // ---------------------------------------------------------------- what a receiver sees

  lemma FirstByte(r: Route, id: u32, length: nat)
    ensures Ipv4.To4(IpHeader(r, id, length).dst) != []
    ensures Ipv4.HeaderBytes(IpHeader(r, id, length))[0] == 0x45
  {
    hide Hi, Lo, Ipv4.Fragment, Ipv4.Octet, Ipv4.Short, Ipv4.VersionByte, Ipv4.HeaderBytes;
    Ipv4.To4OfMapped(r.peerIp);
    Ipv4.PlainVersion(IpHeader(r, id, length));
  }

  lemma IpBytesParse(r: Route, id: u32, body: seq<byte>)
    requires 20 + |body| < 0x1_0000
    ensures var (h, status) := Ipv4.Parsed(IpBytes(r, id, |body|) + body);
            && status == Ipv4.Ok
            && h.src == Ipv4.Mapped(r.localIp) && h.dst == Ipv4.Mapped(r.peerIp)
            && h.protocol == 6 && h.ttl == 128 && h.id == id % 0x1_0000
            && h.payload == body
    ensures OcSum(WordsOf(IpBytes(r, id, |body|))) == 0xffff
  {
    hide Ipv4.Parsed, Ipv4.HeaderBytes, IpChecksum, OcSum, WordsOf;
    var h := IpHeader(r, id, |body|);
    Ipv4.To4OfMapped(r.peerIp);
    var b := Ipv4.HeaderBytes(h);
    FirstByte(r, id, |body|);
    var sealed := h.(id := id % 0x1_0000, checksum := IpChecksum(b));
    SealedBytes(h, IpChecksum(b));
    Ipv4.RoundTrip(sealed, r.localIp, r.peerIp, body);
    assert sealed.options + body == body;
    IpChecksumSound(b);
  }

  lemma SameShorts(id: int, c: u16)
    ensures Ipv4.Short(id % 0x1_0000) == Ipv4.Short(id) && Ipv4.Short(c) == c
  {
  }

  lemma SealedBytes(h: Ipv4.Header, c: u16)
    requires Ipv4.To4(h.dst) != [] && h.checksum == 0
    ensures Ipv4.HeaderBytes(h.(id := h.id % 0x1_0000, checksum := c)) ==
            WithField(Ipv4.HeaderBytes(h), 10, c)
  {
    hide Hi, Lo, Ipv4.VersionByte, Ipv4.Octet, Ipv4.Fragment, Ipv4.Short;
    var sealed := h.(id := h.id % 0x1_0000, checksum := c);
    SameShorts(h.id, c);
    assert Ipv4.FieldBytes(sealed) == WithField(Ipv4.FieldBytes(h), 10, c);
    FieldInPrefix(Ipv4.FieldBytes(h), Ipv4.SrcBytes(h) + Ipv4.To4(h.dst) + h.options, 10, c);
    assert Ipv4.HeaderBytes(h) ==
           Ipv4.FieldBytes(h) + (Ipv4.SrcBytes(h) + Ipv4.To4(h.dst) + h.options);
  }

  lemma SegmentParses(r: Route, e: Emission)
    requires Fits(e)
    ensures var s := SegmentBytes(r, e);
            TcpHeader.Received(s, r.peerIp, r.localIp) ==
            (TcpFields(r, e).(dataOffset := 5, checksum := Get16(s, 16)), TcpHeader.Ok)
  {
    hide TcpHeader.Parsed, TcpHeader.Encoded, TcpHeader.Received, TcpChecksum, SenderChecksum;
    var h := TcpFields(r, e);
    var plain := TcpHeader.Encoded(h);
    TcpHeader.PlainRoundTrip(h);
    TcpChecksumSymmetric(plain, r.localIp, r.peerIp);
    SenderChecksumIsTcpChecksum(plain, r.localIp, r.peerIp);
    TcpHeader.SealedIsAccepted(plain, r.peerIp, r.localIp);
    WordParses(SegmentBytes(r, e), 16, TcpChecksum(plain, r.localIp, r.peerIp));
  }

  /** The flags as they are on the wire. */
  lemma FlagsSent(r: Route, e: Emission)
    ensures SegmentBytes(r, e)[13] ==
            match e.flags case SynAck => 0x12 case JustAck => 0x10 case FinAck => 0x11 case PushAck => 0x18
  {
    var h := TcpFields(r, e);
    TcpHeader.FlagByteIsSum(0, e.flags.Ctrl());
    assert TcpHeader.Encoded(h)[13] == TcpHeader.FixedBytes(h)[13];
  }

  /** What the peer's handleTCP makes of a segment: the numbers, the payload and just the flags that were meant. */
  lemma EmissionArrives(r: Route, e: Emission)
    requires Fits(e)
    ensures SegmentOf(TcpHeader.Received(SegmentBytes(r, e), r.peerIp, r.localIp).0) ==
            Segment(e.seqNum, e.ackNum, e.flags.FinAck?, e.flags.SynAck?, false, true, e.payload)
  {
    hide SegmentBytes, TcpHeader.Received;
    SegmentParses(r, e);
  }

  /**
   End to end: the receiver's Ethernet, IPv4 and TCP parsers recover from a queued frame
   the endpoints, the sequence and acknowledgement numbers, the flags and the payload, and
   both checksums hold; the TCP one also with the two addresses swapped, as handleTCP does.
   */
  lemma FrameParses(r: Route, id: u32, e: Emission)
    requires Fits(e)
    ensures var frame := Ethernet.Parsed(FrameBytes(r, id, e));
            var (ip, status) := Ipv4.Parsed(frame.payload);
            && frame.source == r.localMac && frame.destination == r.peerMac && frame.kind == 0x0800
            && status == Ipv4.Ok && ip.protocol == 6 && ip.ttl == 128 && ip.id == id % 0x1_0000
            && ip.src == Ipv4.Mapped(r.localIp) && ip.dst == Ipv4.Mapped(r.peerIp)
            && OcSum(WordsOf(frame.payload[..20])) == 0xffff
            && SegmentSized(ip.payload)
            && var (tcp, ok) := TcpHeader.Received(ip.payload, r.peerIp, r.localIp);
               && ok == TcpHeader.Ok
               && tcp.source == r.localPort && tcp.destination == r.peerPort
               && tcp.seqNum == e.seqNum && tcp.ackNum == e.ackNum
               && tcp.ctrl == e.flags.Ctrl() && tcp.window == 65535
               && tcp.options == [] && tcp.payload == e.payload
  {
    var segment := SegmentBytes(r, e);
    var packet := IpBytes(r, id, |segment|) + segment;
    Ethernet.RoundTrip(Ethernet.Frame(r.localMac, r.peerMac, 0x0800, packet));
    IpBytesParse(r, id, segment);
    assert packet[..20] == IpBytes(r, id, |segment|);
    SegmentParses(r, e);
  }
}
