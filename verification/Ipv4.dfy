/**
 The IPv4 header codec of listener/canary/ipv4/ipv4.go, with the byte order of Linux.
 */
module Ipv4 {
  import opened Words
  import opened Checksum

  /** Src and Dst are net.IP values: of any length, four and sixteen octets meaning something. */
  datatype Header = Header(
    version: int, len: int, tos: int, totalLen: int, id: int, flags: int, fragOff: int,
    ttl: int, protocol: int, checksum: int, src: seq<byte>, dst: seq<byte>,
    options: seq<byte>, payload: seq<byte>)

  datatype Status = Ok | HeaderTooShort | BufferTooShort | MissingAddress | Panicked

  /** net.IPv4: an address in its sixteen octet form. */
  function Mapped(a: Address): seq<byte> {
    [0, 0, 0, 0, 0, 0, 0, 0, 0, 0, 0xff, 0xff] + a
  }

  /** To4; the empty sequence stands for nil. */
  function To4(ip: seq<byte>): (a: seq<byte>)
    ensures |a| == 4 || a == []
  {
    if |ip| == 4 then ip
    else if |ip| == 16 && ip[..12] == [0, 0, 0, 0, 0, 0, 0, 0, 0, 0, 0xff, 0xff] then ip[12..]
    else []
  }

  lemma To4OfMapped(a: Address)
    ensures To4(Mapped(a)) == a
  {
    assert Mapped(a)[..12] == [0, 0, 0, 0, 0, 0, 0, 0, 0, 0, 0xff, 0xff];
  }

  function Octet(v: int): byte {
    v % 0x100
  }

  function Short(v: int): u16 {
    v % 0x1_0000
  }

  /** `4 << 4 | hdrlen >> 2 & 15` */
  function VersionByte(optionLength: nat): byte {
    64 + (20 + optionLength) / 4 % 16
  }

  /** `FragOff & 0x1fff | Flags << 13`, as uint16; the two parts share no bit. */
  function Fragment(flags: int, fragOff: int): u16 {
    flags % 8 * 0x2000 + fragOff % 0x2000
  }

  /** The fields packed in byte 0 and in bytes 6 and 7. */
  function VersionIn(b: byte): byte {
    b / 16
  }

  function LengthIn(b: byte): byte {
    b % 16 * 4
  }

  function FlagsIn(w: u16): u16 {
    w / 0x2000
  }

  function FragOffIn(w: u16): u16 {
    w % 0x2000
  }

  function SrcBytes(h: Header): (a: seq<byte>)
    ensures |a| == 4
  {
    if To4(h.src) == [] then [0, 0, 0, 0] else To4(h.src)
  }

  function FieldBytes(h: Header): (b: seq<byte>)
    ensures |b| == 12
  {
    [ VersionByte(|h.options|), Octet(h.tos),
      Hi(Short(h.totalLen)), Lo(Short(h.totalLen)),
      Hi(Short(h.id)), Lo(Short(h.id)),
      Hi(Fragment(h.flags, h.fragOff)), Lo(Fragment(h.flags, h.fragOff)),
      Octet(h.ttl), Octet(h.protocol),
      Hi(Short(h.checksum)), Lo(Short(h.checksum)) ]
  }

  function HeaderBytes(h: Header): (b: seq<byte>)
    requires To4(h.dst) != []
    ensures |b| == 20 + |h.options|
  {
    FieldBytes(h) + SrcBytes(h) + To4(h.dst) + h.options
  }

  /** Marshal, which writes the header field by field into a buffer. */
  method Marshal(h: Header) returns (b: array<byte>, status: Status)
    ensures fresh(b)
    ensures status == if h.len < 20 then HeaderTooShort
                      else if To4(h.dst) == [] then MissingAddress else Ok
    ensures status == Ok ==> b[..] == HeaderBytes(h)
  {
    if h.len < 20 {
      b := new byte[0];
      return b, HeaderTooShort;
    }
    b := new byte[20 + |h.options|](_ => 0);
    PutFields(b, h);
    assert b[12..16] == [0, 0, 0, 0];
    if To4(h.src) != [] {
      CopyInto(b, 12, To4(h.src));
    }
    assert b[..16] == FieldBytes(h) + SrcBytes(h);
    if To4(h.dst) == [] {
      return b, MissingAddress;
    }
    CopyInto(b, 16, To4(h.dst));
    CopyInto(b, 20, h.options);
    status := Ok;
  }

  method PutFields(b: array<byte>, h: Header)
    requires b.Length >= 20
    modifies b
    ensures b[..12] == FieldBytes(h)
    ensures forall i :: 12 <= i < b.Length ==> b[i] == old(b[i])
  {
    b[0] := VersionByte(|h.options|);
    b[1] := Octet(h.tos);
    PutUint16(b, 2, Short(h.totalLen));
    PutUint16(b, 6, Fragment(h.flags, h.fragOff));
    PutUint16(b, 4, Short(h.id));
    b[8] := Octet(h.ttl);
    b[9] := Octet(h.protocol);
    PutUint16(b, 10, Short(h.checksum));
  }

  const BLANK: Header := Header(0, 0, 0, 0, 0, 0, 0, 0, 0, 0, [], [], [], [])

  function FieldsOf(b: seq<byte>): Header
    requires 20 <= |b| && LengthIn(b[0]) <= |b|
  {
    var hdrlen := LengthIn(b[0]);
    Header(
      VersionIn(b[0]), hdrlen, b[1], Get16(b, 2), Get16(b, 4),
      FlagsIn(Get16(b, 6)), FragOffIn(Get16(b, 6)), b[8], b[9], Get16(b, 10),
      Mapped(b[12..16]), Mapped(b[16..20]),
      if hdrlen > 20 then b[20..hdrlen] else [], [])
  }

  /** Unmarshal into a fresh header. */
  function Parsed(b: seq<byte>): (Header, Status) {
    if |b| < 20 then (BLANK, HeaderTooShort)
    else if LengthIn(b[0]) > |b| then (BLANK, BufferTooShort)
    else
      var h := FieldsOf(b);
      if h.totalLen > |b| then (h, BufferTooShort)
      else if h.totalLen < 20 then (h, Panicked)
      else (h.(payload := b[20..h.totalLen]), Ok)
  }

  // ---------------------------------------------------------------- round trip

  /** Headers whose fields fit their place, and that announce the body that follows. */
  predicate Fits(h: Header, src: Address, dst: Address, body: seq<byte>) {
    && h.version == 4 && h.payload == []
    && 0 <= h.tos < 0x100 && 0 <= h.id < 0x1_0000 && 0 <= h.flags < 8 && 0 <= h.fragOff < 0x2000
    && 0 <= h.ttl < 0x100 && 0 <= h.protocol < 0x100 && 0 <= h.checksum < 0x1_0000
    && h.src == Mapped(src) && h.dst == Mapped(dst)
    && |h.options| % 4 == 0 && h.len == 20 + |h.options| <= 60
    && h.totalLen == h.len + |body| < 0x1_0000
  }

  /**
   Every field comes back.  The payload starts at byte 20 whatever the header length, so
   what is reported as payload is the options followed by the body.
   */
  lemma RoundTrip(h: Header, src: Address, dst: Address, body: seq<byte>)
    requires Fits(h, src, dst, body)
    ensures To4(h.dst) == dst
    ensures Parsed(HeaderBytes(h) + body) == (h.(payload := h.options + body), Ok)
  {
    hide VersionByte, Fragment, Octet, Short, VersionIn, LengthIn, FlagsIn, FragOffIn, Get16, FieldBytes;
    To4OfMapped(src);
    To4OfMapped(dst);
    var b := HeaderBytes(h) + body;
    Parts(FieldBytes(h), src, dst, h.options, body);
    FieldsParse(h, b);
    PackedFieldsParse(|h.options|, h.flags, h.fragOff);
    PlainFieldsParse(h, src, dst, body);
    assert FieldsOf(b) == h;
  }

  /** Where each field is: section 3.1 of RFC 791. */
  lemma Layout(h: Header, src: Address, dst: Address, body: seq<byte>)
    requires Fits(h, src, dst, body)
    ensures To4(h.dst) == dst
    ensures var b := HeaderBytes(h) + body;
            && b[0] == 0x40 + h.len / 4 && b[1] == h.tos && Get16(b, 2) == h.totalLen
            && Get16(b, 4) == h.id && Get16(b, 6) == h.flags * 0x2000 + h.fragOff
            && b[8] == h.ttl && b[9] == h.protocol && Get16(b, 10) == h.checksum
            && b[12..16] == src && b[16..20] == dst && b[20..h.len] == h.options && b[h.len..] == body
  {
    hide Fragment, VersionByte, Octet, Short, FieldBytes, Get16;
    To4OfMapped(src);
    To4OfMapped(dst);
    var b := HeaderBytes(h) + body;
    Parts(FieldBytes(h), src, dst, h.options, body);
    PlainFieldsParse(h, src, dst, body);
    FieldsParse(h, b);
    PackedBytes(|h.options|, h.flags, h.fragOff);
    assert b == FieldBytes(h) + src + dst + h.options + body;
  }

  lemma PlainVersion(h: Header)
    requires h.options == [] && To4(h.dst) != []
    ensures HeaderBytes(h)[0] == 0x45
  {
    hide Hi, Lo, Fragment, Octet, Short, VersionByte;
    assert HeaderBytes(h)[0] == FieldBytes(h)[0] == VersionByte(0);
    PackedBytes(0, 0, 0);
  }

  lemma PackedBytes(optionLength: nat, flags: int, fragOff: int)
    requires optionLength % 4 == 0 && optionLength <= 40 && 0 <= flags < 8 && 0 <= fragOff < 0x2000
    ensures VersionByte(optionLength) == 0x40 + (20 + optionLength) / 4
    ensures Fragment(flags, fragOff) == flags * 0x2000 + fragOff
  {
  }

  lemma PlainFieldsParse(h: Header, src: Address, dst: Address, body: seq<byte>)
    requires Fits(h, src, dst, body)
    ensures Octet(h.tos) == h.tos && Octet(h.ttl) == h.ttl && Octet(h.protocol) == h.protocol
    ensures Short(h.totalLen) == h.totalLen && Short(h.id) == h.id && Short(h.checksum) == h.checksum
  {
  }

  lemma Parts(f: seq<byte>, src: Address, dst: Address, options: seq<byte>, body: seq<byte>)
    requires |f| == 12
    ensures var b := f + src + dst + options + body;
            && b[..12] == f && b[12..16] == src && b[16..20] == dst
            && b[20..20 + |options|] == options
            && b[20..20 + |options| + |body|] == options + body
  {
  }

  /** So the body itself comes back exactly for the headers without options. */
  lemma PayloadExactlyWithoutOptions(h: Header, src: Address, dst: Address, body: seq<byte>)
    requires Fits(h, src, dst, body)
    ensures To4(h.dst) == dst
    ensures Parsed(HeaderBytes(h) + body).0.payload == body <==> h.options == []
  {
    RoundTrip(h, src, dst, body);
    assert |h.options + body| == |h.options| + |body|;
  }

  /** The place of each field in the first twelve bytes. */
  lemma FieldsParse(h: Header, b: seq<byte>)
    requires |b| >= 20 && b[..12] == FieldBytes(h)
    ensures b[0] == VersionByte(|h.options|)
    ensures b[1] == Octet(h.tos) && b[8] == Octet(h.ttl) && b[9] == Octet(h.protocol)
    ensures Get16(b, 2) == Short(h.totalLen) && Get16(b, 4) == Short(h.id)
    ensures Get16(b, 6) == Fragment(h.flags, h.fragOff) && Get16(b, 10) == Short(h.checksum)
  {
    assert forall i :: 0 <= i < 12 ==> b[i] == b[..12][i];
    WordParses(b, 2, Short(h.totalLen));
    WordParses(b, 4, Short(h.id));
    WordParses(b, 6, Fragment(h.flags, h.fragOff));
    WordParses(b, 10, Short(h.checksum));
  }

  lemma PackedFieldsParse(optionLength: nat, flags: int, fragOff: int)
    requires optionLength % 4 == 0 && optionLength <= 40 && 0 <= flags < 8 && 0 <= fragOff < 0x2000
    ensures VersionIn(VersionByte(optionLength)) == 4
    ensures LengthIn(VersionByte(optionLength)) == 20 + optionLength
    ensures FlagsIn(Fragment(flags, fragOff)) == flags && FragOffIn(Fragment(flags, fragOff)) == fragOff
  {
    hide Fragment, FlagsIn, FragOffIn;
    FragmentParses(flags, fragOff);
  }

  lemma FragmentParses(flags: int, fragOff: int)
    requires 0 <= flags < 8 && 0 <= fragOff < 0x2000
    ensures FlagsIn(Fragment(flags, fragOff)) == flags && FragOffIn(Fragment(flags, fragOff)) == fragOff
  {
    assert Fragment(flags, fragOff) == flags * 0x2000 + fragOff;
  }
}
