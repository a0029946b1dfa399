/**
 The TCP header codec of listener/canary/tcp/tcp.go: Marshal, Unmarshal and
 UnmarshalWithChecksum, over the header layout of section 3.1 of RFC 793.
 */
module TcpHeader {
  import opened Words
  import opened Checksum

  const FIN: byte := 1
  const SYN: byte := 2
  const RST: byte := 4
  const PSH: byte := 8
  const ACK: byte := 16

  const END_LIST: byte := 0
  const NOP: byte := 1

  datatype Option = Option(kind: byte, length: byte, data: seq<byte>)

  datatype Fields = Fields(
    source: u16, destination: u16, seqNum: u32, ackNum: u32,
    dataOffset: byte, reserved: byte, ecn: byte, ctrl: byte,
    window: u16, checksum: u16, urgent: u16,
    options: seq<Option>, padding: seq<byte>, payload: seq<byte>)

  const BLANK: Fields := Fields(0, 0, 0, 0, 0, 0, 0, 0, 0, 0, 0, [], [], [])

  /** Panicked stands for the runtime panic of an index out of range. */
  datatype Status =
    | Ok
    | DataOffsetTooSmall
    | DataOffsetTooLarge
    | OptionTooShort
    | OptionTooLong
    | InvalidChecksum
    | Panicked

  /** HasFlag, for a flag that is a single bit. */
  predicate HasFlag(ctrl: byte, flag: byte)
    requires flag > 0
  {
    ctrl / flag % 2 == 1
  }

  // ---------------------------------------------------------------- layout

  function OptionSize(o: Option): nat {
    if o.kind <= NOP then 1 else 2 + |o.data|
  }

  function OptionsSize(os: seq<Option>): nat {
    if os == [] then 0 else OptionSize(os[0]) + OptionsSize(os[1..])
  }

  function OptionBytes(o: Option): (b: seq<byte>)
    ensures |b| == OptionSize(o)
  {
    if o.kind <= NOP then [o.kind] else [o.kind, (|o.data| + 2) % 0x100] + o.data
  }

  function OptionsBytes(os: seq<Option>): (b: seq<byte>)
    ensures |b| == OptionsSize(os)
  {
    if os == [] then [] else OptionBytes(os[0]) + OptionsBytes(os[1..])
  }

  function Zeros(n: nat): seq<byte> {
    seq(n, _ => 0)
  }

  /** Padding as Marshal leaves it: replaced when the options do not end on a word. */
  function PaddingOf(h: Fields): seq<byte> {
    var rem := OptionsSize(h.options) % 4;
    if rem != 0 then Zeros(4 - rem) else h.padding
  }

  function DataOffsetOf(h: Fields): byte {
    (20 + OptionsSize(h.options) + |PaddingOf(h)|) / 4 % 0x100
  }

  /** Byte 12, `DataOffset << 4`, and byte 13, `ECN << 6 | Ctrl`, as uint8. */
  function OffsetByte(dataOffset: byte): byte {
    dataOffset as int * 16 % 0x100
  }

  function FlagByte(ecn: byte, ctrl: byte): byte {
    assert Pow2(8) == 0x100 by { assert Pow2(4) == 16; }
    BitOrBound(ecn as int * 64 % 0x100, ctrl, 8);
    BitOr(ecn as int * 64 % 0x100, ctrl)
  }

  /** The fields packed in bytes 12 and 13. */
  function OffsetIn(b: byte): byte {
    b / 16
  }

  function EcnIn(b: byte): byte {
    b / 64
  }

  function CtrlIn(b: byte): byte {
    b % 64
  }

  /** The 20 fixed bytes; the checksum field is left zero. */
  function FixedBytes(h: Fields): (b: seq<byte>)
    ensures |b| == 20
  {
    [ Hi(h.source), Lo(h.source), Hi(h.destination), Lo(h.destination),
      Hi(Hi16(h.seqNum)), Lo(Hi16(h.seqNum)), Hi(Lo16(h.seqNum)), Lo(Lo16(h.seqNum)),
      Hi(Hi16(h.ackNum)), Lo(Hi16(h.ackNum)), Hi(Lo16(h.ackNum)), Lo(Lo16(h.ackNum)),
      OffsetByte(DataOffsetOf(h)), FlagByte(h.ecn, h.ctrl),
      Hi(h.window), Lo(h.window), 0, 0, Hi(h.urgent), Lo(h.urgent) ]
  }

  function HeaderBytes(h: Fields): seq<byte> {
    FixedBytes(h) + OptionsBytes(h.options) + PaddingOf(h)
  }

  function Encoded(h: Fields): seq<byte> {
    HeaderBytes(h) + h.payload
  }

  /** The header as Marshal leaves it. */
  function LaidOut(h: Fields): Fields {
    h.(padding := PaddingOf(h), dataOffset := DataOffsetOf(h))
  }

  /** How far Marshal moves on after an option: by the length octet, which is a uint8. */
  function Step(o: Option): (n: nat)
    ensures n <= OptionSize(o)
  {
    if o.kind <= NOP then 1 else (|o.data| + 2) % 0x100
  }

  function Advance(os: seq<Option>): (n: nat)
    ensures n <= OptionsSize(os)
  {
    if os == [] then 0 else Step(os[0]) + Advance(os[1..])
  }

  /** The buffer s after writing the options from offset `at` on. */
  function Overlay(s: seq<byte>, at: nat, os: seq<Option>): (r: seq<byte>)
    requires at + OptionsSize(os) <= |s|
    ensures |r| == |s|
    decreases |os|
  {
    if os == [] then s
    else Overlay(Spliced(s, at, OptionBytes(os[0])), at + Step(os[0]), os[1..])
  }

  function Written(s: seq<byte>, os: seq<Option>, padding: seq<byte>): seq<byte>
    requires 20 + OptionsSize(os) + |padding| <= |s|
  {
    Spliced(Overlay(s, 20, os), 20 + Advance(os), padding)
  }

  /** The buffer before the options are written. */
  function Blank(h: Fields): seq<byte> {
    FixedBytes(h) + Zeros(OptionsSize(h.options) + |PaddingOf(h)|) + h.payload
  }

  /** What Marshal returns, for every header. */
  function Marshalled(h: Fields): seq<byte> {
    Written(Blank(h), h.options, PaddingOf(h))
  }

  lemma LaidOutMarshalsTheSame(h: Fields)
    ensures Marshalled(LaidOut(h)) == Marshalled(h)
    ensures PaddingOf(LaidOut(h)) == PaddingOf(h)
    ensures DataOffsetOf(LaidOut(h)) == DataOffsetOf(h)
  {
    assert FixedBytes(LaidOut(h)) == FixedBytes(h);
  }

  /** No length octet wraps around. */
  predicate LengthsFit(os: seq<Option>) {
    forall o :: o in os ==> |o.data| <= 253
  }

  lemma {:induction false} OverlayIsConcatenation(s: seq<byte>, at: nat, os: seq<Option>)
    requires at + OptionsSize(os) <= |s| && LengthsFit(os)
    ensures Advance(os) == OptionsSize(os)
    ensures Overlay(s, at, os) == Spliced(s, at, OptionsBytes(os))
    decreases |os|
  {
    hide OptionBytes, OptionSize, Step, Spliced;
    if os == [] {
      SplicedNothing(s, at);
    } else {
      assert os[0] in os;
      StepFits(os[0]);
      var b, rest := OptionBytes(os[0]), os[1..];
      OverlayIsConcatenation(Spliced(s, at, b), at + |b|, rest);
      SplicedTwice(s, at, b, OptionsBytes(rest));
    }
  }

  lemma StepFits(o: Option)
    requires |o.data| <= 253
    ensures Step(o) == OptionSize(o)
  {
  }

  lemma SplicedNothing(s: seq<byte>, at: nat)
    requires at <= |s|
    ensures Spliced(s, at, []) == s
  {
  }

  /** As long as no length octet wraps, the parts of the header follow one another. */
  lemma MarshalledIsEncoded(h: Fields)
    requires LengthsFit(h.options)
    ensures Marshalled(h) == Encoded(h)
  {
    var s, b, p := Blank(h), OptionsBytes(h.options), PaddingOf(h);
    OverlayIsConcatenation(s, 20, h.options);
    SplicedTwice(s, 20, b, p);
    assert s[..20] == FixedBytes(h);
    assert s[20 + |b + p|..] == h.payload;
    assert Encoded(h) == FixedBytes(h) + (b + p) + h.payload;
  }

  // ---------------------------------------------------------------- parsing

  datatype Walk = Walk(list: seq<Option>, padding: seq<byte>, status: Status)

  /** The option walk; `keep` is the padding the header had before. */
  function ParseOptions(area: seq<byte>, keep: seq<byte>): Walk {
    if area == [] then Walk([], keep, Ok)
    else if area[0] == END_LIST then Walk([Option(END_LIST, 1, [])], area[1..], Ok)
    else if area[0] == NOP then Prepend(Option(NOP, 1, []), ParseOptions(area[1..], keep))
    else if |area| < 2 then Walk([Option(area[0], 0, [])], keep, Panicked)
    else if area[1] < 2 then Walk([Option(area[0], area[1], [])], keep, OptionTooShort)
    else if area[1] > |area| then Walk([Option(area[0], area[1], [])], keep, OptionTooLong)
    else Prepend(Option(area[0], area[1], area[2..area[1]]), ParseOptions(area[area[1]..], keep))
  }

  function Prepend(o: Option, p: Walk): Walk {
    p.(list := [o] + p.list)
  }

  function Extend(os: seq<Option>, p: Walk): Walk {
    p.(list := os + p.list)
  }

  lemma ExtendPrepend(os: seq<Option>, o: Option, p: Walk)
    ensures Extend(os, Prepend(o, p)) == Extend(os + [o], p)
  {
    assert os + ([o] + p.list) == os + [o] + p.list;
  }

  function FixedParsed(h: Fields, data: seq<byte>): Fields
    requires |data| >= 20
  {
    h.(
      source := Get16(data, 0), destination := Get16(data, 2),
      seqNum := Get32(data, 4), ackNum := Get32(data, 8),
      dataOffset := OffsetIn(data[12]), ecn := EcnIn(data[13]), ctrl := CtrlIn(data[13]),
      window := Get16(data, 14), checksum := Get16(data, 16), urgent := Get16(data, 18),
      options := [])
  }

  /** The header h after Unmarshal(data), and the status it returns. */
  function Parsed(h: Fields, data: seq<byte>): (Fields, Status)
    requires |data| >= 20
  {
    var fixed := FixedParsed(h, data);
    var dataStart := fixed.dataOffset as int * 4;
    if fixed.dataOffset < 5 then (fixed, DataOffsetTooSmall)
    else if dataStart > |data| then (fixed.(payload := []), DataOffsetTooLarge)
    else
      var p := ParseOptions(data[20..dataStart], h.padding);
      (fixed.(payload := data[dataStart..], options := p.list, padding := p.padding), p.status)
  }

  /** What UnmarshalWithChecksum reports: a wrong sum hides any other complaint. */
  function Received(data: seq<byte>, src: Address, dst: Address): (Fields, Status)
    requires SegmentSized(data)
  {
    var (h, status) := Parsed(BLANK, data);
    if status == Panicked then (h, Panicked)
    else if TcpChecksum(data, src, dst) != h.checksum then (h, InvalidChecksum)
    else (h, status)
  }

  // ---------------------------------------------------------------- round trip

  /** An option as Unmarshal reports it: with its length octet filled in. */
  function NormalOption(o: Option): Option {
    if o.kind <= NOP then Option(o.kind, 1, []) else o.(length := (|o.data| + 2) % 0x100)
  }

  function Normal(os: seq<Option>): seq<Option> {
    if os == [] then [] else [NormalOption(os[0])] + Normal(os[1..])
  }

  predicate Carried(o: Option) {
    o.kind != END_LIST && (o.kind == NOP ==> o.data == [])
  }

  /** The headers that the wire format can carry. */
  predicate Representable(h: Fields) {
    && h.padding == []
    && (forall o :: o in h.options ==> Carried(o))
    && OptionsSize(h.options) <= 40
    && h.ecn < 4 && h.ctrl < 64
  }

  /** What comes back: h itself but for the fields Marshal computes or does not write. */
  function Reread(h: Fields): Fields {
    var pad := |PaddingOf(h)|;
    h.(
      dataOffset := DataOffsetOf(h), reserved := 0, checksum := 0,
      options := Walked(h.options, pad).list, padding := Walked(h.options, pad).padding)
  }

  lemma FlagByteParses(ecn: byte, ctrl: byte)
    ensures EcnIn(FlagByte(ecn, ctrl)) == ecn && CtrlIn(FlagByte(ecn, ctrl)) == ctrl <==>
            ecn < 4 && ctrl < 64
  {
    hide FlagByte;
    if ecn < 4 && ctrl < 64 {
      FlagByteIsSum(ecn, ctrl);
      SixBits(ecn, ctrl);
    }
  }

  lemma FlagByteIsSum(ecn: byte, ctrl: byte)
    requires ecn < 4 && ctrl < 64
    ensures FlagByte(ecn, ctrl) == ecn as int * 64 + ctrl as int
  {
    hide BitOr;
    assert Pow2(6) == 64 by { assert Pow2(3) == 8; }
    BitOrDisjoint(ecn, 6, ctrl);
    assert ecn as int * 64 < 0x100;
  }

  lemma SixBits(e: nat, c: nat)
    requires c < 64
    ensures (e * 64 + c) / 64 == e && (e * 64 + c) % 64 == c
  {
  }

  lemma OneOptionParses(o: Option, rest: seq<byte>)
    requires Carried(o) && |o.data| <= 253
    ensures ParseOptions(OptionBytes(o) + rest, []) == Prepend(NormalOption(o), ParseOptions(rest, []))
  {
    var b := OptionBytes(o);
    var area := b + rest;
    assert area[|b|..] == rest;
    if o.kind > NOP {
      assert area[2..|b|] == o.data;
    }
  }

  /** The list and padding that the walk reports for options followed by zero padding. */
  function Walked(os: seq<Option>, pad: nat): Walk {
    if pad > 0
    then Walk(Normal(os) + [Option(END_LIST, 1, [])], Zeros(pad - 1), Ok)
    else Walk(Normal(os), [], Ok)
  }

  lemma {:induction false} OptionsRoundTrip(os: seq<Option>, pad: nat)
    requires forall o :: o in os ==> Carried(o)
    requires OptionsSize(os) <= 40
    ensures ParseOptions(OptionsBytes(os) + Zeros(pad), []) == Walked(os, pad)
  {
    if os == [] {
      assert OptionsBytes(os) + Zeros(pad) == Zeros(pad);
      if pad > 0 {
        assert Zeros(pad)[1..] == Zeros(pad - 1);
      }
    } else {
      var rest := OptionsBytes(os[1..]) + Zeros(pad);
      assert OptionsBytes(os) + Zeros(pad) == OptionBytes(os[0]) + rest;
      OneOptionParses(os[0], rest);
      OptionsRoundTrip(os[1..], pad);
      assert [NormalOption(os[0])] + Walked(os[1..], pad).list == Walked(os, pad).list;
    }
  }

  /** Options that fit the 40 bytes of a header have lengths that fit their octet. */
  lemma {:induction false} SmallOptionsFit(os: seq<Option>)
    requires OptionsSize(os) <= 40 && forall o :: o in os ==> Carried(o)
    ensures LengthsFit(os)
  {
    if os != [] {
      assert Carried(os[0]);
      SmallOptionsFit(os[1..]);
      assert forall o :: o in os ==> o == os[0] || o in os[1..];
    }
  }

  /** Every representable header that is marshalled is read back, field by field, with its payload. */
  lemma RoundTrip(h: Fields)
    requires Representable(h)
    ensures |Marshalled(h)| >= 20 && Parsed(BLANK, Marshalled(h)) == (Reread(h), Ok)
  {
    hide Marshalled, Encoded, Parsed, Reread;
    SmallOptionsFit(h.options);
    MarshalledIsEncoded(h);
    EncodedRoundTrip(h);
  }

  lemma EncodedRoundTrip(h: Fields)
    requires Representable(h)
    ensures |Encoded(h)| >= 20 && Parsed(BLANK, Encoded(h)) == (Reread(h), Ok)
  {
    var data := Encoded(h);
    EncodedParts(h);
    PortsParse(h, data);
    SequenceParses(h, data);
    FlagsParse(h, data);
    OptionsRoundTrip(h.options, |PaddingOf(h)|);
  }

  lemma PlainSize(h: Fields)
    requires h.options == [] && h.padding == []
    ensures |Encoded(h)| == 20 + |h.payload|
  {
    hide FixedBytes;
    assert OptionsSize(h.options) == 0;
    assert PaddingOf(h) == [];
  }

  /** A header without options comes back as it is. */
  lemma PlainRoundTrip(h: Fields)
    requires Representable(h) && h.options == [] && h.checksum == 0 && h.reserved == 0
    ensures |Encoded(h)| == 20 + |h.payload|
    ensures Parsed(BLANK, Encoded(h)) == (h.(dataOffset := 5), Ok)
  {
    hide Parsed, Encoded;
    EncodedRoundTrip(h);
    EncodedParts(h);
    PlainSize(h);
  }

  lemma EncodedParts(h: Fields)
    requires Representable(h)
    ensures 5 <= DataOffsetOf(h) < 16
    ensures var start := DataOffsetOf(h) as int * 4;
            && |Encoded(h)| == start + |h.payload|
            && Encoded(h)[..20] == FixedBytes(h)
            && Encoded(h)[20..start] == OptionsBytes(h.options) + Zeros(|PaddingOf(h)|)
            && Encoded(h)[start..] == h.payload
  {
    DataOffsetExact(h);
    assert PaddingOf(h) == Zeros(|PaddingOf(h)|);
    Concat4(FixedBytes(h), OptionsBytes(h.options), PaddingOf(h), h.payload);
  }

  lemma DataOffsetExact(h: Fields)
    requires Representable(h)
    ensures DataOffsetOf(h) as int * 4 == 20 + OptionsSize(h.options) + |PaddingOf(h)| <= 60
  {
    hide OptionsSize;
    var n := OptionsSize(h.options);
    PaddedToWords(n, n / 4, n % 4);
  }

  lemma PaddedToWords(n: nat, q: nat, rem: nat)
    requires n == 4 * q + rem && rem < 4 && n <= 40
    ensures var all := 20 + n + if rem != 0 then 4 - rem else 0;
            all <= 60 && all / 4 % 0x100 * 4 == all
  {
    var words := 5 + q + if rem != 0 then 1 else 0;
    assert 20 + n + (if rem != 0 then 4 - rem else 0) == 4 * words;
  }

  lemma Concat4(a: seq<byte>, b: seq<byte>, c: seq<byte>, d: seq<byte>)
    ensures var s := a + b + c + d;
            && s[..|a|] == a
            && s[|a|..|a| + |b| + |c|] == b + c
            && s[|a| + |b| + |c|..] == d
  {
  }

  lemma SequenceParses(h: Fields, data: seq<byte>)
    requires |data| >= 20 && data[..20] == FixedBytes(h)
    ensures Get32(data, 4) == h.seqNum && Get32(data, 8) == h.ackNum
  {
    var b := FixedBytes(h);
    assert forall i :: 4 <= i < 12 ==> data[i] == data[..20][i] == b[i];
    LongParses(data, 4, h.seqNum);
    LongParses(data, 8, h.ackNum);
  }

  lemma PortsParse(h: Fields, data: seq<byte>)
    requires |data| >= 20 && data[..20] == FixedBytes(h)
    ensures Get16(data, 0) == h.source && Get16(data, 2) == h.destination
    ensures Get16(data, 14) == h.window && Get16(data, 16) == 0 && Get16(data, 18) == h.urgent
  {
    hide Hi, Lo, OffsetByte, FlagByte, DataOffsetOf, Get16;
    var b := FixedBytes(h);
    assert forall i :: 0 <= i < 4 ==> data[i] == data[..20][i] == b[i];
    assert forall i :: 14 <= i < 20 ==> data[i] == data[..20][i] == b[i];
    WordParses(data, 0, h.source);
    WordParses(data, 2, h.destination);
    WordParses(data, 14, h.window);
    NullWord();
    WordParses(data, 16, 0);
    WordParses(data, 18, h.urgent);
  }

  lemma NullWord()
    ensures Hi(0) == 0 && Lo(0) == 0
  {
  }

  lemma FlagsParse(h: Fields, data: seq<byte>)
    requires h.ecn < 4 && h.ctrl < 64 && DataOffsetOf(h) < 16
    requires |data| >= 20 && data[..20] == FixedBytes(h)
    ensures OffsetIn(data[12]) == DataOffsetOf(h)
    ensures EcnIn(data[13]) == h.ecn && CtrlIn(data[13]) == h.ctrl
  {
    assert data[12] == data[..20][12] && data[13] == data[..20][13];
    FlagByteParses(h.ecn, h.ctrl);
  }

  lemma NormalKeepsOption(o: Option)
    ensures OptionBytes(NormalOption(o)) == OptionBytes(o) && OptionSize(NormalOption(o)) == OptionSize(o)
  {
  }

  lemma {:induction false} NormalKeepsBytes(os: seq<Option>, tail: seq<Option>)
    ensures OptionsBytes(Normal(os) + tail) == OptionsBytes(os) + OptionsBytes(tail)
    ensures OptionsSize(Normal(os) + tail) == OptionsSize(os) + OptionsSize(tail)
  {
    hide OptionBytes, OptionSize, NormalOption;
    if os == [] {
      assert Normal(os) + tail == tail;
    } else {
      NormalKeepsOption(os[0]);
      assert (Normal(os) + tail)[1..] == Normal(os[1..]) + tail;
      NormalKeepsBytes(os[1..], tail);
    }
  }

  lemma {:induction false} NormalLengthsFit(os: seq<Option>)
    requires LengthsFit(os)
    ensures LengthsFit(Normal(os))
  {
    if os != [] {
      assert os[0] in os;
      NormalLengthsFit(os[1..]);
    }
  }

  /** Marshalling what was read gives the same bytes again. */
  lemma Stable(h: Fields)
    requires Representable(h)
    ensures Marshalled(Reread(h)) == Marshalled(h)
  {
    hide Marshalled, Encoded;
    SmallOptionsFit(h.options);
    MarshalledIsEncoded(h);
    NormalLengthsFit(h.options);
    MarshalledIsEncoded(Reread(h));
    EncodedStable(h);
  }

  lemma EncodedStable(h: Fields)
    requires Representable(h)
    ensures Encoded(Reread(h)) == Encoded(h)
  {
    var r, pad := Reread(h), |PaddingOf(h)|;
    var end := if pad > 0 then [Option(END_LIST, 1, [])] else [];
    assert r.options == Normal(h.options) + end;
    NormalKeepsBytes(h.options, end);
    PaddingAgain(h, r);
    var o, p := OptionsBytes(h.options), PaddingOf(h);
    assert OptionsBytes(end) + PaddingOf(r) == p;
    assert OptionsBytes(r.options) + PaddingOf(r) == o + (OptionsBytes(end) + PaddingOf(r));
    SameParts(r, h);
  }

  lemma SameParts(r: Fields, h: Fields)
    requires r.(dataOffset := 0, reserved := 0, checksum := 0, options := [], padding := []) ==
             h.(dataOffset := 0, reserved := 0, checksum := 0, options := [], padding := [])
    requires OptionsBytes(r.options) + PaddingOf(r) == OptionsBytes(h.options) + PaddingOf(h)
    ensures Encoded(r) == Encoded(h)
  {
    hide Hi, Lo, Hi16, Lo16, FlagByte, OffsetByte, OptionsBytes, OptionsSize, PaddingOf;
    assert |OptionsBytes(r.options) + PaddingOf(r)| == |OptionsBytes(h.options) + PaddingOf(h)|;
    assert FixedBytes(r) == FixedBytes(h);
    assert HeaderBytes(r) == FixedBytes(r) + (OptionsBytes(r.options) + PaddingOf(r));
    assert HeaderBytes(h) == FixedBytes(h) + (OptionsBytes(h.options) + PaddingOf(h));
  }

  /** The EndList that was read takes the place of one octet of padding. */
  lemma PaddingAgain(h: Fields, r: Fields)
    requires h.padding == []
    requires var pad := |PaddingOf(h)|;
             && OptionsSize(r.options) == OptionsSize(h.options) + (if pad > 0 then 1 else 0)
             && r.padding == (if pad > 0 then Zeros(pad - 1) else [])
    ensures PaddingOf(r) == if |PaddingOf(h)| > 0 then Zeros(|PaddingOf(h)| - 1) else []
    ensures PaddingOf(h) == Zeros(|PaddingOf(h)|)
  {
    var n := OptionsSize(h.options);
    var q := n / 4;
    assert n == 4 * q + n % 4;
    assert (n + 1) % 4 == if n % 4 == 3 then 0 else n % 4 + 1;
  }

  /** Storing a checksum changes the checksum that is read back, and nothing else. */
  lemma ChecksumFieldParses(data: seq<byte>, c: u16)
    requires |data| >= 20
    ensures Parsed(BLANK, WithField(data, 16, c)) ==
            (Parsed(BLANK, data).0.(checksum := c), Parsed(BLANK, data).1)
  {
    var f := WithField(data, 16, c);
    assert f[20..] == data[20..];
    assert forall i :: 20 <= i <= |data| ==> f[i..] == data[i..] && f[20..i] == data[20..i];
    WordParses(f, 16, c);
  }

  // ---------------------------------------------------------------- exactly what is accepted

  /** What the walk says when it comes to the rest of the option area. */
  predicate StopsWith(tail: seq<byte>, status: Status) {
    if tail == [] || tail[0] == 0 then status == Ok
    else if tail[0] == 1 then false
    else if |tail| == 1 then status == Panicked
    else if tail[1] < 2 then status == OptionTooShort
    else tail[1] > |tail| && status == OptionTooLong
  }

  /**
   For every option area: it starts with well-formed options, which are reported in order,
   and the walk ends at the end of the area, at an EndList, or at the first option whose
   length is missing, below two or more than there is.
   */
  lemma {:induction false} WalkExactly(area: seq<byte>, keep: seq<byte>) returns (os: seq<Option>, tail: seq<byte>)
    ensures area == OptionsBytes(os) + tail && LengthsFit(os)
    ensures forall o :: o in os ==> Carried(o) && o == NormalOption(o)
    ensures StopsWith(tail, ParseOptions(area, keep).status)
    ensures os <= ParseOptions(area, keep).list
    decreases |area|
  {
    hide ParseOptions, OptionsBytes, OptionBytes, NormalOption, StopsWith;
    if Steps(area) {
      var o, rest := FirstOption(area), Behind(area);
      FirstStep(area, keep);
      os, tail := WalkExactly(rest, keep);
      os := PrependedOption(o, os, tail);
    } else {
      os, tail := [], area;
      WalkStops(area, keep);
    }
  }

  /** Whether there is a whole option at the start, which one it is, and what is behind it. */
  predicate Steps(area: seq<byte>) {
    area != [] && (area[0] == 1 || (|area| >= 2 && area[0] > 1 && 2 <= area[1] <= |area|))
  }

  function FirstOption(area: seq<byte>): Option
    requires Steps(area)
  {
    if area[0] == 1 then Option(1, 1, []) else Option(area[0], area[1], area[2..area[1]])
  }

  function Behind(area: seq<byte>): (rest: seq<byte>)
    requires Steps(area)
    ensures |rest| < |area|
  {
    if area[0] == 1 then area[1..] else area[area[1]..]
  }

  lemma FirstStep(area: seq<byte>, keep: seq<byte>)
    requires Steps(area)
    ensures var o := FirstOption(area);
            && |o.data| <= 253 && Carried(o) && o == NormalOption(o)
            && area == OptionBytes(o) + Behind(area)
            && ParseOptions(area, keep) == Prepend(o, ParseOptions(Behind(area), keep))
  {
  }

  lemma WalkStops(area: seq<byte>, keep: seq<byte>)
    requires !Steps(area)
    ensures StopsWith(area, ParseOptions(area, keep).status)
    ensures OptionsBytes([]) + area == area
  {
  }

  lemma PrependedOption(o: Option, os: seq<Option>, tail: seq<byte>) returns (all: seq<Option>)
    requires LengthsFit(os) && |o.data| <= 253 && Carried(o) && o == NormalOption(o)
    requires forall p :: p in os ==> Carried(p) && p == NormalOption(p)
    ensures all == [o] + os && LengthsFit(all) && forall p :: p in all ==> Carried(p) && p == NormalOption(p)
    ensures OptionsBytes(all) + tail == OptionBytes(o) + (OptionsBytes(os) + tail)
  {
    hide OptionBytes, NormalOption;
    all := [o] + os;
    assert all[1..] == os;
    assert OptionsBytes(all) == OptionBytes(o) + OptionsBytes(os);
  }

  /** The two errors of the data offset, and that there are no others before the options. */
  lemma DataOffsetExactly(data: seq<byte>)
    requires |data| >= 20
    ensures var words, status := data[12] / 16, Parsed(BLANK, data).1;
            && (status == DataOffsetTooSmall <==> words < 5)
            && (status == DataOffsetTooLarge <==> words >= 5 && words as int * 4 > |data|)
            && (5 <= words && words as int * 4 <= |data| ==>
                  status == ParseOptions(data[20..words as int * 4], []).status)
  {
    hide ParseOptions, Get16, Get32;
    var words := data[12] / 16;
    if 5 <= words && words as int * 4 <= |data| {
      WalkStatus(data[20..words as int * 4], []);
    }
  }

  lemma WalkStatus(area: seq<byte>, keep: seq<byte>)
    ensures ParseOptions(area, keep).status in {Ok, Panicked, OptionTooShort, OptionTooLong}
  {
    hide ParseOptions;
    var os, tail := WalkExactly(area, keep);
  }

  lemma {:induction false} WalkIgnoresChecksum(area: seq<byte>, keep: seq<byte>)
    ensures ParseOptions(area, keep).status != InvalidChecksum
  {
    if |area| >= 1 && area[0] == NOP {
      WalkIgnoresChecksum(area[1..], keep);
    } else if |area| >= 2 && area[0] > NOP && 2 <= area[1] <= |area| {
      WalkIgnoresChecksum(area[area[1]..], keep);
    }
  }

  lemma ParsedIgnoresChecksum(data: seq<byte>)
    requires |data| >= 20
    ensures Parsed(BLANK, data).1 != InvalidChecksum && Parsed(BLANK, data).0.checksum == Get16(data, 16)
  {
    hide ParseOptions;
    var start := OffsetIn(data[12]) as int * 4;
    if 20 <= start <= |data| {
      WalkIgnoresChecksum(data[20..start], []);
    }
  }

  /**
   Exactly which segments UnmarshalWithChecksum calls invalid: those that fail the test of
   section 3.1 of RFC 793, and those whose field is the second representation of zero.
   */
  lemma RejectedExactly(data: seq<byte>, src: Address, dst: Address)
    requires SegmentSized(data)
    ensures Received(data, src, dst).1 == InvalidChecksum <==>
            Parsed(BLANK, data).1 != Panicked && (!TcpValid(data, src, dst) || Get16(data, 16) == 0xffff)
  {
    hide Parsed, TcpChecksum, TcpValid;
    ParsedIgnoresChecksum(data);
    TcpChecksumSound(data, src, dst, Get16(data, 16));
    assert WithField(data, 16, Get16(data, 16)) == data by { FieldBack(data, 16); }
  }

  lemma FieldBack(data: seq<byte>, at: nat)
    requires at + 2 <= |data|
    ensures WithField(data, at, Get16(data, at)) == data
  {
  }

  /** A segment of 20 bytes that passes the test and is rejected. */
  const SECOND_ZERO: seq<byte> :=
    [0xaf, 0xe5, 0, 0, 0, 0, 0, 0, 0, 0, 0, 0, 0x50, 0, 0, 0, 0xff, 0xff, 0, 0]

  lemma SecondZeroIsRejected()
    ensures TcpValid(SECOND_ZERO, [0, 0, 0, 0], [0, 0, 0, 0])
    ensures Received(SECOND_ZERO, [0, 0, 0, 0], [0, 0, 0, 0]).1 == InvalidChecksum
  {
    hide Received, Parsed, TcpValid, Get16;
    SecondZeroIsValid();
    SecondZeroParses();
    RejectedExactly(SECOND_ZERO, [0, 0, 0, 0], [0, 0, 0, 0]);
  }

  lemma SecondZeroIsValid()
    ensures TcpValid(SECOND_ZERO, [0, 0, 0, 0], [0, 0, 0, 0])
  {
    hide OcSum, TcpWords, ByteTotal, PseudoTotal;
    var none: Address := [0, 0, 0, 0];
    SecondZeroTotal();
    NoAddresses();
    TcpFold(SECOND_ZERO, none, none);
  }

  lemma NoAddresses()
    ensures PseudoTotal([0, 0, 0, 0], [0, 0, 0, 0], 20) == 26
  {
  }

  lemma SecondZeroTotal()
    ensures ByteTotal(SECOND_ZERO) == 0xafe5 + 0x5000 + 0xffff
  {
    hide ByteTotal;
    var s := SECOND_ZERO;
    assert s[0..] == s;
    ByteTotalStep(s, 0);
    NullWords(s, 2, 12);
    ByteTotalStep(s, 12);
    NullWords(s, 14, 16);
    ByteTotalStep(s, 16);
    NullWords(s, 18, 20);
    assert ByteTotal(s[20..]) == 0 by { NothingTotal(); assert s[20..] == []; }
  }

  lemma NothingTotal()
    ensures ByteTotal([]) == 0
  {
  }

  lemma {:induction false} NullWords(s: seq<byte>, i: nat, j: nat)
    requires i <= j <= |s| && (j - i) % 2 == 0 && forall k :: i <= k < j ==> s[k] == 0
    ensures ByteTotal(s[i..]) == ByteTotal(s[j..])
    decreases j - i
  {
    hide ByteTotal;
    if i < j {
      ByteTotalStep(s, i);
      NullWords(s, i + 2, j);
    }
  }

  lemma SecondZeroParses()
    ensures Parsed(BLANK, SECOND_ZERO).1 == Ok && Get16(SECOND_ZERO, 16) == 0xffff
  {
    assert SECOND_ZERO[20..20] == [];
  }

  /**
   What updateTCPChecksum has sealed, for every segment, UnmarshalWithChecksum accepts: it
   reports what it finds wrong with the rest of the header, and never the checksum.
   */
  lemma SealedIsAccepted(data: seq<byte>, src: Address, dst: Address)
    requires SegmentSized(data)
    ensures var sealed := WithField(data, 16, TcpChecksum(data, src, dst));
            && Received(sealed, src, dst) ==
               (Parsed(BLANK, data).0.(checksum := TcpChecksum(data, src, dst)), Parsed(BLANK, data).1)
            && Received(sealed, src, dst).1 != InvalidChecksum
  {
    hide Parsed, TcpChecksum;
    var c := TcpChecksum(data, src, dst);
    ParsedIgnoresChecksum(data);
    ChecksumFieldParses(data, c);
    TcpChecksumIgnoresField(data, src, dst, c);
  }

  lemma PayloadBehindZeros(n: nat, payload: seq<byte>)
    ensures var s := Spliced(Zeros(20 + n + |payload|), 20 + n, payload);
            s[20..] == Zeros(n) + payload && s[16] == s[17] == 0
  {
  }

  // ---------------------------------------------------------------- the code

  class Header {
    var Source: u16
    var Destination: u16
    var SeqNum: u32
    var AckNum: u32
    var DataOffset: byte
    var Reserved: byte
    var ECN: byte
    var Ctrl: byte
    var Window: u16
    var Checksum: u16
    var Urgent: u16
    var Options: seq<Option>
    var Padding: seq<byte>
    var Payload: seq<byte>

    ghost function View(): Fields
      reads this
    {
      Fields(Source, Destination, SeqNum, AckNum, DataOffset, Reserved, ECN, Ctrl,
             Window, Checksum, Urgent, Options, Padding, Payload)
    }

    constructor (h: Fields)
      ensures View() == h
    {
      Source, Destination, SeqNum, AckNum := h.source, h.destination, h.seqNum, h.ackNum;
      DataOffset, Reserved, ECN, Ctrl := h.dataOffset, h.reserved, h.ecn, h.ctrl;
      Window, Checksum, Urgent := h.window, h.checksum, h.urgent;
      Options, Padding, Payload := h.options, h.padding, h.payload;
    }

    method Marshal() returns (bytes: array<byte>)
      modifies this
      ensures fresh(bytes)
      ensures bytes[..] == Marshalled(old(View()))
      ensures View() == LaidOut(old(View()))
    {
      ghost var h := View();
      SetLayout();
      LaidOutMarshalsTheSame(h);
      bytes := Fill();
    }

    method SetLayout()
      modifies this`Padding, this`DataOffset
      ensures View() == LaidOut(old(View()))
    {
      var optionLength := OptionLength();
      var rem := optionLength % 4;
      if rem != 0 {
        Padding := Zeros(4 - rem);
      }
      DataOffset := (|Padding| + optionLength + 20) / 4 % 0x100;
    }

    method Fill() returns (bytes: array<byte>)
      requires Padding == PaddingOf(View()) && DataOffset == DataOffsetOf(View())
      ensures fresh(bytes)
      ensures bytes[..] == Marshalled(View())
    {
      hide FixedBytes, Spliced, OptionsSize, PaddingOf, DataOffsetOf, Written;
      var optionLength := OptionLength();
      var end := 20 + optionLength + |Padding|;
      bytes := new byte[end + |Payload|](_ => 0);
      assert bytes[..] == Zeros(end + |Payload|);
      CopyInto(bytes, end, Payload);
      PayloadBehindZeros(end - 20, Payload);
      assert bytes[20..] == bytes[..][20..];
      assert bytes[16] == bytes[..][16] && bytes[17] == bytes[..][17];
      PutFixed(bytes);
      assert bytes[..] == bytes[..20] + bytes[20..];
      assert bytes[..20] + (Zeros(end - 20) + Payload) == bytes[..20] + Zeros(end - 20) + Payload;
      PutOptions(bytes);
    }

    /** The first loop of Marshal. */
    method OptionLength() returns (optionLength: nat)
      ensures optionLength == OptionsSize(Options)
    {
      optionLength := 0;
      for k := 0 to |Options|
        invariant optionLength + OptionsSize(Options[k..]) == OptionsSize(Options)
      {
        assert Options[k..][1..] == Options[k + 1..];
        var o := Options[k];
        if o.kind <= NOP {
          optionLength := optionLength + 1;
        } else {
          optionLength := optionLength + 2 + |o.data|;
        }
      }
    }

    /** The fixed fields; bytes 16 and 17 are left alone. */
    method PutFixed(bytes: array<byte>)
      requires bytes.Length >= 20
      requires bytes[16] == bytes[17] == 0
      requires DataOffset == DataOffsetOf(View())
      modifies bytes
      ensures bytes[..20] == FixedBytes(View())
      ensures bytes[20..] == old(bytes[20..])
    {
      PutPorts(bytes);
      bytes[12] := OffsetByte(DataOffset);
      bytes[13] := FlagByte(ECN, Ctrl);
      PutUint16(bytes, 14, Window);
      PutUint16(bytes, 18, Urgent);
      assert bytes[..12] == FixedBytes(View())[..12];
      assert bytes[..20] == bytes[..12] + bytes[12..20];
    }

    method PutPorts(bytes: array<byte>)
      requires bytes.Length >= 20
      modifies bytes
      ensures bytes[..12] == FixedBytes(View())[..12]
      ensures forall i :: 12 <= i < bytes.Length ==> bytes[i] == old(bytes[i])
    {
      PutUint16(bytes, 0, Source);
      PutUint16(bytes, 2, Destination);
      PutUint32(bytes, 4, SeqNum);
      PutUint32(bytes, 8, AckNum);
    }

    /** The options, one after the other, and the padding behind them. */
    method PutOptions(bytes: array<byte>)
      requires 20 + OptionsSize(Options) + |Padding| <= bytes.Length
      modifies bytes
      ensures bytes[..] == Written(old(bytes[..]), Options, Padding)
    {
      var start := 20;
      for k := 0 to |Options|
        invariant 0 <= start && start + OptionsSize(Options[k..]) + |Padding| <= bytes.Length
        invariant Overlay(bytes[..], start, Options[k..]) == Overlay(old(bytes[..]), 20, Options)
        invariant start + Advance(Options[k..]) == 20 + Advance(Options)
      {
        assert Options[k..][1..] == Options[k + 1..];
        var o := Options[k];
        CopyInto(bytes, start, OptionBytes(o));
        start := start + Step(o);
      }
      CopyInto(bytes, start, Padding);
    }

    method Unmarshal(data: seq<byte>) returns (status: Status)
      requires |data| >= 20
      modifies this
      ensures (View(), status) == Parsed(old(View()), data)
    {
      UnmarshalPorts(data);
      UnmarshalFlags(data);
      Options := [];
      if DataOffset < 5 {
        return DataOffsetTooSmall;
      }
      var dataStart := DataOffset as int * 4;
      if dataStart > |data| {
        Payload := [];
        return DataOffsetTooLarge;
      }
      Payload := data[dataStart..];
      status := UnmarshalOptions(data[20..dataStart]);
    }

    method UnmarshalPorts(data: seq<byte>)
      requires |data| >= 20
      modifies this`Source, this`Destination, this`SeqNum, this`AckNum
      ensures Source == Get16(data, 0) && Destination == Get16(data, 2)
      ensures SeqNum == Get32(data, 4) && AckNum == Get32(data, 8)
    {
      Source := Get16(data, 0);
      Destination := Get16(data, 2);
      SeqNum := Get32(data, 4);
      AckNum := Get32(data, 8);
    }

    method UnmarshalFlags(data: seq<byte>)
      requires |data| >= 20
      modifies this`DataOffset, this`ECN, this`Ctrl, this`Window, this`Checksum, this`Urgent
      ensures DataOffset == OffsetIn(data[12]) && ECN == EcnIn(data[13]) && Ctrl == CtrlIn(data[13])
      ensures Window == Get16(data, 14) && Checksum == Get16(data, 16) && Urgent == Get16(data, 18)
    {
      DataOffset := OffsetIn(data[12]);
      ECN := EcnIn(data[13]);
      Ctrl := CtrlIn(data[13]);
      Window := Get16(data, 14);
      Checksum := Get16(data, 16);
      Urgent := Get16(data, 18);
    }

    /** The loop over the option area. */
    method UnmarshalOptions(area: seq<byte>) returns (status: Status)
      requires Options == []
      modifies this`Options, this`Padding
      ensures Walk(Options, Padding, status) == ParseOptions(area, old(Padding))
    {
      ghost var keep := Padding;
      var data := area;
      while |data| > 0
        invariant Padding == keep
        invariant ParseOptions(area, keep) == Extend(Options, ParseOptions(data, keep))
        decreases |data|
      {
        ghost var before := Options;
        var kind := data[0];
        if kind == END_LIST {
          Options := Options + [Option(kind, 1, [])];
          Padding := data[1..];
          return Ok;
        } else if kind == NOP {
          Options := Options + [Option(kind, 1, [])];
          data := data[1..];
          ExtendPrepend(before, Option(kind, 1, []), ParseOptions(data, keep));
        } else {
          if |data| < 2 {
            Options := Options + [Option(kind, 0, [])];
            return Panicked;
          }
          var length := data[1];
          if length < 2 {
            Options := Options + [Option(kind, length, [])];
            return OptionTooShort;
          } else if length > |data| {
            Options := Options + [Option(kind, length, [])];
            return OptionTooLong;
          }
          Options := Options + [Option(kind, length, data[2..length])];
          ExtendPrepend(before, Option(kind, length, data[2..length]), ParseOptions(data[length..], keep));
          data := data[length..];
        }
      }
      status := Ok;
    }
  }

  method UnmarshalWithChecksum(data: seq<byte>, src: Address, dst: Address)
      returns (hdr: Header, status: Status)
    requires SegmentSized(data)
    ensures fresh(hdr)
    ensures (hdr.View(), status) == Received(data, src, dst)
  {
    hdr := new Header(BLANK);
    status := hdr.Unmarshal(data);
    if status != Panicked {
      var checksum := Csum(data, src, dst);
      if checksum != hdr.Checksum {
        status := InvalidChecksum;
      }
    }
  }
}
