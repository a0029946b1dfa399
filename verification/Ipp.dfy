/**
 The IPP message codec of services/ipp over the byte decoder and encoder of
 services/decoder, for the encoding of section 3.1 of RFC 8010.

 This module is the format: what is written for a message, and what is read from a byte
 string.  A reader is a function from the bytes that are left to a value and the bytes left
 after it; a step back in the input is simply not moving on.  `Fail` stands for the inputs
 on which the decoder does not return without an error: once its error is set it is never
 cleared, and it may also panic or, on a message without an end tag, not return at all.
 */
module Ipp {
  import opened Words

  type int16 = v: int | -0x8000 <= v < 0x8000
  type int32 = v: int | -0x8000_0000 <= v < 0x8000_0000

  const END_TAG: byte := 0x03
  const LAST_DELIMITER: byte := 0x05

  const INTEGER: byte := 0x21
  const BOOLEAN: byte := 0x22
  const ENUM: byte := 0x23
  const RANGE: byte := 0x33

  predicate IsIntTag(tag: byte) {
    tag == INTEGER || tag == ENUM || tag == RANGE
  }

  /** text, name, keyword, uri, charset, natural language and mime media type */
  predicate IsStrTag(tag: byte) {
    tag in {0x41, 0x42, 0x44, 0x45, 0x47, 0x48, 0x49}
  }

  datatype Attribute =
    | IntAttr(tag: byte, name: seq<byte>, ints: seq<int32>)
    | StrAttr(tag: byte, name: seq<byte>, strs: seq<seq<byte>>)
    | BoolAttr(tag: byte, name: seq<byte>, bools: seq<bool>)

  datatype Group = Group(tag: byte, attributes: seq<Attribute>)

  datatype Message = Message(
    major: byte, minor: byte, statusCode: int16, requestId: int32, groups: seq<Group>)

  // ---------------------------------------------------------------- writing

  function U16Bytes(v: int): seq<byte> {
    [Hi(v % 0x1_0000), Lo(v % 0x1_0000)]
  }

  function U32Bytes(v: int32): seq<byte> {
    var u := v % TWO32;
    [Hi(Hi16(u)), Lo(Hi16(u)), Hi(Lo16(u)), Lo(Lo16(u))]
  }

  /** WriteData; with `zero`, only a zero length. */
  function DataBytes(s: seq<byte>, zero: bool): seq<byte> {
    if zero then U16Bytes(0) else U16Bytes(|s|) + s
  }

  function IntItem(tag: byte, name: seq<byte>, zero: bool, v: int32): seq<byte> {
    [tag] + (DataBytes(name, zero) + (U16Bytes(4) + U32Bytes(v)))
  }

  /** Only the first value of an attribute is written with its name. */
  function IntItems(tag: byte, name: seq<byte>, zero: bool, vs: seq<int32>): seq<byte>
    decreases |vs|
  {
    if vs == [] then [] else IntItem(tag, name, zero, vs[0]) + IntItems(tag, name, true, vs[1..])
  }

  function StrItem(tag: byte, name: seq<byte>, zero: bool, v: seq<byte>): seq<byte> {
    [tag] + (DataBytes(name, zero) + DataBytes(v, false))
  }

  function StrItems(tag: byte, name: seq<byte>, zero: bool, vs: seq<seq<byte>>): seq<byte>
    decreases |vs|
  {
    if vs == [] then [] else StrItem(tag, name, zero, vs[0]) + StrItems(tag, name, true, vs[1..])
  }

  function BoolItem(tag: byte, name: seq<byte>, zero: bool, v: bool): seq<byte> {
    [tag] + (DataBytes(name, zero) + (U16Bytes(1) + [if v then 1 else 0]))
  }

  function BoolItems(tag: byte, name: seq<byte>, zero: bool, vs: seq<bool>): seq<byte>
    decreases |vs|
  {
    if vs == [] then [] else BoolItem(tag, name, zero, vs[0]) + BoolItems(tag, name, true, vs[1..])
  }

  function AttributeBytes(a: Attribute): seq<byte> {
    match a
    case IntAttr(tag, name, vs) => IntItems(tag, name, false, vs)
    case StrAttr(tag, name, vs) => StrItems(tag, name, false, vs)
    case BoolAttr(tag, name, vs) => BoolItems(tag, name, false, vs)
  }

  function AttributesBytes(as_: seq<Attribute>): seq<byte> {
    if as_ == [] then [] else AttributeBytes(as_[0]) + AttributesBytes(as_[1..])
  }

  function GroupsBytes(gs: seq<Group>): seq<byte> {
    if gs == [] then [] else [gs[0].tag] + AttributesBytes(gs[0].attributes) + GroupsBytes(gs[1..])
  }

  function MessageBytes(m: Message): seq<byte> {
    [m.major, m.minor] + U16Bytes(m.statusCode) + U32Bytes(m.requestId) + GroupsBytes(m.groups)
  }

  // ---------------------------------------------------------------- reading

  datatype Got<+T> = Got(value: T, rest: seq<byte>) | Fail {
    predicate IsFailure() {
      Fail?
    }

    function PropagateFailure<U>(): Got<U>
      requires Fail?
    {
      Fail
    }

    function Extract(): (T, seq<byte>)
      requires Got?
    {
      (value, rest)
    }
  }

  function ReadByte(s: seq<byte>): (g: Got<byte>)
    ensures g.Got? ==> |g.rest| == |s| - 1
  {
    if |s| < 1 then Fail else Got(s[0], s[1..])
  }

  function Signed16(w: u16): int16 {
    if w < 0x8000 then w else w - 0x1_0000
  }

  function Signed32(w: u32): int32 {
    if w < 0x8000_0000 then w else w - TWO32
  }

  function ReadInt16(s: seq<byte>): (g: Got<int16>)
    ensures g.Got? ==> |g.rest| == |s| - 2
  {
    if |s| < 2 then Fail else Got(Signed16(Get16(s, 0)), s[2..])
  }

  function ReadInt32(s: seq<byte>): (g: Got<int32>)
    ensures g.Got? ==> |g.rest| == |s| - 4
  {
    if |s| < 4 then Fail else Got(Signed32(Get32(s, 0)), s[4..])
  }

  /** A length that is negative as an int16 is an error or a panic. */
  function ReadData(s: seq<byte>): (g: Got<seq<byte>>)
    ensures g.Got? ==> |g.rest| == |s| - 2 - |g.value|
  {
    var (n, r) :- ReadInt16(s);
    if n < 0 || |r| < n then Fail else Got(r[..n], r[n..])
  }

  /** An integer value behind its length, which is read and ignored. */
  function ReadIntValue(s: seq<byte>): Got<int32> {
    var (_, r) :- ReadInt16(s);
    ReadInt32(r)
  }

  /**
   Whether another value of the attribute follows: the same tag and an empty name; for
   booleans, a different tag and an empty name.  If not, what was looked at is put back.
   */
  function LookAhead(tag: byte, same: bool, s: seq<byte>): (g: Got<bool>)
    ensures g.Got? ==> |g.rest| == if g.value then |s| - 3 else |s|
  {
    var (vtag, r) :- ReadByte(s);
    if (vtag == tag) != same then Got(false, s) else
    var (l, r1) :- ReadInt16(r);
    if l == 0 then Got(true, r1) else Got(false, s)
  }

  /** valInt.decode: it looks for one additional value only. */
  function ReadInts(tag: byte, s: seq<byte>): (g: Got<Attribute>)
    ensures g.Got? ==> |g.rest| < |s|
  {
    var (name, r) :- ReadData(s);
    var (v, r1) :- ReadIntValue(r);
    var (more, r2) :- LookAhead(tag, true, r1);
    if !more then Got(IntAttr(tag, name, [v]), r2) else
    var (v2, r3) :- ReadIntValue(r2);
    Got(IntAttr(tag, name, [v, v2]), r3)
  }

  /** The loop of valStr.decode. */
  function ReadMoreStrs(tag: byte, s: seq<byte>): (g: Got<seq<seq<byte>>>)
    ensures g.Got? ==> |g.rest| <= |s|
    decreases |s|
  {
    var (more, r) :- LookAhead(tag, true, s);
    if !more then Got([], r) else
    var (v, r1) :- ReadData(r);
    var (vs, r2) :- ReadMoreStrs(tag, r1);
    Got([v] + vs, r2)
  }

  function ReadStrs(tag: byte, s: seq<byte>): (g: Got<Attribute>)
    ensures g.Got? ==> |g.rest| < |s|
  {
    var (name, r) :- ReadData(s);
    var (v, r1) :- ReadData(r);
    var (vs, r2) :- ReadMoreStrs(tag, r1);
    Got(StrAttr(tag, name, [v] + vs), r2)
  }

  /** The loop of valBool.decode, which goes on while the tag is a different one. */
  function ReadMoreBools(tag: byte, s: seq<byte>): (g: Got<seq<bool>>)
    ensures g.Got? ==> |g.rest| <= |s|
    decreases |s|
  {
    var (more, r) :- LookAhead(tag, false, s);
    if !more then Got([], r) else
    var (b, r1) :- ReadByte(r);
    var (bs, r2) :- ReadMoreBools(tag, r1);
    Got([b == 1] + bs, r2)
  }

  /** valBool.decode: one byte is read for the length, where two were written. */
  function ReadBools(tag: byte, s: seq<byte>): (g: Got<Attribute>)
    ensures g.Got? ==> |g.rest| < |s|
  {
    var (name, r) :- ReadData(s);
    var (_, r1) :- ReadByte(r);
    var (b, r2) :- ReadByte(r1);
    var (bs, r3) :- ReadMoreBools(tag, r2);
    Got(BoolAttr(tag, name, [b == 1] + bs), r3)
  }

  /** An unknown tag leaves a nil value, and its decode panics. */
  function ReadAttribute(tag: byte, s: seq<byte>): (g: Got<Attribute>)
    ensures g.Got? ==> |g.rest| < |s|
  {
    if IsIntTag(tag) then ReadInts(tag, s)
    else if tag == BOOLEAN then ReadBools(tag, s)
    else if IsStrTag(tag) then ReadStrs(tag, s)
    else Fail
  }

  /** attribGroup.decode: attributes until a delimiter tag, which is put back. */
  function ReadAttributes(s: seq<byte>): (g: Got<seq<Attribute>>)
    ensures g.Got? ==> |g.rest| <= |s|
    decreases |s|
  {
    var (tag, r) :- ReadByte(s);
    if tag <= LAST_DELIMITER then Got([], s) else
    var (a, r1) :- ReadAttribute(tag, r);
    var (as_, r2) :- ReadAttributes(r1);
    Got([a] + as_, r2)
  }

  /** The loop of ippMsg.decode; it appends a group for the end tag. */
  function ReadGroups(s: seq<byte>): Got<seq<Group>>
    decreases |s|
  {
    var (tag, r) :- ReadByte(s);
    if tag == END_TAG then Got([Group(END_TAG, [])], r) else
    var (as_, r1) :- ReadAttributes(r);
    var (gs, r2) :- ReadGroups(r1);
    Got([Group(tag, as_)] + gs, r2)
  }

  /** Version, operation or status code, and request number. */
  function ReadHeader(s: seq<byte>): Got<(byte, byte, int16, int32)> {
    var (major, r) :- ReadByte(s);
    var (minor, r1) :- ReadByte(r);
    var (code, r2) :- ReadInt16(r1);
    var (id, r3) :- ReadInt32(r2);
    Got((major, minor, code, id), r3)
  }

  /** ippMsg.decode; the rest is the print data. */
  function ReadMessage(s: seq<byte>): Got<Message> {
    var (h, r) :- ReadHeader(s);
    var (gs, r1) :- ReadGroups(r);
    Got(Message(h.0, h.1, h.2, h.3, gs), r1)
  }
}
