/**
 The code of services/decoder and services/ipp: a cursor with a sticky error, readers that
 look ahead and rewind it, and writers that append to a buffer, each proved against the
 format in module Ipp.

 After an error the decoder's loops may go round again, even without end on a message that
 has no end tag; here they stop.  Whatever they would have done, the error stays set.
 */
module IppCode {
  import opened Words
  import opened Ipp

  class Decode {
    const data: seq<byte>
    var offset: int
    var lasterror: bool
    /** A negative length has been passed to make. */
    var panicked: bool

    ghost predicate Valid()
      reads this
    {
      0 <= offset <= |data|
    }

    predicate Failed()
      reads this
    {
      lasterror || panicked
    }

    ghost function Left(): seq<byte>
      reads this
      requires Valid()
    {
      data[offset..]
    }

    /** A call has read what g says, v, or else it failed; and a failure is never undone. */
    ghost predicate Did<T>(failedBefore: bool, g: Got<T>, v: T)
      reads this
    {
      && Valid()
      && (failedBefore ==> Failed())
      && (!failedBefore ==> if g.Got? then !Failed() && v == g.value && Left() == g.rest else Failed())
    }

    constructor (data: seq<byte>)
      ensures Valid() && !Failed() && this.data == data && Left() == data
    {
      this.data, offset, lasterror, panicked := data, 0, false, false;
    }

    method HasBytes(size: int) returns (ok: bool)
      ensures ok <==> 0 <= offset + size <= |data|
    {
      var pos := offset + size;
      if pos >= 0 {
        if pos <= |data| {
          return true;
        }
      }
      return false;
    }

    method Byte() returns (b: byte)
      requires Valid()
      modifies this`offset, this`lasterror
      ensures Did(old(Failed()), ReadByte(old(Left())), b)
    {
      var ok := HasBytes(1);
      if !ok {
        lasterror := true;
        return 0;
      }
      b := data[offset];
      offset := offset + 1;
    }

    method Int16() returns (v: int16)
      requires Valid()
      modifies this`offset, this`lasterror
      ensures Did(old(Failed()), ReadInt16(old(Left())), v)
    {
      var ok := HasBytes(2);
      if !ok {
        lasterror := true;
        return 0;
      }
      v := Signed16(Word(data[offset], data[offset + 1]));
      offset := offset + 2;
    }

    method Int32() returns (v: int32)
      requires Valid()
      modifies this`offset, this`lasterror
      ensures Did(old(Failed()), ReadInt32(old(Left())), v)
    {
      var ok := HasBytes(4);
      if !ok {
        lasterror := true;
        return 0;
      }
      v := Signed32(Get32(data, offset));
      offset := offset + 4;
    }

    method Copy(size: int) returns (c: seq<byte>)
      requires Valid()
      modifies this`offset, this`lasterror, this`panicked
      ensures Valid() && (old(Failed()) ==> Failed())
      ensures !old(Failed()) ==> (Failed() <==> size < 0 || |old(Left())| < size)
      ensures !Failed() ==> 0 <= size <= |old(Left())| && c == old(Left())[..size] && Left() == old(Left())[size..]
    {
      var ok := HasBytes(size);
      if !ok {
        lasterror := true;
        return [];
      }
      if size < 0 {
        panicked := true;
        return [];
      }
      c := data[offset..offset + size];
      offset := offset + size;
    }

    /** `dec.Copy(dec.Available())` */
    method Rest() returns (c: seq<byte>)
      requires Valid()
      modifies this`offset, this`lasterror, this`panicked
      ensures Valid() && Failed() == old(Failed())
      ensures !Failed() ==> c == old(Left())
    {
      ghost var all := Left();
      c := Copy(|data| - offset);
      assert all[..|all|] == all;
    }

    method Data() returns (s: seq<byte>)
      requires Valid()
      modifies this`offset, this`lasterror, this`panicked
      ensures Did(old(Failed()), ReadData(old(Left())), s)
    {
      var l := Int16();
      s := Copy(l);
    }

    method Seek(pos: int)
      requires Valid()
      modifies this`offset, this`lasterror
      ensures Valid() && (old(Failed()) ==> Failed())
      ensures if 0 <= old(offset) + pos <= |data| then offset == old(offset) + pos && lasterror == old(lasterror)
              else lasterror
    {
      var ok := HasBytes(pos);
      if ok {
        offset := offset + pos;
      } else {
        lasterror := true;
      }
    }
  }

  // ---------------------------------------------------------------- attributes

  method IntValue(dec: Decode) returns (v: int32)
    requires dec.Valid()
    modifies dec
    ensures dec.Did(old(dec.Failed()), ReadIntValue(old(dec.Left())), v)
  {
    hide ReadInt16, ReadInt32;
    var _ := dec.Int16();
    v := dec.Int32();
  }

  /** One look ahead: a tag and a name length, put back unless another value follows. */
  method NextValue(dec: Decode, tag: byte, same: bool) returns (more: bool)
    requires dec.Valid()
    modifies dec
    ensures dec.Did(old(dec.Failed()), LookAhead(tag, same, old(dec.Left())), more)
  {
    ghost var s := dec.Left();
    var vtag := dec.Byte();
    if (vtag == tag) == same {
      var l := dec.Int16();
      if l == 0 {
        return true;
      } else {
        dec.Seek(-3);
        assert !dec.Failed() ==> dec.Left() == s;
      }
    } else {
      dec.Seek(-1);
      assert !dec.Failed() ==> dec.Left() == s;
    }
    return false;
  }

  /** valInt.decode */
  method DecodeInts(dec: Decode, tag: byte) returns (a: Attribute)
    requires dec.Valid()
    modifies dec
    ensures dec.Did(old(dec.Failed()), ReadInts(tag, old(dec.Left())), a)
  {
    hide ReadData, ReadIntValue, LookAhead;
    var name := dec.Data();
    var v := IntValue(dec);
    var vals := [v];
    var more := NextValue(dec, tag, true);
    if more {
      var v2 := IntValue(dec);
      vals := vals + [v2];
      assert vals == [v, v2];
    }
    a := IntAttr(tag, name, vals);
  }

  /** valStr.decode */
  method DecodeStrs(dec: Decode, tag: byte) returns (a: Attribute)
    requires dec.Valid()
    modifies dec
    ensures dec.Did(old(dec.Failed()), ReadStrs(tag, old(dec.Left())), a)
  {
    hide ReadData, ReadMoreStrs;
    var name := dec.Data();
    var first := dec.Data();
    var more := MoreStrs(dec, tag);
    a := StrAttr(tag, name, [first] + more);
  }

  /** Values already read, in front of what is read next. */
  ghost function Ahead<T>(vals: seq<T>, g: Got<seq<T>>): Got<seq<T>> {
    if g.Fail? then Fail else Got(vals + g.value, g.rest)
  }

  /** The loop of valStr.decode: one more value as long as there is one. */
  method MoreStrs(dec: Decode, tag: byte) returns (vals: seq<seq<byte>>)
    requires dec.Valid()
    modifies dec
    ensures dec.Did(old(dec.Failed()), ReadMoreStrs(tag, old(dec.Left())), vals)
  {
    hide ReadData, LookAhead;
    ghost var goal := ReadMoreStrs(tag, dec.Left());
    AheadNothing(goal);
    vals := [];
    var more := NextValue(dec, tag, true);
    while more && !dec.Failed()
      invariant dec.Valid() && (old(dec.Failed()) ==> dec.Failed())
      invariant !old(dec.Failed()) ==> MoreStrsInv(tag, vals, more, dec.Failed(), dec.Left(), goal)
      decreases !dec.Failed(), |dec.data| - dec.offset
    {
      var v := dec.Data();
      ghost var before := vals;
      vals := vals + [v];
      ghost var rest := dec.Left();
      AheadSnoc(before, v, ReadMoreStrs(tag, rest));
      more := NextValue(dec, tag, true);
    }
    assert vals + [] == vals;
  }

  /** Where the loop stands: behind the values read, and behind the next tag and name if there is one. */
  ghost predicate MoreStrsInv(tag: byte, vals: seq<seq<byte>>, more: bool, failed: bool,
                              left: seq<byte>, goal: Got<seq<seq<byte>>>) {
    if failed then goal.Fail?
    else if !more then goal == Ahead(vals, Got([], left))
    else
      var d := ReadData(left);
      if d.Fail? then goal.Fail? else goal == Ahead(vals, Ahead([d.value], ReadMoreStrs(tag, d.rest)))
  }

  lemma AheadNothing<T>(g: Got<seq<T>>)
    ensures Ahead([], g) == g
  {
    if g.Got? {
      assert [] + g.value == g.value;
    }
  }

  lemma AheadSnoc<T>(vals: seq<T>, v: T, g: Got<seq<T>>)
    ensures Ahead(vals, Ahead([v], g)) == Ahead(vals + [v], g)
  {
    if g.Got? {
      assert vals + ([v] + g.value) == vals + [v] + g.value;
    }
  }

  /** valBool.decode */
  method DecodeBools(dec: Decode, tag: byte) returns (a: Attribute)
    requires dec.Valid()
    modifies dec
    ensures dec.Did(old(dec.Failed()), ReadBools(tag, old(dec.Left())), a)
  {
    hide ReadData, ReadByte, ReadMoreBools;
    var name := dec.Data();
    var _ := dec.Byte();
    var b := dec.Byte();
    var more := MoreBools(dec, tag);
    a := BoolAttr(tag, name, [b == 1] + more);
  }

  method MoreBools(dec: Decode, tag: byte) returns (vals: seq<bool>)
    requires dec.Valid()
    modifies dec
    ensures dec.Did(old(dec.Failed()), ReadMoreBools(tag, old(dec.Left())), vals)
  {
    hide ReadByte, LookAhead;
    ghost var goal := ReadMoreBools(tag, dec.Left());
    AheadNothing(goal);
    vals := [];
    var more := NextValue(dec, tag, false);
    while more && !dec.Failed()
      invariant dec.Valid() && (old(dec.Failed()) ==> dec.Failed())
      invariant !old(dec.Failed()) ==> MoreBoolsInv(tag, vals, more, dec.Failed(), dec.Left(), goal)
      decreases !dec.Failed(), |dec.data| - dec.offset
    {
      var b := dec.Byte();
      ghost var before := vals;
      vals := vals + [b == 1];
      AheadSnoc(before, b == 1, ReadMoreBools(tag, dec.Left()));
      more := NextValue(dec, tag, false);
    }
    assert vals + [] == vals;
  }

  ghost predicate MoreBoolsInv(tag: byte, vals: seq<bool>, more: bool, failed: bool,
                               left: seq<byte>, goal: Got<seq<bool>>) {
    if failed then goal.Fail?
    else if !more then goal == Ahead(vals, Got([], left))
    else
      var d := ReadByte(left);
      if d.Fail? then goal.Fail? else goal == Ahead(vals, Ahead([d.value == 1], ReadMoreBools(tag, d.rest)))
  }

  // ---------------------------------------------------------------- groups and messages

  /** The switch of attribGroup.decode; a tag it does not know leaves nil, which panics. */
  method DecodeAttribute(dec: Decode, tag: byte) returns (a: Attribute)
    requires dec.Valid()
    modifies dec
    ensures dec.Did(old(dec.Failed()), ReadAttribute(tag, old(dec.Left())), a)
  {
    hide ReadInts, ReadBools, ReadStrs;
    if IsIntTag(tag) {
      a := DecodeInts(dec, tag);
    } else if tag == BOOLEAN {
      a := DecodeBools(dec, tag);
    } else if IsStrTag(tag) {
      a := DecodeStrs(dec, tag);
    } else {
      dec.panicked := true;
      a := StrAttr(tag, [], []);
    }
  }

  /** attribGroup.decode: the attributes up to a delimiter tag. */
  method DecodeGroup(dec: Decode) returns (vals: seq<Attribute>)
    requires dec.Valid()
    modifies dec
    ensures dec.Did(old(dec.Failed()), ReadAttributes(old(dec.Left())), vals)
  {
    hide ReadAttribute;
    ghost var goal, at := ReadAttributes(dec.Left()), dec.Left();
    AheadNothing(goal);
    vals := [];
    var vtag := dec.Byte();
    while vtag > LAST_DELIMITER
      invariant dec.Valid() && (old(dec.Failed()) ==> dec.Failed())
      invariant !old(dec.Failed()) ==> if dec.Failed() then goal.Fail? else
          && dec.offset > 0 && at == dec.data[dec.offset - 1..] && at[0] == vtag
          && goal == Ahead(vals, ReadAttributes(at))
      decreases !dec.Failed(), |dec.data| - dec.offset
    {
      if dec.Failed() {
        return;
      }
      var v := DecodeAttribute(dec, vtag);
      ghost var before := vals;
      vals := vals + [v];
      at := dec.Left();
      AheadSnoc(before, v, ReadAttributes(at));
      vtag := dec.Byte();
    }
    dec.Seek(-1);
    assert !dec.Failed() ==> dec.Left() == at;
    assert vals + [] == vals;
  }

  /** The group loop of ippMsg.decode, and the group that it appends for the end tag. */
  method DecodeGroups(dec: Decode) returns (groups: seq<Group>)
    requires dec.Valid()
    modifies dec
    ensures dec.Did(old(dec.Failed()), ReadGroups(old(dec.Left())), groups)
  {
    hide ReadAttributes;
    ghost var goal, at := ReadGroups(dec.Left()), dec.Left();
    AheadNothing(goal);
    groups := [];
    var dtag := dec.Byte();
    while dtag != END_TAG && !dec.Failed()
      invariant dec.Valid() && (old(dec.Failed()) ==> dec.Failed())
      invariant !old(dec.Failed()) ==> if dec.Failed() then goal.Fail? else
          && dec.offset > 0 && at == dec.data[dec.offset - 1..] && at[0] == dtag
          && goal == Ahead(groups, ReadGroups(at))
      decreases !dec.Failed(), |dec.data| - dec.offset
    {
      var vals := DecodeGroup(dec);
      ghost var before := groups;
      groups := groups + [Group(dtag, vals)];
      at := dec.Left();
      AheadSnoc(before, Group(dtag, vals), ReadGroups(at));
      dtag := dec.Byte();
    }
    groups := groups + [Group(END_TAG, [])];
  }

  method DecodeHeader(dec: Decode) returns (h: (byte, byte, int16, int32))
    requires dec.Valid()
    modifies dec
    ensures dec.Did(old(dec.Failed()), ReadHeader(old(dec.Left())), h)
  {
    hide ReadByte, ReadInt16, ReadInt32;
    var major := dec.Byte();
    var minor := dec.Byte();
    var code := dec.Int16();
    var id := dec.Int32();
    h := (major, minor, code, id);
  }

  lemma MessageUnfold(s: seq<byte>)
    ensures var h := ReadHeader(s);
            if h.Fail? then ReadMessage(s).Fail? else
            var g := ReadGroups(h.rest);
            if g.Fail? then ReadMessage(s).Fail?
            else ReadMessage(s) == Got(Message(h.value.0, h.value.1, h.value.2, h.value.3, g.value), g.rest)
  {
    hide ReadHeader, ReadGroups;
  }

  /** ippMsg.decode: the message and the print data, or an error. */
  method DecodeMessage(raw: seq<byte>) returns (m: Message, data: seq<byte>, ok: bool)
    ensures ok <==> ReadMessage(raw).Got?
    ensures ok ==> ReadMessage(raw) == Got(m, data)
  {
    hide ReadHeader, ReadGroups, ReadMessage;
    MessageUnfold(raw);
    var dec := new Decode(raw);
    var h := DecodeHeader(dec);
    var groups := DecodeGroups(dec);
    data := dec.Rest();
    m := Message(h.0, h.1, h.2, h.3, groups);
    ok := !dec.Failed();
  }

  // ---------------------------------------------------------------- writing

  class Encoder {
    var buf: seq<byte>

    constructor ()
      ensures buf == []
    {
      buf := [];
    }

    method WriteUint8(b: byte)
      modifies this
      ensures buf == old(buf) + [b]
    {
      buf := buf + [b];
    }

    method WriteUint16(v: int16)
      modifies this
      ensures buf == old(buf) + U16Bytes(v)
    {
      var u: u16 := v % 0x1_0000;
      buf := buf + [Hi(u), Lo(u)];
    }

    method WriteUint32(v: int32)
      modifies this
      ensures buf == old(buf) + U32Bytes(v)
    {
      var u: u32 := v % TWO32;
      buf := buf + [Hi(Hi16(u)), Lo(Hi16(u)), Hi(Lo16(u)), Lo(Lo16(u))];
    }

    /** The length is cut down to an int16; its two bytes are those of the length modulo 2^16. */
    method WriteData(v: seq<byte>, zero: bool)
      modifies this
      ensures buf == old(buf) + DataBytes(v, zero)
    {
      if zero {
        WriteUint16(0);
      } else {
        WriteUint16(Signed16(|v| % 0x1_0000));
        SameLength(|v|);
        buf := buf + v;
      }
    }
  }

  lemma SameLength(n: nat)
    ensures U16Bytes(Signed16(n % 0x1_0000)) == U16Bytes(n)
  {
    var w := n % 0x1_0000;
    assert Signed16(w) % 0x1_0000 == w;
  }

  /** valInt.encode */
  method EncodeInts(enc: Encoder, tag: byte, name: seq<byte>, vals: seq<int32>)
    modifies enc
    ensures enc.buf == old(enc.buf) + IntItems(tag, name, false, vals)
  {
    hide DataBytes, U16Bytes, U32Bytes;
    var z := false;
    for i := 0 to |vals|
      invariant z <==> i > 0
      invariant enc.buf + IntItems(tag, name, z, vals[i..]) == old(enc.buf) + IntItems(tag, name, false, vals)
    {
      ghost var before := enc.buf;
      enc.WriteUint8(tag);
      enc.WriteData(name, z);
      enc.WriteUint16(4);
      enc.WriteUint32(vals[i]);
      assert enc.buf == before + IntItem(tag, name, z, vals[i]);
      assert vals[i..][1..] == vals[i + 1..];
      z := true;
    }
  }

  /** valStr.encode */
  method EncodeStrs(enc: Encoder, tag: byte, name: seq<byte>, vals: seq<seq<byte>>)
    modifies enc
    ensures enc.buf == old(enc.buf) + StrItems(tag, name, false, vals)
  {
    hide DataBytes;
    var z := false;
    for i := 0 to |vals|
      invariant z <==> i > 0
      invariant enc.buf + StrItems(tag, name, z, vals[i..]) == old(enc.buf) + StrItems(tag, name, false, vals)
    {
      ghost var before := enc.buf;
      enc.WriteUint8(tag);
      enc.WriteData(name, z);
      enc.WriteData(vals[i], false);
      assert enc.buf == before + StrItem(tag, name, z, vals[i]);
      assert vals[i..][1..] == vals[i + 1..];
      z := true;
    }
  }

  /** valBool.encode */
  method EncodeBools(enc: Encoder, tag: byte, name: seq<byte>, vals: seq<bool>)
    modifies enc
    ensures enc.buf == old(enc.buf) + BoolItems(tag, name, false, vals)
  {
    hide DataBytes, U16Bytes;
    var z := false;
    for i := 0 to |vals|
      invariant z <==> i > 0
      invariant enc.buf + BoolItems(tag, name, z, vals[i..]) == old(enc.buf) + BoolItems(tag, name, false, vals)
    {
      ghost var before := enc.buf;
      enc.WriteUint8(tag);
      enc.WriteData(name, z);
      enc.WriteUint16(1);
      enc.WriteUint8(if vals[i] then 1 else 0);
      assert enc.buf == before + BoolItem(tag, name, z, vals[i]);
      assert vals[i..][1..] == vals[i + 1..];
      z := true;
    }
  }

  method EncodeAttribute(enc: Encoder, a: Attribute)
    modifies enc
    ensures enc.buf == old(enc.buf) + AttributeBytes(a)
  {
    match a
    case IntAttr(tag, name, vs) => EncodeInts(enc, tag, name, vs);
    case StrAttr(tag, name, vs) => EncodeStrs(enc, tag, name, vs);
    case BoolAttr(tag, name, vs) => EncodeBools(enc, tag, name, vs);
  }

  /** attribGroup.encode */
  method EncodeGroup(enc: Encoder, g: Group)
    modifies enc
    ensures enc.buf == old(enc.buf) + ([g.tag] + AttributesBytes(g.attributes))
  {
    hide AttributeBytes;
    enc.WriteUint8(g.tag);
    for i := 0 to |g.attributes|
      invariant enc.buf + AttributesBytes(g.attributes[i..]) == old(enc.buf) + ([g.tag] + AttributesBytes(g.attributes))
    {
      EncodeAttribute(enc, g.attributes[i]);
      assert g.attributes[i..][1..] == g.attributes[i + 1..];
    }
  }

  /** ippMsg.encode */
  method EncodeMessage(m: Message) returns (bytes: seq<byte>)
    ensures bytes == MessageBytes(m)
  {
    hide U16Bytes, U32Bytes, AttributesBytes;
    var enc := new Encoder();
    enc.WriteUint8(m.major);
    enc.WriteUint8(m.minor);
    enc.WriteUint16(m.statusCode);
    enc.WriteUint32(m.requestId);
    ghost var header := enc.buf;
    assert header == [m.major, m.minor] + U16Bytes(m.statusCode) + U32Bytes(m.requestId);
    for i := 0 to |m.groups|
      invariant enc.buf + GroupsBytes(m.groups[i..]) == header + GroupsBytes(m.groups)
    {
      EncodeGroup(enc, m.groups[i]);
      assert m.groups[i..][1..] == m.groups[i + 1..];
    }
    bytes := enc.buf;
  }
}
