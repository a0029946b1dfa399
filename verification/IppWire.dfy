/**
 The wire format itself, with its numbers written out: the layout of sections 3.1 and 3.5 of
 RFC 8010, as far as the codec of services/ipp goes.
 */
module IppWire {
  import opened Words
  import opened Ipp
  import opened IppRoundTrip

  // ---------------------------------------------------------------- tags

  /** Byte 3 ends the groups, and what follows it is print data. */
  lemma EndTagEnds(s: seq<byte>)
    requires s != [] && s[0] == 3
    ensures ReadGroups(s) == Got([Group(3, [])], s[1..])
  {
  }

  /** Any other byte opens a group, and there is an end group behind the last one. */
  lemma {:induction false} OtherTagsOpen(s: seq<byte>)
    requires ReadGroups(s).Got?
    ensures s != [] && ReadGroups(s).value != []
    ensures var gs := ReadGroups(s).value;
            && gs[|gs| - 1] == Group(3, [])
            && gs[0].tag == s[0]
            && (|gs| == 1 <==> s[0] == 3)
            && forall i :: 0 <= i < |gs| - 1 ==> gs[i].tag != 3
    decreases |s|
  {
    hide ReadAttributes;
    if s[0] != 3 {
      OtherTagsOpen(ReadAttributes(s[1..]).rest);
    }
  }

  /** Bytes up to 5 end the attributes of a group; any other is the tag of an attribute. */
  lemma DelimiterStops(s: seq<byte>)
    requires s != []
    ensures s[0] <= 5 ==> ReadAttributes(s) == Got([], s)
    ensures s[0] > 5 && ReadAttributes(s).Got? ==>
      ReadAttributes(s).value != [] && ReadAttributes(s).value[0].tag == s[0]
  {
    hide ReadInts, ReadStrs, ReadBools;
    if s[0] > 5 {
      KindsExactly(s[0], s[1..]);
    }
  }

  /** The kind of the values for every tag; the other tags cannot be decoded. */
  lemma KindsExactly(tag: byte, s: seq<byte>)
    ensures var g := ReadAttribute(tag, s);
            g.Got? ==>
              && g.value.tag == tag
              && (g.value.IntAttr? <==> tag in {0x21, 0x23, 0x33})
              && (g.value.BoolAttr? <==> tag == 0x22)
              && (g.value.StrAttr? <==> tag in {0x41, 0x42, 0x44, 0x45, 0x47, 0x48, 0x49})
  {
  }

  /** And each of these tags can be: an attribute without a name and with one value. */
  lemma KindsPossible(tag: byte)
    ensures (exists s :: ReadAttribute(tag, s).Got?) <==>
            tag in {0x21, 0x22, 0x23, 0x33, 0x41, 0x42, 0x44, 0x45, 0x47, 0x48, 0x49}
  {
    if tag in {0x21, 0x23, 0x33} {
      OneInt(tag);
    } else if tag == 0x22 {
      OneBool(tag);
    } else if tag in {0x41, 0x42, 0x44, 0x45, 0x47, 0x48, 0x49} {
      OneStr(tag);
    } else {
      forall s
        ensures ReadAttribute(tag, s).Fail?
      {
        KindsExactly(tag, s);
      }
    }
  }

  lemma OneInt(tag: byte)
    requires tag in {0x21, 0x23, 0x33}
    ensures exists s :: ReadAttribute(tag, s).Got?
  {
    hide Get16, Get32, Signed16, Signed32, U16Bytes, U32Bytes, ReadInt32, ReadInt16;
    var tail := U16Bytes(4) + (U32Bytes(7) + [3]);
    DataBack([], false, tail);
    Int16Back(4, U32Bytes(7) + [3]);
    Int32Back(7, [3]);
    assert ReadAttribute(tag, DataBytes([], false) + tail).Got?;
  }

  lemma OneStr(tag: byte)
    requires tag in {0x41, 0x42, 0x44, 0x45, 0x47, 0x48, 0x49}
    ensures exists s :: ReadAttribute(tag, s).Got?
  {
    hide ReadData, DataBytes;
    DataBack([], false, DataBytes([], false) + [3]);
    DataBack([], false, [3]);
    assert ReadAttribute(tag, DataBytes([], false) + (DataBytes([], false) + [3])).Got?;
  }

  lemma OneBool(tag: byte)
    requires tag == 0x22
    ensures exists s :: ReadAttribute(tag, s).Got?
  {
    hide ReadBools;
    BoolsRead(tag, 0, [], 1, 1, [], []);
    var s := DataBytes([], false) + ([1, 1] + (BoolTail(0, []) + ([tag] + [])));
    assert ReadAttribute(tag, s).Got?;
  }

  // ---------------------------------------------------------------- booleans

  /** Further values as valBool.decode looks for them: behind some other tag and an empty name. */
  function BoolTail(other: byte, bs: seq<byte>): seq<byte> {
    if bs == [] then [] else [other, 0, 0, bs[0]] + BoolTail(other, bs[1..])
  }

  function Truths(bs: seq<byte>): seq<bool> {
    if bs == [] then [] else [bs[0] == 1] + Truths(bs[1..])
  }

  lemma {:induction false} MoreBoolsRead(tag: byte, other: byte, bs: seq<byte>, rest: seq<byte>)
    requires other != tag
    ensures ReadMoreBools(tag, BoolTail(other, bs) + ([tag] + rest)) == Got(Truths(bs), [tag] + rest)
  {
    hide ReadMoreBools;
    var end := [tag] + rest;
    if bs == [] {
      assert BoolTail(other, bs) + end == end;
      NoMoreBools(tag, end);
    } else {
      var more := BoolTail(other, bs[1..]) + end;
      MoreBoolsRead(tag, other, bs[1..], rest);
      assert BoolTail(other, bs) + end == [other, 0, 0, bs[0]] + more;
      OneMoreBool(tag, other, bs[0], more);
    }
  }

  lemma NoMoreBools(tag: byte, s: seq<byte>)
    requires s != [] && s[0] == tag
    ensures ReadMoreBools(tag, s) == Got([], s)
  {
  }

  lemma OneMoreBool(tag: byte, other: byte, b: byte, more: seq<byte>)
    requires other != tag
    ensures var s, g := [other, 0, 0, b] + more, ReadMoreBools(tag, more);
            ReadMoreBools(tag, s) == if g.Fail? then Fail else Got([b == 1] + g.value, g.rest)
  {
    var s := [other, 0, 0, b] + more;
    assert s[1..] == [0, 0, b] + more;
    assert s[1..][2..] == [b] + more;
    assert ([b] + more)[1..] == more;
    assert LookAhead(tag, false, s) == Got(true, [b] + more);
  }

  /**
   What valBool.decode reads, as it is written: one byte of length, a value that is true just
   for 1, and further values behind tags that are not its own, up to one that is.
   */
  lemma BoolsRead(tag: byte, other: byte, name: seq<byte>, length: byte, b: byte, bs: seq<byte>, rest: seq<byte>)
    requires Short(name) && other != tag
    ensures ReadBools(tag, DataBytes(name, false) + ([length, b] + (BoolTail(other, bs) + ([tag] + rest)))) ==
            Got(BoolAttr(tag, name, Truths([b] + bs)), [tag] + rest)
  {
    hide ReadData, DataBytes, ReadMoreBools;
    var tail := BoolTail(other, bs) + ([tag] + rest);
    DataBack(name, false, [length, b] + tail);
    assert ([length, b] + tail)[1..] == [b] + tail && ([b] + tail)[1..] == tail;
    MoreBoolsRead(tag, other, bs, rest);
    assert ([b] + bs)[1..] == bs;
  }

  // ---------------------------------------------------------------- layout

  /** The first eight bytes of a message: version, operation or status, and request number. */
  lemma HeaderLayout(m: Message)
    ensures var b := MessageBytes(m);
            && |b| >= 8 && b[0] == m.major && b[1] == m.minor
            && Signed16(Get16(b, 2)) == m.statusCode && Signed32(Get32(b, 4)) == m.requestId
  {
    hide Hi, Lo, Hi16, Lo16, Signed16, Signed32, Get16, Get32;
    var b := MessageBytes(m);
    WordParses(b, 2, m.statusCode % 0x1_0000);
    LongParses(b, 4, m.requestId % TWO32);
    SignedShort(m.statusCode);
    SignedBack(m.requestId);
  }

  lemma SignedShort(v: int16)
    ensures Signed16(v % 0x1_0000) == v
  {
  }

  /** The encoding of a message that can be carried has byte 3 behind its last attribute. */
  lemma {:induction false} EndsWithEndTag(gs: seq<Group>)
    requires CarriedGroups(gs)
    ensures var b := GroupsBytes(gs);
            |b| > 0 && b[|b| - 1] == 3 && b[0] == gs[0].tag
  {
    if |gs| > 1 {
      EndsWithEndTag(gs[1..]);
    } else {
      assert gs[1..] == [];
    }
  }

  /** A value on the wire: section 3.1.4 of RFC 8010 for the first, 3.1.5 for those that follow it. */
  datatype Item = Item(tag: byte, name: seq<byte>, value: seq<byte>)

  function ItemBytes(i: Item): seq<byte> {
    [i.tag] + ([|i.name| / 0x100 % 0x100, |i.name| % 0x100] + i.name +
               ([|i.value| / 0x100 % 0x100, |i.value| % 0x100] + i.value))
  }

  function ItemsBytes(is_: seq<Item>): seq<byte> {
    if is_ == [] then [] else ItemBytes(is_[0]) + ItemsBytes(is_[1..])
  }

  /** The first value carries the name, the others an empty one. */
  function Items(tag: byte, name: seq<byte>, values: seq<seq<byte>>): seq<Item>
    decreases |values|
  {
    if values == [] then [] else [Item(tag, name, values[0])] + Items(tag, [], values[1..])
  }

  function IntValues(vs: seq<int32>): seq<seq<byte>> {
    if vs == [] then [] else [U32Bytes(vs[0])] + IntValues(vs[1..])
  }

  function BoolValues(vs: seq<bool>): seq<seq<byte>> {
    if vs == [] then [] else [[if vs[0] then 1 else 0]] + BoolValues(vs[1..])
  }

  lemma LengthAndBytes(s: seq<byte>)
    ensures DataBytes(s, false) == [|s| / 0x100 % 0x100, |s| % 0x100] + s
    ensures DataBytes(s, true) == DataBytes([], false)
  {
    TwoOctets(|s|);
    assert U16Bytes(0) + [] == U16Bytes(0);
  }

  lemma TwoOctets(n: nat)
    ensures Hi(n % 0x1_0000) == n / 0x100 % 0x100 && Lo(n % 0x1_0000) == n % 0x100
  {
    var a, b := n / 0x1_0000, n % 0x1_0000;
    assert n == a * 0x1_0000 + b;
    assert n / 0x100 == a * 0x100 + b / 0x100;
  }

  /** An integer is four bytes, most significant first, in two's complement. */
  lemma IntValue(v: int32)
    ensures |U32Bytes(v)| == 4 && Signed32(Get32(U32Bytes(v), 0)) == v
  {
    hide Hi, Lo, Hi16, Lo16, Get32, Signed32;
    LongParses(U32Bytes(v), 0, v % TWO32);
    SignedBack(v);
  }

  lemma OneItem(tag: byte, name: seq<byte>, zero: bool, value: seq<byte>)
    ensures [tag] + (DataBytes(name, zero) + DataBytes(value, false)) ==
            ItemBytes(Item(tag, if zero then [] else name, value))
  {
    hide DataBytes;
    LengthAndBytes(if zero then [] else name);
    LengthAndBytes(name);
    LengthAndBytes(value);
  }

  lemma {:induction false} IntsAreItems(tag: byte, name: seq<byte>, zero: bool, vs: seq<int32>)
    ensures IntItems(tag, name, zero, vs) == ItemsBytes(Items(tag, if zero then [] else name, IntValues(vs)))
    decreases |vs|
  {
    hide ItemBytes, U32Bytes;
    if vs != [] {
      OneItem(tag, name, zero, U32Bytes(vs[0]));
      assert |U32Bytes(vs[0])| == 4 by { IntValue(vs[0]); }
      IntsAreItems(tag, name, true, vs[1..]);
      ItemsCons(tag, if zero then [] else name, IntValues(vs));
    }
  }

  lemma ItemsCons(tag: byte, name: seq<byte>, values: seq<seq<byte>>)
    requires values != []
    ensures ItemsBytes(Items(tag, name, values)) ==
            ItemBytes(Item(tag, name, values[0])) + ItemsBytes(Items(tag, [], values[1..]))
  {
    hide ItemBytes;
    assert Items(tag, name, values)[1..] == Items(tag, [], values[1..]);
  }

  lemma {:induction false} StrsAreItems(tag: byte, name: seq<byte>, zero: bool, vs: seq<seq<byte>>)
    ensures StrItems(tag, name, zero, vs) == ItemsBytes(Items(tag, if zero then [] else name, vs))
    decreases |vs|
  {
    hide ItemBytes, DataBytes;
    if vs != [] {
      OneItem(tag, name, zero, vs[0]);
      StrsAreItems(tag, name, true, vs[1..]);
      ItemsCons(tag, if zero then [] else name, vs);
    }
  }

  lemma {:induction false} BoolsAreItems(tag: byte, name: seq<byte>, zero: bool, vs: seq<bool>)
    ensures BoolItems(tag, name, zero, vs) == ItemsBytes(Items(tag, if zero then [] else name, BoolValues(vs)))
    decreases |vs|
  {
    hide ItemBytes;
    if vs != [] {
      OneItem(tag, name, zero, [if vs[0] then 1 else 0]);
      BoolsAreItems(tag, name, true, vs[1..]);
      ItemsCons(tag, if zero then [] else name, BoolValues(vs));
    }
  }

  /** What is written for any attribute: its values, each behind a tag, a name and its length. */
  lemma AttributeIsItems(a: Attribute)
    ensures AttributeBytes(a) ==
            ItemsBytes(Items(a.tag, a.name, match a
                                            case IntAttr(_, _, vs) => IntValues(vs)
                                            case StrAttr(_, _, vs) => vs
                                            case BoolAttr(_, _, vs) => BoolValues(vs)))
  {
    match a
    case IntAttr(tag, name, vs) => IntsAreItems(tag, name, false, vs);
    case StrAttr(tag, name, vs) => StrsAreItems(tag, name, false, vs);
    case BoolAttr(tag, name, vs) => BoolsAreItems(tag, name, false, vs);
  }
}
