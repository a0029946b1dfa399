/**
 Decoding what was encoded gives the message back, with the print data behind it: exactly
 so for attributes of at most two integers; longer ones come back in pieces of two, which
 encode to the same bytes again.
 */
module IppRoundTrip {
  import opened Words
  import opened Ipp

  // ---------------------------------------------------------------- what can be carried

  predicate Short(s: seq<byte>) {
    |s| < 0x8000
  }

  predicate Carried(a: Attribute) {
    && 0 < |a.name| && Short(a.name)
    && match a
       case IntAttr(tag, _, vs) => tag in {0x21, 0x23, 0x33} && vs != []
       case StrAttr(tag, _, vs) =>
         tag in {0x41, 0x42, 0x44, 0x45, 0x47, 0x48, 0x49} && vs != [] && forall v :: v in vs ==> Short(v)
       case BoolAttr(_, _, _) => false
  }

  predicate AllCarried(as_: seq<Attribute>) {
    forall a :: a in as_ ==> Carried(a)
  }

  /** Groups that open with a delimiter tag, and the end tag behind them. */
  predicate CarriedGroups(gs: seq<Group>) {
    gs != [] &&
    if |gs| == 1 then gs[0] == Group(3, [])
    else gs[0].tag in {0, 1, 2, 4, 5} && AllCarried(gs[0].attributes) &&
         CarriedGroups(gs[1..])
  }

  // ---------------------------------------------------------------- how it comes back

  /** Integers in pieces of two, only the first of them named. */
  function Pieces(tag: byte, name: seq<byte>, vs: seq<int32>): seq<Attribute>
    decreases |vs|
  {
    if |vs| <= 2 then [IntAttr(tag, name, vs)]
    else [IntAttr(tag, name, vs[..2])] + Pieces(tag, [], vs[2..])
  }

  function SplitAttributes(as_: seq<Attribute>): seq<Attribute> {
    if as_ == [] then []
    else (if as_[0].IntAttr? then Pieces(as_[0].tag, as_[0].name, as_[0].ints) else [as_[0]]) +
         SplitAttributes(as_[1..])
  }

  function SplitGroups(gs: seq<Group>): seq<Group> {
    if gs == [] then []
    else [gs[0].(attributes := SplitAttributes(gs[0].attributes))] + SplitGroups(gs[1..])
  }

  function Split(m: Message): Message {
    m.(groups := SplitGroups(m.groups))
  }

  // ---------------------------------------------------------------- primitive values

  lemma Int16Back(v: int16, rest: seq<byte>)
    ensures ReadInt16(U16Bytes(v) + rest) == Got(v, rest)
  {
    var s := U16Bytes(v) + rest;
    WordParses(s, 0, v % 0x1_0000);
    assert s[2..] == rest;
  }

  lemma Int32Back(v: int32, rest: seq<byte>)
    ensures ReadInt32(U32Bytes(v) + rest) == Got(v, rest)
  {
    hide Hi, Lo, Hi16, Lo16, Get32, Signed32;
    var s := U32Bytes(v) + rest;
    LongParses(s, 0, v % TWO32);
    assert s[4..] == rest;
    SignedBack(v);
  }

  lemma SignedBack(v: int32)
    ensures Signed32(v % TWO32) == v
  {
    assert v < 0 ==> v % TWO32 == v + TWO32;
  }

  lemma DataBack(x: seq<byte>, zero: bool, rest: seq<byte>)
    requires Short(x)
    ensures ReadData(DataBytes(x, zero) + rest) == Got(if zero then [] else x, rest)
  {
    hide U16Bytes, ReadInt16;
    var r := if zero then rest else x + rest;
    Int16Back(if zero then 0 else |x|, r);
    assert DataBytes(x, zero) + rest == U16Bytes(if zero then 0 else |x|) + r;
    if !zero {
      assert r[..|x|] == x && r[|x|..] == rest;
    }
  }

  lemma IntValueBack(v: int32, rest: seq<byte>)
    ensures ReadIntValue(U16Bytes(4) + U32Bytes(v) + rest) == Got(v, rest)
  {
    hide U16Bytes, U32Bytes, ReadInt16, ReadInt32;
    assert U16Bytes(4) + U32Bytes(v) + rest == U16Bytes(4) + (U32Bytes(v) + rest);
    Int16Back(4, U32Bytes(v) + rest);
    Int32Back(v, rest);
  }

  // ---------------------------------------------------------------- looking ahead

  predicate Stops(tag: byte, s: seq<byte>) {
    LookAhead(tag, true, s) == Got(false, s)
  }

  lemma GoesOn(tag: byte, name: seq<byte>, rest: seq<byte>)
    ensures LookAhead(tag, true, [tag] + (DataBytes(name, true) + rest)) == Got(true, rest)
  {
    hide U16Bytes, ReadInt16;
    var s := [tag] + (DataBytes(name, true) + rest);
    assert s[1..] == U16Bytes(0) + rest;
    Int16Back(0, rest);
  }

  lemma StopsAtName(tag: byte, next: byte, name: seq<byte>, rest: seq<byte>)
    requires 0 < |name| && Short(name)
    ensures Stops(tag, [next] + (DataBytes(name, false) + rest))
  {
    hide U16Bytes, ReadInt16;
    var s := [next] + (DataBytes(name, false) + rest);
    assert s[1..] == U16Bytes(|name|) + (name + rest);
    Int16Back(|name|, name + rest);
  }

  // ---------------------------------------------------------------- attributes

  /** Attributes in front of whatever comes next. */
  function InFront(as_: seq<Attribute>, g: Got<seq<Attribute>>): Got<seq<Attribute>> {
    if g.Fail? then Fail else Got(as_ + g.value, g.rest)
  }

  lemma InFrontTwice(a: seq<Attribute>, b: seq<Attribute>, g: Got<seq<Attribute>>)
    ensures InFront(a, InFront(b, g)) == InFront(a + b, g)
  {
    if g.Got? {
      assert a + (b + g.value) == a + b + g.value;
    }
  }

  lemma FirstAttribute(tag: byte, s: seq<byte>, a: Attribute, rest: seq<byte>)
    requires tag > LAST_DELIMITER && ReadAttribute(tag, s) == Got(a, rest)
    ensures ReadAttributes([tag] + s) == InFront([a], ReadAttributes(rest))
  {
    hide ReadAttribute;
    assert ([tag] + s)[1..] == s;
  }

  lemma OneInt(tag: byte, name: seq<byte>, zero: bool, v: int32, rest: seq<byte>)
    requires Short(name) && Stops(tag, rest)
    ensures ReadInts(tag, DataBytes(name, zero) + (U16Bytes(4) + U32Bytes(v)) + rest) ==
            Got(IntAttr(tag, if zero then [] else name, [v]), rest)
  {
    hide DataBytes, U16Bytes, U32Bytes, ReadData, ReadIntValue, LookAhead;
    var tail := U16Bytes(4) + U32Bytes(v) + rest;
    assert DataBytes(name, zero) + (U16Bytes(4) + U32Bytes(v)) + rest == DataBytes(name, zero) + tail;
    DataBack(name, zero, tail);
    IntValueBack(v, rest);
  }

  lemma TwoInts(tag: byte, name: seq<byte>, zero: bool, v: int32, v2: int32, rest: seq<byte>)
    requires Short(name)
    ensures ReadInts(tag, DataBytes(name, zero) + (U16Bytes(4) + U32Bytes(v)) +
                          (IntItem(tag, name, true, v2) + rest)) ==
            Got(IntAttr(tag, if zero then [] else name, [v, v2]), rest)
  {
    hide DataBytes, U16Bytes, U32Bytes, ReadData, ReadIntValue, LookAhead;
    var second := U16Bytes(4) + U32Bytes(v2) + rest;
    var more := [tag] + (DataBytes(name, true) + second);
    assert IntItem(tag, name, true, v2) + rest == more;
    var tail := U16Bytes(4) + U32Bytes(v) + more;
    assert DataBytes(name, zero) + (U16Bytes(4) + U32Bytes(v)) + more == DataBytes(name, zero) + tail;
    DataBack(name, zero, tail);
    IntValueBack(v, more);
    GoesOn(tag, name, second);
    IntValueBack(v2, rest);
  }

  lemma {:induction false} IntsBack(tag: byte, name: seq<byte>, zero: bool, vs: seq<int32>, rest: seq<byte>)
    requires IsIntTag(tag) && Short(name) && vs != [] && Stops(tag, rest)
    ensures ReadAttributes(IntItems(tag, name, zero, vs) + rest) ==
            InFront(Pieces(tag, if zero then [] else name, vs), ReadAttributes(rest))
    decreases |vs|
  {
    hide LookAhead, ReadInts, DataBytes, U16Bytes, U32Bytes;
    var name' := if zero then [] else name;
    var first := DataBytes(name, zero) + (U16Bytes(4) + U32Bytes(vs[0]));
    if |vs| == 1 {
      assert IntItems(tag, name, zero, vs) + rest == [tag] + (first + rest);
      OneInt(tag, name, zero, vs[0], rest);
      assert vs == [vs[0]];
      FirstAttribute(tag, first + rest, IntAttr(tag, name', vs), rest);
    } else {
      var after := IntItems(tag, name, true, vs[2..]) + rest;
      var second := IntItem(tag, name, true, vs[1]) + after;
      assert vs[1..][1..] == vs[2..];
      assert IntItems(tag, name, zero, vs) + rest == [tag] + (first + second);
      TwoInts(tag, name, zero, vs[0], vs[1], after);
      assert vs[..2] == [vs[0], vs[1]];
      FirstAttribute(tag, first + second, IntAttr(tag, name', vs[..2]), after);
      if |vs| == 2 {
        assert after == rest && vs[..2] == vs;
      } else {
        IntsBack(tag, name, true, vs[2..], rest);
        InFrontTwice([IntAttr(tag, name', vs[..2])], Pieces(tag, [], vs[2..]), ReadAttributes(rest));
      }
    }
  }

  lemma {:induction false} MoreStrsBack(tag: byte, name: seq<byte>, vs: seq<seq<byte>>, rest: seq<byte>)
    requires (forall v :: v in vs ==> Short(v)) && Stops(tag, rest)
    ensures ReadMoreStrs(tag, StrItems(tag, name, true, vs) + rest) == Got(vs, rest)
    decreases |vs|
  {
    hide LookAhead, ReadData, DataBytes;
    if vs == [] {
      assert StrItems(tag, name, true, vs) + rest == rest;
    } else {
      assert vs[0] in vs && forall v :: v in vs[1..] ==> v in vs;
      var after := StrItems(tag, name, true, vs[1..]) + rest;
      assert StrItems(tag, name, true, vs) + rest ==
             [tag] + (DataBytes(name, true) + (DataBytes(vs[0], false) + after));
      GoesOn(tag, name, DataBytes(vs[0], false) + after);
      DataBack(vs[0], false, after);
      MoreStrsBack(tag, name, vs[1..], rest);
      assert [vs[0]] + vs[1..] == vs;
    }
  }

  lemma StrsBack(tag: byte, name: seq<byte>, vs: seq<seq<byte>>, rest: seq<byte>)
    requires IsStrTag(tag) && Short(name) && vs != [] && Stops(tag, rest)
    requires forall v :: v in vs ==> Short(v)
    ensures ReadAttributes(StrItems(tag, name, false, vs) + rest) ==
            InFront([StrAttr(tag, name, vs)], ReadAttributes(rest))
  {
    hide LookAhead, ReadData, DataBytes, ReadMoreStrs, ReadAttributes;
    assert vs[0] in vs && forall v :: v in vs[1..] ==> v in vs;
    var after := StrItems(tag, name, true, vs[1..]) + rest;
    var body := DataBytes(name, false) + (DataBytes(vs[0], false) + after);
    assert StrItems(tag, name, false, vs) + rest == [tag] + body;
    DataBack(name, false, DataBytes(vs[0], false) + after);
    DataBack(vs[0], false, after);
    MoreStrsBack(tag, name, vs[1..], rest);
    assert [vs[0]] + vs[1..] == vs;
    FirstAttribute(tag, body, StrAttr(tag, name, vs), rest);
  }

  // ---------------------------------------------------------------- groups and messages

  /** What follows an attribute never looks like one more of its values. */
  lemma StopsBehind(tag: byte, as_: seq<Attribute>, next: seq<byte>)
    requires AllCarried(as_) && next != [] && next[0] <= LAST_DELIMITER < tag
    ensures Stops(tag, AttributesBytes(as_) + next)
  {
    hide LookAhead, DataBytes, U16Bytes, U32Bytes, AttributeBytes;
    if as_ == [] {
      assert AttributesBytes(as_) + next == next;
      StopsAtDelimiter(tag, next);
    } else {
      assert as_[0] in as_;
      var b := AttributeBytes(as_[0]);
      NameComesFirst(as_[0]);
      var n := DataBytes(as_[0].name, false);
      var rest := b[1 + |n|..] + (AttributesBytes(as_[1..]) + next);
      assert AttributesBytes(as_) + next == b + (AttributesBytes(as_[1..]) + next);
      Regroup(as_[0].tag, n, b[1 + |n|..], AttributesBytes(as_[1..]) + next);
      StopsAtName(tag, as_[0].tag, as_[0].name, rest);
    }
  }

  lemma Regroup(tag: byte, a: seq<byte>, b: seq<byte>, c: seq<byte>)
    ensures [tag] + a + b + c == [tag] + (a + (b + c))
  {
  }

  lemma StopsAtDelimiter(tag: byte, next: seq<byte>)
    requires next != [] && next[0] != tag
    ensures Stops(tag, next)
  {
  }

  lemma NameComesFirst(a: Attribute)
    requires Carried(a)
    ensures var n := DataBytes(a.name, false);
            var b := AttributeBytes(a);
            |b| >= 1 + |n| && b == [a.tag] + n + b[1 + |n|..]
  {
    hide DataBytes, U16Bytes, U32Bytes;
    var n := DataBytes(a.name, false);
    match a
    case IntAttr(tag, name, vs) =>
      var tail := U16Bytes(4) + U32Bytes(vs[0]) + IntItems(tag, name, true, vs[1..]);
      assert AttributeBytes(a) == [tag] + n + tail;
    case StrAttr(tag, name, vs) =>
      var tail := DataBytes(vs[0], false) + StrItems(tag, name, true, vs[1..]);
      assert AttributeBytes(a) == [tag] + n + tail;
  }

  lemma {:induction false} AttributesBack(as_: seq<Attribute>, next: seq<byte>)
    requires AllCarried(as_) && next != [] && next[0] <= LAST_DELIMITER
    ensures ReadAttributes(AttributesBytes(as_) + next) == Got(SplitAttributes(as_), next)
    decreases |as_|
  {
    hide LookAhead, DataBytes, U16Bytes, U32Bytes, ReadAttribute, IntItems, StrItems;
    if as_ == [] {
      assert AttributesBytes(as_) + next == next;
    } else {
      var a, rest := as_[0], AttributesBytes(as_[1..]) + next;
      assert a in as_ && forall b :: b in as_[1..] ==> b in as_;
      assert AttributesBytes(as_) + next == AttributeBytes(a) + rest;
      StopsBehind(a.tag, as_[1..], next);
      AttributesBack(as_[1..], next);
      match a
      case IntAttr(tag, name, vs) => IntsBack(tag, name, false, vs, rest);
      case StrAttr(tag, name, vs) => StrsBack(tag, name, vs, rest);
    }
  }

  lemma {:induction false} GroupsBack(gs: seq<Group>, job: seq<byte>)
    requires CarriedGroups(gs)
    ensures ReadGroups(GroupsBytes(gs) + job) == Got(SplitGroups(gs), job)
  {
    hide ReadAttributes, AttributesBytes, SplitAttributes, ReadGroups, GroupsBytes;
    if |gs| == 1 {
      OnlyEnd(job);
      assert gs == [Group(END_TAG, [])];
    } else {
      var g, rest := gs[0], GroupsBytes(gs[1..]) + job;
      GroupsStart(gs, job);
      GroupsStart(gs[1..], job);
      AttributesBack(g.attributes, rest);
      GroupsBack(gs[1..], job);
      FirstGroup(g.tag, AttributesBytes(g.attributes) + rest, SplitAttributes(g.attributes), rest);
    }
  }

  lemma GroupsStart(gs: seq<Group>, job: seq<byte>)
    requires gs != []
    ensures GroupsBytes(gs) != [] && GroupsBytes(gs)[0] == gs[0].tag
    ensures GroupsBytes(gs) + job ==
            [gs[0].tag] + (AttributesBytes(gs[0].attributes) + (GroupsBytes(gs[1..]) + job))
  {
    hide AttributesBytes;
    var a, t := AttributesBytes(gs[0].attributes), GroupsBytes(gs[1..]);
    assert GroupsBytes(gs) == [gs[0].tag] + a + t;
    Regroup(gs[0].tag, a, t, job);
  }

  lemma FirstGroup(tag: byte, s: seq<byte>, as_: seq<Attribute>, rest: seq<byte>)
    requires tag != END_TAG && ReadAttributes(s) == Got(as_, rest) && ReadGroups(rest).Got?
    ensures ReadGroups([tag] + s) ==
            Got([Group(tag, as_)] + ReadGroups(rest).value, ReadGroups(rest).rest)
  {
    hide ReadAttributes;
    assert ([tag] + s)[1..] == s;
  }

  lemma OnlyEnd(job: seq<byte>)
    ensures var gs := [Group(END_TAG, [])];
            ReadGroups(GroupsBytes(gs) + job) == Got(SplitGroups(gs), job)
  {
    var gs := [Group(END_TAG, [])];
    assert (GroupsBytes(gs) + job)[1..] == job;
    assert SplitGroups(gs) == gs;
  }

  /** The main result: a message comes back split, with its print data behind it. */
  lemma MessageBack(m: Message, job: seq<byte>)
    requires CarriedGroups(m.groups)
    ensures ReadMessage(MessageBytes(m) + job) == Got(Split(m), job)
  {
    hide U16Bytes, U32Bytes, ReadInt16, ReadInt32, ReadGroups, GroupsBytes;
    var s := MessageBytes(m) + job;
    var r3 := GroupsBytes(m.groups) + job;
    var r2 := U32Bytes(m.requestId) + r3;
    var r1 := U16Bytes(m.statusCode) + r2;
    assert s == [m.major] + ([m.minor] + r1);
    assert s[1..] == [m.minor] + r1;
    assert s[1..][1..] == r1;
    Int16Back(m.statusCode, r2);
    Int32Back(m.requestId, r3);
    GroupsBack(m.groups, job);
  }

  // ---------------------------------------------------------------- when it comes back unchanged

  predicate AtMostTwo(a: Attribute) {
    a.IntAttr? ==> |a.ints| <= 2
  }

  lemma {:induction false} AttributesUnchanged(as_: seq<Attribute>)
    ensures |SplitAttributes(as_)| >= |as_|
    ensures SplitAttributes(as_) == as_ <==> forall a :: a in as_ ==> AtMostTwo(a)
  {
    if as_ != [] {
      var a, rest := as_[0], as_[1..];
      AttributesUnchanged(rest);
      assert forall b :: b in as_ <==> b == a || b in rest;
      if AtMostTwo(a) {
        assert SplitAttributes(as_) == [a] + SplitAttributes(rest);
        assert SplitAttributes(as_)[1..] == SplitAttributes(rest);
      } else {
        assert |Pieces(a.tag, a.name, a.ints)| >= 2;
      }
    }
  }

  lemma {:induction false} GroupsUnchanged(gs: seq<Group>)
    ensures SplitGroups(gs) == gs <==>
            forall g, a :: g in gs && a in g.attributes ==> AtMostTwo(a)
  {
    if gs != [] {
      var g, rest := gs[0], gs[1..];
      AttributesUnchanged(g.attributes);
      GroupsUnchanged(rest);
      assert forall h :: h in gs <==> h == g || h in rest;
      assert SplitGroups(gs)[0] == g.(attributes := SplitAttributes(g.attributes));
      assert SplitGroups(gs)[1..] == SplitGroups(rest);
      assert gs == [g] + rest;
    }
  }

  /** Structural round trip, exactly for messages whose integer attributes have one or two values. */
  lemma RoundTrip(m: Message, job: seq<byte>)
    requires CarriedGroups(m.groups)
    ensures ReadMessage(MessageBytes(m) + job) == Got(m, job) <==>
            forall g, a :: g in m.groups && a in g.attributes ==> AtMostTwo(a)
  {
    MessageBack(m, job);
    GroupsUnchanged(m.groups);
  }

  // ---------------------------------------------------------------- byte stability

  lemma {:induction false} PiecesBytes(tag: byte, name: seq<byte>, zero: bool, vs: seq<int32>)
    ensures AttributesBytes(Pieces(tag, name, vs)) == IntItems(tag, name, false, vs)
    ensures IntItems(tag, name, true, vs) == IntItems(tag, [], false, vs)
    decreases |vs|
  {
    hide U16Bytes, U32Bytes;
    if vs != [] {
      PiecesBytes(tag, name, zero, vs[1..]);
      NamelessItem(tag, name, vs[0]);
    }
    if |vs| <= 2 {
      var a := IntAttr(tag, name, vs);
      assert Pieces(tag, name, vs) == [a];
      assert AttributesBytes([a]) == AttributeBytes(a) + AttributesBytes([a][1..]);
    } else {
      var first, more := IntAttr(tag, name, vs[..2]), Pieces(tag, [], vs[2..]);
      PiecesBytes(tag, [], zero, vs[2..]);
      PiecesBytes(tag, name, zero, vs[2..]);
      assert ([first] + more)[1..] == more;
      TwoThenRest(tag, name, vs);
    }
  }

  lemma NamelessItem(tag: byte, name: seq<byte>, v: int32)
    ensures IntItem(tag, name, true, v) == IntItem(tag, [], false, v) == IntItem(tag, [], true, v)
  {
    hide U32Bytes;
    assert U16Bytes(0) + [] == U16Bytes(0);
  }

  lemma TwoThenRest(tag: byte, name: seq<byte>, vs: seq<int32>)
    requires |vs| > 2
    ensures IntItems(tag, name, false, vs) ==
            IntItems(tag, name, false, vs[..2]) + IntItems(tag, name, true, vs[2..])
  {
    hide IntItem;
    assert vs[1..][1..] == vs[2..];
    var two := vs[..2];
    assert two[1..] == [vs[1]] && two[1..][1..] == [];
    assert IntItems(tag, name, true, two[1..]) == IntItem(tag, name, true, vs[1]);
  }

  lemma {:induction false} AttributesBytesConcat(a: seq<Attribute>, b: seq<Attribute>)
    ensures AttributesBytes(a + b) == AttributesBytes(a) + AttributesBytes(b)
  {
    hide AttributeBytes;
    if a == [] {
      assert a + b == b;
    } else {
      assert (a + b)[1..] == a[1..] + b;
      AttributesBytesConcat(a[1..], b);
    }
  }

  lemma {:induction false} SplitKeepsBytes(as_: seq<Attribute>)
    ensures AttributesBytes(SplitAttributes(as_)) == AttributesBytes(as_)
  {
    hide AttributeBytes, Pieces;
    if as_ != [] {
      var a := as_[0];
      var first := if a.IntAttr? then Pieces(a.tag, a.name, a.ints) else [a];
      OneAttribute(a);
      SplitKeepsBytes(as_[1..]);
      AttributesBytesConcat(first, SplitAttributes(as_[1..]));
    }
  }

  lemma OneAttribute(a: Attribute)
    ensures AttributesBytes([a]) == AttributeBytes(a)
    ensures a.IntAttr? ==> AttributesBytes(Pieces(a.tag, a.name, a.ints)) == AttributeBytes(a)
  {
    hide Pieces;
    assert [a][1..] == [];
    if a.IntAttr? {
      PiecesBytes(a.tag, a.name, false, a.ints);
    }
  }

  lemma {:induction false} SplitGroupsKeepBytes(gs: seq<Group>)
    ensures GroupsBytes(SplitGroups(gs)) == GroupsBytes(gs)
  {
    hide AttributesBytes, SplitAttributes;
    if gs != [] {
      SplitKeepsBytes(gs[0].attributes);
      SplitGroupsKeepBytes(gs[1..]);
      assert SplitGroups(gs)[1..] == SplitGroups(gs[1..]);
    }
  }

  /** Byte stability: encoding what was decoded gives the same bytes, however many values there are. */
  lemma BytesStable(m: Message, job: seq<byte>)
    requires CarriedGroups(m.groups)
    ensures var g := ReadMessage(MessageBytes(m) + job);
            g.Got? && g.rest == job && MessageBytes(g.value) == MessageBytes(m)
  {
    MessageBack(m, job);
    SplitGroupsKeepBytes(m.groups);
  }

  // ---------------------------------------------------------------- booleans

  lemma {:induction false} MoreBoolsTakeFourBytesEach(tag: byte, s: seq<byte>)
    ensures var g := ReadMoreBools(tag, s);
            g.Got? ==> |s| == |g.rest| + 4 * |g.value|
    decreases |s|
  {
    if |s| >= 4 && LookAhead(tag, false, s) == Got(true, s[3..]) {
      MoreBoolsTakeFourBytesEach(tag, s[3..][1..]);
    }
  }

  lemma {:induction false} BoolItemsLength(tag: byte, name: seq<byte>, vs: seq<bool>)
    ensures |BoolItems(tag, name, true, vs)| == 6 * |vs|
    decreases |vs|
  {
    if vs != [] {
      BoolItemsLength(tag, name, vs[1..]);
    }
  }

  /** A boolean attribute is never read back as it was written: the lengths do not fit. */
  lemma BooleansNeverComeBack(tag: byte, name: seq<byte>, vs: seq<bool>, rest: seq<byte>)
    requires Short(name) && vs != []
    ensures ReadBools(tag, BoolItems(tag, name, false, vs)[1..] + rest) != Got(BoolAttr(tag, name, vs), rest)
  {
    hide ReadData, ReadMoreBools, DataBytes, Hi, Lo;
    var more := BoolItems(tag, name, true, vs[1..]) + rest;
    var r := U16Bytes(1) + [if vs[0] then 1 else 0] + more;
    assert BoolItems(tag, name, false, vs)[1..] + rest == DataBytes(name, false) + r;
    DataBack(name, false, r);
    BoolItemsLength(tag, name, vs[1..]);
    MoreBoolsTakeFourBytesEach(tag, r[1..][1..]);
  }
}
