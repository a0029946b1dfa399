/**
 The transmit queue of listener/canary/canary_linux.go: send writes each frame, behind a
 two-byte length, to a ring buffer of 65535 bytes, and transmit empties the ring frame by
 frame until the network refuses one.  The ring is a bounded byte queue: a write keeps what
 fits, a read takes what there is, and reading from an empty ring is an end of file.
 */
module TransmitQueue {
  import opened Words

  const CAPACITY: nat := 65535

  type Frame = seq<byte>

  /** The length prefix: two bytes, so a length is cut down to 16 bits. */
  function Prefix(f: Frame): seq<byte> {
    [Hi(|f| % 0x1_0000), Lo(|f| % 0x1_0000)]
  }

  function Wire(fs: seq<Frame>): seq<byte> {
    if fs == [] then [] else Prefix(fs[0]) + fs[0] + Wire(fs[1..])
  }

  lemma WireCons(fs: seq<Frame>)
    requires fs != []
    ensures Wire(fs) == Prefix(fs[0]) + fs[0] + Wire(fs[1..]) && |Wire(fs)| == 2 + |fs[0]| + |Wire(fs[1..])|
  {
  }

  function Truncated(s: seq<byte>): seq<byte> {
    if |s| <= CAPACITY then s else s[..CAPACITY]
  }

  /** The bytes that transmit reads for a length prefix, and the length it takes them for. */
  function HeadSize(s: seq<byte>): nat {
    if |s| >= 2 then 2 else |s|
  }

  function FirstLength(s: seq<byte>): nat
    requires s != []
  {
    Word(s[0], if |s| >= 2 then s[1] else 0)
  }

  /** Where the first frame ends: there may be less than the prefix promises. */
  function FirstEnd(s: seq<byte>): (end: nat)
    requires s != []
    ensures HeadSize(s) <= end <= |s|
  {
    if HeadSize(s) + FirstLength(s) <= |s| then HeadSize(s) + FirstLength(s) else |s|
  }

  /** A prefix with nothing behind it is an error, and is not seen again. */
  predicate Bare(s: seq<byte>)
    requires s != []
  {
    FirstLength(s) > 0 && |s| == HeadSize(s)
  }

  function First(s: seq<byte>): Frame
    requires s != []
  {
    s[HeadSize(s)..FirstEnd(s)]
  }

  /** What transmit hands to the network for a given content of the ring. */
  function Drained(s: seq<byte>): seq<Frame>
    decreases |s|
  {
    if s == [] || Bare(s) then [] else [First(s)] + Drained(s[FirstEnd(s)..])
  }

  /**
   What it hands over, and what it leaves behind, when the network takes n frames and
   refuses the next: that frame is out of the ring too, and transmit returns.
   */
  function Handed(s: seq<byte>, n: nat): seq<Frame>
    decreases |s|
  {
    if s == [] || Bare(s) then []
    else [First(s)] + if n == 0 then [] else Handed(s[FirstEnd(s)..], n - 1)
  }

  function Left(s: seq<byte>, n: nat): (r: seq<byte>)
    ensures |r| <= |s|
    decreases |s|
  {
    if s == [] || Bare(s) then []
    else if n == 0 then s[FirstEnd(s)..] else Left(s[FirstEnd(s)..], n - 1)
  }

  // ---------------------------------------------------------------- the code

  class Queue {
    var buffer: seq<byte>

    ghost predicate Valid()
      reads this
    {
      |buffer| <= CAPACITY
    }

    constructor ()
      ensures Valid() && buffer == []
    {
      buffer := [];
    }

    method Write(p: seq<byte>)
      requires Valid()
      modifies this
      ensures Valid() && buffer == Truncated(old(buffer) + p)
    {
      var room := CAPACITY - |buffer|;
      buffer := buffer + if |p| <= room then p else p[..room];
    }

    method Read(n: nat) returns (p: seq<byte>, eof: bool)
      requires Valid()
      modifies this
      ensures Valid() && p + buffer == old(buffer)
      ensures eof <==> n > 0 && old(buffer) == []
      ensures |p| == if n <= |old(buffer)| then n else |old(buffer)|
    {
      if n == 0 {
        return [], false;
      }
      if |buffer| == 0 {
        return [], true;
      }
      var k := if n <= |buffer| then n else |buffer|;
      p, eof := buffer[..k], false;
      buffer := buffer[k..];
    }

    /** The two writes of send. */
    method Enqueue(f: Frame)
      requires Valid()
      modifies this
      ensures Valid() && buffer == Truncated(old(buffer) + (Prefix(f) + f))
    {
      Write([Hi(|f| % 0x1_0000), Lo(|f| % 0x1_0000)]);
      Write(f);
    }

    /** The two reads of transmit; both errors leave the ring empty. */
    method ReadFrame() returns (frame: Frame, got: bool)
      requires Valid()
      modifies this
      ensures Valid() && (got <==> old(buffer) != [] && !Bare(old(buffer)))
      ensures got ==> frame == First(old(buffer)) && buffer == old(buffer)[FirstEnd(old(buffer))..]
      ensures !got ==> buffer == []
    {
      hide Word;
      ghost var s := buffer;
      var buff, eof := Read(2);
      if eof {
        return [], false;
      }
      assert buff == s[..HeadSize(s)] && buffer == s[HeadSize(s)..];
      assert buff[0] == s[0] && (|s| >= 2 ==> buff[1] == s[1]);
      var length := Word(buff[0], if |buff| == 2 then buff[1] else 0);
      assert length == FirstLength(s);
      var failed;
      frame, failed := Read(length);
      got := !failed;
      assert got ==> |frame| == FirstEnd(s) - HeadSize(s);
      assert s == buff + (frame + buffer);
    }

    /** transmit, with a network that takes `accepts` frames and then refuses one. */
    method Transmit(accepts: nat) returns (out: seq<Frame>, refused: bool)
      requires Valid()
      modifies this
      ensures Valid() && buffer == Left(old(buffer), accepts)
      ensures out == Handed(old(buffer), accepts)
      ensures |out| <= accepts + 1 && (refused <==> |out| > accepts)
      ensures !refused ==> buffer == [] && out == Drained(old(buffer))
    {
      hide Handed, Left, Drained, Bare, First, FirstEnd;
      out, refused := [], false;
      var n := accepts;
      while true
        invariant Valid() && !refused && |out| + n == accepts
        invariant out + Handed(buffer, n) == Handed(old(buffer), accepts)
        invariant Left(buffer, n) == Left(old(buffer), accepts)
        invariant out + Drained(buffer) == Drained(old(buffer))
        decreases |buffer|
      {
        Unfold(buffer, n);
        ghost var before := out;
        var frame, got := ReadFrame();
        if !got {
          break;
        }
        out := out + [frame];
        assert before + ([frame] + Drained(buffer)) == out + Drained(buffer);
        if n == 0 {
          refused := true;
          break;
        }
        n := n - 1;
        assert before + ([frame] + Handed(buffer, n)) == out + Handed(buffer, n);
      }
    }
  }

  lemma Unfold(s: seq<byte>, n: nat)
    ensures if s == [] || Bare(s) then Drained(s) == [] && Handed(s, n) == [] && Left(s, n) == []
            else
              var rest := s[FirstEnd(s)..];
              && |rest| < |s|
              && Drained(s) == [First(s)] + Drained(rest)
              && Handed(s, n) == [First(s)] + (if n == 0 then [] else Handed(rest, n - 1))
              && Left(s, n) == if n == 0 then rest else Left(rest, n - 1)
  {
  }

  // ---------------------------------------------------------------- every run

  datatype Event = Send(frame: Frame) | Transmit(accepts: nat)

  /** The ring, the frames handed to the network so far, and those of them that it took. */
  datatype State = State(ring: seq<byte>, out: seq<Frame>, taken: seq<Frame>)

  function FirstOf(fs: seq<Frame>, n: nat): seq<Frame> {
    if n <= |fs| then fs[..n] else fs
  }

  function Step(s: State, e: Event): State {
    match e
    case Send(f) => s.(ring := Truncated(s.ring + (Prefix(f) + f)))
    case Transmit(n) =>
      State(Left(s.ring, n), s.out + Handed(s.ring, n), s.taken + FirstOf(Handed(s.ring, n), n))
  }

  function Run(events: seq<Event>): State {
    if events == [] then State([], [], [])
    else Step(Run(events[..|events| - 1]), events[|events| - 1])
  }

  /** All frames sent, and, first in first out, those that no transmit has got to. */
  function Queued(events: seq<Event>): seq<Frame> {
    if events == [] then [] else
    var e := events[|events| - 1];
    Queued(events[..|events| - 1]) + if e.Send? then [e.frame] else []
  }

  function Pending(events: seq<Event>): seq<Frame> {
    if events == [] then [] else
    var e := events[|events| - 1];
    var before := Pending(events[..|events| - 1]);
    if e.Send? then before + [e.frame] else Dropped(before, e.accepts + 1)
  }

  function Dropped(fs: seq<Frame>, k: nat): seq<Frame> {
    if k <= |fs| then fs[k..] else []
  }

  /** The frame does not fit in what is left of the ring. */
  predicate Overfills(s: State, e: Event) {
    e.Send? && |s.ring| + 2 + |e.frame| > CAPACITY
  }

  predicate EverOverfills(events: seq<Event>) {
    exists k :: 0 <= k < |events| && Overfills(Run(events[..k]), events[k])
  }

  /** send never queues an empty frame: there are always three headers. */
  predicate Proper(events: seq<Event>) {
    forall e :: e in events && e.Send? ==> e.frame != []
  }

  lemma {:induction false} WireSnoc(fs: seq<Frame>, f: Frame)
    ensures Wire(fs + [f]) == Wire(fs) + (Prefix(f) + f)
  {
    if fs == [] {
      assert [] + [f] == [f];
      assert Wire([f][1..]) == [];
    } else {
      assert (fs + [f])[1..] == fs[1..] + [f];
      WireSnoc(fs[1..], f);
    }
  }

  /** Behind the prefix of a frame comes the frame. */
  lemma FirstOfWire(f: Frame, rest: seq<byte>)
    requires 0 < |f| < 0x1_0000
    ensures var s := Prefix(f) + f + rest;
            !Bare(s) && First(s) == f && s[FirstEnd(s)..] == rest
  {
    hide Prefix, Word;
    var s := Prefix(f) + f + rest;
    PrefixParses(f);
    assert s[0] == Prefix(f)[0] && s[1] == Prefix(f)[1];
    assert s[2..2 + |f|] == f && s[2 + |f|..] == rest;
  }

  lemma PrefixParses(f: Frame)
    requires |f| < 0x1_0000
    ensures |Prefix(f)| == 2 && Word(Prefix(f)[0], Prefix(f)[1]) == |f|
  {
    WordParses(Prefix(f), 0, |f|);
  }

  /** A ring that holds whole frames gives them back one by one. */
  lemma {:induction false} DrainedWire(fs: seq<Frame>)
    requires |Wire(fs)| <= CAPACITY
    requires forall f :: f in fs ==> f != []
    ensures Drained(Wire(fs)) == fs
  {
    hide Drained, Handed, Left, Bare, First, FirstEnd;
    if fs == [] {
      Unfold(Wire(fs), 0);
    } else {
      assert fs[0] in fs;
      assert forall g :: g in fs[1..] ==> g in fs;
      DrainedWire(fs[1..]);
      FirstOfWire(fs[0], Wire(fs[1..]));
      Unfold(Wire(fs), 0);
    }
  }

  // ---------------------------------------------------------------- room in the ring

  /** The room that frames take up in the ring; an empty frame was never queued. */
  function Room(fs: seq<Frame>): nat {
    if fs == [] then 0 else (if fs[0] == [] then 0 else 2 + |fs[0]|) + Room(fs[1..])
  }

  lemma {:induction false} RoomConcat(a: seq<Frame>, b: seq<Frame>)
    ensures Room(a + b) == Room(a) + Room(b)
  {
    if a == [] {
      assert a + b == b;
    } else {
      assert (a + b)[1..] == a[1..] + b;
      RoomConcat(a[1..], b);
    }
  }

  /** Whatever is in the ring, a frame that comes out has made room for itself and its prefix. */
  lemma {:induction false} HandedRoom(s: seq<byte>, n: nat)
    ensures Room(Handed(s, n)) + |Left(s, n)| <= |s|
    decreases |s|
  {
    hide Handed, Left, Drained, Room;
    Unfold(s, n);
    RoomOfNothing();
    if s != [] && !Bare(s) {
      var rest := s[FirstEnd(s)..];
      RoomOfFirst(s);
      if n > 0 {
        HandedRoom(rest, n - 1);
        RoomConcat([First(s)], Handed(rest, n - 1));
      } else {
        assert [First(s)] + [] == [First(s)];
      }
    }
  }

  lemma RoomOfNothing()
    ensures Room([]) == 0
  {
  }

  lemma RoomOfFirst(s: seq<byte>)
    requires s != []
    ensures Room([First(s)]) + |s[FirstEnd(s)..]| <= |s|
  {
  }

  lemma {:induction false} DrainedRoom(s: seq<byte>)
    ensures Room(Drained(s)) <= |s|
    decreases |s|
  {
    hide Handed, Left, Drained, Room;
    Unfold(s, 0);
    RoomOfNothing();
    if s != [] && !Bare(s) {
      var rest := s[FirstEnd(s)..];
      RoomOfFirst(s);
      DrainedRoom(rest);
      RoomConcat([First(s)], Drained(rest));
    }
  }

  lemma {:induction false} RoomOnTheWire(fs: seq<Frame>)
    requires forall f :: f in fs ==> f != []
    ensures |Wire(fs)| == Room(fs)
  {
    if fs != [] {
      assert fs[0] in fs;
      assert forall g :: g in fs[1..] ==> g in fs;
      RoomOnTheWire(fs[1..]);
    }
  }

  /** So a ring that was cut short cannot give back all that was queued. */
  lemma DrainedCut(fs: seq<Frame>, k: nat)
    requires k < |Wire(fs)|
    requires forall f :: f in fs ==> f != []
    ensures Room(Drained(Wire(fs)[..k])) < Room(fs)
    ensures Drained(Wire(fs)[..k]) != fs
  {
    hide Wire, Room, Drained;
    RoomOnTheWire(fs);
    DrainedRoom(Wire(fs)[..k]);
  }

  lemma NothingOnTheWire()
    ensures Wire([]) == []
  {
  }

  /** From whole frames a transmit takes the first ones and leaves the others whole. */
  lemma {:induction false} HandedWire(fs: seq<Frame>, n: nat)
    requires |Wire(fs)| <= CAPACITY
    requires forall f :: f in fs ==> f != []
    ensures Left(Wire(fs), n) == Wire(Dropped(fs, n + 1))
    ensures Handed(Wire(fs), n) + Dropped(fs, n + 1) == fs
    decreases |fs|
  {
    hide Handed, Left, Drained, Bare, First, FirstEnd, Prefix, Wire, Dropped;
    if fs == [] {
      NothingOnTheWire();
      Unfold([], n);
      DroppedAll(n + 1);
    } else {
      var f, rest := fs[0], fs[1..];
      assert f in fs;
      assert forall g :: g in rest ==> g in fs;
      HandedFirst(fs, n);
      DroppedOne(fs, n);
      if n > 0 {
        HandedWire(rest, n - 1);
        var h, d := Handed(Wire(rest), n - 1), Dropped(rest, n);
        assert [f] + h + d == [f] + (h + d);
      }
      assert fs == [f] + rest;
    }
  }

  lemma HandedFirst(fs: seq<Frame>, n: nat)
    requires fs != [] && fs[0] != [] && |Wire(fs)| <= CAPACITY
    ensures var rest := Wire(fs[1..]);
            && |rest| <= CAPACITY
            && Handed(Wire(fs), n) == [fs[0]] + (if n == 0 then [] else Handed(rest, n - 1))
            && Left(Wire(fs), n) == if n == 0 then rest else Left(rest, n - 1)
  {
    hide Handed, Left, Drained, Bare, First, FirstEnd, Prefix, Wire;
    WireCons(fs);
    FirstOfWire(fs[0], Wire(fs[1..]));
    Unfold(Wire(fs), n);
  }

  lemma DroppedOne(fs: seq<Frame>, n: nat)
    requires fs != []
    ensures Dropped(fs, n + 1) == Dropped(fs[1..], n)
    ensures Dropped(fs, 0) == fs && Dropped(fs[1..], 0) == fs[1..]
  {
  }

  lemma DroppedAll(n: nat)
    ensures Dropped([], n) == []
  {
  }

  // ---------------------------------------------------------------- what every run keeps

  predicate Kept(s: State, pending: seq<Frame>, queued: seq<Frame>, overfilled: bool) {
    && |s.ring| <= CAPACITY
    && (forall f :: f in pending ==> f != [])
    && (if overfilled
        then Room(s.out) + |s.ring| < Room(queued)
        else Room(s.out) + |s.ring| <= Room(queued) && s.ring == Wire(pending) && s.out + pending == queued)
  }

  lemma {:induction false} RunKeeps(events: seq<Event>)
    requires Proper(events)
    ensures Kept(Run(events), Pending(events), Queued(events), EverOverfills(events))
  {
    hide Kept, Step, Overfills, EverOverfills;
    if events == [] {
      EmptyKeeps();
    } else {
      var n := |events| - 1;
      var before, e := events[..n], events[n];
      assert Proper(before) by {
        assert forall x :: x in before ==> x in events;
      }
      RunKeeps(before);
      OverfillsLast(events);
      var s := Run(before);
      if e.Send? {
        assert e in events;
        SendKeeps(s, Pending(before), Queued(before), EverOverfills(before), e.frame);
      } else {
        TransmitKeeps(s, Pending(before), Queued(before), EverOverfills(before), e.accepts);
        assert !Overfills(s, e) by { NoTransmitOverfills(s, e); }
        assert Queued(events) == Queued(before);
      }
    }
  }

  lemma EmptyKeeps()
    ensures Kept(State([], [], []), [], [], false) && !EverOverfills([])
  {
  }

  lemma NoTransmitOverfills(s: State, e: Event)
    requires e.Transmit?
    ensures !Overfills(s, e)
  {
  }

  lemma OverfillsLast(events: seq<Event>)
    requires events != []
    ensures var n := |events| - 1;
            EverOverfills(events) <==> EverOverfills(events[..n]) || Overfills(Run(events[..n]), events[n])
  {
    hide Run, Overfills;
    var n := |events| - 1;
    assert forall k :: 0 <= k < n ==> events[..n][..k] == events[..k] && events[..n][k] == events[k];
  }

  lemma SendKeeps(s: State, pending: seq<Frame>, queued: seq<Frame>, overfilled: bool, f: Frame)
    requires Kept(s, pending, queued, overfilled) && f != []
    ensures Kept(Step(s, Send(f)), pending + [f], queued + [f], overfilled || Overfills(s, Send(f)))
  {
    hide Wire, Room, Prefix;
    WireSnoc(pending, f);
    RoomConcat(queued, [f]);
    RoomOfOne(f);
    assert s.out + (pending + [f]) == s.out + pending + [f];
  }

  lemma RoomOfOne(f: Frame)
    requires f != []
    ensures Room([f]) == |Prefix(f) + f| == 2 + |f|
  {
  }

  lemma TransmitKeeps(s: State, pending: seq<Frame>, queued: seq<Frame>, overfilled: bool, n: nat)
    requires Kept(s, pending, queued, overfilled)
    ensures Kept(Step(s, Transmit(n)), Dropped(pending, n + 1), queued, overfilled)
  {
    hide Handed, Left, Wire, Room;
    var h, p := Handed(s.ring, n), Dropped(pending, n + 1);
    RoomConcat(s.out, h);
    HandedRoom(s.ring, n);
    assert forall f :: f in p ==> f in pending;
    if !overfilled {
      HandedWire(pending, n);
      assert s.out + h + p == s.out + (h + p);
    }
  }

  /**
   As long as no frame overfills the ring, the frames handed out are the frames queued, in
   order and each of them whole, but for those still in the ring, wherever the network
   refused one in between.
   */
  lemma FramesComeOutWhole(events: seq<Event>)
    requires Proper(events) && !EverOverfills(events)
    ensures Run(events).out + Pending(events) == Queued(events)
    ensures Drained(Run(events).ring) == Pending(events)
  {
    RunKeeps(events);
    DrainedWire(Pending(events));
  }

  /**
   At every point of every run, what has come out and what will come out of the ring are the
   frames queued exactly if nothing ever overfilled the ring.
   */
  lemma NothingLostExactlyWithoutOverfill(events: seq<Event>)
    requires Proper(events)
    ensures var s := Run(events);
            s.out + Drained(s.ring) == Queued(events) <==> !EverOverfills(events)
  {
    hide EverOverfills, Drained, Wire, Room;
    var s := Run(events);
    RunKeeps(events);
    if EverOverfills(events) {
      RoomConcat(s.out, Drained(s.ring));
      DrainedRoom(s.ring);
    } else {
      DrainedWire(Pending(events));
    }
  }

  /** In particular whenever the ring is empty, as after a transmit that the network did not stop. */
  lemma AllOutAfterTransmit(events: seq<Event>)
    requires Proper(events) && Run(events).ring == []
    ensures Run(events).out == Queued(events) <==> !EverOverfills(events)
  {
    hide EverOverfills, Run, Queued;
    NothingLostExactlyWithoutOverfill(events);
    assert Run(events).out + Drained([]) == Run(events).out;
  }

  /** An empty ring holds a frame of up to 65533 bytes, and no longer one. */
  lemma LargestFrame(f: Frame)
    requires f != []
    ensures Drained(Truncated(Prefix(f) + f)) == [f] <==> |f| <= 65533
  {
    hide Drained, Truncated, Prefix;
    var events := [Send(f)];
    assert events[..0] == [] && Run([]) == State([], [], []);
    assert Queued([]) == [] && Queued(events) == [] + [f];
    assert [] + (Prefix(f) + f) == Prefix(f) + f;
    OverfillsLast(events);
    EmptyKeeps();
    NothingLostExactlyWithoutOverfill(events);
    var s := Run(events);
    assert s == State(Truncated(Prefix(f) + f), [], []);
    assert [] + Drained(s.ring) == Drained(s.ring) && [] + [f] == [f];
  }

  // ---------------------------------------------------------------- what the network takes

  /** Where among the frames queued those are that the network refused: one for each transmit that fails. */
  function RefusedAt(events: seq<Event>): set<int> {
    if events == [] then {} else
    var before, e := events[..|events| - 1], events[|events| - 1];
    var pending := Pending(before);
    RefusedAt(before) +
    if e.Transmit? && |pending| > e.accepts then {|Queued(before)| - |pending| + e.accepts} else {}
  }

  /** The frames but for those at the given places. */
  function Without(fs: seq<Frame>, skip: set<int>): seq<Frame> {
    if fs == [] then [] else
    var n := |fs| - 1;
    Without(fs[..n], skip) + if n in skip then [] else [fs[n]]
  }

  lemma WithoutSnoc(fs: seq<Frame>, f: Frame, skip: set<int>)
    ensures Without(fs + [f], skip) == Without(fs, skip) + if |fs| in skip then [] else [f]
  {
    assert (fs + [f])[..|fs|] == fs;
  }

  lemma {:induction false} WithoutAppend(fs: seq<Frame>, gs: seq<Frame>, skip: set<int>)
    requires forall k :: k in skip ==> k < |fs|
    ensures Without(fs + gs, skip) == Without(fs, skip) + gs
    decreases |gs|
  {
    hide Without;
    if gs == [] {
      assert fs + gs == fs;
      assert Without(fs, skip) + gs == Without(fs, skip);
    } else {
      var front, g := gs[..|gs| - 1], gs[|gs| - 1];
      assert gs == front + [g] && fs + gs == fs + front + [g];
      WithoutAppend(fs, front, skip);
      WithoutSnoc(fs + front, g, skip);
      assert Without(fs, skip) + front + [g] == Without(fs, skip) + gs;
    }
  }

  lemma {:induction false} WithoutMore(fs: seq<Frame>, skip: set<int>, q: int)
    requires q >= |fs|
    ensures Without(fs, skip + {q}) == Without(fs, skip)
  {
    if fs != [] {
      WithoutMore(fs[..|fs| - 1], skip, q);
    }
  }

  /** A transmit that fails at the last of the frames it hands over. */
  lemma WithoutLast(fs: seq<Frame>, gs: seq<Frame>, f: Frame, skip: set<int>)
    requires forall k :: k in skip ==> k < |fs|
    ensures Without(fs + (gs + [f]), skip + {|fs| + |gs|}) == Without(fs, skip) + gs
  {
    hide Without;
    var all, q := fs + (gs + [f]), |fs| + |gs|;
    assert all == fs + gs + [f];
    WithoutSnoc(fs + gs, f, skip + {q});
    assert Without(fs + gs, skip + {q}) + [] == Without(fs + gs, skip + {q});
    WithoutMore(fs + gs, skip, q);
    WithoutAppend(fs, gs, skip);
  }

  lemma {:induction false} TookOfHanded(events: seq<Event>)
    requires Proper(events) && !EverOverfills(events)
    ensures var s := Run(events);
            && s.taken == Without(s.out, RefusedAt(events))
            && forall k :: k in RefusedAt(events) ==> k < |s.out|
  {
    hide EverOverfills, Without, Handed, Left, Wire, Room;
    if events == [] {
      NoneWithout();
    } else {
      var before, e := events[..|events| - 1], events[|events| - 1];
      assert Proper(before) by {
        assert forall x :: x in before ==> x in events;
      }
      OverfillsLast(events);
      TookOfHanded(before);
      RunKeeps(before);
      if e.Transmit? {
        TookByTransmit(Run(before), Pending(before), Queued(before), RefusedAt(before), e.accepts);
      } else {
        assert RefusedAt(events) == RefusedAt(before);
      }
    }
  }

  lemma NoneWithout()
    ensures Without([], {}) == []
  {
  }

  lemma TookByTransmit(s: State, pending: seq<Frame>, queued: seq<Frame>, skip: set<int>, n: nat)
    requires Kept(s, pending, queued, false)
    requires s.taken == Without(s.out, skip) && forall k :: k in skip ==> k < |s.out|
    ensures var s' := Step(s, Transmit(n));
            var skip' := skip + if |pending| > n then {|queued| - |pending| + n} else {};
            s'.taken == Without(s'.out, skip') && forall k :: k in skip' ==> k < |s'.out|
  {
    hide Without, Handed, Left, Wire, Room;
    var h := Handed(s.ring, n);
    HandedWire(pending, n);
    assert |queued| == |s.out| + |pending|;
    if |pending| > n {
      assert h + pending[n + 1..] == pending;
      assert h == pending[..n + 1] == pending[..n] + [pending[n]];
      assert FirstOf(h, n) == pending[..n];
      WithoutLast(s.out, pending[..n], pending[n], skip);
    } else {
      assert h + [] == h;
      assert h == pending && skip + {} == skip;
      WithoutAppend(s.out, h, skip);
    }
  }

  /**
   What the network took, and what is still in the ring, are the frames queued, in order,
   but for the one that it refused in each transmit that failed: that frame is lost.
   */
  lemma NetworkTook(events: seq<Event>)
    requires Proper(events) && !EverOverfills(events)
    ensures Run(events).taken + Pending(events) == Without(Queued(events), RefusedAt(events))
  {
    hide EverOverfills, Run, Without, Wire, Room;
    TookOfHanded(events);
    FramesComeOutWhole(events);
    WithoutAppend(Run(events).out, Pending(events), RefusedAt(events));
  }
}
