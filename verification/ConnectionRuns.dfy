/**
 What holds of a connection in every run: from the SYN that creates it, through any
 sequence of arriving segments and of reads, writes and closes by the application, which
 only exists once the handler has been started.
 */
module ConnectionRuns {
  import opened Words
  import opened Connection

  datatype Event =
    | Arrive(segment: Segment)
    | Write(data: seq<byte>)
    | Close
    | Read(n: nat)

  /** A connection, all it has done, and all the application has read. */
  datatype Machine = Machine(tcb: Tcb, log: seq<Effect>, read: seq<byte>)

  function Apply(m: Machine, o: Outcome): Machine {
    m.(tcb := o.0, log := m.log + o.1)
  }

  function Step(m: Machine, e: Event): Machine
    requires |m.tcb.unread| <= BUFFER_SIZE
  {
    match e
    case Arrive(s) => Apply(m, OnSegment(m.tcb, s))
    case Write(data) => Apply(m, OnWrite(m.tcb, data))
    case Close => Apply(m, OnClose(m.tcb))
    case Read(n) =>
      var p := Prefix(m.tcb.unread, n);
      m.(read := m.read + p, tcb := m.tcb.(unread := m.tcb.unread[|p|..]))
  }

  predicate Started(m: Machine) {
    Starts(m.log) > 0
  }

  predicate Enabled(m: Machine, e: Event) {
    e.Arrive? || Started(m)
  }

  /** The SYN that makes handleTCP create a State. */
  predicate Opens(syn: Segment) {
    syn.syn && !syn.ack
  }

  function Begin(iss: u32, syn: Segment): Machine {
    Apply(Machine(Tcb(Listen, iss, 0, 0, 0, []), [], []), OnSegment(Tcb(Listen, iss, 0, 0, 0, []), syn))
  }

  function Run(iss: u32, syn: Segment, events: seq<Event>): (m: Machine)
    ensures |m.tcb.unread| <= BUFFER_SIZE
  {
    if events == [] then Begin(iss, syn)
    else Step(Run(iss, syn, events[..|events| - 1]), events[|events| - 1])
  }

  predicate Valid(iss: u32, syn: Segment, events: seq<Event>) {
    Opens(syn) &&
    forall k :: 0 <= k < |events| ==> Enabled(Run(iss, syn, events[..k]), events[k])
  }

  // ---------------------------------------------------------------- reading a log

  function Sends(log: seq<Effect>): seq<Emission> {
    if log == [] then [] else
    var e := log[|log| - 1];
    Sends(log[..|log| - 1]) + if e.Sent? then [e.segment] else []
  }

  function Accepted(log: seq<Effect>): seq<byte> {
    if log == [] then [] else
    var e := log[|log| - 1];
    Accepted(log[..|log| - 1]) + if e.Delivered? then e.payload else []
  }

  function Starts(log: seq<Effect>): nat {
    if log == [] then 0 else
    Starts(log[..|log| - 1]) + if log[|log| - 1].HandlerStarted? then 1 else 0
  }

  /** The acknowledgement number of the latest SYN|ACK. */
  function Origin(log: seq<Effect>): u32 {
    if log == [] then 0 else
    var e := log[|log| - 1];
    if e.Sent? && e.segment.flags.SynAck? then e.segment.ackNum else Origin(log[..|log| - 1])
  }

  /** The sequence space a segment takes up: section 3.3 of RFC 793. */
  function Space(e: Emission): nat {
    |e.payload| + (if e.flags.SynAck? then 1 else 0) + (if e.flags.FinAck? then 1 else 0)
  }

  function Next(e: Emission): u32 {
    Add32(e.seqNum, Space(e))
  }

  function PayloadSent(es: seq<Emission>): nat {
    if es == [] then 0 else PayloadSent(es[..|es| - 1]) + |es[|es| - 1].payload|
  }

  /** What the segments sent carry, one after the other. */
  function Payloads(es: seq<Emission>): seq<byte> {
    if es == [] then [] else Payloads(es[..|es| - 1]) + es[|es| - 1].payload
  }

  function FinsSent(es: seq<Emission>): nat {
    if es == [] then 0
    else FinsSent(es[..|es| - 1]) + if es[|es| - 1].flags.FinAck? then 1 else 0
  }

  lemma Push(log: seq<Effect>, e: Effect)
    ensures Sends(log + [e]) == Sends(log) + if e.Sent? then [e.segment] else []
    ensures Accepted(log + [e]) == Accepted(log) + if e.Delivered? then e.payload else []
    ensures Starts(log + [e]) == Starts(log) + if e.HandlerStarted? then 1 else 0
    ensures Origin(log + [e]) ==
            if e.Sent? && e.segment.flags.SynAck? then e.segment.ackNum else Origin(log)
  {
    assert (log + [e])[..|log|] == log;
  }

  // ---------------------------------------------------------------- sequence numbers

  /** A SYN|ACK is numbered ISS+1; any other segment follows on from its predecessor. */
  predicate Follows(es: seq<Emission>, i: nat, iss: u32)
    requires i < |es|
  {
    if es[i].flags.SynAck? then es[i].seqNum == Add32(iss, 1)
    else i > 0 && es[i].seqNum == Next(es[i - 1])
  }

  predicate Chained(es: seq<Emission>, iss: u32) {
    forall i :: 0 <= i < |es| ==> Follows(es, i, iss)
  }

  lemma ChainedPush(es: seq<Emission>, e: Emission, iss: u32)
    requires Chained(es, iss)
    requires if e.flags.SynAck? then e.seqNum == Add32(iss, 1)
             else |es| > 0 && e.seqNum == Next(es[|es| - 1])
    ensures Chained(es + [e], iss)
  {
    forall i | 0 <= i < |es + [e]|
      ensures Follows(es + [e], i, iss)
    {
      if i < |es| {
        assert Follows(es, i, iss);
      }
    }
  }

  lemma TotalsPush(es: seq<Emission>, e: Emission)
    ensures PayloadSent(es + [e]) == PayloadSent(es) + |e.payload|
    ensures Payloads(es + [e]) == Payloads(es) + e.payload
    ensures FinsSent(es + [e]) == FinsSent(es) + if e.flags.FinAck? then 1 else 0
  {
    assert (es + [e])[..|es|] == es;
  }

  lemma Add32Twice(a: u32, b: nat, c: nat)
    ensures Add32(Add32(a, b), c) == Add32(a, b + c)
  {
    assert forall x: nat :: x < TWO32 ==> x % TWO32 == x;
    var q := (a + b) / TWO32;
    assert Add32(a, b) == a + b - q * TWO32;
    assert (a + b + c) % TWO32 == (a + b - q * TWO32 + c) % TWO32;
  }

  // ---------------------------------------------------------------- handshake

  predicate Unstarted(p: Phase) {
    p == Listen || p == SynReceived
  }

  predicate Reachable(p: Phase) {
    p != SynSent && p != Closing && p != LastAck
  }

  /** Nothing is delivered before the handler has been started, and there is no knock. */
  predicate Orderly(log: seq<Effect>) {
    && (forall i :: 0 <= i < |log| ==> !log[i].Knocked?)
    && (forall i :: 0 <= i < |log| ==> Late(log, i))
  }

  predicate Late(log: seq<Effect>, i: nat)
    requires i < |log|
  {
    log[i].Delivered? ==> Starts(log[..i]) > 0
  }

  // ---------------------------------------------------------------- acknowledgements

  /** A segment acknowledges everything accepted up to the moment it is sent. */
  predicate Carries(log: seq<Effect>, i: nat)
    requires i < |log|
  {
    log[i].Sent? ==>
      log[i].segment.ackNum == Add32(Origin(log[..i + 1]), |Accepted(log[..i + 1])|)
  }

  /** Every entry of a log keeps its properties when something is appended. */
  lemma PushEntries(log: seq<Effect>, e: Effect)
    requires !e.Knocked? && Orderly(log)
    requires e.Delivered? ==> Starts(log) > 0
    ensures Orderly(log + [e])
  {
    forall i | 0 <= i < |log + [e]|
      ensures Late(log + [e], i)
    {
      assert (log + [e])[..i] == log[..i];
      if i < |log| {
        assert Late(log, i);
      } else {
        assert log[..i] == log;
      }
    }
  }

  lemma PushCarries(log: seq<Effect>, e: Effect)
    requires forall i :: 0 <= i < |log| ==> Carries(log, i)
    requires e.Sent? ==>
      e.segment.ackNum == Add32(Origin(log + [e]), |Accepted(log + [e])|)
    ensures forall i :: 0 <= i < |log + [e]| ==> Carries(log + [e], i)
  {
    forall i | 0 <= i < |log + [e]|
      ensures Carries(log + [e], i)
    {
      if i < |log| {
        assert Carries(log, i);
        assert (log + [e])[..i + 1] == log[..i + 1];
      } else {
        assert (log + [e])[..i + 1] == log + [e];
      }
    }
  }

  // ---------------------------------------------------------------- a monitor

  /** What a run needs to remember of its log. */
  datatype Digest = Digest(
    sent: nat,        // segments sent
    next: u32,        // the number that follows the last of them
    chained: bool,    // they follow on from one another
    bytes: nat,       // payload bytes sent
    fins: nat,        // FINs sent
    starts: nat,      // times the handler was started
    orderly: bool,    // no knock, and nothing delivered before the handler was started
    origin: u32, accepted: nat,
    carried: bool)    // every segment acknowledged what was accepted before it

  function Note(d: Digest, x: Effect, iss: u32): Digest {
    match x
    case Sent(e) =>
      var origin := if e.flags.SynAck? then e.ackNum else d.origin;
      d.(sent := d.sent + 1,
         next := Next(e),
         chained := d.chained && (if e.flags.SynAck? then e.seqNum == Add32(iss, 1)
                                  else d.sent > 0 && e.seqNum == d.next),
         bytes := d.bytes + |e.payload|,
         fins := d.fins + (if e.flags.FinAck? then 1 else 0),
         origin := origin,
         carried := d.carried && e.ackNum == Add32(origin, d.accepted))
    case Delivered(p) =>
      d.(accepted := d.accepted + |p|, orderly := d.orderly && d.starts > 0)
    case HandlerStarted => d.(starts := d.starts + 1)
    case Removed => d
    case Knocked => d.(orderly := false)
  }

  function Monitor(log: seq<Effect>, iss: u32): Digest {
    if log == [] then Digest(0, 0, true, 0, 0, 0, true, 0, 0, true)
    else Note(Monitor(log[..|log| - 1], iss), log[|log| - 1], iss)
  }

  function NoteAll(d: Digest, xs: seq<Effect>, iss: u32): Digest
    decreases |xs|
  {
    if xs == [] then d else NoteAll(Note(d, xs[0], iss), xs[1..], iss)
  }

  lemma {:induction false} MonitorConcat(log: seq<Effect>, xs: seq<Effect>, iss: u32)
    ensures Monitor(log + xs, iss) == NoteAll(Monitor(log, iss), xs, iss)
    decreases |xs|
  {
    if xs == [] {
      assert log + xs == log;
    } else {
      assert (log + [xs[0]])[..|log|] == log;
      assert log + xs == log + [xs[0]] + xs[1..];
      MonitorConcat(log + [xs[0]], xs[1..], iss);
    }
  }

  lemma {:induction false} NoteAllConcat(d: Digest, a: seq<Effect>, b: seq<Effect>, iss: u32)
    ensures NoteAll(d, a + b, iss) == NoteAll(NoteAll(d, a, iss), b, iss)
    decreases |a|
  {
    if a == [] {
      assert a + b == b;
    } else {
      assert (a + b)[1..] == a[1..] + b;
      NoteAllConcat(Note(d, a[0], iss), a[1..], b, iss);
    }
  }

  lemma NoteTwo(d: Digest, x: Effect, y: Effect, iss: u32)
    ensures NoteAll(d, [], iss) == d && NoteAll(d, [x], iss) == Note(d, x, iss)
    ensures NoteAll(d, [x, y], iss) == Note(Note(d, x, iss), y, iss)
  {
    assert [x, y][1..] == [y];
    assert NoteAll(Note(d, x, iss), [y], iss) == Note(Note(d, x, iss), y, iss);
  }

  /** The monitor tells the truth about what was sent ... */
  lemma {:induction false} MonitorSoundSent(log: seq<Effect>, iss: u32)
    ensures var d := Monitor(log, iss);
            && d.sent == |Sends(log)| && (d.sent > 0 ==> d.next == Next(Sends(log)[d.sent - 1]))
            && (d.chained ==> Chained(Sends(log), iss))
  {
    if log != [] {
      var before, x := log[..|log| - 1], log[|log| - 1];
      MonitorSoundSent(before, iss);
      hide Next, Chained;
      if x.Sent? {
        assert Sends(log) == Sends(before) + [x.segment];
        if Monitor(log, iss).chained {
          ChainedPush(Sends(before), x.segment, iss);
        }
      } else {
        assert Sends(log) == Sends(before);
      }
    }
  }

  lemma {:induction false} MonitorSoundTotals(log: seq<Effect>, iss: u32)
    ensures var d := Monitor(log, iss);
            d.bytes == PayloadSent(Sends(log)) && d.fins == FinsSent(Sends(log))
  {
    if log != [] {
      var before, x := log[..|log| - 1], log[|log| - 1];
      MonitorSoundTotals(before, iss);
      if x.Sent? {
        assert Sends(log) == Sends(before) + [x.segment];
        TotalsPush(Sends(before), x.segment);
      } else {
        assert Sends(log) == Sends(before);
      }
    }
  }

  /** ... and about what was received and started. */
  lemma {:induction false} MonitorSound(log: seq<Effect>, iss: u32)
    ensures var d := Monitor(log, iss);
            && d.starts == Starts(log)
            && (d.orderly ==> Orderly(log))
            && d.origin == Origin(log) && d.accepted == |Accepted(log)|
            && (d.carried ==> forall i :: 0 <= i < |log| ==> Carries(log, i))
  {
    if log != [] {
      var before, x := log[..|log| - 1], log[|log| - 1];
      assert log == before + [x];
      MonitorSound(before, iss);
      Push(before, x);
      if Monitor(log, iss).orderly {
        PushEntries(before, x);
      }
      if Monitor(log, iss).carried {
        PushCarries(before, x);
      }
    }
  }

  // ---------------------------------------------------------------- the steps keep the invariant

  /**
   `written` is the number of bytes the application has written; what is claimed of
   RCV.NXT and of acknowledgements ends with the first FIN.
   */
  predicate Inv(t: Tcb, d: Digest, fin: bool, written: nat): (holds: bool)
    ensures holds ==> |t.unread| <= BUFFER_SIZE
  {
    && |t.unread| <= BUFFER_SIZE
    && d.sent > 0 && d.chained && d.bytes == written
    && t.nxt == d.next == Add32(t.iss, 2 + written + d.fins)
    && d.starts <= 1 && (d.starts == 0 <==> Unstarted(t.phase))
    && (d.starts == 0 ==> written == d.fins == d.accepted == 0)
    && Reachable(t.phase) && d.orderly
    && (t.iss + 2 + written + d.fins < TWO32 ==> t.iss <= t.una <= t.nxt)
    && (!fin ==> d.carried && t.rcvNxt == Add32(d.origin, d.accepted))
  }

  lemma AnswerKeeps(t: Tcb, d: Digest, s: Segment, fin: bool)
    requires t.phase == Listen && |t.unread| <= BUFFER_SIZE
    requires d.chained && d.orderly && d.bytes == d.fins == d.starts == d.accepted == 0 && (!fin ==> d.carried)
    ensures Inv(Answer(t, s).0, NoteAll(d, Answer(t, s).1, t.iss), fin, 0)
    ensures Answer(t, s).0.iss == t.iss
  {
    Add32Twice(t.iss, 1, 1);
  }

  lemma SendKeeps(t: Tcb, d: Digest, fin: bool, written: nat, flags: Flags, payload: seq<byte>, phase: Phase)
    requires Inv(t, d, fin, written) && !flags.SynAck? && d.starts > 0 && !Unstarted(phase) && Reachable(phase)
    ensures var used := |payload| + if flags.FinAck? then 1 else 0;
            Inv(t.(nxt := Add32(t.nxt, used), phase := phase), Note(d, Sending(t, flags, payload), t.iss),
                fin, written + |payload|)
  {
    Add32Twice(t.iss, 2 + written + d.fins, |payload| + if flags.FinAck? then 1 else 0);
  }

  lemma TakeAckKeeps(t: Tcb, d: Digest, s: Segment, fin: bool, written: nat)
    requires Inv(t, d, fin, written)
    requires t.phase == SynReceived ==> Acceptable(t, s)
    ensures Inv(TakeAck(t, s).0, NoteAll(d, TakeAck(t, s).1, t.iss), fin, written)
    ensures TakeAck(t, s).0.iss == t.iss
    ensures TakeAck(t, s).0.phase != FinWait1 && TakeAck(t, s).0.phase != SynReceived
  {
  }

  lemma DeliveredKeeps(t: Tcb, d: Digest, p: seq<byte>, fin: bool, written: nat)
    requires Inv(t, d, fin, written) && !Unstarted(t.phase)
    ensures Inv(t.(rcvNxt := Add32(t.rcvNxt, |p|), unread := t.unread + Kept(t.unread, p)),
                Note(d, Delivered(p), t.iss), fin, written)
    ensures Note(d, Delivered(p), t.iss).starts == d.starts > 0
  {
    Add32Twice(d.origin, d.accepted, |p|);
  }

  lemma TakeTextKeeps(t: Tcb, d: Digest, s: Segment, fin: bool, written: nat)
    requires Inv(t, d, fin, written)
    ensures Inv(TakeText(t, s).0, NoteAll(d, TakeText(t, s).1, t.iss), fin, written)
    ensures TakeText(t, s).0.iss == t.iss && TakeText(t, s).0.phase == t.phase
  {
    hide Note, NoteAll, Inv, Kept;
    var (t1, effects) := TakeText(t, s);
    NoteTwo(d, Delivered(s.payload), Sending(t1, JustAck, []), t.iss);
    if effects != [] {
      DeliveredKeeps(t, d, s.payload, fin, written);
      var d1 := Note(d, Delivered(s.payload), t.iss);
      if s.payload == [] {
        assert effects == [effects[0]];
      } else {
        SendKeeps(t1, d1, fin, written, JustAck, [], t1.phase);
        assert effects == [effects[0], Sending(t1, JustAck, [])];
      }
    }
  }

  lemma FinAnswered(t: Tcb, d: Digest, s: Segment, fin: bool, written: nat)
    requires Inv(t, d, fin, written) && s.fin && (t.phase == Established || t.phase == FinWait2)
    ensures Inv(TakeFin(t, s).0, NoteAll(d, TakeFin(t, s).1, t.iss), true, written)
  {
    hide Note, NoteAll;
    var u := t.(rcvNxt := Add32(s.seqNum, 1));
    var flags := if t.phase == Established then FinAck else JustAck;
    var x := Sending(u, flags, []);
    assert TakeFin(t, s).1 == [x];
    NoteTwo(d, x, x, t.iss);
    SendKeeps(u, d, true, written, flags, [], if t.phase == Established then CloseWait else TimeWait);
  }

  lemma TakeFinKeeps(t: Tcb, d: Digest, s: Segment, fin: bool, written: nat)
    requires Inv(t, d, fin, written) && t.phase != FinWait1 && t.phase != SynReceived
    ensures Inv(TakeFin(t, s).0, NoteAll(d, TakeFin(t, s).1, t.iss), fin || s.fin, written)
    ensures TakeFin(t, s).0.iss == t.iss
  {
    if s.fin && (t.phase == Established || t.phase == FinWait2) {
      FinAnswered(t, d, s, fin, written);
    } else {
      assert TakeFin(t, s).1 == [];
    }
  }

  lemma RestKeeps(t: Tcb, d: Digest, s: Segment, fin: bool, written: nat)
    requires Inv(t, d, fin, written)
    ensures Inv(Rest(t, s).0, NoteAll(d, Rest(t, s).1, t.iss), fin || s.fin, written)
    ensures Rest(t, s).0.iss == t.iss
  {
    hide TakeAck, TakeText, TakeFin, Note;
    if !(t.phase == SynReceived && !Acceptable(t, s)) {
      var (t1, e1) := TakeAck(t, s);
      TakeAckKeeps(t, d, s, fin, written);
      var (t2, e2) := TakeText(t1, s);
      TakeTextKeeps(t1, NoteAll(d, e1, t.iss), s, fin, written);
      NoteAllConcat(d, e1, e2, t.iss);
      var e3 := TakeFin(t2, s).1;
      TakeFinKeeps(t2, NoteAll(d, e1 + e2, t.iss), s, fin, written);
      NoteAllConcat(d, e1 + e2, e3, t.iss);
    }
  }

  lemma SegmentKeeps(t: Tcb, d: Digest, s: Segment, fin: bool, written: nat)
    requires Inv(t, d, fin, written)
    ensures Inv(OnSegment(t, s).0, NoteAll(d, OnSegment(t, s).1, t.iss), fin || s.fin, written)
    ensures OnSegment(t, s).0.iss == t.iss
  {
    hide Answer, Rest;
    if t.phase == Listen && s.syn {
      AnswerKeeps(t, d, s, fin);
    } else if s.rst && (t.phase == SynReceived || t.phase == CloseWait || t.phase == TimeWait) {
    } else if s.syn || !s.ack {
    } else {
      RestKeeps(t, d, s, fin, written);
    }
  }

  // ---------------------------------------------------------------- every run

  function Written(events: seq<Event>): nat {
    if events == [] then 0 else
    var e := events[|events| - 1];
    Written(events[..|events| - 1]) + if e.Write? then |e.data| else 0
  }

  function WrittenBytes(events: seq<Event>): seq<byte> {
    if events == [] then [] else
    var e := events[|events| - 1];
    WrittenBytes(events[..|events| - 1]) + if e.Write? then e.data else []
  }

  predicate FinArrived(events: seq<Event>) {
    exists k :: 0 <= k < |events| && events[k].Arrive? && events[k].segment.fin
  }

  lemma BeginKeeps(iss: u32, syn: Segment)
    requires Opens(syn)
    ensures Begin(iss, syn).tcb.iss == iss
    ensures Inv(Begin(iss, syn).tcb, Monitor(Begin(iss, syn).log, iss), FinArrived([]), Written([]))
  {
    var t := Tcb(Listen, iss, 0, 0, 0, []);
    AnswerKeeps(t, Monitor([], iss), syn, false);
    MonitorConcat([], Answer(t, syn).1, iss);
  }

  lemma {:induction false} RunKeeps(iss: u32, syn: Segment, events: seq<Event>)
    requires Valid(iss, syn, events)
    ensures var m := Run(iss, syn, events);
            && m.tcb.iss == iss
            && Inv(m.tcb, Monitor(m.log, iss), FinArrived(events), Written(events))
  {
    hide Inv, Begin, Step, Monitor, Valid, FinArrived;
    ValidOpens(iss, syn, events);
    if events == [] {
      BeginKeeps(iss, syn);
    } else {
      var before, e := events[..|events| - 1], events[|events| - 1];
      PrefixValid(iss, syn, events);
      RunKeeps(iss, syn, before);
      StepKeeps(Run(iss, syn, before), e, FinArrived(before), Written(before));
    }
  }

  lemma ValidOpens(iss: u32, syn: Segment, events: seq<Event>)
    requires Valid(iss, syn, events)
    ensures Opens(syn)
  {
  }

  lemma PrefixValid(iss: u32, syn: Segment, events: seq<Event>)
    requires Valid(iss, syn, events) && events != []
    ensures var before, e := events[..|events| - 1], events[|events| - 1];
            && Valid(iss, syn, before)
            && Enabled(Run(iss, syn, before), e)
            && (FinArrived(events) <==> FinArrived(before) || (e.Arrive? && e.segment.fin))
  {
    hide Run;
    var before, e := events[..|events| - 1], events[|events| - 1];
    forall k | 0 <= k < |before|
      ensures Enabled(Run(iss, syn, before[..k]), before[k])
    {
      assert before[..k] == events[..k] && before[k] == events[k];
    }
    if e.Arrive? && e.segment.fin {
      assert events[|before|].segment.fin;
    }
    if FinArrived(before) {
      var k :| 0 <= k < |before| && before[k].Arrive? && before[k].segment.fin;
      assert events[k] == before[k];
    }
    if FinArrived(events) {
      var k :| 0 <= k < |events| && events[k].Arrive? && events[k].segment.fin;
      assert k < |before| ==> before[k] == events[k];
    }
  }

  lemma StepKeeps(m: Machine, e: Event, fin: bool, written: nat)
    requires Inv(m.tcb, Monitor(m.log, m.tcb.iss), fin, written) && Enabled(m, e)
    ensures var m' := Step(m, e);
            && m'.tcb.iss == m.tcb.iss
            && Inv(m'.tcb, Monitor(m'.log, m.tcb.iss), fin || (e.Arrive? && e.segment.fin),
                   written + if e.Write? then |e.data| else 0)
  {
    hide Note, NoteAll, Monitor, Starts, OnSegment, Inv;
    var t, d := m.tcb, Monitor(m.log, m.tcb.iss);
    MonitorSound(m.log, t.iss);
    match e
    case Arrive(s) =>
      SegmentKeeps(t, d, s, fin, written);
      MonitorConcat(m.log, OnSegment(t, s).1, t.iss);
    case Write(data) => WriteKeeps(t, d, m.log, data, fin, written);
    case Close => CloseKeeps(t, d, m.log, fin, written);
    case Read(n) => ReadKeeps(t, d, |Prefix(t.unread, n)|, fin, written);
  }

  lemma ReadKeeps(t: Tcb, d: Digest, k: nat, fin: bool, written: nat)
    requires Inv(t, d, fin, written) && k <= |t.unread|
    ensures Inv(t.(unread := t.unread[k..]), d, fin, written)
  {
  }

  lemma WriteKeeps(t: Tcb, d: Digest, log: seq<Effect>, data: seq<byte>, fin: bool, written: nat)
    requires Inv(t, d, fin, written) && d.starts > 0 && d == Monitor(log, t.iss)
    ensures Inv(OnWrite(t, data).0, Monitor(log + OnWrite(t, data).1, t.iss), fin, written + |data|)
  {
    hide Note, NoteAll, Monitor;
    SendKeeps(t, d, fin, written, PushAck, data, t.phase);
    MonitorConcat(log, OnWrite(t, data).1, t.iss);
    NoteTwo(d, Sending(t, PushAck, data), Removed, t.iss);
  }

  lemma CloseKeeps(t: Tcb, d: Digest, log: seq<Effect>, fin: bool, written: nat)
    requires Inv(t, d, fin, written) && d.starts > 0 && d == Monitor(log, t.iss)
    ensures Inv(OnClose(t).0, Monitor(log + OnClose(t).1, t.iss), fin, written)
  {
    hide Note, NoteAll, Monitor;
    SendKeeps(t, d, fin, written, FinAck, [], FinWait1);
    MonitorConcat(log, OnClose(t).1, t.iss);
    NoteTwo(d, Sending(t, FinAck, []), Removed, t.iss);
  }

  /**
   Sequence conservation: every segment after a SYN|ACK carries the number its predecessor
   led to, so SND.NXT is ISS + 2 plus all that was written and every FIN, modulo 2^32.
   */
  lemma SequenceConservation(iss: u32, syn: Segment, events: seq<Event>)
    requires Valid(iss, syn, events)
    ensures var m := Run(iss, syn, events);
            var es := Sends(m.log);
            && |es| > 0 && Chained(es, iss)
            && m.tcb.nxt == Next(es[|es| - 1])
            && m.tcb.nxt == Add32(iss, 2 + Written(events) + FinsSent(es))
            && PayloadSent(es) == Written(events)
            && Payloads(es) == WrittenBytes(events)
  {
    hide Run, Valid;
    WritesAreSentInOrder(iss, syn, events);
    var log := Run(iss, syn, events).log;
    RunKeeps(iss, syn, events);
    hide Monitor, Sends, FinArrived, Written, WrittenBytes, Payloads;
    MonitorSoundSent(log, iss);
    MonitorSoundTotals(log, iss);
  }

  /**
   Handshake safety: the handler is started at most once, the connection is in Listen or
   SynReceived exactly as long as it has not been, nothing is delivered before it, no
   knock is ever reported from here, and three of the phases are never entered.
   */
  lemma HandshakeSafety(iss: u32, syn: Segment, events: seq<Event>)
    requires Valid(iss, syn, events)
    ensures var m := Run(iss, syn, events);
            && Starts(m.log) <= 1
            && (Starts(m.log) == 0 <==> m.tcb.phase == Listen || m.tcb.phase == SynReceived)
            && Orderly(m.log)
            && m.tcb.phase !in {SynSent, Closing, LastAck}
  {
    RunKeeps(iss, syn, events);
    MonitorSound(Run(iss, syn, events).log, iss);
  }

  /**
   ISS <= SND.UNA <= SND.NXT as long as our numbers have not wrapped around; and, in runs
   that use less than the whole sequence space, only so long.
   */
  lemma AcknowledgementWindow(iss: u32, syn: Segment, events: seq<Event>)
    requires Valid(iss, syn, events)
    ensures var m := Run(iss, syn, events);
            var used := 2 + Written(events) + FinsSent(Sends(m.log));
            && (iss + used < TWO32 ==> iss <= m.tcb.una <= m.tcb.nxt)
            && (used < TWO32 ==> (iss <= m.tcb.una <= m.tcb.nxt <==> iss + used < TWO32))
  {
    hide Run, Valid;
    RunKeeps(iss, syn, events);
    MonitorSoundTotals(Run(iss, syn, events).log, iss);
  }

  /** Once the handler runs, SND.UNA never goes back, wrapped or not. */
  lemma UnacknowledgedNeverDecreases(iss: u32, syn: Segment, events: seq<Event>, e: Event)
    requires Valid(iss, syn, events) && Started(Run(iss, syn, events))
    ensures Step(Run(iss, syn, events), e).tcb.una >= Run(iss, syn, events).tcb.una
  {
    HandshakeSafety(iss, syn, events);
  }

  // ---------------------------------------------------------------- what a segment does

  /** The segments that get as far as line 451: not a SYN, with ACK, and not a reset that is obeyed. */
  predicate Processed(t: Tcb, s: Segment) {
    s.ack && !s.syn && !(s.rst && t.phase in {SynReceived, CloseWait, TimeWait})
  }

  /** The segments whose text is taken. */
  predicate TakesText(t: Tcb, s: Segment) {
    && s.ack && !s.syn
    && (t.phase in {Established, FinWait1} || (t.phase == SynReceived && !s.rst && t.una <= s.ackNum <= t.nxt))
  }

  /** Exactly which segments have their text delivered, once and whole, and what it does to RCV.NXT and the buffer. */
  lemma TextTakenExactly(t: Tcb, s: Segment)
    requires |t.unread| <= BUFFER_SIZE
    ensures var (t', xs) := OnSegment(t, s);
            && (Delivered(s.payload) in xs <==> TakesText(t, s))
            && Accepted(xs) == (if TakesText(t, s) then s.payload else [])
            && t'.unread == (if TakesText(t, s) then t.unread + Kept(t.unread, s.payload) else t.unread)
            && (!s.fin && !(t.phase == Listen && s.syn) ==>
                  t'.rcvNxt == if TakesText(t, s) then Add32(t.rcvNxt, |s.payload|) else t.rcvNxt)
  {
    TextTaken(t, s);
    hide OnSegment, Add32, Kept;
    AcceptedBySegment([], t, s);
    AcceptedNothing();
    assert [] + OnSegment(t, s).1 == OnSegment(t, s).1;
    assert [] + s.payload == s.payload;
  }

  lemma TextTaken(t: Tcb, s: Segment)
    requires |t.unread| <= BUFFER_SIZE
    ensures Delivered(s.payload) in OnSegment(t, s).1 <==> TakesText(t, s)
    ensures !s.fin && !(t.phase == Listen && s.syn) ==>
      OnSegment(t, s).0.rcvNxt == if TakesText(t, s) then Add32(t.rcvNxt, |s.payload|) else t.rcvNxt
  {
    hide Add32, Kept;
  }

  /** The receive buffer holds 4096 bytes. */
  lemma BufferHolds(p: seq<byte>)
    ensures Kept([], p) == p <==> |p| <= 4096
  {
  }

  /** SND.UNA after every segment. */
  lemma AcknowledgedExactly(t: Tcb, s: Segment)
    requires |t.unread| <= BUFFER_SIZE
    ensures OnSegment(t, s).0.una ==
            if t.phase == Listen && s.syn then t.iss
            else if Processed(t, s) && t.una <= s.ackNum <= t.nxt then s.ackNum
            else t.una
  {
  }

  /** Exactly which segments take the State out of the table. */
  lemma RemovedExactly(t: Tcb, s: Segment)
    requires |t.unread| <= BUFFER_SIZE
    ensures Removed in OnSegment(t, s).1 <==>
            || (s.rst && t.phase in {CloseWait, TimeWait})
            || (s.ack && !s.syn && t.phase == CloseWait)
  {
  }

  /** What is sent for every segment: the answer to a SYN, or an acknowledgement of text and an answer to a FIN. */
  lemma SentExactly(t: Tcb, s: Segment)
    requires |t.unread| <= BUFFER_SIZE
    ensures Sends(OnSegment(t, s).1) ==
            if t.phase == Listen && s.syn then [Emission(Add32(t.iss, 1), Add32(s.seqNum, 1), SynAck, [])]
            else TextAnswer(t, s) + FinAnswer(t, s)
  {
    var xs := OnSegment(t, s).1;
    if t.phase == Listen && s.syn {
      assert xs == [xs[0]];
      SendsOne(xs[0]);
    } else if Processed(t, s) && !(t.phase == SynReceived && !Acceptable(t, s)) {
      SentByRest(t, s);
    } else if xs != [] {
      assert xs == [Removed];
      SendsOne(Removed);
    } else {
      SendsNothing();
    }
  }

  function TextAnswer(t: Tcb, s: Segment): seq<Emission> {
    if TakesText(t, s) && s.payload != [] then [Emission(t.nxt, Add32(t.rcvNxt, |s.payload|), JustAck, [])] else []
  }

  function FinAnswer(t: Tcb, s: Segment): seq<Emission> {
    if !FinTaken(t, s) || !CountsFin(t.phase) then []
    else [Emission(t.nxt, Add32(s.seqNum, 1), if t.phase == FinWait1 then JustAck else FinAck, [])]
  }

  lemma SendsNothing()
    ensures Sends([]) == []
  {
  }

  lemma SendsOne(x: Effect)
    ensures Sends([x]) == if x.Sent? then [x.segment] else []
  {
    Push([], x);
    assert [] + [x] == [x];
  }

  lemma {:induction false} SendsConcat(log: seq<Effect>, xs: seq<Effect>)
    ensures Sends(log + xs) == Sends(log) + Sends(xs)
    decreases |xs|
  {
    hide Sends;
    if xs == [] {
      SendsNothing();
      assert log + xs == log;
    } else {
      var front, x := xs[..|xs| - 1], xs[|xs| - 1];
      assert xs == front + [x] && log + xs == log + front + [x];
      SendsConcat(log, front);
      Push(log + front, x);
      Push(front, x);
    }
  }

  lemma SentByRest(t: Tcb, s: Segment)
    requires |t.unread| <= BUFFER_SIZE && Processed(t, s) && (t.phase == SynReceived ==> Acceptable(t, s))
    ensures Sends(Rest(t, s).1) == TextAnswer(t, s) + FinAnswer(t, s)
  {
    hide Sends, Add32, Kept;
    var (t1, e1) := TakeAck(t, s);
    var (t2, e2) := TakeText(t1, s);
    var (t3, e3) := TakeFin(t2, s);
    SendsConcat(e1, e2);
    SendsConcat(e1 + e2, e3);
    SentByText(t1, s);
    SentByFin(t2, s);
    if e1 == [] {
      SendsNothing();
    } else {
      assert e1 == [e1[0]];
      SendsOne(e1[0]);
    }
    assert Sends(e1) == [];
    assert [] + Sends(e2) == Sends(e2);
  }

  lemma SentByText(t: Tcb, s: Segment)
    requires |t.unread| <= BUFFER_SIZE
    ensures Sends(TakeText(t, s).1) ==
            if t.phase in {Established, FinWait1, FinWait2} && s.payload != []
            then [Emission(t.nxt, Add32(t.rcvNxt, |s.payload|), JustAck, [])] else []
  {
    hide Sends, Add32, Kept;
    var xs := TakeText(t, s).1;
    SendsNothing();
    if |xs| == 1 {
      assert xs == [xs[0]];
      SendsOne(xs[0]);
    } else if xs != [] {
      assert xs == [xs[0]] + [xs[1]];
      SendsConcat([xs[0]], [xs[1]]);
      SendsOne(xs[0]);
      SendsOne(xs[1]);
    }
  }

  lemma SentByFin(t: Tcb, s: Segment)
    ensures Sends(TakeFin(t, s).1) ==
            if !s.fin then []
            else if t.phase in {Established, SynReceived} then [Emission(t.nxt, Add32(s.seqNum, 1), FinAck, [])]
            else if t.phase == FinWait2 then [Emission(t.nxt, Add32(s.seqNum, 1), JustAck, [])]
            else []
  {
    hide Sends, Add32;
    var xs := TakeFin(t, s).1;
    SendsNothing();
    if xs != [] {
      assert xs == [xs[0]];
      SendsOne(xs[0]);
    }
  }

  /** The phase after every segment. */
  lemma PhaseExactly(t: Tcb, s: Segment)
    requires |t.unread| <= BUFFER_SIZE
    ensures OnSegment(t, s).0.phase ==
            match t.phase
            case Listen => if s.syn then SynReceived else Listen
            case SynReceived =>
              if s.rst then Listen
              else if !Processed(t, s) || !(t.una <= s.ackNum <= t.nxt) then SynReceived
              else if s.fin then CloseWait else Established
            case Established => if Processed(t, s) && s.fin then CloseWait else Established
            case FinWait1 => if !Processed(t, s) then FinWait1 else if s.fin then TimeWait else FinWait2
            case FinWait2 => if Processed(t, s) then TimeWait else FinWait2
            case Closing => if Processed(t, s) then TimeWait else Closing
            case CloseWait => if s.rst then Closed else CloseWait
            case TimeWait => if s.rst then Closed else TimeWait
            case p => p
  {
  }

  // ---------------------------------------------------------------- what is sent

  /** Nothing that answers a segment carries text. */
  lemma AnswersAreEmpty(t: Tcb, s: Segment)
    requires |t.unread| <= BUFFER_SIZE
    ensures forall x :: x in OnSegment(t, s).1 && x.Sent? ==> x.segment.payload == []
  {
  }

  lemma {:induction false} PayloadsOfAnswers(log: seq<Effect>, xs: seq<Effect>)
    requires forall x :: x in xs && x.Sent? ==> x.segment.payload == []
    ensures Payloads(Sends(log + xs)) == Payloads(Sends(log))
    decreases |xs|
  {
    hide Sends, Payloads;
    if xs == [] {
      assert log + xs == log;
    } else {
      var n := |xs| - 1;
      assert xs[n] in xs && forall x :: x in xs[..n] ==> x in xs;
      PayloadsOfAnswers(log, xs[..n]);
      assert log + xs == log + xs[..n] + [xs[n]];
      PayloadsPush(log + xs[..n], xs[n]);
    }
  }

  lemma PayloadsPush(log: seq<Effect>, x: Effect)
    ensures Payloads(Sends(log + [x])) == Payloads(Sends(log)) + if x.Sent? then x.segment.payload else []
  {
    hide Sends, Payloads;
    Push(log, x);
    if x.Sent? {
      TotalsPush(Sends(log), x.segment);
    } else {
      assert Sends(log) + [] == Sends(log);
      assert Payloads(Sends(log)) + [] == Payloads(Sends(log));
    }
  }

  /** The peer is sent what the application has written, byte for byte and in order. */
  lemma {:induction false} WritesAreSentInOrder(iss: u32, syn: Segment, events: seq<Event>)
    ensures Payloads(Sends(Run(iss, syn, events).log)) == WrittenBytes(events)
  {
    hide OnSegment, Sends, Payloads;
    if events == [] {
      var t := Tcb(Listen, iss, 0, 0, 0, []);
      AnswersAreEmpty(t, syn);
      PayloadsOfAnswers([], OnSegment(t, syn).1);
      NothingSent();
    } else {
      var before, e := events[..|events| - 1], events[|events| - 1];
      WritesAreSentInOrder(iss, syn, before);
      var m := Run(iss, syn, before);
      match e
      case Arrive(s) =>
        AnswersAreEmpty(m.tcb, s);
        PayloadsOfAnswers(m.log, OnSegment(m.tcb, s).1);
      case Write(data) => PayloadsPush(m.log, Sending(m.tcb, PushAck, data));
      case Close => PayloadsPush(m.log, Sending(m.tcb, FinAck, []));
      case Read(_) =>
    }
  }

  lemma NothingSent()
    ensures Payloads(Sends([])) == []
  {
  }

  // ---------------------------------------------------------------- what is received

  /** The number after the SYN that the connection has answered last. */
  function PeerStart(iss: u32, syn: Segment, events: seq<Event>): u32 {
    if events == [] then Add32(syn.seqNum, 1) else
    var before, e := events[..|events| - 1], events[|events| - 1];
    if e.Arrive? && e.segment.syn && Run(iss, syn, before).tcb.phase == Listen then Add32(e.segment.seqNum, 1)
    else PeerStart(iss, syn, before)
  }

  /** The text of all segments that arrived when their text was to be taken. */
  function TextArrived(iss: u32, syn: Segment, events: seq<Event>): seq<byte> {
    if events == [] then [] else
    var before, e := events[..|events| - 1], events[|events| - 1];
    TextArrived(iss, syn, before) +
    if e.Arrive? && TakesText(Run(iss, syn, before).tcb, e.segment) then e.segment.payload else []
  }

  /** What has been accepted, in every run: just that text, in order. */
  lemma {:induction false} AcceptedIsTextArrived(iss: u32, syn: Segment, events: seq<Event>)
    requires Opens(syn)
    ensures Accepted(Run(iss, syn, events).log) == TextArrived(iss, syn, events)
  {
    hide OnSegment, Accepted, TakesText;
    if events == [] {
      var t := Tcb(Listen, iss, 0, 0, 0, []);
      TextTakenExactly(t, syn);
      AcceptedNothing();
      assert Begin(iss, syn).log == [] + OnSegment(t, syn).1 == OnSegment(t, syn).1;
      NoTextInListen(t, syn);
    } else {
      var before, e := events[..|events| - 1], events[|events| - 1];
      AcceptedIsTextArrived(iss, syn, before);
      var m := Run(iss, syn, before);
      match e
      case Arrive(s) =>
        TextTakenExactly(m.tcb, s);
        AcceptedConcat(m.log, OnSegment(m.tcb, s).1);
      case Write(data) => Push(m.log, Sending(m.tcb, PushAck, data));
      case Close => Push(m.log, Sending(m.tcb, FinAck, []));
      case Read(_) =>
    }
  }

  lemma NoTextInListen(t: Tcb, s: Segment)
    requires t.phase == Listen
    ensures !TakesText(t, s)
  {
  }

  lemma {:induction false} OriginConcat(log: seq<Effect>, xs: seq<Effect>)
    requires forall x :: x in xs && x.Sent? ==> !x.segment.flags.SynAck?
    ensures Origin(log + xs) == Origin(log)
    decreases |xs|
  {
    hide Origin;
    if xs == [] {
      assert log + xs == log;
    } else {
      var n := |xs| - 1;
      assert xs[n] in xs && forall x :: x in xs[..n] ==> x in xs;
      OriginConcat(log, xs[..n]);
      assert log + xs == log + xs[..n] + [xs[n]];
      Push(log + xs[..n], xs[n]);
    }
  }

  /** Only the answer to a SYN in Listen starts the count anew, one past the number of that SYN. */
  lemma OriginBySegment(log: seq<Effect>, t: Tcb, s: Segment)
    requires |t.unread| <= BUFFER_SIZE
    ensures Origin(log + OnSegment(t, s).1) ==
            if t.phase == Listen && s.syn then Add32(s.seqNum, 1) else Origin(log)
  {
    hide Origin, Add32;
    var xs := OnSegment(t, s).1;
    if t.phase == Listen && s.syn {
      assert xs == [xs[0]];
      Push(log, xs[0]);
    } else {
      OriginConcat(log, xs);
    }
  }

  lemma {:induction false} OriginIsPeerStart(iss: u32, syn: Segment, events: seq<Event>)
    requires Opens(syn)
    ensures Origin(Run(iss, syn, events).log) == PeerStart(iss, syn, events)
  {
    hide OnSegment, Origin;
    if events == [] {
      OriginBySegment([], Tcb(Listen, iss, 0, 0, 0, []), syn);
    } else {
      var before, e := events[..|events| - 1], events[|events| - 1];
      OriginIsPeerStart(iss, syn, before);
      var m := Run(iss, syn, before);
      match e
      case Arrive(s) => OriginBySegment(m.log, m.tcb, s);
      case Write(data) => Push(m.log, Sending(m.tcb, PushAck, data));
      case Close => Push(m.log, Sending(m.tcb, FinAck, []));
      case Read(_) =>
    }
  }

  /**
   Receive accounting, until the first FIN: RCV.NXT is the number after the peer's SYN plus
   all bytes accepted, and every segment sent acknowledges just what was accepted before it.
   */
  lemma ReceiveAccounting(iss: u32, syn: Segment, events: seq<Event>)
    requires Valid(iss, syn, events) && !FinArrived(events)
    ensures var m := Run(iss, syn, events);
            && m.tcb.rcvNxt == Add32(PeerStart(iss, syn, events), |TextArrived(iss, syn, events)|)
            && Accepted(m.log) == TextArrived(iss, syn, events)
            && Origin(m.log) == PeerStart(iss, syn, events)
            && (forall i :: 0 <= i < |m.log| ==> Carries(m.log, i))
  {
    hide PeerStart, TextArrived;
    RunKeeps(iss, syn, events);
    MonitorSound(Run(iss, syn, events).log, iss);
    OriginIsPeerStart(iss, syn, events);
    AcceptedIsTextArrived(iss, syn, events);
  }

  /** What a segment without FIN, or the application, makes the connection send acknowledges RCV.NXT as it then is. */
  lemma SentWithNext(m: Machine, e: Event)
    requires |m.tcb.unread| <= BUFFER_SIZE && (e.Arrive? ==> !e.segment.fin)
    ensures var m' := Step(m, e);
            && |m.log| <= |m'.log|
            && forall i :: |m.log| <= i < |m'.log| && m'.log[i].Sent? ==> m'.log[i].segment.ackNum == m'.tcb.rcvNxt
  {
    hide Add32, Kept;
  }

  /**
   Step by step: until the first FIN, whatever the last step of a run has sent acknowledges
   the peer's SYN and all bytes accepted so far.
   */
  lemma AcknowledgesTheAccepted(iss: u32, syn: Segment, events: seq<Event>, e: Event)
    requires Valid(iss, syn, events + [e]) && !FinArrived(events + [e])
    ensures var m, m' := Run(iss, syn, events), Run(iss, syn, events + [e]);
            && |m.log| <= |m'.log|
            && forall i :: |m.log| <= i < |m'.log| && m'.log[i].Sent? ==>
                 m'.log[i].segment.ackNum ==
                 Add32(PeerStart(iss, syn, events + [e]), |TextArrived(iss, syn, events + [e])|)
  {
    var all := events + [e];
    assert all[..|all| - 1] == events && all[|events|] == e;
    hide Valid, OnSegment, Accepted, PeerStart, TextArrived, Add32;
    ReceiveAccounting(iss, syn, all);
    SentWithNext(Run(iss, syn, events), e);
  }

  /** The phases in which a FIN that is processed moves RCV.NXT past itself. */
  predicate CountsFin(p: Phase) {
    p == SynReceived || p == Established || p == FinWait1
  }

  /** A segment with FIN that is not dropped. */
  predicate FinTaken(t: Tcb, s: Segment) {
    && s.fin && s.ack && !s.syn && !(s.rst && t.phase in {SynReceived, CloseWait, TimeWait})
    && (t.phase == SynReceived ==> Acceptable(t, s))
  }

  /** Any other FIN neither moves RCV.NXT nor has its text delivered, unless it comes with the SYN that opens. */
  lemma FinDropped(t: Tcb, s: Segment)
    requires |t.unread| <= BUFFER_SIZE && s.fin && !FinTaken(t, s) && !(t.phase == Listen && s.syn)
    ensures var (t', xs) := OnSegment(t, s);
            t'.rcvNxt == t.rcvNxt && t'.unread == t.unread && Delivered(s.payload) !in xs
  {
  }

  /**
   What a FIN does to RCV.NXT, in every state: it is set from the number of the segment and
   not from the text.  So a FIN in sequence is accounted for, that is RCV.NXT moves over the
   text and the FIN, exactly if it carries no text and the phase is one that counts it.
   */
  lemma FinAccounting(t: Tcb, s: Segment)
    requires |t.unread| <= BUFFER_SIZE && FinTaken(t, s)
    ensures var next := OnSegment(t, s).0.rcvNxt;
            && next == (if CountsFin(t.phase) then Add32(s.seqNum, 1) else s.seqNum)
            && (s.seqNum == t.rcvNxt && |s.payload| < TWO32 - 1 ==>
                  (next == Add32(t.rcvNxt, |s.payload| + 1) <==> CountsFin(t.phase) && s.payload == []))
  {
    if |s.payload| < TWO32 - 1 {
      Wraps(t.rcvNxt, |s.payload|);
    }
  }

  lemma Wraps(a: u32, n: nat)
    requires n < TWO32 - 1
    ensures Add32(a, n + 1) == Add32(a, 1) <==> n == 0
    ensures Add32(a, n + 1) != a
  {
    assert a + n + 1 < 2 * TWO32;
    assert a + n + 1 >= TWO32 ==> Add32(a, n + 1) == a + n + 1 - TWO32;
  }

  /**
   The same over runs: the first FIN of a run, when it comes in sequence, leaves RCV.NXT at
   the number after all accepted bytes and the FIN exactly if it carries no text and the
   connection is one that counts it.
   */
  lemma FirstFin(iss: u32, syn: Segment, events: seq<Event>, s: Segment)
    requires Valid(iss, syn, events) && !FinArrived(events)
    requires var t := Run(iss, syn, events).tcb;
             FinTaken(t, s) && s.seqNum == t.rcvNxt && |s.payload| < TWO32 - 1
    ensures var m := Run(iss, syn, events);
            var m' := Step(m, Arrive(s));
            m'.tcb.rcvNxt == Add32(PeerStart(iss, syn, events), |Accepted(m'.log)| + 1) <==>
            CountsFin(m.tcb.phase) && s.payload == []
  {
    hide Run, Valid, FinArrived, OnSegment, Accepted, Origin, PeerStart, Add32;
    var m := Run(iss, syn, events);
    ReceiveAccounting(iss, syn, events);
    HandshakeSafety(iss, syn, events);
    FinAccounting(m.tcb, s);
    FinText(m.tcb, s);
    AcceptedBySegment(m.log, m.tcb, s);
    var o, n := PeerStart(iss, syn, events), |Accepted(m.log)|;
    Add32Twice(o, n, 1);
    Add32Twice(o, n, |s.payload| + 1);
    Wraps(m.tcb.rcvNxt, 0);
    Wraps(m.tcb.rcvNxt, |s.payload|);
  }

  /** The phases that count a FIN are those that accept text. */
  lemma FinText(t: Tcb, s: Segment)
    requires |t.unread| <= BUFFER_SIZE && FinTaken(t, s)
    ensures Delivered(s.payload) in OnSegment(t, s).1 <==> CountsFin(t.phase)
  {
  }

  /** Where it fails: text that comes with the FIN is delivered and left out of RCV.NXT. */
  lemma TextWithFinIsNotAcknowledged(t: Tcb)
    requires t.phase == Established && t.unread == []
    ensures var (t', xs) := OnSegment(t, Segment(t.rcvNxt, t.una, true, false, false, true, [7]));
            Delivered([7]) in xs && t'.unread == [7] && t'.rcvNxt == Add32(t.rcvNxt, 1) != Add32(t.rcvNxt, 2)
  {
    var s := Segment(t.rcvNxt, t.una, true, false, false, true, [7]);
    FinText(t, s);
    FinAccounting(t, s);
  }

  /** Exactly which segments start the handler. */
  lemma HandlerStartsExactly(t: Tcb, s: Segment)
    requires |t.unread| <= BUFFER_SIZE
    ensures HandlerStarted in OnSegment(t, s).1 <==>
            t.phase == SynReceived && !s.rst && !s.syn && s.ack && t.una <= s.ackNum <= t.nxt
  {
  }

  /** The phases that a segment can lead to. */
  function Successors(p: Phase): set<Phase> {
    match p
    case Listen => {SynReceived}
    case SynReceived => {Listen, Established, CloseWait}
    case Established => {CloseWait}
    case FinWait1 => {FinWait2, TimeWait}
    case FinWait2 => {TimeWait}
    case CloseWait => {Closed}
    case TimeWait => {Closed}
    case _ => {}
  }

  /** The state diagram: what a segment can do in a run, and what the application does to it. */
  lemma PhaseDiagram(iss: u32, syn: Segment, events: seq<Event>, e: Event)
    requires Valid(iss, syn, events)
    ensures var before, after := Run(iss, syn, events).tcb.phase, Step(Run(iss, syn, events), e).tcb.phase;
            match e
            case Arrive(_) => after == before || after in Successors(before)
            case Close => after == FinWait1
            case _ => after == before
  {
    hide Run, Valid;
    HandshakeSafety(iss, syn, events);
  }

  /** And every edge of the diagram is taken by some segment. */
  lemma PhaseDiagramIsTight(t: Tcb, p: Phase)
    requires |t.unread| <= BUFFER_SIZE && t.una <= t.nxt && p in Successors(t.phase)
    ensures exists s :: OnSegment(t, s).0.phase == p
  {
    var s := Segment(0, t.una, p in {CloseWait, TimeWait} && t.phase != FinWait2, p == SynReceived,
                     p in {Listen, Closed}, true, []);
    assert OnSegment(t, s).0.phase == p;
  }

  lemma SynDeliversNothing(t: Tcb, s: Segment)
    requires |t.unread| <= BUFFER_SIZE && s.syn
    ensures forall x :: x in OnSegment(t, s).1 ==> !x.Delivered?
  {
  }

  // ---------------------------------------------------------------- initial numbers near the top

  /**
   Whether a handshake can complete depends on the initial number alone: SND.NXT is ISS+2,
   and when that wraps around no acknowledgement number fits between SND.UNA and SND.NXT.
   */
  lemma HandshakeCompletes(iss: u32, syn: Segment)
    requires Opens(syn)
    ensures (exists events :: Valid(iss, syn, events) && Started(Run(iss, syn, events))) <==>
            iss < TWO32 - 2
  {
    if iss < TWO32 - 2 {
      var ack := Segment(0, iss, false, false, false, true, []);
      var events := [Arrive(ack)];
      assert events[..0] == [];
      assert Valid(iss, syn, events);
      HandshakeSafety(iss, syn, events);
    } else {
      forall events | Valid(iss, syn, events)
        ensures !Started(Run(iss, syn, events))
      {
        NeverCompletes(iss, syn, events);
        HandshakeSafety(iss, syn, events);
      }
    }
  }

  lemma {:induction false} NeverCompletes(iss: u32, syn: Segment, events: seq<Event>)
    requires Valid(iss, syn, events) && iss >= TWO32 - 2
    ensures var t := Run(iss, syn, events).tcb;
            Unstarted(t.phase) && t.iss == t.una == iss && t.nxt < t.una
  {
    if events != [] {
      var before, e := events[..|events| - 1], events[|events| - 1];
      PrefixValid(iss, syn, events);
      NeverCompletes(iss, syn, before);
      HandshakeSafety(iss, syn, before);
      hide Valid, OnSegment;
      assert e.Arrive?;
      NeverCompletesStep(Run(iss, syn, before).tcb, e.segment);
    }
  }

  lemma NeverCompletesStep(t: Tcb, s: Segment)
    requires |t.unread| <= BUFFER_SIZE && Unstarted(t.phase)
    requires TWO32 - 2 <= t.iss == t.una && t.nxt < t.una
    ensures var t' := OnSegment(t, s).0;
            Unstarted(t'.phase) && t'.iss == t'.una == t.iss && t'.nxt < t'.una
  {
  }

  // ---------------------------------------------------------------- the reader

  /** The step hands the socket more than its buffer has room for. */
  predicate Overflows(m: Machine, e: Event)
    requires |m.tcb.unread| <= BUFFER_SIZE
  {
    && e.Arrive?
    && Delivered(e.segment.payload) in OnSegment(m.tcb, e.segment).1
    && |m.tcb.unread| + |e.segment.payload| > BUFFER_SIZE
  }

  predicate EverOverflows(iss: u32, syn: Segment, events: seq<Event>) {
    exists k :: 0 <= k < |events| && Overflows(Run(iss, syn, events[..k]), events[k])
  }

  /**
   What was read and what is still unread make up the accepted payloads, in order, exactly
   in the runs where no payload found the buffer too full.
   */
  lemma ReaderGetsWhatWasAccepted(iss: u32, syn: Segment, events: seq<Event>)
    requires Valid(iss, syn, events)
    ensures var m := Run(iss, syn, events);
            && Accepted(m.log) == TextArrived(iss, syn, events)
            && (m.read + m.tcb.unread == TextArrived(iss, syn, events) <==> !EverOverflows(iss, syn, events))
  {
    hide Run, Valid, TextArrived, EverOverflows, Accepted;
    ValidOpens(iss, syn, events);
    ReaderAccount(iss, syn, events);
    AcceptedIsTextArrived(iss, syn, events);
  }

  /** A read takes as much as there is and as was asked for. */
  lemma ReadTakes(m: Machine, n: nat)
    requires |m.tcb.unread| <= BUFFER_SIZE
    ensures var m' := Step(m, Read(n));
            && m'.read + m'.tcb.unread == m.read + m.tcb.unread
            && |m'.read| == |m.read| + if n <= |m.tcb.unread| then n else |m.tcb.unread|
  {
    var p := Prefix(m.tcb.unread, n);
    assert p + m.tcb.unread[|p|..] == m.tcb.unread;
    assert m.read + p + m.tcb.unread[|p|..] == m.read + (p + m.tcb.unread[|p|..]);
  }

  /** So a read that asks for enough leaves the application with all the text that has arrived. */
  lemma ReadingAllGetsAll(iss: u32, syn: Segment, events: seq<Event>, n: nat)
    requires Valid(iss, syn, events) && !EverOverflows(iss, syn, events)
    requires n >= |Run(iss, syn, events).tcb.unread|
    ensures Step(Run(iss, syn, events), Read(n)).read == TextArrived(iss, syn, events)
  {
    hide Run, Valid, TextArrived, EverOverflows, Accepted, Step;
    var m := Run(iss, syn, events);
    ReaderGetsWhatWasAccepted(iss, syn, events);
    ReadTakes(m, n);
    var m' := Step(m, Read(n));
    assert m'.tcb.unread == [];
    assert m'.read + [] == m'.read;
  }

  lemma {:induction false} ReaderAccount(iss: u32, syn: Segment, events: seq<Event>)
    requires Valid(iss, syn, events)
    ensures var m := Run(iss, syn, events);
            if EverOverflows(iss, syn, events) then Lost(m) > 0 else Complete(m)
  {
    hide Begin, Step, Valid, EverOverflows, Overflows, Lost, Complete;
    ValidOpens(iss, syn, events);
    if events == [] {
      ReaderBegin(iss, syn);
    } else {
      var n := |events| - 1;
      var before, e := events[..n], events[n];
      PrefixValid(iss, syn, events);
      ReaderAccount(iss, syn, before);
      OverflowsLast(iss, syn, events);
      ReaderStep(Run(iss, syn, before), e);
      LossIsForGood(Run(iss, syn, before), Run(iss, syn, events));
    }
  }

  lemma ReaderBegin(iss: u32, syn: Segment)
    requires Opens(syn)
    ensures !EverOverflows(iss, syn, []) && Complete(Begin(iss, syn))
  {
    hide Run, Overflows, Begin;
    var x := BeginLog(iss, syn);
    Push([], x);
  }

  lemma BeginLog(iss: u32, syn: Segment) returns (x: Effect)
    requires Opens(syn)
    ensures x.Sent? && Begin(iss, syn).log == [] + [x]
    ensures Begin(iss, syn).read == [] && Begin(iss, syn).tcb.unread == []
  {
    hide Rest;
    x := Answer(Tcb(Listen, iss, 0, 0, 0, []), syn).1[0];
  }

  lemma LossIsForGood(m: Machine, m': Machine)
    requires Lost(m') >= Lost(m)
    ensures Complete(m) ==> Lost(m) == 0
    ensures Lost(m) > 0 ==> Lost(m') > 0
  {
  }

  lemma OverflowsLast(iss: u32, syn: Segment, events: seq<Event>)
    requires events != []
    ensures var before, e := events[..|events| - 1], events[|events| - 1];
            EverOverflows(iss, syn, events) <==>
              EverOverflows(iss, syn, before) || Overflows(Run(iss, syn, before), e)
  {
    hide Run, Overflows;
    var n := |events| - 1;
    assert forall k :: 0 <= k < n ==> events[..n][..k] == events[..k] && events[..n][k] == events[k];
  }

  /** Accepted bytes that the reader will never get. */
  function Lost(m: Machine): int {
    |Accepted(m.log)| - |m.read| - |m.tcb.unread|
  }

  predicate Complete(m: Machine) {
    m.read + m.tcb.unread == Accepted(m.log)
  }

  lemma ReaderArrive(m: Machine, s: Segment)
    requires |m.tcb.unread| <= BUFFER_SIZE
    ensures var m' := Step(m, Arrive(s));
            && Lost(m') >= Lost(m) + (if Overflows(m, Arrive(s)) then 1 else 0)
            && (!Overflows(m, Arrive(s)) && Complete(m) ==> Complete(m'))
  {
    hide OnSegment, Accepted;
    AcceptedBySegment(m.log, m.tcb, s);
    var m' := Step(m, Arrive(s));
    if Delivered(s.payload) in OnSegment(m.tcb, s).1 {
      assert m'.read + m'.tcb.unread == m.read + m.tcb.unread + Kept(m.tcb.unread, s.payload);
    }
  }

  lemma ReaderStep(m: Machine, e: Event)
    requires |m.tcb.unread| <= BUFFER_SIZE
    ensures var m' := Step(m, e);
            && Lost(m') >= Lost(m) + (if Overflows(m, e) then 1 else 0)
            && (!Overflows(m, e) && Complete(m) ==> Complete(m'))
  {
    hide OnSegment, Accepted, Add32, Prefix, Lost, Complete;
    match e
    case Arrive(s) => ReaderArrive(m, s);
    case Write(data) =>
      Push(m.log, Sending(m.tcb, PushAck, data));
      ReaderQuiet(m, Step(m, e));
    case Close =>
      Push(m.log, Sending(m.tcb, FinAck, []));
      ReaderQuiet(m, Step(m, e));
    case Read(n) =>
      ReadTakes(m, n);
      ReaderQuiet(m, Step(m, e));
  }

  lemma ReaderQuiet(m: Machine, m': Machine)
    requires Accepted(m'.log) == Accepted(m.log) && m'.read + m'.tcb.unread == m.read + m.tcb.unread
    ensures Lost(m') == Lost(m) && (Complete(m) ==> Complete(m'))
  {
    hide Accepted;
    assert |m'.read + m'.tcb.unread| == |m.read + m.tcb.unread|;
  }

  /** A segment is accepted whole or not at all; what fits of it goes into the buffer. */
  lemma AcceptedBySegment(log: seq<Effect>, t: Tcb, s: Segment)
    requires |t.unread| <= BUFFER_SIZE
    ensures var (t', xs) := OnSegment(t, s);
            if Delivered(s.payload) in xs
            then Accepted(log + xs) == Accepted(log) + s.payload && t'.unread == t.unread + Kept(t.unread, s.payload)
            else Accepted(log + xs) == Accepted(log) && t'.unread == t.unread
  {
    var (t', xs) := OnSegment(t, s);
    AcceptedConcat(log, xs);
    AcceptedByRest(t, s);
    hide Rest;
    if s.rst && (t.phase == CloseWait || t.phase == TimeWait) {
      assert Accepted([Removed]) == [];
    }
  }

  lemma AcceptedByRest(t: Tcb, s: Segment)
    requires |t.unread| <= BUFFER_SIZE
    ensures var (t', xs) := Rest(t, s);
            if Delivered(s.payload) in xs
            then Accepted(xs) == s.payload && t'.unread == t.unread + Kept(t.unread, s.payload)
            else Accepted(xs) == [] && t'.unread == t.unread
  {
    hide TakeAck, TakeText, TakeFin, Accepted;
    if t.phase == SynReceived && !Acceptable(t, s) {
      AcceptedConcat([], []);
    } else {
      NothingAccepted(t, s);
      var (t1, e1) := TakeAck(t, s);
      var (t2, e2) := TakeText(t1, s);
      NothingAccepted(t2, s);
      AcceptedByText(t1, s);
      AcceptedConcat(e1, e2);
      AcceptedConcat(e1 + e2, TakeFin(t2, s).1);
    }
  }

  /** Only the text of a segment is ever delivered. */
  lemma NothingAccepted(t: Tcb, s: Segment)
    ensures Accepted(TakeAck(t, s).1) == [] && TakeAck(t, s).0.unread == t.unread
    ensures Accepted(TakeFin(t, s).1) == [] && TakeFin(t, s).0.unread == t.unread
    ensures Delivered(s.payload) !in TakeAck(t, s).1 + TakeFin(t, s).1
  {
  }

  lemma AcceptedByText(t: Tcb, s: Segment)
    requires |t.unread| <= BUFFER_SIZE
    ensures var (t', xs) := TakeText(t, s);
            if Delivered(s.payload) in xs
            then Accepted(xs) == s.payload && t'.unread == t.unread + Kept(t.unread, s.payload)
            else Accepted(xs) == [] && t' == t
  {
    var (t', xs) := TakeText(t, s);
    if xs != [] && s.payload == [] {
      assert xs == [Delivered(s.payload)];
    } else if xs != [] {
      var y := Sending(t', JustAck, []);
      assert xs == [Delivered(s.payload)] + [y];
      Push([Delivered(s.payload)], y);
    }
  }

  lemma {:induction false} AcceptedConcat(log: seq<Effect>, xs: seq<Effect>)
    ensures Accepted(log + xs) == Accepted(log) + Accepted(xs)
    ensures Accepted([]) == []
    decreases |xs|
  {
    hide Accepted, Sends, Starts, Origin;
    AcceptedNothing();
    if xs == [] {
      assert log + xs == log;
    } else {
      var n := |xs| - 1;
      var p := if xs[n].Delivered? then xs[n].payload else [];
      AcceptedConcat(log, xs[..n]);
      assert log + xs == log + xs[..n] + [xs[n]];
      Push(log + xs[..n], xs[n]);
      assert xs == xs[..n] + [xs[n]];
      Push(xs[..n], xs[n]);
      assert Accepted(log) + Accepted(xs[..n]) + p == Accepted(log) + (Accepted(xs[..n]) + p);
    }
  }

  lemma AcceptedNothing()
    ensures Accepted([]) == []
  {
  }
}
