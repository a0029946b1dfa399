/**
 One TCP connection of the canary: handleTCP of listener/canary/canary_linux.go from the
 point where its State is found, State.write and State.close of listener/canary/state.go,
 and the receive buffer of listener/canary/socket.go.

 All but the reads hold the lock of the State from beginning to end, and a read is taken
 not to overlap with a write to the receive buffer.  So a connection is a step system whose
 steps are "a segment arrives", "the application writes", "the application closes" and
 "the application reads".  The code is modelled as it is written: acknowledgement numbers
 are compared as plain uint32 values, the SYN|ACK leaves with sequence number ISS+1, empty
 switch arms do nothing, and a wrong checksum is overlooked.
 */
module Connection {
  import opened Words
  import opened Checksum
  import opened TcpHeader

  datatype Phase =
    | Closed | Listen | SynReceived | SynSent | Established | FinWait1 | FinWait2
    | Closing | TimeWait | CloseWait | LastAck

  /** The parts of a received header that handleTCP looks at. */
  datatype Segment = Segment(
    seqNum: u32, ackNum: u32, fin: bool, syn: bool, rst: bool, ack: bool, payload: seq<byte>)

  function SegmentOf(h: Fields): Segment {
    Segment(h.seqNum, h.ackNum, HasFlag(h.ctrl, FIN), HasFlag(h.ctrl, SYN),
            HasFlag(h.ctrl, RST), HasFlag(h.ctrl, ACK), h.payload)
  }

  /** The flags are the bits of byte 13 with the values 1, 2, 4 and 16: section 3.1 of RFC 793. */
  lemma FlagBits(data: seq<byte>)
    requires |data| >= 20
    ensures var s := SegmentOf(Parsed(BLANK, data).0);
            && (s.fin <==> data[13] % 2 == 1) && (s.syn <==> data[13] / 2 % 2 == 1)
            && (s.rst <==> data[13] / 4 % 2 == 1) && (s.ack <==> data[13] / 16 % 2 == 1)
  {
    hide ParseOptions, Get16, Get32;
    LowBits(data[13]);
  }

  lemma LowBits(b: byte)
    ensures b % 64 % 2 == b % 2 && b % 64 / 2 % 2 == b / 2 % 2
    ensures b % 64 / 4 % 2 == b / 4 % 2 && b % 64 / 16 % 2 == b / 16 % 2
  {
    var q, r := b / 64, b % 64;
    assert b == 64 * q + r;
    LowBit(32 * q, r);
    LowBit2(q, r);
    LowBit4(q, r);
    LowBit16(q, r);
  }

  lemma LowBit(m: nat, r: nat)
    ensures (2 * m + r) % 2 == r % 2
  {
  }

  lemma LowBit2(q: nat, r: nat)
    ensures (64 * q + r) / 2 % 2 == r / 2 % 2
  {
    assert (64 * q + r) / 2 == 2 * (16 * q) + r / 2;
    LowBit(16 * q, r / 2);
  }

  lemma LowBit4(q: nat, r: nat)
    ensures (64 * q + r) / 4 % 2 == r / 4 % 2
  {
    assert (64 * q + r) / 4 == 2 * (8 * q) + r / 4;
    LowBit(8 * q, r / 4);
  }

  lemma LowBit16(q: nat, r: nat)
    ensures (64 * q + r) / 16 % 2 == r / 16 % 2
  {
    assert (64 * q + r) / 16 == 2 * (2 * q) + r / 16;
    LowBit(2 * q, r / 16);
  }

  /** The flag combinations that send is called with. */
  datatype Flags = SynAck | JustAck | FinAck | PushAck {
    function Ctrl(): byte {
      match this
      case SynAck => SYN + ACK
      case JustAck => ACK
      case FinAck => FIN + ACK
      case PushAck => PSH + ACK
    }
  }

  /** What send puts in the header of an outgoing segment. */
  datatype Emission = Emission(seqNum: u32, ackNum: u32, flags: Flags, payload: seq<byte>)

  /** What a step does outside the State. */
  datatype Effect =
    | Sent(segment: Emission)
    | Delivered(payload: seq<byte>)  // handed to socket.write
    | HandlerStarted                 // the goroutine that serves the connection
    | Removed                        // stateTable.Remove
    | Knocked                        // a message on knockChan

  /** The fields of State that matter, with the unread contents of the socket's ring buffer. */
  datatype Tcb = Tcb(
    phase: Phase, iss: u32, una: u32, nxt: u32, rcvNxt: u32, unread: seq<byte>)

  const BUFFER_SIZE: nat := 4096

  /** Writing to a ring buffer of the given size keeps what fits. */
  function Kept(unread: seq<byte>, data: seq<byte>): seq<byte>
    requires |unread| <= BUFFER_SIZE
  {
    var room := BUFFER_SIZE - |unread|;
    if |data| <= room then data else data[..room]
  }

  // ---------------------------------------------------------------- one segment

  predicate Acceptable(t: Tcb, s: Segment) {
    t.una <= s.ackNum <= t.nxt
  }

  function Sending(t: Tcb, flags: Flags, payload: seq<byte>): Effect {
    Sent(Emission(t.nxt, t.rcvNxt, flags, payload))
  }

  type Outcome = (Tcb, seq<Effect>)

  /** A SYN in Listen: answer it, with a sequence number one past ISS. */
  function Answer(t: Tcb, s: Segment): Outcome {
    var t1 := t.(una := t.iss, nxt := Add32(t.iss, 1), rcvNxt := Add32(s.seqNum, 1));
    (t1.(nxt := Add32(t1.nxt, 1), phase := SynReceived), [Sending(t1, SynAck, [])])
  }

  /** The phase once the acknowledgement has been looked at. */
  function Acked(p: Phase): Phase {
    match p
    case SynReceived => Established
    case FinWait1 => FinWait2
    case FinWait2 => TimeWait
    case Closing => TimeWait
    case _ => p
  }

  /** The acknowledgement of a segment that is going to be processed. */
  function TakeAck(t: Tcb, s: Segment): Outcome {
    (t.(phase := Acked(t.phase), una := if Acceptable(t, s) then s.ackNum else t.una),
     if t.phase == CloseWait then [Removed]
     else if t.phase == SynReceived then [HandlerStarted]
     else [])
  }

  /** The text of a segment; it is acknowledged when there is any. */
  function TakeText(t: Tcb, s: Segment): Outcome
    requires |t.unread| <= BUFFER_SIZE
  {
    if t.phase != Established && t.phase != FinWait1 && t.phase != FinWait2 then (t, [])
    else
      var t1 := t.(rcvNxt := Add32(t.rcvNxt, |s.payload|),
                   unread := t.unread + Kept(t.unread, s.payload));
      (t1, [Delivered(s.payload)] + if s.payload == [] then [] else [Sending(t1, JustAck, [])])
  }

  function TakeFin(t: Tcb, s: Segment): Outcome {
    if !s.fin then (t, [])
    else if t.phase == Established || t.phase == SynReceived then
      var t1 := t.(rcvNxt := Add32(s.seqNum, 1));
      (t1.(nxt := Add32(t.nxt, 1), phase := CloseWait), [Sending(t1, FinAck, [])])
    else if t.phase == FinWait2 then
      var t1 := t.(rcvNxt := Add32(s.seqNum, 1));
      (t1.(phase := TimeWait), [Sending(t1, JustAck, [])])
    else
      (t.(rcvNxt := s.seqNum, phase := if t.phase == FinWait1 then Closing else t.phase), [])
  }

  /** A segment that acknowledges: dropped in SynReceived unless it fits the window. */
  function Rest(t: Tcb, s: Segment): Outcome
    requires |t.unread| <= BUFFER_SIZE
  {
    if t.phase == SynReceived && !Acceptable(t, s) then (t, []) else
    var (t1, e1) := TakeAck(t, s);
    var (t2, e2) := TakeText(t1, s);
    var (t3, e3) := TakeFin(t2, s);
    (t3, e1 + e2 + e3)
  }

  function OnSegment(t: Tcb, s: Segment): Outcome
    requires |t.unread| <= BUFFER_SIZE
  {
    if t.phase == Listen && s.syn then Answer(t, s)
    else if s.rst && t.phase == SynReceived then (t.(phase := Listen), [])
    else if s.rst && (t.phase == CloseWait || t.phase == TimeWait) then
      (t.(phase := Closed), [Removed])
    else if s.syn || !s.ack then (t, [])
    else Rest(t, s)
  }

  // ---------------------------------------------------------------- the code

  class State {
    var State: Phase
    var InitialSendSequenceNumber: u32
    var SendUnacknowledged: u32
    var SendNext: u32
    var RecvNext: u32
    var rbuffer: seq<byte>
    /** What the connection has done to its surroundings so far. */
    var log: seq<Effect>

    ghost function View(): Tcb
      reads this
    {
      Tcb(State, InitialSendSequenceNumber, SendUnacknowledged, SendNext, RecvNext, rbuffer)
    }

    ghost predicate Valid()
      reads this
    {
      |rbuffer| <= BUFFER_SIZE
    }

    /** NewState, followed by `state.State = SocketListen` and NewSocket */
    constructor (iss: u32)
      ensures View() == Tcb(Listen, iss, 0, 0, 0, []) && log == [] && Valid()
    {
      State, InitialSendSequenceNumber := Listen, iss;
      SendUnacknowledged, SendNext, RecvNext := 0, 0, 0;
      rbuffer, log := [], [];
    }

    method Send(payload: seq<byte>, flags: Flags)
      modifies this`log
      ensures log == old(log) + [Sending(View(), flags, payload)]
    {
      log := log + [Sent(Emission(SendNext, RecvNext, flags, payload))];
    }

    /** write of socket.go, on the receive buffer */
    method Deliver(p: seq<byte>)
      requires Valid()
      modifies this`log, this`rbuffer
      ensures Valid()
      ensures log == old(log) + [Delivered(p)] && rbuffer == old(rbuffer) + Kept(old(rbuffer), p)
    {
      var room := BUFFER_SIZE - |rbuffer|;
      rbuffer := rbuffer + if |p| <= room then p else p[..room];
      log := log + [Delivered(p)];
    }

    /** write of state.go */
    method Write(data: seq<byte>)
      requires Valid()
      modifies this`log, this`SendNext
      ensures View() == OnWrite(old(View()), data).0
      ensures log == old(log) + OnWrite(old(View()), data).1
    {
      Send(data, PushAck);
      SendNext := Add32(SendNext, |data|);
    }

    /** close of state.go */
    method Close()
      requires Valid()
      modifies this`log, this`SendNext, this`State
      ensures View() == OnClose(old(View())).0
      ensures log == old(log) + OnClose(old(View())).1
    {
      Send([], FinAck);
      SendNext := Add32(SendNext, 1);
      State := FinWait1;
    }

    /** Read of socket.go: what one call takes out of the receive buffer. */
    method Read(n: nat) returns (p: seq<byte>)
      requires Valid()
      modifies this`rbuffer
      ensures Valid()
      ensures p == Prefix(old(rbuffer), n) && p + rbuffer == old(rbuffer)
      ensures |p| == if n <= |old(rbuffer)| then n else |old(rbuffer)|
    {
      var k := if n <= |rbuffer| then n else |rbuffer|;
      p := rbuffer[..k];
      rbuffer := rbuffer[k..];
    }

    /**
     What handleTCP does with the bytes of a segment for this State: only a header that does
     not parse is an error.
     */
    method HandleBytes(data: seq<byte>, src: Address, dst: Address) returns (ok: bool)
      requires Valid() && SegmentSized(data)
      modifies this
      ensures Valid()
      ensures ok <==> Received(data, dst, src).1 in {Ok, InvalidChecksum}
      ensures ok ==> View() == OnSegment(old(View()), SegmentOf(Received(data, dst, src).0)).0
      ensures ok ==> log == old(log) + OnSegment(old(View()), SegmentOf(Received(data, dst, src).0)).1
      ensures !ok ==> View() == old(View()) && log == old(log)
    {
      hide OnSegment, Received;
      var hdr, status := UnmarshalWithChecksum(data, dst, src);
      if status != Ok && status != InvalidChecksum {
        return false;
      }
      HandleTcp(Segment(hdr.SeqNum, hdr.AckNum, HasFlag(hdr.Ctrl, FIN), HasFlag(hdr.Ctrl, SYN),
                        HasFlag(hdr.Ctrl, RST), HasFlag(hdr.Ctrl, ACK), hdr.Payload));
      return true;
    }

    method HandleTcp(hdr: Segment)
      requires Valid()
      modifies this
      ensures Valid()
      ensures View() == OnSegment(old(View()), hdr).0
      ensures log == old(log) + OnSegment(old(View()), hdr).1
    {
      if State == Listen {
        if hdr.syn {
          SendUnacknowledged := InitialSendSequenceNumber;
          SendNext := Add32(InitialSendSequenceNumber, 1);
          RecvNext := hdr.seqNum;
          RecvNext := Add32(RecvNext, 1);
          Send([], SynAck);
          SendNext := Add32(SendNext, 1);
          State := SynReceived;
          return;
        }
      }
      if hdr.rst {
        if State == SynReceived {
          State := Listen;
          return;
        }
        if State == CloseWait || State == TimeWait {
          State := Closed;
          log := log + [Removed];
          return;
        }
      }
      if hdr.syn {
        return;
      }
      if !hdr.ack {
        return;
      }
      HandleRest(hdr);
    }

    /** Lines 451 to 692. */
    method HandleRest(hdr: Segment)
      requires Valid() && !hdr.syn
      modifies this
      ensures Valid()
      ensures View() == Rest(old(View()), hdr).0
      ensures log == old(log) + Rest(old(View()), hdr).1
    {
      var goOn := HandleAck(hdr);
      if !goOn {
        return;
      }
      HandleText(hdr);
      HandleKnock(hdr);
      HandleFin(hdr);
    }

    method HandleKnock(hdr: Segment)
      modifies this`log
      ensures log == old(log) + if hdr.syn then [Knocked] else []
    {
      if hdr.syn {
        log := log + [Knocked];
      }
    }

    /** Lines 451 to 592: false when the segment is dropped. */
    method HandleAck(hdr: Segment) returns (goOn: bool)
      requires Valid()
      modifies this`State, this`SendUnacknowledged, this`log
      ensures goOn <==> !(old(State) == SynReceived && !Acceptable(old(View()), hdr))
      ensures View() == if goOn then TakeAck(old(View()), hdr).0 else old(View())
      ensures log == if goOn then old(log) + TakeAck(old(View()), hdr).1 else old(log)
    {
      if State == Closing {
        State := TimeWait;
      }
      if State == CloseWait {
        log := log + [Removed];
      }
      if State == SynReceived {
        if SendUnacknowledged <= hdr.ackNum && hdr.ackNum <= SendNext {
          State := Established;
        } else {
          return false;
        }
        log := log + [HandlerStarted];
      }
      if SendUnacknowledged <= hdr.ackNum && hdr.ackNum <= SendNext {
        SendUnacknowledged := hdr.ackNum;
      }
      if State == FinWait1 {
        State := FinWait2;
      } else if State == FinWait2 {
        State := TimeWait;
      }
      return true;
    }

    method HandleText(hdr: Segment)
      requires Valid()
      modifies this`RecvNext, this`rbuffer, this`log
      ensures Valid()
      ensures View() == TakeText(old(View()), hdr).0
      ensures log == old(log) + TakeText(old(View()), hdr).1
    {
      if State == Established || State == FinWait1 || State == FinWait2 {
        Deliver(hdr.payload);
        RecvNext := Add32(RecvNext, |hdr.payload|);
        if |hdr.payload| > 0 {
          Send([], JustAck);
        }
      }
    }

    method HandleFin(hdr: Segment)
      modifies this`RecvNext, this`SendNext, this`State, this`log
      ensures View() == TakeFin(old(View()), hdr).0
      ensures log == old(log) + TakeFin(old(View()), hdr).1
    {
      if hdr.fin {
        RecvNext := hdr.seqNum;
        if State == SynReceived || State == Established {
          RecvNext := Add32(RecvNext, 1);
          Send([], FinAck);
          SendNext := Add32(SendNext, 1);
          State := CloseWait;
        } else if State == FinWait1 {
          State := Closing;
        } else if State == FinWait2 {
          RecvNext := Add32(RecvNext, 1);
          Send([], JustAck);
          State := TimeWait;
        }
      }
    }
  }

  // ---------------------------------------------------------------- application steps

  function OnWrite(t: Tcb, data: seq<byte>): Outcome {
    (t.(nxt := Add32(t.nxt, |data|)), [Sending(t, PushAck, data)])
  }

  function OnClose(t: Tcb): Outcome {
    (t.(nxt := Add32(t.nxt, 1), phase := FinWait1), [Sending(t, FinAck, [])])
  }

  function Prefix(s: seq<byte>, n: nat): seq<byte> {
    if n <= |s| then s[..n] else s
  }
}
