/**
 The agent listener: many logical connections over one stream.  The message loop of
 listener/agent/agent.go registers, feeds and deletes connections; the connections of
 listener/agent/connection.go are read and closed locally at the same time; and
 listener/agent/connections.go keeps the list of those that are registered.

 receive, Close and each of the two places where Read takes bytes from the buffer hold the
 lock of the connection, so a run is an interleaving of messages, takes and closes.
 */
module Agent {
  import opened Words

  /** The local and the remote address, as strings. */
  type Pair = (string, string)

  /** A connection: what is buffered, what the reader has got, and how often it was closed. */
  datatype Conn = Conn(buff: seq<byte>, read: seq<byte>, closed: bool, eofs: nat, channelCloses: nat)

  const NEW: Conn := Conn([], [], false, 0, 0)

  function Receive(c: Conn, data: seq<byte>): Conn {
    if c.closed then c else c.(buff := c.buff + data)
  }

  function Take(c: Conn, n: nat): Conn {
    var k := if n <= |c.buff| then n else |c.buff|;
    c.(read := c.read + c.buff[..k], buff := c.buff[k..])
  }

  /** Close sends an EOF and closes the channel, the first time only. */
  function Close(c: Conn): Conn {
    if c.closed then c
    else c.(closed := true, eofs := c.eofs + 1, channelCloses := c.channelCloses + 1)
  }

  // ---------------------------------------------------------------- the code

  class Connection {
    const pair: Pair
    var buff: seq<byte>
    var closed: bool
    /** what Read has returned so far, EOF messages sent, and times the channel was closed */
    var read: seq<byte>
    var eofs: nat
    var channelCloses: nat

    ghost function View(): Conn
      reads this
    {
      Conn(buff, read, closed, eofs, channelCloses)
    }

    constructor (pair: Pair)
      ensures this.pair == pair && View() == NEW
    {
      this.pair := pair;
      buff, closed, read, eofs, channelCloses := [], false, [], 0, 0;
    }

    /** receive */
    method Feed(data: seq<byte>)
      modifies this
      ensures View() == Receive(old(View()), data)
    {
      if closed {
        return;
      }
      buff := buff + data;
    }

    /** What Read does under the lock, before and after it waits. */
    method ReadBuffered(n: nat) returns (b: seq<byte>)
      modifies this
      ensures View() == Take(old(View()), n)
      ensures read == old(read) + b && b + buff == old(buff)
      ensures |b| == if n <= |old(buff)| then n else |old(buff)|
    {
      var k := if n <= |buff| then n else |buff|;
      b := buff[..k];
      buff := buff[k..];
      read := read + b;
    }

    /** Close */
    method Shut()
      modifies this
      ensures View() == Close(old(View()))
    {
      if closed {
        return;
      }
      eofs := eofs + 1;
      closed := true;
      channelCloses := channelCloses + 1;
    }
  }

  class Connections {
    var conns: seq<Connection>

    constructor ()
      ensures conns == []
    {
      conns := [];
    }

    method Add(ac: Connection)
      modifies this
      ensures conns == old(conns) + [ac]
    {
      conns := conns + [ac];
    }

    /** Takes out the first occurrence, moving what is behind it forward. */
    method Delete(ac: Connection)
      modifies this
      ensures ac !in old(conns) ==> conns == old(conns)
      ensures ac in old(conns) ==>
        exists i :: 0 <= i < |old(conns)| && old(conns)[i] == ac && ac !in old(conns)[..i] &&
          conns == old(conns)[..i] + old(conns)[i + 1..]
    {
      for index := 0 to |conns|
        invariant conns == old(conns) && ac !in conns[..index]
      {
        if conns[index] != ac {
          continue;
        }
        conns := conns[..index] + conns[index + 1..];
        return;
      }
    }

    /** The first one with these addresses, that is, the one that was added first. */
    method Get(laddr: string, raddr: string) returns (r: Connection?)
      ensures r == null <==> forall j :: 0 <= j < |conns| ==> conns[j].pair != (laddr, raddr)
      ensures r != null ==>
        exists i :: 0 <= i < |conns| && conns[i] == r && conns[i].pair == (laddr, raddr) &&
          forall j :: 0 <= j < i ==> conns[j].pair != (laddr, raddr)
    {
      for i := 0 to |conns|
        invariant forall j :: 0 <= j < i ==> conns[j].pair != (laddr, raddr)
      {
        var conn := conns[i];
        if conn.pair.0 != laddr {
          continue;
        }
        if conn.pair.1 != raddr {
          continue;
        }
        return conn;
      }
      return null;
    }
  }

  // ---------------------------------------------------------------- the whole listener

  datatype Event =
    | Hello(pair: Pair)
    | ReadWrite(pair: Pair, payload: seq<byte>)
    | Eof(pair: Pair)
    | LocalRead(id: nat, n: nat)
    | LocalClose(id: nat)
    | Disconnect            // the stream ends: every registered connection is closed

  /** Connections are numbered in the order of their Hello; `registered` is the list of Connections. */
  datatype World = World(pairs: seq<Pair>, conns: seq<Conn>, registered: seq<nat>)

  predicate Known(w: World) {
    |w.pairs| == |w.conns| && forall i :: 0 <= i < |w.registered| ==> w.registered[i] < |w.conns|
  }

  /** Get: the position in the list of the first connection with these addresses, or -1. */
  function Find(reg: seq<nat>, pairs: seq<Pair>, p: Pair): (i: int)
    requires forall i :: 0 <= i < |reg| ==> reg[i] < |pairs|
    ensures -1 <= i < |reg|
  {
    if reg == [] then -1
    else if pairs[reg[0]] == p then 0
    else var i := Find(reg[1..], pairs, p); if i < 0 then -1 else i + 1
  }

  function CloseAll(conns: seq<Conn>, reg: seq<nat>): (r: seq<Conn>)
    ensures |r| == |conns|
  {
    seq(|conns|, i requires 0 <= i < |conns| => if i in reg then Close(conns[i]) else conns[i])
  }

  function Step(w: World, e: Event): (w': World)
    requires Known(w)
    ensures Known(w')
  {
    match e
    case Hello(p) => World(w.pairs + [p], w.conns + [NEW], w.registered + [|w.conns|])
    case ReadWrite(p, data) =>
      var i := Find(w.registered, w.pairs, p);
      if i < 0 then w
      else var id := w.registered[i]; w.(conns := w.conns[id := Receive(w.conns[id], data)])
    case Eof(p) =>
      var i := Find(w.registered, w.pairs, p);
      if i < 0 then w
      else
        var id := w.registered[i];
        World(w.pairs, w.conns[id := Close(w.conns[id])], w.registered[..i] + w.registered[i + 1..])
    case LocalRead(id, n) =>
      if id < |w.conns| then w.(conns := w.conns[id := Take(w.conns[id], n)]) else w
    case LocalClose(id) =>
      if id < |w.conns| then w.(conns := w.conns[id := Close(w.conns[id])]) else w
    case Disconnect => w.(conns := CloseAll(w.conns, w.registered))
  }

  function Run(events: seq<Event>): (w: World)
    ensures Known(w)
  {
    if events == [] then World([], [], [])
    else Step(Run(events[..|events| - 1]), events[|events| - 1])
  }

  // ---------------------------------------------------------------- reference: one address pair at a time

  /** The connections announced so far. */
  function Hellos(events: seq<Event>): seq<Pair> {
    if events == [] then [] else
    var e := events[|events| - 1];
    Hellos(events[..|events| - 1]) + if e.Hello? then [e.pair] else []
  }

  /** The connections of one address pair take turns: Hello queues one, Eof is for the oldest. */
  function Queue(events: seq<Event>, p: Pair): seq<nat> {
    if events == [] then [] else
    var before, e := events[..|events| - 1], events[|events| - 1];
    QueueStep(Queue(before, p), e, |Hellos(before)|, p)
  }

  function QueueStep(q: seq<nat>, e: Event, next: nat, p: Pair): seq<nat> {
    if e == Hello(p) then q + [next]
    else if e == Eof(p) && q != [] then q[1..]
    else q
  }

  /** Connection id, of pair p, has been closed. */
  predicate Shut(events: seq<Event>, id: nat, p: Pair) {
    if events == [] then false else
    var before, e := events[..|events| - 1], events[|events| - 1];
    var q := Queue(before, p);
    || Shut(before, id, p)
    || (e == LocalClose(id) && id < |Hellos(before)|)
    || (e == Eof(p) && q != [] && q[0] == id)
    || (e == Disconnect && id in q)
  }

  /** The payloads that came for pair p while id was open and the oldest of that pair. */
  function Arrived(events: seq<Event>, id: nat, p: Pair): seq<byte> {
    if events == [] then [] else
    var before, e := events[..|events| - 1], events[|events| - 1];
    var q := Queue(before, p);
    Arrived(before, id, p) +
    if e.ReadWrite? && e.pair == p && q != [] && q[0] == id && !Shut(before, id, p) then e.payload else []
  }

  // ---------------------------------------------------------------- the list, pair by pair

  function OfPair(reg: seq<nat>, pairs: seq<Pair>, p: Pair): seq<nat>
    requires forall i :: 0 <= i < |reg| ==> reg[i] < |pairs|
  {
    if reg == [] then []
    else (if pairs[reg[0]] == p then [reg[0]] else []) + OfPair(reg[1..], pairs, p)
  }

  lemma {:induction false} OfPairAppend(reg: seq<nat>, pairs: seq<Pair>, q: Pair, p: Pair)
    requires forall i :: 0 <= i < |reg| ==> reg[i] < |pairs|
    ensures OfPair(reg + [|pairs|], pairs + [q], p) == OfPair(reg, pairs, p) + if p == q then [|pairs|] else []
  {
    if reg == [] {
      assert OfPair(([] + [|pairs|])[1..], pairs + [q], p) == [];
    } else {
      assert (reg + [|pairs|])[1..] == reg[1..] + [|pairs|];
      OfPairAppend(reg[1..], pairs, q, p);
    }
  }

  lemma {:induction false} OfPairMember(reg: seq<nat>, pairs: seq<Pair>, p: Pair, id: nat)
    requires forall i :: 0 <= i < |reg| ==> reg[i] < |pairs|
    ensures id in OfPair(reg, pairs, p) <==> id in reg && id < |pairs| && pairs[id] == p
  {
    if reg != [] {
      OfPairMember(reg[1..], pairs, p, id);
      assert id in reg <==> id == reg[0] || id in reg[1..];
    }
  }

  /** Get finds the head of the pair's queue ... */
  lemma {:induction false} FindIsHead(reg: seq<nat>, pairs: seq<Pair>, p: Pair)
    requires forall i :: 0 <= i < |reg| ==> reg[i] < |pairs|
    ensures var i := Find(reg, pairs, p);
            var q := OfPair(reg, pairs, p);
            if i < 0 then q == [] else q != [] && reg[i] == q[0] && pairs[reg[i]] == p
  {
    if reg != [] && pairs[reg[0]] != p {
      FindIsHead(reg[1..], pairs, p);
    }
  }

  /** ... and Delete takes it out of that queue only. */
  lemma {:induction false} DeleteIsDequeue(reg: seq<nat>, pairs: seq<Pair>, p: Pair, q: Pair)
    requires forall i :: 0 <= i < |reg| ==> reg[i] < |pairs|
    requires Find(reg, pairs, p) >= 0
    ensures var i, rest := Find(reg, pairs, p), OfPair(reg, pairs, q);
            OfPair(reg[..i] + reg[i + 1..], pairs, q) == if p == q && rest != [] then rest[1..] else rest
  {
    hide OfPair, Find;
    var i := Find(reg, pairs, p);
    FindUnfold(reg, pairs, p);
    OfPairUnfold(reg, pairs, q);
    if i == 0 {
      assert reg[..0] + reg[1..] == reg[1..];
    } else {
      var cut, rest := reg[..i] + reg[i + 1..], reg[1..];
      DeleteIsDequeue(rest, pairs, p, q);
      assert cut[1..] == rest[..i - 1] + rest[i..];
      OfPairUnfold(cut, pairs, q);
    }
  }

  lemma FindUnfold(reg: seq<nat>, pairs: seq<Pair>, p: Pair)
    requires forall i :: 0 <= i < |reg| ==> reg[i] < |pairs|
    ensures if reg == [] then Find(reg, pairs, p) == -1
            else if pairs[reg[0]] == p then Find(reg, pairs, p) == 0
            else
              var i := Find(reg[1..], pairs, p);
              Find(reg, pairs, p) == if i < 0 then -1 else i + 1
  {
  }

  lemma OfPairUnfold(reg: seq<nat>, pairs: seq<Pair>, p: Pair)
    requires reg != [] && forall i :: 0 <= i < |reg| ==> reg[i] < |pairs|
    ensures OfPair(reg, pairs, p) ==
            (if pairs[reg[0]] == p then [reg[0]] else []) + OfPair(reg[1..], pairs, p)
  {
  }

  // ---------------------------------------------------------------- every run

  ghost predicate Queued(events: seq<Event>, w: World)
    requires Known(w)
  {
    && w.pairs == Hellos(events)
    && forall p :: OfPair(w.registered, w.pairs, p) == Queue(events, p)
  }

  lemma StepQueues(w: World, e: Event, p: Pair)
    requires Known(w)
    ensures OfPair(Step(w, e).registered, Step(w, e).pairs, p) ==
            QueueStep(OfPair(w.registered, w.pairs, p), e, |w.pairs|, p)
  {
    hide Receive, Take, Close, CloseAll, OfPair, Find;
    match e
    case Hello(q) => OfPairAppend(w.registered, w.pairs, q, p);
    case Eof(q) =>
      FindIsHead(w.registered, w.pairs, q);
      if Find(w.registered, w.pairs, q) >= 0 {
        DeleteIsDequeue(w.registered, w.pairs, q, p);
      }
    case _ =>
  }

  lemma StepPairs(w: World, e: Event)
    requires Known(w)
    ensures Step(w, e).pairs == w.pairs + if e.Hello? then [e.pair] else []
  {
  }

  /** The list of registered connections is, for every address pair, that pair's queue. */
  lemma {:induction false} RunQueues(events: seq<Event>)
    ensures Queued(events, Run(events))
  {
    hide Step, QueueStep, OfPair;
    if events == [] {
      NothingQueued();
    } else {
      var before, e := events[..|events| - 1], events[|events| - 1];
      RunQueues(before);
      StepPairs(Run(before), e);
      forall p
        ensures OfPair(Run(events).registered, Run(events).pairs, p) == Queue(events, p)
      {
        StepQueues(Run(before), e, p);
      }
    }
  }

  lemma NothingQueued()
    ensures forall p :: OfPair([], [], p) == []
  {
  }

  /** What is claimed of connection id, of pair p. */
  predicate Accounted(events: seq<Event>, c: Conn, id: nat, p: Pair) {
    && c.read + c.buff == Arrived(events, id, p)
    && c.closed == Shut(events, id, p)
    && c.eofs == c.channelCloses == if c.closed then 1 else 0
  }

  lemma {:induction false} NotYet(events: seq<Event>, id: nat, p: Pair)
    requires id >= |Hellos(events)|
    ensures !Shut(events, id, p) && Arrived(events, id, p) == []
  {
    if events != [] {
      var before := events[..|events| - 1];
      NotYet(before, id, p);
      RunQueues(before);
      OfPairMember(Run(before).registered, Run(before).pairs, p, id);
      assert id !in Queue(before, p);
    }
  }

  /**
   Conservation, in every interleaving: what a connection's reader has got and what is still
   buffered are, in order, the payloads that arrived while it was open and the oldest
   registered connection of its pair; and it sends one EOF and closes its channel once at most.
   */
  lemma {:induction false} Conservation(events: seq<Event>, id: nat)
    requires id < |Hellos(events)|
    ensures id < |Run(events).conns|
    ensures Accounted(events, Run(events).conns[id], id, Hellos(events)[id])
  {
    var before, e := events[..|events| - 1], events[|events| - 1];
    RunQueues(events);
    RunQueues(before);
    if id == |Hellos(before)| {
      NotYet(before, id, e.pair);
    } else {
      Conservation(before, id);
      StepAccounts(events, id);
    }
  }

  /** What one step does to connection id, given the queue of its pair. */
  function Effect(c: Conn, e: Event, id: nat, p: Pair, q: seq<nat>): Conn {
    match e
    case Hello(_) => c
    case ReadWrite(r, data) => if r == p && q != [] && q[0] == id then Receive(c, data) else c
    case Eof(r) => if r == p && q != [] && q[0] == id then Close(c) else c
    case LocalRead(i, n) => if i == id then Take(c, n) else c
    case LocalClose(i) => if i == id then Close(c) else c
    case Disconnect => if id in q then Close(c) else c
  }

  lemma StepEffect(w: World, e: Event, id: nat)
    requires Known(w) && id < |w.conns|
    ensures id < |Step(w, e).conns|
    ensures Step(w, e).conns[id] ==
            Effect(w.conns[id], e, id, w.pairs[id], OfPair(w.registered, w.pairs, w.pairs[id]))
  {
    hide Receive, Take, Close;
    var p := w.pairs[id];
    match e
    case ReadWrite(q, _) => FindIsHead(w.registered, w.pairs, q); HeadHasPair(w, q);
    case Eof(q) => FindIsHead(w.registered, w.pairs, q); HeadHasPair(w, q);
    case Disconnect => OfPairMember(w.registered, w.pairs, p, id);
    case _ =>
  }

  lemma HeadHasPair(w: World, q: Pair)
    requires Known(w)
    ensures var h := OfPair(w.registered, w.pairs, q);
            h != [] ==> h[0] < |w.pairs| && w.pairs[h[0]] == q
  {
    var h := OfPair(w.registered, w.pairs, q);
    if h != [] {
      OfPairMember(w.registered, w.pairs, q, h[0]);
    }
  }

  lemma EffectAccounts(events: seq<Event>, c: Conn, id: nat, p: Pair)
    requires events != []
    requires var before := events[..|events| - 1];
             id < |Hellos(before)| && Accounted(before, c, id, p)
    ensures var before, e := events[..|events| - 1], events[|events| - 1];
            Accounted(events, Effect(c, e, id, p, Queue(before, p)), id, p)
  {
    hide Queue, Hellos;
    var e := events[|events| - 1];
    if e.ReadWrite? {
      assert c.read + (c.buff + e.payload) == c.read + c.buff + e.payload;
    } else if e.LocalRead? {
      var k := if e.n <= |c.buff| then e.n else |c.buff|;
      assert c.read + c.buff[..k] + c.buff[k..] == c.read + c.buff;
    }
  }

  lemma StepAccounts(events: seq<Event>, id: nat)
    requires events != []
    requires var before := events[..|events| - 1];
             && id < |Hellos(before)| && Queued(before, Run(before)) && id < |Run(before).conns|
             && Accounted(before, Run(before).conns[id], id, Hellos(before)[id])
    ensures id < |Run(events).conns| && id < |Hellos(events)|
    ensures Accounted(events, Run(events).conns[id], id, Hellos(events)[id])
  {
    hide Step, Queue, Effect, Accounted;
    var before, e := events[..|events| - 1], events[|events| - 1];
    var w := Run(before);
    StepEffect(w, e, id);
    EffectAccounts(events, w.conns[id], id, Hellos(before)[id]);
  }

  /** A read takes as much as there is and as was asked for. */
  lemma TakeTakes(c: Conn, n: nat)
    ensures Take(c, n).read + Take(c, n).buff == c.read + c.buff
    ensures |Take(c, n).read| - |c.read| == if n <= |c.buff| then n else |c.buff|
  {
    var k := if n <= |c.buff| then n else |c.buff|;
    assert c.buff[..k] + c.buff[k..] == c.buff;
    assert c.read + c.buff[..k] + c.buff[k..] == c.read + (c.buff[..k] + c.buff[k..]);
  }

  /** So a read that asks for enough has got, in every interleaving, all that has arrived. */
  lemma ReadingAllGetsAll(events: seq<Event>, id: nat, n: nat)
    requires id < |Hellos(events)| && id < |Run(events).conns| && n >= |Run(events).conns[id].buff|
    ensures var w := Run(events + [LocalRead(id, n)]);
            && id < |w.conns| && w.conns[id].buff == []
            && w.conns[id].read == Arrived(events, id, Hellos(events)[id])
  {
    hide Take, Arrived, Hellos, Find;
    assert (events + [LocalRead(id, n)])[..|events|] == events;
    Conservation(events, id);
    var c := Run(events).conns[id];
    TakeTakes(c, n);
    assert Take(c, n).buff == [];
    assert Take(c, n).read + [] == Take(c, n).read;
  }

  /** A payload reaches one connection at most: the oldest registered one of its pair. */
  lemma OnePayloadOneConnection(events: seq<Event>, p: Pair, data: seq<byte>, id: nat)
    requires id < |Run(events).conns|
    ensures var w, w' := Run(events), Run(events + [ReadWrite(p, data)]);
            && id < |w'.conns|
            && (w'.conns[id] != w.conns[id] ==> Queue(events, p) != [] && Queue(events, p)[0] == id)
  {
    assert (events + [ReadWrite(p, data)])[..|events|] == events;
    RunQueues(events);
    FindIsHead(Run(events).registered, Run(events).pairs, p);
  }

  // ---------------------------------------------------------------- the end of the stream

  predicate NoneForgotten(w: World) {
    forall id :: 0 <= id < |w.conns| ==> id in w.registered || w.conns[id].closed
  }

  lemma ForgetsNone(w: World, e: Event)
    requires Known(w) && NoneForgotten(w)
    ensures NoneForgotten(Step(w, e))
  {
    hide Find;
    var w' := Step(w, e);
    forall id | 0 <= id < |w'.conns|
      ensures id in w'.registered || w'.conns[id].closed
    {
      if id < |w.conns| && id in w.registered && e.Eof? {
        StillIn(w.registered, Find(w.registered, w.pairs, e.pair), id);
      }
    }
  }

  lemma StillIn(reg: seq<nat>, i: int, id: nat)
    requires -1 <= i < |reg| && id in reg
    ensures i >= 0 && id != reg[i] ==> id in reg[..i] + reg[i + 1..]
  {
    var k :| 0 <= k < |reg| && reg[k] == id;
    if 0 <= i < k {
      assert reg[i + 1..][k - i - 1] == id;
    } else if k < i {
      assert reg[..i][k] == id;
    }
  }

  /** In every run each connection is still on the list or closed already. */
  lemma {:induction false} RegisteredOrClosed(events: seq<Event>)
    ensures NoneForgotten(Run(events))
  {
    hide Step;
    if events != [] {
      var before := events[..|events| - 1];
      RegisteredOrClosed(before);
      ForgetsNone(Run(before), events[|events| - 1]);
    }
  }

  predicate IsLocal(e: Event) {
    e.LocalRead? || e.LocalClose?
  }

  /**
   So when the stream has ended every connection is closed, whether it was on the list or
   not, and whatever its users do then, no EOF goes out on the channel that serv has closed.
   */
  lemma {:induction false} SilentAfterDisconnect(events: seq<Event>, later: seq<Event>)
    requires forall e :: e in later ==> IsLocal(e)
    ensures var w, w' := Run(events), Run(events + [Disconnect] + later);
            && |w'.conns| == |w.conns|
            && forall id :: 0 <= id < |w.conns| ==>
                 w'.conns[id].closed && w'.conns[id].eofs == Close(w.conns[id]).eofs
    decreases |later|
  {
    hide Find;
    var all := events + [Disconnect] + later;
    if later == [] {
      assert all[..|all| - 1] == events;
      RegisteredOrClosed(events);
    } else {
      var n := |later| - 1;
      assert all[..|all| - 1] == events + [Disconnect] + later[..n];
      assert later[n] in later && forall e :: e in later[..n] ==> e in later;
      SilentAfterDisconnect(events, later[..n]);
    }
  }

  // ---------------------------------------------------------------- the message loop

  /** The state of serv: the list of connections, and those handed to the accept channel. */
  class Listener {
    const conns: Connections
    var accepted: seq<Connection>
    /** for each entry of the list, which of the accepted connections it is */
    ghost var registered: seq<nat>

    ghost predicate Valid()
      reads this, conns
    {
      && |conns.conns| == |registered|
      && (forall i :: 0 <= i < |registered| ==> registered[i] < |accepted| && conns.conns[i] == accepted[registered[i]])
      && (forall i, j :: 0 <= i < j < |registered| ==> registered[i] != registered[j])
      && (forall i, j :: 0 <= i < j < |accepted| ==> accepted[i] != accepted[j])
    }

    ghost function Pairs(): (r: seq<Pair>)
      reads this
      ensures |r| == |accepted|
    {
      seq(|accepted|, i requires 0 <= i < |accepted| reads this => accepted[i].pair)
    }

    ghost function Conns(): (r: seq<Conn>)
      reads this, accepted
      ensures |r| == |accepted|
    {
      seq(|accepted|, i requires 0 <= i < |accepted| reads this, accepted => accepted[i].View())
    }

    ghost function View(): (w: World)
      reads this, conns, accepted
      requires Valid()
      ensures Known(w)
    {
      World(Pairs(), Conns(), registered)
    }

    constructor ()
      ensures Valid() && View() == World([], [], []) && fresh(conns)
    {
      conns := new Connections();
      accepted, registered := [], [];
    }

    /** case *Hello */
    method OnHello(laddr: string, raddr: string)
      requires Valid()
      modifies this, conns
      ensures Valid() && View() == Step(old(View()), Hello((laddr, raddr)))
    {
      var ac := new Connection((laddr, raddr));
      conns.Add(ac);
      registered := registered + [|accepted|];
      accepted := accepted + [ac];
    }

    /** Get, seen from the list of numbers. */
    method Lookup(laddr: string, raddr: string) returns (r: Connection?, ghost at: int)
      requires Valid()
      ensures at == Find(registered, Pairs(), (laddr, raddr))
      ensures if at < 0 then r == null else r == accepted[registered[at]]
    {
      r := conns.Get(laddr, raddr);
      at := Find(registered, Pairs(), (laddr, raddr));
      FindFirst(registered, Pairs(), (laddr, raddr));
    }

    /** case *ReadWrite */
    method OnReadWrite(laddr: string, raddr: string, payload: seq<byte>)
      requires Valid()
      modifies accepted
      ensures Valid() && View() == Step(old(View()), ReadWrite((laddr, raddr), payload))
    {
      var conn, at := Lookup(laddr, raddr);
      if conn == null {
        return;
      }
      conn.Feed(payload);
      assert Pairs() == old(Pairs());
    }

    /** case *EOF */
    method OnEof(laddr: string, raddr: string)
      requires Valid()
      modifies this`registered, conns, accepted
      ensures Valid() && View() == Step(old(View()), Eof((laddr, raddr)))
    {
      hide Find, CloseAll, Receive, Take, Close;
      var conn, at := Lookup(laddr, raddr);
      if conn == null {
        return;
      }
      Unregister(conn, at);
      conn.Shut();
      assert Pairs() == old(Pairs());
    }

    method Unregister(conn: Connection, ghost at: nat)
      requires Valid() && at < |registered| && conn == accepted[registered[at]]
      modifies this`registered, conns
      ensures Valid() && registered == old(registered)[..at] + old(registered)[at + 1..]
    {
      assert conns.conns[at] == conn;
      conns.Delete(conn);
      registered := registered[..at] + registered[at + 1..];
    }

    /** The deferred function of serv: every connection on the list is closed. */
    method OnDisconnect()
      requires Valid()
      modifies accepted
      ensures Valid() && View() == Step(old(View()), Disconnect)
    {
      hide Close, Find;
      for i := 0 to |conns.conns|
        invariant Valid()
        invariant forall id :: 0 <= id < |accepted| ==>
          accepted[id].View() ==
          if id in registered[..i] then Close(old(accepted[id].View())) else old(accepted[id].View())
      {
        var conn := conns.conns[i];
        assert conn == accepted[registered[i]] && registered[i] !in registered[..i];
        assert registered[..i + 1] == registered[..i] + [registered[i]];
        conn.Shut();
      }
      assert registered[..|conns.conns|] == registered;
      assert Pairs() == old(Pairs());
    }
  }

  lemma {:induction false} FindFirst(reg: seq<nat>, pairs: seq<Pair>, p: Pair)
    requires forall i :: 0 <= i < |reg| ==> reg[i] < |pairs|
    ensures var i := Find(reg, pairs, p);
            && (i >= 0 ==> pairs[reg[i]] == p)
            && forall j :: 0 <= j < (if i < 0 then |reg| else i) ==> pairs[reg[j]] != p
  {
    if reg != [] && pairs[reg[0]] != p {
      FindFirst(reg[1..], pairs, p);
    }
  }
}
