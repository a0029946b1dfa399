/**
 The connection table of listener/canary/state.go: 65535 slots, scanned from the start by
 every operation.  A slot is reused when it is empty or its connection is in TimeWait;
 when there is none of those, the first connection idle for over 30 seconds is evicted.
 */
module StateTable {
  import opened Words
  import opened Checksum
  import opened Connection

  const SIZE: nat := 65535

  /** Times are nanoseconds. */
  const IDLE: int := 30_000_000_000

  datatype Endpoints = Endpoints(srcIp: Address, srcPort: u16, destIp: Address, destPort: u16)

  /** What a scan sees of a slot; `who` tells States apart. */
  datatype Slot<+T> = Empty | Taken(who: T, phase: Phase, t: int, ends: Endpoints)

  predicate Free<T>(s: Slot<T>) {
    s.Empty? || s.phase == TimeWait
  }

  predicate Idle<T>(s: Slot<T>, now: int) {
    s.Taken? && now - s.t > IDLE
  }

  /** The lowest free slot, or -1. */
  function FirstFree<T>(slots: seq<Slot<T>>): (i: int)
    ensures -1 <= i < |slots|
    ensures i >= 0 ==> Free(slots[i])
    ensures forall j :: 0 <= j < (if i < 0 then |slots| else i) ==> !Free(slots[j])
  {
    if slots == [] then -1
    else if Free(slots[0]) then 0
    else var i := FirstFree(slots[1..]); if i < 0 then -1 else i + 1
  }

  function FirstIdle<T>(slots: seq<Slot<T>>, now: int): (i: int)
    ensures -1 <= i < |slots|
    ensures i >= 0 ==> Idle(slots[i], now)
    ensures forall j :: 0 <= j < (if i < 0 then |slots| else i) ==> !Idle(slots[j], now)
  {
    if slots == [] then -1
    else if Idle(slots[0], now) then 0
    else var i := FirstIdle(slots[1..], now); if i < 0 then -1 else i + 1
  }

  /** The slot that Add writes, or -1 when it panics because the table is full. */
  function AddIndex<T>(slots: seq<Slot<T>>, now: int): (i: int)
    ensures -1 <= i < |slots|
    ensures i >= 0 ==>
      || (Free(slots[i]) && forall j :: 0 <= j < i ==> !Free(slots[j]))
      || (Idle(slots[i], now) && (forall j :: 0 <= j < |slots| ==> !Free(slots[j])) &&
          forall j :: 0 <= j < i ==> !Idle(slots[j], now))
    ensures i < 0 ==> forall j :: 0 <= j < |slots| ==> !Free(slots[j]) && !Idle(slots[j], now)
  {
    if FirstFree(slots) >= 0 then FirstFree(slots) else FirstIdle(slots, now)
  }

  predicate Holds<T(==)>(s: Slot<T>, who: T) {
    s.Taken? && s.who == who
  }

  /** The table after Remove: the first slot that holds the State is cleared. */
  function RemoveFirst<T(==)>(slots: seq<Slot<T>>, who: T): (r: seq<Slot<T>>)
    ensures |r| == |slots|
  {
    if slots == [] then []
    else if Holds(slots[0], who) then [Empty] + slots[1..]
    else [slots[0]] + RemoveFirst(slots[1..], who)
  }

  lemma {:induction false} RemoveFirstIs<T>(slots: seq<Slot<T>>, who: T, i: nat)
    requires i <= |slots| && forall j :: 0 <= j < i ==> !Holds(slots[j], who)
    requires i < |slots| ==> Holds(slots[i], who)
    ensures RemoveFirst(slots, who) == if i < |slots| then slots[i := Empty] else slots
  {
    if i > 0 {
      RemoveFirstIs(slots[1..], who, i - 1);
    }
  }

  /**
   Exactly where Add writes: the lowest slot that is empty or in TimeWait, and if there is
   none, the lowest whose connection was last seen more than 30 seconds ago.
   */
  lemma AddIndexExactly<T>(slots: seq<Slot<T>>, now: int, i: nat)
    requires i < |slots|
    ensures AddIndex(slots, now) == i <==>
            if exists j :: 0 <= j < |slots| && (slots[j].Empty? || slots[j].phase == TimeWait)
            then && (slots[i].Empty? || slots[i].phase == TimeWait)
                 && forall j :: 0 <= j < i ==> slots[j].Taken? && slots[j].phase != TimeWait
            else && now - slots[i].t > 30_000_000_000
                 && forall j :: 0 <= j < i ==> now - slots[j].t <= 30_000_000_000
  {
  }

  /** A connection that is neither in TimeWait nor idle for over 30 seconds keeps its slot. */
  lemma LiveSlotIsNotWritten<T>(slots: seq<Slot<T>>, now: int, i: nat)
    requires i < |slots| && slots[i].Taken? && slots[i].phase != TimeWait && now - slots[i].t <= 30_000_000_000
    ensures AddIndex(slots, now) != i
  {
  }

  /** The test of Get, as it is written. */
  predicate Matches(e: Endpoints, srcIp: Address, destIp: Address, srcPort: u16, destPort: u16) {
    && (e.srcPort == srcPort || e.destPort == srcPort)
    && (e.destPort == destPort || e.srcPort == destPort)
    && (e.srcIp == srcIp || e.destIp == srcIp)
    && (e.destIp == destIp || e.srcIp == destIp)
  }

  // ---------------------------------------------------------------- the code

  /** A State, as far as the table is concerned. */
  class Entry {
    var State: Phase
    var t: int
    const ends: Endpoints

    constructor (ends: Endpoints, now: int)
      ensures State == Listen && t == now && this.ends == ends
    {
      State, t, this.ends := Listen, now, ends;
    }
  }

  class Table {
    const slots: array<Entry?>

    ghost predicate Valid() {
      slots.Length == SIZE
    }

    ghost function Seen(e: Entry?): Slot<Entry>
      reads e
    {
      if e == null then Empty else Taken(e, e.State, e.t, e.ends)
    }

    /** The table as a scan sees it. */
    ghost function View(): (v: seq<Slot<Entry>>)
      reads slots, slots[..]
      ensures |v| == slots.Length
    {
      seq(slots.Length, i requires 0 <= i < slots.Length reads slots, slots[..] => Seen(slots[i]))
    }

    constructor ()
      ensures Valid() && slots.Length == 65535 && forall i :: 0 <= i < slots.Length ==> slots[i] == null
    {
      slots := new Entry?[SIZE](_ => null);
    }

    /** Returns the slot written; -1 stands for the panic "Statetable full". */
    method Add(state: Entry, now: int) returns (at: int)
      requires Valid()
      modifies slots
      ensures at == AddIndex(old(View()), now)
      ensures slots[..] == if at < 0 then old(slots[..]) else old(slots[..])[at := state]
      ensures View() == if at < 0 then old(View()) else old(View())[at := Seen(state)]
    {
      ghost var v := View();
      for i := 0 to slots.Length
        invariant slots[..] == old(slots[..])
        invariant forall j :: 0 <= j < i ==> !Free(v[j])
      {
        assert v[i] == Seen(slots[i]);
        if slots[i] == null || slots[i].State == TimeWait {
          assert Free(v[i]) && FirstFree(v) == i;
          slots[i] := state;
          return i;
        }
      }
      for i := 0 to slots.Length
        invariant slots[..] == old(slots[..])
        invariant forall j :: 0 <= j < i ==> !Idle(v[j], now)
      {
        assert !Free(v[i]);
        if now - slots[i].t > IDLE {
          slots[i] := state;
          return i;
        }
      }
      return -1;
    }

    /** Slot i is taken and matches, and no lower one does. */
    ghost predicate LowestMatch(i: nat, srcIp: Address, destIp: Address, srcPort: u16, destPort: u16)
      requires i < slots.Length
      reads slots
    {
      && slots[i] != null && Matches(slots[i].ends, srcIp, destIp, srcPort, destPort)
      && forall j :: 0 <= j < i && slots[j] != null ==>
           !Matches(slots[j].ends, srcIp, destIp, srcPort, destPort)
    }

    method Get(srcIp: Address, destIp: Address, srcPort: u16, destPort: u16) returns (r: Entry?)
      requires Valid()
      ensures r == null <==>
        forall j :: 0 <= j < slots.Length && slots[j] != null ==>
          !Matches(slots[j].ends, srcIp, destIp, srcPort, destPort)
      ensures r != null ==>
        exists i :: 0 <= i < slots.Length && slots[i] == r && LowestMatch(i, srcIp, destIp, srcPort, destPort)
    {
      for i := 0 to slots.Length
        invariant forall j :: 0 <= j < i && slots[j] != null ==>
          !Matches(slots[j].ends, srcIp, destIp, srcPort, destPort)
      {
        var state := slots[i];
        if state == null {
          continue;
        }
        if state.ends.srcPort != srcPort && state.ends.destPort != srcPort {
          continue;
        }
        if state.ends.destPort != destPort && state.ends.srcPort != destPort {
          continue;
        }
        if state.ends.srcIp != srcIp && state.ends.destIp != srcIp {
          continue;
        }
        if state.ends.destIp != destIp && state.ends.srcIp != destIp {
          continue;
        }
        assert LowestMatch(i, srcIp, destIp, srcPort, destPort);
        return state;
      }
      return null;
    }

    method Remove(s: Entry)
      requires Valid()
      modifies slots
      ensures s !in old(slots[..]) ==> slots[..] == old(slots[..])
      ensures s in old(slots[..]) ==>
        exists i :: 0 <= i < slots.Length && old(slots[i]) == s && s !in old(slots[..])[..i] &&
          slots[..] == old(slots[..])[i := null]
      ensures View() == RemoveFirst(old(View()), s)
    {
      ghost var v := View();
      for i := 0 to slots.Length
        invariant slots[..] == old(slots[..])
        invariant s !in slots[..i]
        invariant forall j :: 0 <= j < i ==> !Holds(v[j], s)
      {
        if slots[i] != s {
          continue;
        }
        slots[i] := null;
        assert old(slots[i]) == s && slots[..] == old(slots[..])[i := null];
        RemoveFirstIs(v, s, i);
        return;
      }
      RemoveFirstIs(v, s, slots.Length);
      assert View() == v;
    }
  }

  // ---------------------------------------------------------------- looking up

  /** Get does not care which of the two endpoints is called the source. */
  lemma MatchesIsSymmetric(e: Endpoints, srcIp: Address, destIp: Address, srcPort: u16, destPort: u16)
    ensures Matches(e, srcIp, destIp, srcPort, destPort) == Matches(e, destIp, srcIp, destPort, srcPort)
    ensures Matches(Endpoints(e.destIp, e.destPort, e.srcIp, e.srcPort), srcIp, destIp, srcPort, destPort) ==
            Matches(e, srcIp, destIp, srcPort, destPort)
  {
  }

  /**
   Ports and addresses are compared separately, so a lookup with two different addresses
   and two different ports finds exactly the connection, in either direction, and the one
   with the two ports exchanged.
   */
  lemma MatchesUpToExchange(e: Endpoints, srcIp: Address, destIp: Address, srcPort: u16, destPort: u16)
    requires srcIp != destIp && srcPort != destPort
    ensures Matches(e, srcIp, destIp, srcPort, destPort) <==>
            e in { Endpoints(srcIp, srcPort, destIp, destPort), Endpoints(destIp, destPort, srcIp, srcPort),
                   Endpoints(srcIp, destPort, destIp, srcPort), Endpoints(destIp, srcPort, srcIp, destPort) }
  {
  }

  /** With one port at both ends it finds every connection of the two hosts that has the port at either end. */
  lemma MatchesWithEqualPorts(e: Endpoints, a: Address, b: Address, port: u16)
    requires a != b
    ensures Matches(e, a, b, port, port) <==>
            (e.srcIp, e.destIp) in {(a, b), (b, a)} && (e.srcPort == port || e.destPort == port)
  {
  }

  /** In general: both addresses and both ports have to be among those of the connection. */
  lemma MatchesAmong(e: Endpoints, srcIp: Address, destIp: Address, srcPort: u16, destPort: u16)
    ensures Matches(e, srcIp, destIp, srcPort, destPort) <==>
            {srcIp, destIp} <= {e.srcIp, e.destIp} && {srcPort, destPort} <= {e.srcPort, e.destPort}
  {
    assert srcIp in {srcIp, destIp} && destIp in {srcIp, destIp};
    assert srcPort in {srcPort, destPort} && destPort in {srcPort, destPort};
  }

  // ---------------------------------------------------------------- every run

  /** Connections come and go, and change their phase and their time, in any order. */
  datatype Event =
    | Add(ends: Endpoints, now: int)
    | Remove(who: nat)
    | Change(at: nat, phase: Phase, t: int)

  /** States are numbered in the order in which they are created. */
  datatype World = World(slots: seq<Slot<nat>>, created: nat)

  /** An Add that finds no slot panics; nothing is written. */
  function Step(w: World, e: Event): World {
    match e
    case Add(ends, now) =>
      var at := AddIndex(w.slots, now);
      World(if at < 0 then w.slots else w.slots[at := Taken(w.created, Listen, now, ends)], w.created + 1)
    case Remove(who) => w.(slots := RemoveFirst(w.slots, who))
    case Change(at, phase, t) =>
      if at < |w.slots| && w.slots[at].Taken?
      then w.(slots := w.slots[at := w.slots[at].(phase := phase, t := t)]) else w
  }

  function Run(events: seq<Event>): World {
    if events == [] then World(seq(SIZE, _ => Empty), 0)
    else Step(Run(events[..|events| - 1]), events[|events| - 1])
  }

  predicate NoneTwice(slots: seq<Slot<nat>>) {
    forall i, j :: 0 <= i < j < |slots| && slots[i].Taken? && slots[j].Taken? ==> slots[i].who != slots[j].who
  }

  predicate NumberedBelow(slots: seq<Slot<nat>>, n: nat) {
    forall i :: 0 <= i < |slots| && slots[i].Taken? ==> slots[i].who < n
  }

  predicate Absent(slots: seq<Slot<nat>>, who: nat) {
    forall i :: 0 <= i < |slots| && slots[i].Taken? ==> slots[i].who != who
  }

  /** RemoveFirst clears one slot at most. */
  lemma {:induction false} RemoveFirstAt(slots: seq<Slot<nat>>, who: nat)
    ensures forall i :: 0 <= i < |slots| ==>
      RemoveFirst(slots, who)[i] == slots[i] || (RemoveFirst(slots, who)[i] == Empty && Holds(slots[i], who))
    ensures NoneTwice(slots) ==> Absent(RemoveFirst(slots, who), who)
  {
    if slots != [] {
      var rest := slots[1..];
      RemoveFirstAt(rest, who);
      if NoneTwice(slots) {
        assert NoneTwice(rest) by {
          forall i, j | 0 <= i < j < |rest| && rest[i].Taken? && rest[j].Taken?
            ensures rest[i].who != rest[j].who
          {
            assert slots[i + 1] == rest[i] && slots[j + 1] == rest[j];
          }
        }
      }
    }
  }

  /** In every run, no State is in two slots. */
  lemma {:induction false} NoStateTwice(events: seq<Event>)
    ensures var w := Run(events);
            |w.slots| == 65535 && NoneTwice(w.slots) && NumberedBelow(w.slots, w.created)
  {
    if events != [] {
      var n := |events| - 1;
      NoStateTwice(events[..n]);
      if events[n].Remove? {
        RemoveFirstAt(Run(events[..n]).slots, events[n].who);
      }
    }
  }

  /** Remove clears the first slot only, and yet the State it removes is gone, and stays gone. */
  lemma {:induction false} RemovedForGood(events: seq<Event>, who: nat, later: seq<Event>)
    requires who < Run(events).created
    ensures var w := Run(events + [Remove(who)] + later);
            Absent(w.slots, who) && who < w.created
    decreases |later|
  {
    hide Step;
    var all := events + [Remove(who)] + later;
    if later == [] {
      assert all[..|all| - 1] == events;
      NoStateTwice(events);
      RemoveStep(Run(events), who);
    } else {
      var n := |later| - 1;
      assert all[..|all| - 1] == events + [Remove(who)] + later[..n];
      RemovedForGood(events, who, later[..n]);
      AbsentStep(Run(events + [Remove(who)] + later[..n]), who, later[n]);
    }
  }

  lemma RemoveStep(w: World, who: nat)
    requires NoneTwice(w.slots)
    ensures Absent(Step(w, Remove(who)).slots, who) && Step(w, Remove(who)).created == w.created
  {
    RemoveFirstAt(w.slots, who);
  }

  lemma AbsentStep(w: World, who: nat, e: Event)
    requires Absent(w.slots, who) && who < w.created
    ensures Absent(Step(w, e).slots, who) && who < Step(w, e).created
  {
    if e.Remove? {
      RemoveFirstAt(w.slots, e.who);
    }
  }

  /** A new State never displaces a connection that is neither in TimeWait nor idle. */
  lemma LiveStatesStay(events: seq<Event>, ends: Endpoints, now: int, i: nat)
    requires i < |Run(events).slots|
    requires var s := Run(events).slots[i];
             s.Taken? && s.phase != TimeWait && now - s.t <= 30_000_000_000
    ensures var w := Run(events + [Add(ends, now)]);
            i < |w.slots| && w.slots[i] == Run(events).slots[i]
  {
    assert (events + [Add(ends, now)])[..|events|] == events;
  }
}
