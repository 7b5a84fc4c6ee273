/** Draining the stacked inbox of a network interface: both handle_inbox functions of
    comm/network_interface.cpp. */
module Inbox {

  const TS_NEVER: int := 2147483647

  /** The message and data buffers are char1024 in the source; the parent's property is taken to
      be as wide. */
  const WIDTH: nat := 1024

  type Buffer = b: seq<int> | |b| == WIDTH witness seq(WIDTH, _ => 0)
  type Payload = p: seq<int> | |p| <= WIDTH

  /** A message, as it is in an outbox or in an inbox. Once it is delivered its
      times are given, and only its links change. */
  class Message {
    const to: Interface
    const size: real
    var recv: real
    const rxDoneSec: int
    const endTime: int
    const payload: Payload
    var next: Message?
    var prev: Message?

    constructor (to: Interface, size: real, recv: real, rxDoneSec: int, endTime: int, payload: Payload, next: Message?)
      ensures this.to == to && this.size == size && this.recv == recv
      ensures this.rxDoneSec == rxDoneSec && this.endTime == endTime
      ensures this.payload == payload && this.next == next && prev == null
    {
      this.to, this.size, this.recv := to, size, recv;
      this.rxDoneSec, this.endTime, this.payload, this.next, prev := rxDoneSec, endTime, payload, next, null;
    }
  }

  predicate Ready(m: Message, t: int) {
    t >= m.rxDoneSec
  }

  /** The messages that stay, in their order in the stack. */
  function Punted(nodes: seq<Message>, t: int): seq<Message> {
    if nodes == [] then []
    else (if Ready(nodes[0], t) then [] else [nodes[0]]) + Punted(nodes[1..], t)
  }

  /** The messages to deliver, first in first out: the deepest in the stack first. */
  function Due(nodes: seq<Message>, t: int): seq<Message> {
    if nodes == [] then []
    else Due(nodes[1..], t) + (if Ready(nodes[0], t) then [nodes[0]] else [])
  }

  ghost function Nexts(nodes: seq<Message>): (r: seq<Message?>)
    reads nodes`next
    ensures |r| == |nodes| && forall i :: 0 <= i < |nodes| ==> r[i] == nodes[i].next
  {
    if nodes == [] then [] else [nodes[0].next] + Nexts(nodes[1..])
  }

  ghost predicate Strung(m: Message?, nodes: seq<Message>, nexts: seq<Message?>)
    requires |nexts| == |nodes|
  {
    if nodes == [] then m == null
    else m == nodes[0] && nodes[0] !in nodes[1..] && Strung(nexts[0], nodes[1..], nexts[1..])
  }

  /** `nodes` is the list that starts at `m`. */
  ghost predicate Chain(m: Message?, nodes: seq<Message>)
    reads nodes`next
  {
    Strung(m, nodes, Nexts(nodes))
  }

  lemma ChainParts(m: Message?, nodes: seq<Message>)
    ensures nodes == [] ==> (Chain(m, nodes) <==> m == null)
    ensures nodes != [] ==>
              (Chain(m, nodes) <==> m == nodes[0] && nodes[0] !in nodes[1..] && Chain(nodes[0].next, nodes[1..]))
  {
    if nodes != [] { assert Nexts(nodes)[1..] == Nexts(nodes[1..]); }
  }

  /** The messages under the top that are freed as they are delivered. */
  function Released(nodes: seq<Message>, t: int): set<Message> {
    if |nodes| < 2 then {}
    else Released(nodes[1..], t) + (if Ready(nodes[1], t) then {nodes[1]} else {})
  }

  lemma ReleasedAreDue(nodes: seq<Message>, t: int)
    ensures forall m :: m in Released(nodes, t) <==> m in nodes[if nodes == [] then 0 else 1..] && Ready(m, t)
  {
    if |nodes| >= 2 {
      ReleasedAreDue(nodes[1..], t);
      assert nodes[1..] == [nodes[1]] + nodes[1..][1..];
    }
  }

  lemma KeptAreNotReleased(nodes: seq<Message>, t: int, freed: set<Message>)
    requires forall m <- nodes :: m !in freed
    ensures forall m <- Punted(nodes, t) :: m !in freed + Released(nodes, t)
  {
    PuntedAndDueAreNodes(nodes, t);
    ReleasedAreDue(nodes, t);
  }

  /** memcpy of a payload to the front of a buffer. */
  function Overlay(buffer: Buffer, payload: Payload): (r: Buffer)
    ensures payload <= r
  {
    payload + buffer[|payload|..]
  }

  /** What an interface has received: its data buffer and the size in it, and its parent's property. */
  datatype Port = Port(dataBuffer: Buffer, size: nat, property: Buffer)

  /** The port after messages have been received one after another. */
  function Received(port: Port, ms: seq<Message>): Port {
    if ms == [] then port
    else
      var before, m := Received(port, ms[..|ms| - 1]), ms[|ms| - 1];
      Port(Overlay(before.dataBuffer, m.payload), |m.payload|, Overlay(before.property, m.payload))
  }

  lemma ReceivedOneMore(port: Port, ms: seq<Message>, m: Message)
    ensures var before := Received(port, ms);
            Received(port, ms + [m]) ==
              Port(Overlay(before.dataBuffer, m.payload), |m.payload|, Overlay(before.property, m.payload))
  {
    assert (ms + [m])[..|ms|] == ms;
  }

  /** The earliest of the end times, or never. */
  function Earliest(nodes: seq<Message>): (t: int)
    ensures t <= TS_NEVER && forall m <- nodes :: t <= m.endTime
    ensures t == TS_NEVER || exists m <- nodes :: t == m.endTime
  {
    if nodes == [] then TS_NEVER
    else
      var rest := Earliest(nodes[..|nodes| - 1]);
      if nodes[|nodes| - 1].endTime < rest then nodes[|nodes| - 1].endTime else rest
  }

  /** The next message of a list that is gone through. */
  lemma OneMoreSeen(m: Message, seen: seq<Message>, rest: seq<Message>)
    requires Chain(m, rest)
    ensures rest != [] && m == rest[0] && Chain(m.next, rest[1..]) && seen + rest == (seen + [m]) + rest[1..]
    ensures Earliest(seen + [m]) == if m.endTime < Earliest(seen) then m.endTime else Earliest(seen)
  {
    assert rest != [] && m == rest[0] && Chain(m.next, rest[1..]) by { ChainParts(m, rest); }
    SplitFirst(seen, rest);
    assert (seen + [m])[..|seen|] == seen;
  }

  lemma SplitFirst<T>(a: seq<T>, b: seq<T>)
    requires b != []
    ensures a + b == (a + [b[0]]) + b[1..]
  {
  }

  lemma PuntedAndDueAreNodes(nodes: seq<Message>, t: int)
    ensures forall m :: m in Punted(nodes, t) <==> m in nodes && !Ready(m, t)
    ensures forall m :: m in Due(nodes, t) <==> m in nodes && Ready(m, t)
  {
    if nodes != [] {
      PuntedAndDueAreNodes(nodes[1..], t);
      assert nodes == [nodes[0]] + nodes[1..];
    }
  }

  /** The message at the top is delivered last or left on top. */
  lemma TopOf(nodes: seq<Message>, t: int)
    requires nodes != []
    ensures Ready(nodes[0], t) ==>
        Punted(nodes, t) == Punted(nodes[1..], t) && Due(nodes, t) == Due(nodes[1..], t) + [nodes[0]]
    ensures !Ready(nodes[0], t) ==>
        Punted(nodes, t) == [nodes[0]] + Punted(nodes[1..], t) && Due(nodes, t) == Due(nodes[1..], t)
  {
  }

  /** No message is lost or duplicated: those delivered and those left are those there were. */
  lemma {:induction false} InboxConserved(nodes: seq<Message>, t: int)
    ensures multiset(Punted(nodes, t)) + multiset(Due(nodes, t)) == multiset(nodes)
  {
    if nodes != [] {
      InboxConserved(nodes[1..], t);
      assert nodes == [nodes[0]] + nodes[1..];
    }
  }

  /** Delivered are exactly the messages whose time has come; the others stay. */
  lemma DueIff(nodes: seq<Message>, t: int, m: Message)
    ensures m in Due(nodes, t) <==> m in nodes && m.rxDoneSec <= t
    ensures m in Punted(nodes, t) <==> m in nodes && t < m.rxDoneSec
  {
    PuntedAndDueAreNodes(nodes, t);
  }

  /** Those that stay keep their order. */
  lemma {:induction false} PuntedInOrder(nodes: seq<Message>, t: int, i: nat, j: nat) returns (a: nat, b: nat)
    requires i < j < |Punted(nodes, t)|
    ensures a < b < |nodes| && nodes[a] == Punted(nodes, t)[i] && nodes[b] == Punted(nodes, t)[j]
  {
    var rest := Punted(nodes[1..], t);
    if Ready(nodes[0], t) {
      assert Punted(nodes, t) == rest;
      a, b := PuntedInOrder(nodes[1..], t, i, j);
      a, b := a + 1, b + 1;
    } else if i > 0 {
      a, b := PuntedInOrder(nodes[1..], t, i - 1, j - 1);
      a, b := a + 1, b + 1;
    } else {
      DueIff(nodes[1..], t, rest[j - 1]);
      var k :| 0 <= k < |nodes[1..]| && nodes[1..][k] == rest[j - 1];
      a, b := 0, k + 1;
    }
  }

  /** The messages are to be delivered at their end times, as a commit sets them. */
  ghost predicate Timed(nodes: seq<Message>) {
    forall m <- nodes :: m.endTime == m.rxDoneSec
  }

  /** So the event announced for those that stay is still to come, and none of them is due before it. */
  lemma NextIsLater(nodes: seq<Message>, t: int)
    requires Timed(nodes) && t < 2147483647
    ensures var next := Earliest(Punted(nodes, t));
            && t < next && (forall u :: u < next ==> Due(Punted(nodes, t), u) == [])
            && (Punted(nodes, t) == [] ==> next == 2147483647)
  {
    var kept := Punted(nodes, t);
    forall m | m in kept ensures m in nodes && t < m.rxDoneSec == m.endTime { DueIff(nodes, t, m); }
    forall u | u < Earliest(kept) ensures Due(kept, u) == [] {
      if Due(kept, u) != [] { DueIff(kept, u, Due(kept, u)[0]); }
    }
  }

  /** Position of the ready message nearest the top of the stack. */
  lemma {:induction false} NearestTopIsLast(nodes: seq<Message>, t: int, k: nat)
    requires k < |nodes| && Ready(nodes[k], t)
    requires forall i :: 0 <= i < k ==> !Ready(nodes[i], t)
    ensures Due(nodes, t) != [] && Due(nodes, t)[|Due(nodes, t)| - 1] == nodes[k]
  {
    if k > 0 { NearestTopIsLast(nodes[1..], t, k - 1); }
  }

  /** Afterwards the interface's buffer and the parent's property start with the ready payload nearest
      the top of the stack. */
  lemma PropertyHoldsNearestTop(port: Port, nodes: seq<Message>, t: int, k: nat)
    requires k < |nodes| && Ready(nodes[k], t)
    requires forall i :: 0 <= i < k ==> !Ready(nodes[i], t)
    ensures var p, after := nodes[k].payload, Received(port, Due(nodes, t));
            p <= after.property && p <= after.dataBuffer && after.size == |p|
  {
    NearestTopIsLast(nodes, t, k);
  }

  /** Past all the payloads nothing changes. */
  lemma {:induction false} RestUnchanged(port: Port, ms: seq<Message>, k: nat)
    requires k < WIDTH && forall m <- ms :: |m.payload| <= k
    ensures Received(port, ms).property[k] == port.property[k]
    ensures Received(port, ms).dataBuffer[k] == port.dataBuffer[k]
    decreases |ms|
  {
    if ms != [] {
      var n := |ms| - 1;
      assert ms[n] in ms;
      RestUnchanged(port, ms[..n], k);
    }
  }

  /** First in, first out: of two ready messages the one deeper in the stack is delivered earlier. */
  lemma {:induction false} DeeperIsEarlier(nodes: seq<Message>, t: int, i: nat, j: nat) returns (a: nat, b: nat)
    requires i < j < |nodes| && Ready(nodes[i], t) && Ready(nodes[j], t)
    ensures b < a < |Due(nodes, t)|
    ensures Due(nodes, t)[a] == nodes[i] && Due(nodes, t)[b] == nodes[j]
  {
    if i > 0 {
      a, b := DeeperIsEarlier(nodes[1..], t, i - 1, j - 1);
    } else {
      PuntedAndDueAreNodes(nodes[1..], t);
      assert nodes[j] == nodes[1..][j - 1];
      b :| 0 <= b < |Due(nodes[1..], t)| && Due(nodes[1..], t)[b] == nodes[j];
      a := |Due(nodes, t)| - 1;
    }
  }

  function Head(nodes: seq<Message>): Message? {
    if nodes == [] then null else nodes[0]
  }

  /** The stack under the top, drained: it is headed by the next message exactly while that one
      is not ready, and neither the top nor the next message is among those already freed. */
  lemma UnderTop(nodes: seq<Message>, below: Message?, t: int)
    requires nodes != [] && nodes[0] !in nodes[1..]
    requires below == Head(nodes[1..]) && (|nodes| > 1 ==> nodes[1] !in nodes[1..][1..])
    ensures nodes[0] !in Punted(nodes[1..], t)
    ensures below != null ==> below == nodes[1] && below !in Released(nodes[1..], t)
    ensures Released(nodes, t) ==
        Released(nodes[1..], t) + (if Head(Punted(nodes[1..], t)) != below then {nodes[1]} else {})
    ensures Head(Punted(nodes[1..], t)) != below ==> |nodes| > 1
  {
    PuntedAndDueAreNodes(nodes[1..], t);
    ReleasedAreDue(nodes[1..], t);
    if |nodes| > 1 { PuntedAndDueAreNodes(nodes[1..][1..], t); }
  }

  lemma StackLeft(nodes: seq<Message>, nm: Message, t: int)
    requires nodes != [] && nm == nodes[0] && nm !in Punted(nodes[1..], t) && Chain(nm.next, Punted(nodes[1..], t))
    ensures Chain(if Ready(nm, t) then nm.next else nm, Punted(nodes, t))
  {
    var kept := Punted(nodes[1..], t);
    ChainParts(nm, Punted(nodes, t));
    if !Ready(nm, t) { assert Punted(nodes, t)[1..] == kept; }
    else { assert Punted(nodes, t) == kept; }
  }

  class Interface {
    var outbox: Message?
    var inbox: Message?
    var dataBuffer: Buffer
    var currBufferSize: nat
    var nextMsgTime: int
    /** The parent's property, which the interface overwrites. */
    var property: Buffer

    ghost var freed: set<Message>

    constructor ()
      ensures outbox == null && inbox == null && freed == {}
    {
      outbox, inbox, currBufferSize, nextMsgTime := null, null, 0, TS_NEVER;
      dataBuffer, property := seq(WIDTH, _ => 0), seq(WIDTH, _ => 0);
      freed := {};
    }

    ghost function View(): Port
      reads this
    {
      Port(dataBuffer, currBufferSize, property)
    }

    method Free(m: Message)
      requires m !in freed
      modifies this`freed
      ensures freed == old(freed) + {m}
    {
      freed := freed + {m};
    }

    /** Copies a ready message to the interface and on to the parent. */
    method Deliver(m: Message)
      modifies this`dataBuffer, this`currBufferSize, this`property
      ensures dataBuffer == Overlay(old(dataBuffer), m.payload) && currBufferSize == |m.payload|
      ensures property == Overlay(old(property), m.payload)
    {
      currBufferSize := |m.payload|;
      dataBuffer := Overlay(dataBuffer, m.payload);
      property := Overlay(property, dataBuffer[..currBufferSize]);
    }

    /** Frees what was under a message when it has been delivered, and links what is left. */
    method Relink(nm: Message, rv: Message?, ghost kept: seq<Message>)
      requires rv != nm.next ==> nm.next != null && nm.next !in freed
      requires nm !in kept && Chain(rv, kept)
      modifies this`freed, nm`next
      ensures nm.next == rv && Chain(nm.next, kept)
      ensures freed == old(freed) + (if rv != old(nm.next) then {old(nm.next)} else {})
    {
      ghost var links := Nexts(kept);
      if rv != nm.next {
        Free(nm.next);
        nm.next := rv;
      }
      assert Nexts(kept) == links;
    }

    /** Delivers a message if it is ready; returns what stays of the stack headed by it. */
    method Receive(t1: int, nm: Message, ghost port: Port, ghost ms: seq<Message>) returns (rv: Message?)
      requires View() == Received(port, ms)
      modifies this`dataBuffer, this`currBufferSize, this`property
      ensures rv == if Ready(nm, t1) then nm.next else nm
      ensures View() == Received(port, if Ready(nm, t1) then ms + [nm] else ms)
    {
      ReceivedOneMore(port, ms, nm);
      if t1 >= nm.rxDoneSec {
        Deliver(nm);
        return nm.next;
      } else {
        return nm;
      }
    }

    /** The recursive drain. It returns the stack of the messages that are not ready; every ready
        one but the top of the stack is freed, once, and none of the freed ones is still linked. */
    method HandleFrom(t1: int, nm: Message?, ghost nodes: seq<Message>) returns (rv: Message?)
      requires Chain(nm, nodes)
      requires forall m <- nodes :: m !in freed
      modifies this`dataBuffer, this`currBufferSize, this`property, this`freed, nodes`next
      ensures Chain(rv, Punted(nodes, t1))
      ensures View() == Received(old(View()), Due(nodes, t1))
      ensures freed == old(freed) + Released(nodes, t1)
      decreases |nodes|, 1
    {
      ChainParts(nm, nodes);
      if nm == null { return null; }
      HandleBelow(t1, nm, nodes);
      ghost var kept := Punted(nodes[1..], t1);
      ghost var links := Nexts(kept);
      rv := Receive(t1, nm, old(View()), Due(nodes[1..], t1));
      assert View() == Received(old(View()), Due(nodes, t1)) by { TopOf(nodes, t1); }
      assert Chain(rv, Punted(nodes, t1)) by {
        assert Nexts(kept) == links;
        StackLeft(nodes, nm, t1);
      }
    }

    /** The stack under a message is drained and linked again. */
    method HandleBelow(t1: int, nm: Message, ghost nodes: seq<Message>)
      requires nodes != [] && nm == nodes[0] && Chain(nm, nodes)
      requires forall m <- nodes :: m !in freed
      modifies this`dataBuffer, this`currBufferSize, this`property, this`freed, nodes`next
      ensures nm !in Punted(nodes[1..], t1) && Chain(nm.next, Punted(nodes[1..], t1))
      ensures View() == Received(old(View()), Due(nodes[1..], t1))
      ensures freed == old(freed) + Released(nodes, t1)
      decreases |nodes|, 0
    {
      ghost var rest, kept, below := nodes[1..], Punted(nodes[1..], t1), nm.next;
      ChainParts(nm, nodes);
      assert below == Head(rest) && (rest != [] ==> rest[0] !in rest[1..]) by { ChainParts(below, rest); }
      UnderTop(nodes, below, t1);
      var rv := HandleFrom(t1, nm.next, rest);
      assert rv == Head(kept) by { ChainParts(rv, kept); }
      Relink(nm, rv, kept);
    }

    /** The least end time left, or never. */
    method FindNextEvent(ghost kept: seq<Message>)
      requires Chain(inbox, kept)
      modifies this`nextMsgTime
      ensures nextMsgTime == Earliest(kept)
    {
      nextMsgTime := TS_NEVER;
      var nm := inbox;
      ghost var seen: seq<Message>, rest: seq<Message> := [], kept;
      while nm != null
        invariant seen + rest == kept && Chain(nm, rest)
        invariant nextMsgTime == Earliest(seen)
        decreases |rest|
      {
        OneMoreSeen(nm, seen, rest);
        if nm.endTime < nextMsgTime { nextMsgTime := nm.endTime; }
        seen, rest := seen + [nm], rest[1..];
        nm := nm.next;
      }
      ChainParts(nm, rest);
      assert seen + [] == seen;
    }

    /** The inbox is drained. A message freed is not in it any more, so it is never read again. */
    method Drain(t1: int, ghost nodes: seq<Message>)
      requires Chain(inbox, nodes)
      requires forall m <- nodes :: m !in freed
      modifies this`inbox, this`dataBuffer, this`currBufferSize, this`property, this`freed, nodes`next
      ensures Chain(inbox, Punted(nodes, t1)) && forall m <- Punted(nodes, t1) :: m !in freed
      ensures View() == Received(old(View()), Due(nodes, t1))
      ensures freed == old(freed) + Released(nodes, t1)
    {
      KeptAreNotReleased(nodes, t1, freed);
      var rv := HandleFrom(t1, inbox, nodes);
      ghost var links := Nexts(Punted(nodes, t1));
      inbox := rv;
      assert Nexts(Punted(nodes, t1)) == links;
    }

    /** The whole call. */
    method HandleInbox(t1: int, ghost nodes: seq<Message>) returns (next: int)
      requires Chain(inbox, nodes)
      requires forall m <- nodes :: m !in freed
      modifies this`inbox, this`dataBuffer, this`currBufferSize, this`property, this`freed, this`nextMsgTime, nodes`next
      ensures Chain(inbox, Punted(nodes, t1)) && forall m <- Punted(nodes, t1) :: m !in freed
      ensures View() == Received(old(View()), Due(nodes, t1))
      ensures freed == old(freed) + Released(nodes, t1)
      ensures next == nextMsgTime == Earliest(Punted(nodes, t1))
    {
      Drain(t1, nodes);
      ghost var links := Nexts(Punted(nodes, t1));
      FindNextEvent(Punted(nodes, t1));
      assert Nexts(Punted(nodes, t1)) == links;
      return nextMsgTime;
    }
  }

  // ----- a run -----------------------------------------------------------------------

  /** A message that was delivered, and when. */
  datatype Delivery = Delivery(time: int, message: Message)

  function DeliveredAt(ms: seq<Message>, t: int): (r: seq<Delivery>)
    ensures |r| == |ms| && forall k :: 0 <= k < |ms| ==> r[k] == Delivery(t, ms[k])
  {
    seq(|ms|, k requires 0 <= k < |ms| => Delivery(t, ms[k]))
  }

  function Messages(ds: seq<Delivery>): (r: seq<Message>)
    ensures |r| == |ds| && forall k :: 0 <= k < |ds| ==> r[k] == ds[k].message
  {
    seq(|ds|, k requires 0 <= k < |ds| => ds[k].message)
  }

  /** Each was delivered when its time had come: at once, or else exactly then. */
  ghost predicate OnTime(ds: seq<Delivery>, start: int) {
    forall d <- ds :: d.time == if d.message.rxDoneSec <= start then start else d.message.rxDoneSec
  }

  /** What one more handling at the announced time adds. */
  lemma OneMoreHandling(ds: seq<Delivery>, kept: seq<Message>, start: int, t: int)
    requires OnTime(ds, start) && start <= t && Timed(kept) && t <= TS_NEVER
    requires t != start ==> t == Earliest(kept) && forall m <- kept :: start < m.rxDoneSec
    ensures OnTime(ds + DeliveredAt(Due(kept, t), t), start) && Timed(Punted(kept, t))
    ensures forall m <- Punted(kept, t) :: start < m.rxDoneSec
  {
    var more := DeliveredAt(Due(kept, t), t);
    forall d | d in more ensures d.time == if d.message.rxDoneSec <= start then start else d.message.rxDoneSec {
      DueIff(kept, t, d.message);
    }
    forall m | m in Punted(kept, t) ensures m in kept && start < m.rxDoneSec { DueIff(kept, t, m); }
  }

  /** Nothing is lost or delivered twice. */
  lemma HandlingConserves(ds: seq<Delivery>, kept: seq<Message>, t: int)
    ensures multiset(Messages(ds + DeliveredAt(Due(kept, t), t))) + multiset(Punted(kept, t)) ==
        multiset(Messages(ds)) + multiset(kept)
  {
    var more := DeliveredAt(Due(kept, t), t);
    assert Messages(ds + more) == Messages(ds) + Messages(more) && Messages(more) == Due(kept, t);
    InboxConserved(kept, t);
  }

  /** What is in the inbox before it is handled at `t`, and what has been delivered. */
  ghost predicate Handled(nodes: seq<Message>, kept: seq<Message>, ds: seq<Delivery>, start: int, t: int) {
    && start <= t <= TS_NEVER && Timed(kept) && OnTime(ds, start) && (forall m <- kept :: m in nodes)
    && (t != start ==> t == Earliest(kept) && forall m <- kept :: start < m.rxDoneSec)
    && multiset(Messages(ds)) + multiset(kept) == multiset(nodes)
  }

  lemma HandledNext(nodes: seq<Message>, kept: seq<Message>, ds: seq<Delivery>, start: int, t: int)
    requires t < TS_NEVER && Handled(nodes, kept, ds, start, t)
    ensures t < Earliest(Punted(kept, t))
    ensures Handled(nodes, Punted(kept, t), ds + DeliveredAt(Due(kept, t), t), start, Earliest(Punted(kept, t)))
    ensures forall m <- Punted(kept, t) :: m in kept
  {
    OneMoreHandling(ds, kept, start, t);
    HandlingConserves(ds, kept, t);
    NextIsLater(kept, t);
    forall m | m in Punted(kept, t) ensures m in kept { DueIff(kept, t, m); }
  }

  lemma SomeLeft(kept: seq<Message>)
    requires Timed(kept) && kept != [] && forall m <- kept :: m.rxDoneSec < TS_NEVER
    ensures Earliest(kept) < TS_NEVER
  {
    assert kept[0] in kept;
  }

  /** The inbox is handled at once, and then at every event it announces. Each message is delivered
      exactly once: at once if it was due, and else at its own time. */
  method HandleAll(nif: Interface, ghost nodes: seq<Message>, ghost all: set<Message>, start: int)
    returns (ghost ds: seq<Delivery>)
    requires Chain(nif.inbox, nodes) && Timed(nodes) && start < TS_NEVER && all == set m | m in nodes
    requires forall m <- nodes :: m !in nif.freed && m.rxDoneSec < TS_NEVER
    modifies nif`inbox, nif`dataBuffer, nif`currBufferSize, nif`property, nif`freed, nif`nextMsgTime, all`next
    ensures nif.inbox == null && OnTime(ds, start)
    ensures multiset(Messages(ds)) == multiset(nodes)
  {
    ghost var kept := nodes;
    var t := start;
    ds := [];
    assert multiset(Messages(ds)) + multiset(kept) == multiset(nodes);
    while t < TS_NEVER
      invariant Handled(nodes, kept, ds, start, t) && Chain(nif.inbox, kept)
      invariant forall m <- kept :: m in all && m !in nif.freed
      decreases TS_NEVER - t
    {
      HandledNext(nodes, kept, ds, start, t);
      ds := ds + DeliveredAt(Due(kept, t), t);
      var next := nif.HandleInbox(t, kept);
      kept, t := Punted(kept, t), next;
    }
    if kept != [] { SomeLeft(kept); }
    ChainParts(nif.inbox, kept);
  }
}
