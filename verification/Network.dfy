/** The network object of comm/network.cpp, and its commit. */
module Network {
  import opened Transfer

  /** The next event over all outboxes. */
  function NextEvent(nifs: seq<Iface>, now: int, arrival: int): (t: int)
    ensures t <= TS_NEVER
  {
    if nifs == [] then TS_NEVER
    else
      var t, u := NextEvent(nifs[..|nifs| - 1], now, arrival), NextInBox(nifs[|nifs| - 1].outbox, now, arrival);
      if u < t then u else t
  }

  lemma NextEventIsEarliest(nifs: seq<Iface>, now: int, arrival: int)
    ensures forall i :: 0 <= i < |nifs| ==> NextEvent(nifs, now, arrival) <= NextInBox(nifs[i].outbox, now, arrival)
  {
    if nifs != [] { NextEventIsEarliest(nifs[..|nifs| - 1], now, arrival); }
  }

  function Counting(nif: Iface, now: int): Iface {
    nif.(outbox := CountedBox(nif.outbox, now))
  }

  function CountedAll(nifs: seq<Iface>, now: int): (r: seq<Iface>)
    ensures |r| == |nifs| && forall i {:trigger r[i]} :: 0 <= i < |nifs| ==> r[i] == Counting(nifs[i], now)
  {
    seq(|nifs|, i requires 0 <= i < |nifs| => Counting(nifs[i], now))
  }

  function Clearing(nif: Iface): Iface {
    nif.(outbox := Staying(nif.outbox))
  }

  function StayingAll(nifs: seq<Iface>): (r: seq<Iface>)
    ensures |r| == |nifs| && forall i {:trigger r[i]} :: 0 <= i < |nifs| ==> r[i] == Clearing(nifs[i])
  {
    seq(|nifs|, i requires 0 <= i < |nifs| => Clearing(nifs[i]))
  }

  function LeavingAll(nifs: seq<Iface>, arrival: int): seq<Message> {
    if nifs == [] then [] else LeavingAll(nifs[..|nifs| - 1], arrival) + Leaving(nifs[|nifs| - 1].outbox, arrival)
  }

  /** Between commits every message is in account until the next event. */
  ghost predicate BoxInAccount(nif: Iface, clock: int, event: int) {
    nif.sendRate >= 0.0 && forall m <- nif.outbox :: Accounted(m, event) && m.lastUpdate <= clock
  }

  ghost predicate InAccount(nifs: seq<Iface>, clock: int, event: int) {
    forall i :: 0 <= i < |nifs| ==> BoxInAccount(nifs[i], clock, event)
  }

  ghost predicate BoxCountedUp(nif: Iface, now: int) {
    nif.sendRate >= 0.0 && forall m <- nif.outbox :: CountedUp(m, now)
  }

  ghost predicate BoxAllotted(nif: Iface, now: int) {
    && nif.sendRate >= 0.0
    && forall m <- nif.outbox :: CountedUp(m, now) && m.bufferRate == 0.0 && 0.0 <= m.sendRate <= Left(m)
  }

  ghost predicate AllCountedUp(nifs: seq<Iface>, now: int) {
    forall i :: 0 <= i < |nifs| ==> BoxCountedUp(nifs[i], now)
  }

  ghost predicate AllServed(nifs: seq<Iface>, now: int) {
    forall i :: 0 <= i < |nifs| ==> BoxAllotted(nifs[i], now)
  }

  ghost predicate AllComplete(ms: seq<Message>) {
    forall i :: 0 <= i < |ms| ==> Complete(ms[i])
  }

  lemma CompleteAppends(a: seq<Message>, b: seq<Message>)
    requires AllComplete(a) && AllComplete(b)
    ensures AllComplete(a + b)
  {
  }

  predicate Complete(m: Message) {
    m.state == Delivered && m.sent == m.recv == m.size
  }

  // ----- the loops over one outbox ---------------------------------------------------

  method CountOutbox(box: seq<Message>, now: int) returns (r: seq<Message>)
    ensures r == CountedBox(box, now)
  {
    r := box;
    for j := 0 to |box|
      invariant |r| == |box|
      invariant forall k :: 0 <= k < |box| ==> r[k] == if k < j then Counted(box[k], now) else box[k]
    {
      var dt := (now - r[j].lastUpdate) as real;
      r := r[j := r[j].(sent := r[j].sent + r[j].sendRate * dt)];
      r := r[j := r[j].(buffered := r[j].buffered + r[j].bufferRate * dt)];
      r := r[j := r[j].(recv := r[j].recv + r[j].sendRate * dt)];
      r := r[j := r[j].(lastUpdate := now)];
    }
  }

  lemma SumSnoc(xs: seq<real>, x: real)
    ensures Sum(xs + [x]) == Sum(xs) + x
  {
    if xs != [] {
      assert (xs + [x])[1..] == xs[1..] + [x];
      SumSnoc(xs[1..], x);
    }
  }

  method AllotMessage(msg: Message, rate: real, bandwidth: real, used: real) returns (m: Message)
    ensures m == Allotted(msg, rate, bandwidth, used)
  {
    m := msg.(sendRate := 0.0, bufferRate := 0.0);
    if bandwidth - used > rate {
      m := m.(sendRate := rate, state := Sending);
    } else if bandwidth == 0.0 {
      m := m.(state := if m.sent > 0.0 then Delayed else Rejected);
    } else {
      m := m.(sendRate := bandwidth - used, state := Sending);
    }
    var left := m.size - m.sent;
    if left < m.sendRate + m.bufferRate {
      if left < m.sendRate {
        m := m.(sendRate := left, bufferRate := 0.0);
      } else {
        m := m.(bufferRate := left - m.sendRate);
      }
    }
  }

  method AllotOutbox(box: seq<Message>, rate: real, bandwidth: real, used: real)
    returns (r: seq<Message>, nowUsed: real, boxUsed: real)
    requires RoomFor(box, rate, bandwidth, used)
    ensures r == AllottedBox(box, rate, bandwidth, used)
    ensures boxUsed == Sum(Rates(r)) && used <= nowUsed == used + boxUsed <= bandwidth
  {
    r, nowUsed, boxUsed := [], used, 0.0;
    for j := 0 to |box|
      invariant |r| == j && used <= nowUsed <= bandwidth
      invariant r + AllottedBox(box[j..], rate, bandwidth, nowUsed) == AllottedBox(box, rate, bandwidth, used)
      invariant boxUsed == Sum(Rates(r)) && nowUsed == used + boxUsed
    {
      var m := AllotMessage(box[j], rate, bandwidth, nowUsed);
      AllotNext(r, box[j..], m, rate, bandwidth, nowUsed);
      assert box[j] in box && box[j..][1..] == box[j + 1..];
      r := r + [m];
      nowUsed := nowUsed + m.sendRate;
      boxUsed := boxUsed + m.sendRate + m.bufferRate;
    }
  }

  lemma AllotNext(r: seq<Message>, rest: seq<Message>, m: Message, rate: real, bandwidth: real, used: real)
    requires rest != [] && m == Allotted(rest[0], rate, bandwidth, used)
    requires rate >= 0.0 && 0.0 <= used <= bandwidth && Left(rest[0]) >= 0.0
    ensures (r + [m]) + AllottedBox(rest[1..], rate, bandwidth, used + m.sendRate) ==
        r + AllottedBox(rest, rate, bandwidth, used)
    ensures Sum(Rates(r + [m])) == Sum(Rates(r)) + m.sendRate
    ensures 0.0 <= m.sendRate <= bandwidth - used && m.bufferRate == 0.0
  {
    AllottedIsGreedy(rest[0], rate, bandwidth, used);
    RatesSnoc(r, m);
    Reassociate(r, m, AllottedBox(rest[1..], rate, bandwidth, used + m.sendRate));
  }

  lemma RatesSnoc(r: seq<Message>, m: Message)
    ensures Sum(Rates(r + [m])) == Sum(Rates(r)) + m.sendRate
  {
    SumSnoc(Rates(r), m.sendRate);
    assert Rates(r + [m]) == Rates(r) + [m.sendRate];
  }

  lemma Reassociate<T>(r: seq<T>, m: T, more: seq<T>)
    ensures (r + [m]) + more == r + ([m] + more)
  {
  }

  method EmptyOutbox(box: seq<Message>, now: int, arrival: int)
      returns (kept: seq<Message>, gone: seq<Message>, next: int)
    ensures kept == Staying(box) && gone == Leaving(box, arrival) && next == NextInBox(box, now, arrival)
  {
    kept, gone, next := [], [], TS_NEVER;
    for j := 0 to |box|
      invariant kept + Staying(box[j..]) == Staying(box)
      invariant gone + Leaving(box[j..], arrival) == Leaving(box, arrival)
      invariant next <= TS_NEVER
      invariant NextInBox(box, now, arrival) == Earlier(next, NextInBox(box[j..], now, arrival))
    {
      var m := box[j];
      assert box[j..][0] == m && box[j..][1..] == box[j + 1..];
      if m.recv >= m.size {
        Reassociate(gone, Arrived(m, arrival), Leaving(box[j + 1..], arrival));
        gone := gone + [Arrived(m, arrival)];
        if arrival < next { next := arrival; }
      } else {
        Reassociate(kept, m, Staying(box[j + 1..]));
        kept := kept + [m];
        if NextLook(m, now) < next { next := NextLook(m, now); }
      }
    }
  }

  function Earlier(t: int, u: int): int {
    if u < t then u else t
  }

  lemma AllOrderly(nifs: seq<Iface>, now: int)
    requires AllCountedUp(nifs, now)
    ensures Orderly(nifs)
  {
    forall nif | nif in nifs ensures OrderlyBox(nif) {
      var i :| 0 <= i < |nifs| && nifs[i] == nif;
      assert BoxCountedUp(nifs[i], now);
    }
  }

  lemma AllAreServed(nifs: seq<Iface>, bandwidth: real, now: int)
    requires bandwidth >= 0.0 && AllCountedUp(nifs, now)
    ensures AllServed(AllottedAll(nifs, bandwidth), now)
  {
    AllOrderly(nifs, now);
    forall i | 0 <= i < |nifs| ensures BoxAllotted(AllottedAll(nifs, bandwidth)[i], now) {
      PrefixIsGreedy(nifs, i, bandwidth);
      assert BoxCountedUp(nifs[i], now) && OrderlyBox(nifs[i]);
      AllottedMember(nifs[i].outbox, nifs[i].sendRate, bandwidth, UsedBy(nifs, i, bandwidth), now);
    }
  }

  lemma EventIsNotPast(nifs: seq<Iface>, now: int, arrival: int)
    requires AllServed(nifs, now)
    requires now <= arrival && now <= TS_NEVER
    ensures now <= NextEvent(nifs, now, arrival)
  {
    if nifs != [] {
      assert BoxAllotted(nifs[|nifs| - 1], now);
      NextIsNotPast(nifs[|nifs| - 1].outbox, now, arrival);
      EventIsNotPast(nifs[..|nifs| - 1], now, arrival);
    }
  }

  lemma GivenOut(nifs: seq<Iface>, bandwidth: real, now: int)
    requires bandwidth >= 0.0 && AllCountedUp(nifs, now)
    ensures AllServed(AllottedAll(nifs, bandwidth), now)
    ensures UsedBy(nifs, |nifs|, bandwidth) == Min(bandwidth, Wanted(AllAsks(nifs, |nifs|)))
  {
    AllAreServed(nifs, bandwidth, now);
    AllOrderly(nifs, now);
    AllotmentIsGreedy(nifs, bandwidth);
  }

  /** A network announces an event only for a message that is waited for: no commit is asked for in vain,
      or early. */
  lemma {:induction false} EventHasReason(nifs: seq<Iface>, now: int, arrival: int)
    requires AllServed(nifs, now)
    ensures var event := NextEvent(nifs, now, arrival);
            event < TS_NEVER ==>
              exists i :: 0 <= i < |nifs| && exists m <- nifs[i].outbox :: Awaited(m, now, arrival, event)
  {
    if nifs != [] {
      var n := |nifs| - 1;
      assert BoxAllotted(nifs[n], now);
      EventHasReason(nifs[..n], now, arrival);
      NextHasReason(nifs[n].outbox, now, arrival);
      assert forall i :: 0 <= i < n ==> nifs[..n][i] == nifs[i];
    }
  }

  lemma DeliveryInAccount(nifs: seq<Iface>, now: int, arrival: int, event: int)
    requires AllServed(nifs, now)
    requires now <= event && forall i :: 0 <= i < |nifs| ==> event <= NextInBox(nifs[i].outbox, now, arrival)
    ensures InAccount(StayingAll(nifs), now, event)
    ensures AllComplete(LeavingAll(nifs, arrival))
  {
    forall i | 0 <= i < |nifs| ensures BoxInAccount(StayingAll(nifs)[i], now, event) {
      assert BoxAllotted(nifs[i], now);
      StayingInAccount(nifs[i].outbox, now, arrival, event);
    }
    if nifs != [] {
      assert BoxAllotted(nifs[|nifs| - 1], now);
      DeliveryInAccount(nifs[..|nifs| - 1], now, arrival, event);
      StayingInAccount(nifs[|nifs| - 1].outbox, now, arrival, event);
      var gone := Leaving(nifs[|nifs| - 1].outbox, arrival);
      assert forall i :: 0 <= i < |gone| ==> gone[i] in gone;
    }
  }

  /** What a commit comes to, once the bandwidth is given out. */
  lemma CommitOutcome(served: seq<Iface>, now: int, arrival: int, before: seq<Message>)
    requires now <= arrival && now <= TS_NEVER && AllServed(served, now) && AllComplete(before)
    ensures var event := NextEvent(served, now, arrival);
            && now <= event && InAccount(StayingAll(served), now, event)
            && AllComplete(before + LeavingAll(served, arrival))
  {
    EventIsNotPast(served, now, arrival);
    NextEventIsEarliest(served, now, arrival);
    DeliveryInAccount(served, now, arrival, NextEvent(served, now, arrival));
    CompleteAppends(before, LeavingAll(served, arrival));
  }

  // ----- the object ------------------------------------------------------------------

  class Network {
    const bandwidth: real
    const latency: real
    var nifs: seq<Iface>
    var bandwidthUsed: real
    var bufferUsed: real
    /** Messages put in the inboxes, in order. */
    var arrived: seq<Message>
    var clock: int
    var nextEvent: int

    ghost predicate Valid()
      reads this
    {
      && bandwidth >= 0.0 && latency >= 0.0 && bufferUsed == 0.0
      && clock <= nextEvent <= TS_NEVER
      && InAccount(nifs, clock, nextEvent)
      && AllComplete(arrived)
    }

    constructor (bandwidth: real, latency: real, rates: seq<real>)
      requires bandwidth >= 0.0 && latency >= 0.0
      requires forall i :: 0 <= i < |rates| ==> rates[i] > 0.0
      ensures Valid() && arrived == [] && this.bandwidth == bandwidth && this.latency == latency
      ensures |nifs| == |rates| && forall i :: 0 <= i < |rates| ==> nifs[i] == Iface(rates[i], 0.0, [])
      ensures clock == 0 && nextEvent == TS_NEVER
    {
      this.bandwidth, this.latency := bandwidth, latency;
      nifs := seq(|rates|, i requires 0 <= i < |rates| => Iface(rates[i], 0.0, []));
      bandwidthUsed, bufferUsed, arrived := 0.0, 0.0, [];
      clock, nextEvent := 0, TS_NEVER;
    }

    /** A new message, put on top of an outbox. Nothing of it has been sent. */
    method Submit(i: nat, size: real, now: int)
      requires Valid() && i < |nifs| && size >= 0.0 && clock <= now <= nextEvent
      modifies this`nifs, this`clock
      ensures Valid() && clock == now
      ensures |nifs| == |old(nifs)| && forall k :: 0 <= k < |nifs| && k != i ==> nifs[k] == old(nifs)[k]
      ensures var m := Message(size, 0.0, 0.0, 0.0, 0.0, 0.0, now, NoState, -1);
              nifs[i] == old(nifs)[i].(outbox := [m] + old(nifs)[i].outbox)
    {
      var m := Message(size, 0.0, 0.0, 0.0, 0.0, 0.0, now, NoState, -1);
      assert BoxInAccount(nifs[i], clock, nextEvent);
      nifs := nifs[i := nifs[i].(outbox := [m] + nifs[i].outbox)];
      clock := now;
    }

    /** The byte counters of all messages are brought up to now. */
    method CountBytes(now: int)
      requires Valid() && clock <= now <= nextEvent
      modifies this`nifs
      ensures nifs == CountedAll(old(nifs), now)
      ensures AllCountedUp(nifs, now)
    {
      ghost var was := nifs;
      for i := 0 to |nifs|
        invariant |nifs| == |was|
        invariant forall k :: 0 <= k < |was| ==> nifs[k] == if k < i then Counting(was[k], now) else was[k]
      {
        var box := CountOutbox(nifs[i].outbox, now);
        nifs := nifs[i := nifs[i].(outbox := box)];
      }
      forall i | 0 <= i < |nifs| ensures BoxCountedUp(nifs[i], now) {
        assert BoxInAccount(was[i], clock, nextEvent);
        forall m | m in nifs[i].outbox ensures CountedUp(m, now) {
          var j :| 0 <= j < |nifs[i].outbox| && nifs[i].outbox[j] == m;
          assert was[i].outbox[j] in was[i].outbox;
          CountingKeepsAccount(was[i].outbox[j], now, nextEvent);
        }
      }
    }

    /** The bandwidth is given out. */
    method Allocate(ghost now: int)
      requires bandwidth >= 0.0 && AllCountedUp(nifs, now)
      modifies this`nifs, this`bandwidthUsed
      ensures nifs == AllottedAll(old(nifs), bandwidth)
      ensures bandwidthUsed == Min(bandwidth, Wanted(AllAsks(old(nifs), |old(nifs)|)))
      ensures AllServed(nifs, now)
    {
      ghost var was, served := nifs, AllottedAll(nifs, bandwidth);
      assert forall k :: 0 <= k < |was| ==> OrderlyBox(was[k]) by { AllOrderly(was, now); }
      bandwidthUsed := 0.0;
      for i := 0 to |nifs|
        invariant |nifs| == |was| && forall k :: 0 <= k < |was| ==> nifs[k] == if k < i then served[k] else was[k]
        invariant 0.0 <= bandwidthUsed == UsedBy(was, i, bandwidth) <= bandwidth
      {
        var nif := nifs[i];
        assert nif == was[i] && OrderlyBox(was[i]);
        var box, used, boxUsed := AllotOutbox(nif.outbox, nif.sendRate, bandwidth, bandwidthUsed);
        assert box == BoxAfter(was, i, bandwidth);
        nifs := nifs[i := Iface(nif.sendRate, boxUsed, box)];
        bandwidthUsed := used;
      }
      assert nifs == served;
      GivenOut(was, bandwidth, now);
    }

    /** Complete messages leave for the inboxes, as far as the accounts go (what becomes of the links
        is another matter); the earliest event of all is returned. */
    method Deliver(now: int, arrival: int) returns (rv: int)
      modifies this`nifs, this`arrived
      ensures nifs == StayingAll(old(nifs)) && arrived == old(arrived) + LeavingAll(old(nifs), arrival)
      ensures rv == NextEvent(old(nifs), now, arrival)
    {
      ghost var was := nifs;
      rv := TS_NEVER;
      for i := 0 to |nifs|
        invariant |nifs| == |was|
        invariant forall k :: 0 <= k < |was| ==> nifs[k] == if k < i then Clearing(was[k]) else was[k]
        invariant arrived == old(arrived) + LeavingAll(was[..i], arrival)
        invariant rv == NextEvent(was[..i], now, arrival)
      {
        var kept, gone, next := EmptyOutbox(nifs[i].outbox, now, arrival);
        assert was[..i + 1][..i] == was[..i];
        assert old(arrived) + LeavingAll(was[..i], arrival) + gone ==
            old(arrived) + (LeavingAll(was[..i], arrival) + gone);
        nifs := nifs[i := nifs[i].(outbox := kept)];
        arrived := arrived + gone;
        if next < rv { rv := next; }
      }
      assert was[..|was|] == was;
    }

    /** The first two steps of a commit. */
    method Serve(now: int) returns (ghost counted: seq<Iface>)
      requires Valid() && clock <= now <= nextEvent
      modifies this`nifs, this`bandwidthUsed
      ensures counted == CountedAll(old(nifs), now) && nifs == AllottedAll(counted, bandwidth)
      ensures bandwidthUsed == Min(bandwidth, Wanted(AllAsks(counted, |counted|)))
      ensures AllServed(nifs, now)
    {
      CountBytes(now);
      counted := nifs;
      Allocate(now);
    }

    /** The last step, with its event. */
    method Settle(now: int, arrival: int) returns (rv: int)
      requires bandwidth >= 0.0 && latency >= 0.0 && bufferUsed == 0.0
      requires now <= arrival && now <= TS_NEVER && AllServed(nifs, now) && AllComplete(arrived)
      modifies this`nifs, this`arrived, this`clock, this`nextEvent
      ensures Valid() && clock == now && nextEvent == rv == NextEvent(old(nifs), now, arrival)
      ensures nifs == StayingAll(old(nifs)) && arrived == old(arrived) + LeavingAll(old(nifs), arrival)
    {
      CommitOutcome(nifs, now, arrival, arrived);
      rv := Deliver(now, arrival);
      clock, nextEvent := now, rv;
    }

    /** The whole commit. Called no later than the event it last announced, it keeps every message
        in account: nothing is sent that a message does not hold, and what arrives is complete. */
    method Commit(now: int) returns (rv: int, arrival: int, ghost counted: seq<Iface>, served: seq<Iface>)
      requires Valid() && clock <= now <= nextEvent
      modifies this`nifs, this`bandwidthUsed, this`arrived, this`clock, this`nextEvent
      ensures Valid() && clock == now && nextEvent == rv
      ensures counted == CountedAll(old(nifs), now) && served == AllottedAll(counted, bandwidth)
      ensures bandwidthUsed == Min(bandwidth, Wanted(AllAsks(counted, |counted|)))
      ensures arrival == now + Ceil(latency) && latency <= (arrival - now) as real < latency + 1.0
      ensures nifs == StayingAll(served) && arrived == old(arrived) + LeavingAll(served, arrival)
      ensures rv == NextEvent(served, now, arrival)
    {
      counted := Serve(now);
      served := nifs;
      arrival := now + Ceil(latency);
      CeilIsEnough(latency);
      rv := Settle(now, arrival);
    }
  }

  // ----- two messages ----------------------------------------------------------------

  /** A message under way. */
  function Partly(size: real, sent: real, rate: real, lastUpdate: int): Message {
    Message(size, sent, sent, 0.0, rate, 0.0, lastUpdate, Sending, -1)
  }

  function Fresh(size: real, now: int): Message {
    Message(size, 0.0, 0.0, 0.0, 0.0, 0.0, now, NoState, -1)
  }

  /** What a commit makes of a single outbox of a network with bandwidth enough for it. */
  lemma OneOutbox(nif: Iface, now: int, arrival: int)
    ensures var served := AllottedAll(CountedAll([nif], now), 10.0);
            && |served| == 1 && served[0].sendRate == nif.sendRate
            && served[0].outbox == AllottedBox(CountedBox(nif.outbox, now), nif.sendRate, 10.0, 0.0)
            && |StayingAll(served)| == 1 && StayingAll(served)[0].sendRate == nif.sendRate
            && StayingAll(served)[0].outbox == Staying(served[0].outbox)
            && NextEvent(served, now, arrival) == Earlier(TS_NEVER, NextInBox(served[0].outbox, now, arrival))
  {
    var counted := CountedAll([nif], now);
    assert counted[0] == Counting(nif, now);
    assert UsedBy(counted, 0, 10.0) == 0.0;
    var served := AllottedAll(counted, 10.0);
    assert served[..0] == [] && NextEvent([], now, arrival) == TS_NEVER;
  }

  /** One message alone, and one under another, brought up to now and served. */
  lemma OneServed(m: Message, now: int)
    ensures var c := Counted(m, now);
            AllottedBox(CountedBox([m], now), 1.0, 10.0, 0.0) == [Allotted(c, 1.0, 10.0, 0.0)]
  {
    assert CountedBox([m], now) == [Counted(m, now)];
    assert [Counted(m, now)][1..] == [];
  }

  lemma TwoServed(m: Message, n: Message, now: int)
    ensures var c, d := Counted(m, now), Counted(n, now);
            var first := Allotted(c, 1.0, 10.0, 0.0);
            AllottedBox(CountedBox([m, n], now), 1.0, 10.0, 0.0) == [first, Allotted(d, 1.0, 10.0, first.sendRate)]
  {
    var c, d := Counted(m, now), Counted(n, now);
    assert CountedBox([m, n], now) == [c, d];
    assert [c, d][1..] == [d] && [d][1..] == [];
  }

  lemma TwoStay(m: Message, n: Message, now: int, arrival: int)
    requires m.recv < m.size && n.recv < n.size
    ensures Staying([m, n]) == [m, n] && Staying([m]) == [m]
    ensures NextInBox([m], now, arrival) == Earlier(TS_NEVER, NextLook(m, now))
    ensures NextInBox([m, n], now, arrival) == Earlier(Earlier(TS_NEVER, NextLook(n, now)), NextLook(m, now))
  {
    assert [m, n][1..] == [n] && [n][1..] == [] && [m][1..] == [];
    assert [n] + Staying([]) == [n] && [m] + Staying([]) == [m] && [m] + [n] == [m, n];
    assert Staying([n]) == [n] && Staying([m]) == [m];
  }

  lemma ThirdStays(m: Message, n: Message, now: int, arrival: int)
    requires m.recv < m.size && n.recv >= n.size
    ensures Staying([m, n]) == [m]
    ensures NextInBox([m, n], now, arrival) == Earlier(Earlier(TS_NEVER, arrival), NextLook(m, now))
  {
    assert [m, n][1..] == [n] && [n][1..] == [];
    assert Staying([n]) == [] && [m] + [] == [m];
    assert NextInBox([n], now, arrival) == Earlier(TS_NEVER, arrival);
  }

  /** The outbox of a network with one interface, wide enough, and slow to deliver. */
  ghost predicate Holds(net: Network, box: seq<Message>, clock: int, event: int)
    reads net
  {
    && net.Valid() && net.bandwidth == 10.0 && net.latency == 5.0 && net.clock == clock && net.nextEvent == event
    && |net.nifs| == 1 && net.nifs[0].sendRate == 1.0 && net.nifs[0].outbox == box
  }

  method CommitOne(net: Network, now: int, ghost box: seq<Message>, ghost event: int)
    returns (ghost served: seq<Message>, arrival: int)
    requires net.clock <= now <= event && Holds(net, box, net.clock, event)
    modifies net
    ensures served == AllottedBox(CountedBox(box, now), 1.0, 10.0, 0.0) && arrival == now + 5
    ensures Holds(net, Staying(served), now, Earlier(TS_NEVER, NextInBox(served, now, now + 5)))
  {
    OneOutbox(net.nifs[0], now, now + 5);
    assert net.nifs == [net.nifs[0]];
    ghost var counted;
    var rv, all;
    rv, arrival, counted, all := net.Commit(now);
    served := all[0].outbox;
  }

  method SubmitOne(net: Network, size: real, now: int, ghost box: seq<Message>, ghost event: int)
    requires net.clock <= now <= event && Holds(net, box, net.clock, event) && size >= 0.0
    modifies net
    ensures Holds(net, [Fresh(size, now)] + box, now, event)
  {
    net.Submit(0, size, now);
  }

  lemma FirstCommit()
    ensures var served := AllottedBox(CountedBox([Fresh(3.0, 0)], 0), 1.0, 10.0, 0.0);
            served == [Partly(3.0, 0.0, 1.0, 0)] == Staying(served) && Earlier(TS_NEVER, NextInBox(served, 0, 5)) == 3
  {
    var older := Partly(3.0, 0.0, 1.0, 0);
    OneServed(Fresh(3.0, 0), 0);
    TwoStay(older, older, 0, 5);
  }

  lemma SecondCommit()
    ensures var served := AllottedBox(CountedBox([Fresh(4.5, 2), Partly(3.0, 0.0, 1.0, 0)], 2), 1.0, 10.0, 0.0);
            served == [Partly(4.5, 0.0, 1.0, 2), Partly(3.0, 2.0, 1.0, 2)] == Staying(served)
            && Earlier(TS_NEVER, NextInBox(served, 2, 7)) == 3
  {
    TwoServed(Fresh(4.5, 2), Partly(3.0, 0.0, 1.0, 0), 2);
    TwoStay(Partly(4.5, 0.0, 1.0, 2), Partly(3.0, 2.0, 1.0, 2), 2, 7);
  }

  lemma ThirdCommit()
    ensures var box := [Partly(4.5, 0.0, 1.0, 2), Partly(3.0, 2.0, 1.0, 2)];
            var served := AllottedBox(CountedBox(box, 3), 1.0, 10.0, 0.0);
            served == [Partly(4.5, 1.0, 1.0, 3), Partly(3.0, 3.0, 0.0, 3)]
            && Staying(served) == [Partly(4.5, 1.0, 1.0, 3)] && Earlier(TS_NEVER, NextInBox(served, 3, 8)) == 6
  {
    TwoServed(Partly(4.5, 0.0, 1.0, 2), Partly(3.0, 2.0, 1.0, 2), 3);
    ThirdStays(Partly(4.5, 1.0, 1.0, 3), Partly(3.0, 3.0, 0.0, 3), 3, 8);
  }

  lemma FourthCommit()
    ensures AllottedBox(CountedBox([Partly(4.5, 1.0, 1.0, 3)], 6), 1.0, 10.0, 0.0) == [Partly(4.5, 4.0, 0.5, 6)]
  {
    OneServed(Partly(4.5, 1.0, 1.0, 3), 6);
  }

  /** Two messages sent two seconds apart, with bandwidth enough for both. At the third commit the
      older is complete, under the newer that is not. It is to arrive at 8; but the network's next
      event is at 6, and then the newer one is not complete yet. */
  method OlderFinishesUnderNewer() returns (ghost third: seq<Message>, ghost fourth: seq<Message>, arrival: int)
    ensures third == [Partly(4.5, 1.0, 1.0, 3), Partly(3.0, 3.0, 0.0, 3)] && arrival == 8
    ensures fourth == [Partly(4.5, 4.0, 0.5, 6)]
  {
    var net := new Network(10.0, 5.0, [1.0]);
    assert Holds(net, [], 0, TS_NEVER) by { assert net.nifs[0] == Iface(1.0, 0.0, []); }
    SubmitOne(net, 3.0, 0, [], TS_NEVER);
    assert [Fresh(3.0, 0)] + [] == [Fresh(3.0, 0)];
    FirstCommit();
    third, arrival := CommitOne(net, 0, [Fresh(3.0, 0)], TS_NEVER);
    ghost var older := Partly(3.0, 0.0, 1.0, 0);
    SubmitOne(net, 4.5, 2, [older], 3);
    assert [Fresh(4.5, 2)] + [older] == [Fresh(4.5, 2), older];
    SecondCommit();
    third, arrival := CommitOne(net, 2, [Fresh(4.5, 2), older], 3);
    ThirdCommit();
    third, arrival := CommitOne(net, 3, [Partly(4.5, 0.0, 1.0, 2), Partly(3.0, 2.0, 1.0, 2)], 3);
    FourthCommit();
    var later;
    fourth, later := CommitOne(net, 6, [Partly(4.5, 1.0, 1.0, 3)], 6);
  }
}
