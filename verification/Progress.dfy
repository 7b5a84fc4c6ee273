/** How much is sent between two commits, and when a message is through. */
module Progress {
  import opened Transfer
  import opened Network
  import L = LinkedNetwork

  // ----- one outbox ------------------------------------------------------------------

  /** All that has been sent of the messages of an outbox, all that has been received, and the rate. */
  function BoxSent(box: seq<Message>): real {
    if box == [] then 0.0 else box[0].sent + BoxSent(box[1..])
  }

  function BoxReceived(box: seq<Message>): real {
    if box == [] then 0.0 else box[0].recv + BoxReceived(box[1..])
  }

  function BoxRate(box: seq<Message>): (r: real)
    ensures r == Sum(Rates(box))
  {
    if box == [] then 0.0
    else
      assert Rates(box)[1..] == Rates(box[1..]);
      box[0].sendRate + BoxRate(box[1..])
  }

  /** What is under way was last counted at `since`. */
  predicate Paced(box: seq<Message>, since: int) {
    forall m <- box :: m.lastUpdate == since || m.sendRate == 0.0
  }

  lemma Scaled(r: real, more: real, dt: real)
    ensures (r + more) * dt == r * dt + more * dt
  {
  }

  lemma CountedMoves(m: Message, since: int, now: int)
    requires m.lastUpdate == since || m.sendRate == 0.0
    ensures var more := m.sendRate * (now - since) as real;
            Counted(m, now).sent == m.sent + more && Counted(m, now).recv == m.recv + more
  {
  }

  /** What the messages of an outbox move in a time. */
  function BoxMoves(box: seq<Message>, dt: real): real {
    if box == [] then 0.0 else box[0].sendRate * dt + BoxMoves(box[1..], dt)
  }

  lemma {:induction false} MovesAtRate(box: seq<Message>, dt: real)
    ensures BoxMoves(box, dt) == BoxRate(box) * dt
  {
    if box != [] {
      MovesAtRate(box[1..], dt);
      Scaled(box[0].sendRate, BoxRate(box[1..]), dt);
    }
  }

  lemma {:induction false} BoxCounted(box: seq<Message>, since: int, now: int)
    requires Paced(box, since)
    ensures var later, dt := CountedBox(box, now), (now - since) as real;
            && BoxSent(later) == BoxSent(box) + BoxMoves(box, dt)
            && BoxReceived(later) == BoxReceived(box) + BoxMoves(box, dt)
  {
    if box != [] {
      var later := CountedBox(box, now);
      assert box[0] in box && Paced(box[1..], since);
      BoxCounted(box[1..], since, now);
      assert CountedBox(box[1..], now) == later[1..];
      CountedMoves(box[0], since, now);
    }
  }

  // ----- a network -------------------------------------------------------------------

  function TotalSent(nifs: seq<Iface>): real {
    if nifs == [] then 0.0 else TotalSent(nifs[..|nifs| - 1]) + BoxSent(nifs[|nifs| - 1].outbox)
  }

  function TotalReceived(nifs: seq<Iface>): real {
    if nifs == [] then 0.0 else TotalReceived(nifs[..|nifs| - 1]) + BoxReceived(nifs[|nifs| - 1].outbox)
  }

  function TotalRate(nifs: seq<Iface>): real {
    if nifs == [] then 0.0 else TotalRate(nifs[..|nifs| - 1]) + BoxRate(nifs[|nifs| - 1].outbox)
  }

  ghost predicate AllPaced(nifs: seq<Iface>, since: int) {
    forall i :: 0 <= i < |nifs| ==> Paced(nifs[i].outbox, since)
  }

  function TotalMoves(nifs: seq<Iface>, dt: real): real {
    if nifs == [] then 0.0 else TotalMoves(nifs[..|nifs| - 1], dt) + BoxMoves(nifs[|nifs| - 1].outbox, dt)
  }

  lemma {:induction false} TotalMovesAtRate(nifs: seq<Iface>, dt: real)
    ensures TotalMoves(nifs, dt) == TotalRate(nifs) * dt
    decreases |nifs|
  {
    if nifs != [] {
      var n := |nifs| - 1;
      TotalMovesAtRate(nifs[..n], dt);
      MovesAtRate(nifs[n].outbox, dt);
      Scaled(TotalRate(nifs[..n]), BoxRate(nifs[n].outbox), dt);
    }
  }

  lemma {:induction false} AllCounted(nifs: seq<Iface>, since: int, now: int)
    requires AllPaced(nifs, since)
    ensures var later, dt := CountedAll(nifs, now), (now - since) as real;
            && TotalSent(later) == TotalSent(nifs) + TotalMoves(nifs, dt)
            && TotalReceived(later) == TotalReceived(nifs) + TotalMoves(nifs, dt)
    decreases |nifs|
  {
    if nifs != [] {
      var n, later := |nifs| - 1, CountedAll(nifs, now);
      AllCounted(nifs[..n], since, now);
      BoxCounted(nifs[n].outbox, since, now);
      assert CountedAll(nifs[..n], now) == later[..n] && later[n] == Counting(nifs[n], now);
    }
  }

  lemma NetworkSends(nifs: seq<Iface>, since: int, now: int, dt: real) returns (rate: real, bytes: real)
    requires AllPaced(nifs, since) && dt == (now - since) as real
    ensures rate == TotalRate(nifs) && bytes == rate * dt
    ensures TotalSent(CountedAll(nifs, now)) == TotalSent(nifs) + bytes
    ensures TotalReceived(CountedAll(nifs, now)) == TotalReceived(nifs) + bytes
  {
    rate, bytes := TotalRate(nifs), TotalMoves(nifs, dt);
    assert bytes == rate * dt by { TotalMovesAtRate(nifs, dt); }
    AllCounted(nifs, since, now);
  }

  /** The rates of all outboxes add up to what the allotment has used. */
  lemma {:induction false} RateIsUsed(nifs: seq<Iface>, n: nat, bandwidth: real)
    requires n <= |nifs|
    ensures TotalRate(AllottedAll(nifs, bandwidth)[..n]) == UsedBy(nifs, n, bandwidth)
  {
    if n > 0 {
      var served := AllottedAll(nifs, bandwidth);
      RateIsUsed(nifs, n - 1, bandwidth);
      assert served[..n][..n - 1] == served[..n - 1];
    }
  }

  /** Complete messages have no rate, so without them the rates add up to as much. */
  lemma {:induction false} StayingRate(box: seq<Message>)
    requires forall m <- box :: 0.0 <= m.sendRate <= Left(m) && m.sent == m.recv <= m.size
    ensures BoxRate(Staying(box)) == BoxRate(box)
  {
    if box != [] {
      assert box[0] in box && forall m <- box[1..] :: m in box;
      StayingRate(box[1..]);
      assert ([box[0]] + Staying(box[1..]))[1..] == Staying(box[1..]);
      assert [] + Staying(box[1..]) == Staying(box[1..]);
    }
  }

  lemma {:induction false} AllStayingRate(served: seq<Iface>, now: int)
    requires AllServed(served, now)
    ensures TotalRate(StayingAll(served)) == TotalRate(served) && AllPaced(StayingAll(served), now)
    decreases |served|
  {
    forall i | 0 <= i < |served| ensures Paced(StayingAll(served)[i].outbox, now) {
      assert BoxAllotted(served[i], now);
      StayingAreThere(served[i].outbox);
    }
    if served != [] {
      var n := |served| - 1;
      assert AllServed(served[..n], now) by {
        forall i | 0 <= i < n ensures BoxAllotted(served[..n][i], now) { assert BoxAllotted(served[i], now); }
      }
      AllStayingRate(served[..n], now);
      assert BoxAllotted(served[n], now);
      StayingRate(served[n].outbox);
      assert StayingAll(served[..n]) == StayingAll(served)[..n];
    }
  }

  lemma StayingAreThere(box: seq<Message>)
    ensures forall m <- Staying(box) :: m in box
  {
  }

  // ----- between two commits ---------------------------------------------------------

  /** The sums over a network, with another outbox of the same sums for one of its interfaces. */
  lemma {:induction false} TotalsSame(nifs: seq<Iface>, i: nat, nif: Iface)
    requires i < |nifs| && BoxSent(nif.outbox) == BoxSent(nifs[i].outbox)
    requires BoxReceived(nif.outbox) == BoxReceived(nifs[i].outbox) && BoxRate(nif.outbox) == BoxRate(nifs[i].outbox)
    ensures TotalSent(nifs[i := nif]) == TotalSent(nifs)
    ensures TotalReceived(nifs[i := nif]) == TotalReceived(nifs)
    ensures TotalRate(nifs[i := nif]) == TotalRate(nifs)
    decreases |nifs|
  {
    var n := |nifs| - 1;
    if i == n { assert nifs[i := nif][..n] == nifs[..n]; }
    else {
      TotalsSame(nifs[..n], i, nif);
      assert nifs[i := nif][..n] == nifs[..n][i := nif];
    }
  }

  /** New messages have sent nothing yet. */
  lemma {:induction false} SendsAddNothing(b: L.Books, bandwidth: real, latency: real, sends: seq<L.Event>, since: int)
    requires AllPaced(b.nifs, since) && forall e <- sends :: e.Send?
    ensures var nifs := L.AfterAll(b, bandwidth, latency, sends).nifs;
            && AllPaced(nifs, since) && TotalSent(nifs) == TotalSent(b.nifs)
            && TotalReceived(nifs) == TotalReceived(b.nifs) && TotalRate(nifs) == TotalRate(b.nifs)
    decreases |sends|
  {
    if sends != [] {
      var n := |sends| - 1;
      var e, before := sends[n], L.AfterAll(b, bandwidth, latency, sends[..n]).nifs;
      SendsAddNothing(b, bandwidth, latency, sends[..n], since);
      assert e.Send?;
      if e.i < |before| {
        var grown := L.Grown(before[e.i], e.size, e.now);
        assert grown.outbox[1..] == before[e.i].outbox;
        assert Paced(before[e.i].outbox, since);
        TotalsSame(before, e.i, grown);
      }
    }
  }

  /** What a commit gives out. */
  lemma CommitRate(nifs: seq<Iface>, bandwidth: real, now: int)
    requires bandwidth >= 0.0 && AllCountedUp(nifs, now)
    ensures var after := StayingAll(AllottedAll(nifs, bandwidth));
            && AllPaced(after, now)
            && TotalRate(after) == Min(bandwidth, Wanted(AllAsks(nifs, |nifs|)))
  {
    var served := AllottedAll(nifs, bandwidth);
    AllOrderly(nifs, now);
    AllAreServed(nifs, bandwidth, now);
    AllStayingRate(served, now);
    RateIsUsed(nifs, |nifs|, bandwidth);
    assert served[..|nifs|] == served;
    AllotmentIsGreedy(nifs, bandwidth);
  }

  /** From one commit to the next, whatever messages are sent in between, as much is sent and received as
      the bandwidth or the demand at the first commit, whichever is less, times the time between. */
  lemma BytesBetweenCommits(b: L.Books, bandwidth: real, latency: real, since: int, sends: seq<L.Event>, now: int,
                            first: L.Books, last: L.Books, dt: real) returns (rate: real, bytes: real)
    requires bandwidth >= 0.0 && AllCountedUp(CountedAll(b.nifs, since), since) && forall e <- sends :: e.Send?
    requires first == L.After(b, bandwidth, latency, L.Commit(since))
    requires last == L.AfterAll(first, bandwidth, latency, sends) && dt == (now - since) as real
    ensures rate == Min(bandwidth, Wanted(AllAsks(CountedAll(b.nifs, since), |b.nifs|)))
    ensures bytes == rate * dt
    ensures TotalSent(CountedAll(last.nifs, now)) == TotalSent(first.nifs) + bytes
    ensures TotalReceived(CountedAll(last.nifs, now)) == TotalReceived(first.nifs) + bytes
  {
    CommitRate(CountedAll(b.nifs, since), bandwidth, since);
    SendsAddNothing(first, bandwidth, latency, sends, since);
    rate, bytes := NetworkSends(last.nifs, since, now, dt);
  }

  // ----- a message alone -------------------------------------------------------------

  /** The only message in the network. */
  ghost predicate Alone(nifs: seq<Iface>, i: nat, m: Message) {
    i < |nifs| && forall k :: 0 <= k < |nifs| ==> nifs[k].outbox == if k == i then [m] else []
  }

  ghost predicate AllEmpty(nifs: seq<Iface>) {
    forall k :: 0 <= k < |nifs| ==> nifs[k].outbox == []
  }

  lemma {:induction false} NoneUsed(nifs: seq<Iface>, n: nat, bandwidth: real)
    requires n <= |nifs| && forall k :: 0 <= k < n ==> nifs[k].outbox == []
    ensures UsedBy(nifs, n, bandwidth) == 0.0
  {
    if n > 0 {
      NoneUsed(nifs, n - 1, bandwidth);
      assert BoxAfter(nifs, n - 1, bandwidth) == [] && Rates([]) == [];
    }
  }

  /** It gets the least of its interface's rate, the bandwidth, and what is left of it. */
  lemma AloneServed(nifs: seq<Iface>, i: nat, m: Message, now: int, bandwidth: real)
    requires Alone(nifs, i, m)
    ensures var served := AllottedAll(CountedAll(nifs, now), bandwidth);
            && Alone(served, i, Allotted(Counted(m, now), nifs[i].sendRate, bandwidth, 0.0))
            && forall k :: 0 <= k < |nifs| ==> served[k].sendRate == nifs[k].sendRate
  {
    var counted := CountedAll(nifs, now);
    var served := AllottedAll(counted, bandwidth);
    forall k | 0 <= k < |nifs|
      ensures served[k].outbox == if k == i then [Allotted(Counted(m, now), nifs[i].sendRate, bandwidth, 0.0)] else []
    {
      assert counted[k] == Counting(nifs[k], now);
      if k == i {
        NoneUsed(counted, i, bandwidth) by { assert forall j :: 0 <= j < i ==> counted[j].outbox == []; }
        assert CountedBox([m], now) == [Counted(m, now)] && [Counted(m, now)][1..] == [];
      }
    }
  }

  lemma {:induction false} NothingNext(nifs: seq<Iface>, now: int, arrival: int)
    requires AllEmpty(nifs)
    ensures NextEvent(nifs, now, arrival) == TS_NEVER
    decreases |nifs|
  {
    if nifs != [] { NothingNext(nifs[..|nifs| - 1], now, arrival); }
  }

  lemma {:induction false} AloneNext(nifs: seq<Iface>, i: nat, m: Message, now: int, arrival: int)
    requires Alone(nifs, i, m)
    ensures NextEvent(nifs, now, arrival) ==
        Earlier(TS_NEVER, if m.recv >= m.size then arrival else NextLook(m, now))
    decreases |nifs|
  {
    var n := |nifs| - 1;
    assert [m][1..] == [];
    if i == n { NothingNext(nifs[..n], now, arrival); }
    else { AloneNext(nifs[..n], i, m, now, arrival); }
  }

  lemma {:induction false} AloneLeaves(nifs: seq<Iface>, i: nat, m: Message, arrival: int)
    requires Alone(nifs, i, m)
    ensures LeavingAll(nifs, arrival) == if m.recv >= m.size then [Arrived(m, arrival)] else []
    decreases |nifs|
  {
    var n := |nifs| - 1;
    assert [m][1..] == [];
    var gone := Leaving([m], arrival);
    assert Leaving([], arrival) == [] && [Arrived(m, arrival)] + [] == [Arrived(m, arrival)];
    assert gone == if m.recv >= m.size then [Arrived(m, arrival)] else [];
    assert [] + gone == gone && gone + [] == gone;
    if i == n { NothingLeaves(nifs[..n], arrival); }
    else { AloneLeaves(nifs[..n], i, m, arrival); }
  }

  lemma {:induction false} NothingLeaves(nifs: seq<Iface>, arrival: int)
    requires AllEmpty(nifs)
    ensures LeavingAll(nifs, arrival) == []
    decreases |nifs|
  {
    if nifs != [] { NothingLeaves(nifs[..|nifs| - 1], arrival); }
  }

  /** The network after a commit that gives the message alone in it a new rate. */
  ghost predicate Settled(nifs: seq<Iface>, i: nat, m: Message, arrived: seq<Message>, before: seq<Message>,
                          event: int, now: int, arrival: int) {
    if m.recv >= m.size then
      AllEmpty(nifs) && arrived == before + [Arrived(m, arrival)] && event == Earlier(TS_NEVER, arrival)
    else
      Alone(nifs, i, m) && arrived == before && event == Earlier(TS_NEVER, NextLook(m, now))
  }

  lemma AloneSettles(served: seq<Iface>, i: nat, m: Message, before: seq<Message>, now: int, arrival: int)
    requires Alone(served, i, m)
    ensures Settled(StayingAll(served), i, m, before + LeavingAll(served, arrival), before,
                    NextEvent(served, now, arrival), now, arrival)
  {
    AloneNext(served, i, m, now, arrival);
    AloneLeaves(served, i, m, arrival);
    assert [m][1..] == [] && [m] + Staying([]) == [m] && [] + Staying([]) == [] && before + [] == before;
    assert Staying([m]) == if m.recv >= m.size then [] else [m];
  }

  /** A commit of a network with one message in it. */
  method CommitAlone(net: Network, i: nat, ghost m: Message, now: int) returns (ghost next: Message, arrival: int)
    requires net.Valid() && net.clock <= now <= net.nextEvent && Alone(net.nifs, i, m)
    modifies net
    ensures net.Valid() && net.clock == now && i < |net.nifs| == |old(net.nifs)|
    ensures net.nifs[i].sendRate == old(net.nifs)[i].sendRate
    ensures next == Allotted(Counted(m, now), old(net.nifs)[i].sendRate, net.bandwidth, 0.0)
    ensures arrival == now + Ceil(net.latency)
    ensures Settled(net.nifs, i, next, net.arrived, old(net.arrived), net.nextEvent, now, arrival)
  {
    AloneServed(net.nifs, i, m, now, net.bandwidth);
    next := Allotted(Counted(m, now), net.nifs[i].sendRate, net.bandwidth, 0.0);
    ghost var before, counted := net.arrived, [];
    var rv, served;
    rv, arrival, counted, served := net.Commit(now);
    AloneSettles(served, i, next, before, now, arrival);
  }

  // ----- the time it takes -----------------------------------------------------------

  /** What a message under way alone is at a commit: so much of it is left, at the least of what is
      left and a rate. */
  ghost predicate UnderWay(m: Message, size: real, left: real, rate: real, now: int) {
    && m.size == size && m.sent == m.recv == size - left && 0.0 <= left <= size
    && m.sendRate == Min(rate, left) && m.lastUpdate == now && m.buffered == 0.0 && m.bufferRate == 0.0
  }

  /** The seconds until it is looked at again, and what is left then. */
  function Seconds(left: real, rate: real): int
    requires rate > 0.0
  {
    if left < rate then 1 else (left / rate).Floor
  }

  function LeftThen(left: real, rate: real): real
    requires rate > 0.0
  {
    if left < rate then 0.0 else left - rate * Seconds(left, rate) as real
  }

  lemma Positive(x: real, r: real)
    requires x > 0.0 && r > 0.0
    ensures x * r > 0.0
  {
  }

  /** A positive factor keeps the order. */
  lemma Times(x: real, y: real, r: real)
    requires r > 0.0
    ensures x < y <==> x * r < y * r
  {
    assert (y - x) * r == y * r - x * r;
    if x < y { Positive(y - x, r); }
    if y < x { Positive(x - y, r); }
  }

  lemma Quotient(left: real, rate: real)
    requires 0.0 <= left && 0.0 < rate
    ensures (left / rate) * rate == left && 0.0 <= left / rate
    ensures left > 0.0 ==> left / rate > 0.0
    ensures left < rate <==> left / rate < 1.0
  {
    var q := left / rate;
    Times(q, 1.0, rate);
    Times(q, 0.0, rate);
    Times(0.0, q, rate);
  }

  lemma WholeSeconds(left: real, rate: real)
    requires 0.0 < rate <= left
    ensures 1 <= Seconds(left, rate) && 0.0 <= LeftThen(left, rate) < rate
    ensures LeftThen(left, rate) == 0.0 <==> left / rate == Seconds(left, rate) as real
  {
    var q, n := left / rate, Seconds(left, rate) as real;
    Quotient(left, rate);
    Times(q, n, rate);
    Times(n, q, rate);
    Times(q, n + 1.0, rate);
    assert n <= q < n + 1.0 && (n + 1.0) * rate == n * rate + rate;
  }

  lemma Looks(m: Message, size: real, left: real, rate: real, now: int)
    requires UnderWay(m, size, left, rate, now) && 0.0 < left && 0.0 < rate
    ensures NextLook(m, now) == now + Seconds(left, rate) && Seconds(left, rate) >= 1
    ensures 0.0 <= LeftThen(left, rate) < rate
  {
    Quotient(left, rate);
    if left < rate { assert left / left == 1.0; } else { WholeSeconds(left, rate); }
  }

  /** At that time so much less is left. */
  lemma OneMoreLook(m: Message, size: real, left: real, rate: real, ifaceRate: real, bandwidth: real, now: int)
    requires UnderWay(m, size, left, rate, now) && 0.0 < left && 0.0 < rate == Min(ifaceRate, bandwidth)
    ensures var later := now + Seconds(left, rate);
            UnderWay(Allotted(Counted(m, later), ifaceRate, bandwidth, 0.0), size, LeftThen(left, rate), rate, later)
  {
    Looks(m, size, left, rate, now);
    var later, dt := now + Seconds(left, rate), Seconds(left, rate) as real;
    var c := Counted(m, later);
    assert c.sent == c.recv == size - LeftThen(left, rate) by {
      assert later - m.lastUpdate == Seconds(left, rate);
    }
    AllottedIsGreedy(c, ifaceRate, bandwidth, 0.0);
  }

  /** Where a message sent at `start` is after a number of commits. */
  predicate Phase(commits: nat, size: real, left: real, rate: real, start: int, clock: int)
    requires rate > 0.0
  {
    match commits
    case 1 => left == size && clock == start
    case 2 => size > 0.0 && left == LeftThen(size, rate) && clock == start + Seconds(size, rate)
    case 3 =>
      && size > 0.0 && left == 0.0 && LeftThen(size, rate) > 0.0 && clock == start + Seconds(size, rate) + 1
    case _ => false
  }

  lemma NextPhase(commits: nat, size: real, left: real, rate: real, start: int, clock: int)
    requires rate > 0.0 && size >= 0.0 && Phase(commits, size, left, rate, start, clock) && left > 0.0
    ensures commits < 3 && Phase(commits + 1, size, LeftThen(left, rate), rate, start, clock + Seconds(left, rate))
    ensures clock + Seconds(left, rate) <= start + Ceil(size / rate)
  {
    Quotient(size, rate);
    if size >= rate { WholeSeconds(size, rate); }
  }

  /** When nothing is left, as many seconds have passed as its size takes at the rate, rounded up. */
  lemma LastPhase(commits: nat, size: real, rate: real, start: int, clock: int)
    requires rate > 0.0 && size >= 0.0 && Phase(commits, size, 0.0, rate, start, clock)
    ensures clock == start + Ceil(size / rate)
  {
    Quotient(size, rate);
    if size >= rate { WholeSeconds(size, rate); }
  }

  method SubmitAlone(net: Network, i: nat, size: real, now: int) returns (ghost m: Message)
    requires net.Valid() && net.clock <= now <= net.nextEvent && AllEmpty(net.nifs)
    requires i < |net.nifs| && net.nifs[i].sendRate > 0.0 && net.bandwidth > 0.0 && size >= 0.0
    modifies net
    ensures net.Valid() && net.clock == now && net.nextEvent == old(net.nextEvent) && net.arrived == old(net.arrived)
    ensures i < |net.nifs| && net.nifs[i].sendRate == old(net.nifs)[i].sendRate && Alone(net.nifs, i, m)
    ensures var rate := Min(net.nifs[i].sendRate, net.bandwidth);
            UnderWay(Allotted(Counted(m, now), net.nifs[i].sendRate, net.bandwidth, 0.0), size, size, rate, now)
  {
    net.Submit(i, size, now);
    m := net.nifs[i].outbox[0];
    assert [m] + [] == [m] && Counted(m, now) == m;
    AllottedIsGreedy(m, net.nifs[i].sendRate, net.bandwidth, 0.0);
  }

  /** The commit at the announced event. */
  method LookAlone(net: Network, i: nat, ghost m: Message, ghost size: real, ghost left: real, ghost rate: real)
    returns (ghost next: Message, arrival: int)
    requires net.Valid() && Alone(net.nifs, i, m) && net.nextEvent == Earlier(TS_NEVER, NextLook(m, net.clock))
    requires rate == Min(net.nifs[i].sendRate, net.bandwidth) && 0.0 < rate && 0.0 < left
    requires UnderWay(m, size, left, rate, net.clock) && net.clock + Seconds(left, rate) <= TS_NEVER
    modifies net
    ensures net.Valid() && net.clock == old(net.clock) + Seconds(left, rate) && arrival == net.clock + Ceil(net.latency)
    ensures i < |net.nifs| && net.nifs[i].sendRate == old(net.nifs)[i].sendRate
    ensures UnderWay(next, size, LeftThen(left, rate), rate, net.clock)
    ensures Settled(net.nifs, i, next, net.arrived, old(net.arrived), net.nextEvent, net.clock, arrival)
  {
    Looks(m, size, left, rate, net.clock);
    OneMoreLook(m, size, left, rate, net.nifs[i].sendRate, net.bandwidth, net.clock);
    next, arrival := CommitAlone(net, i, m, net.nextEvent);
  }

  /** A message sent alone through a network of positive bandwidth, with commits at the announced
      events. It is through after as many seconds as its size takes at the lesser of the interface's
      rate and the bandwidth, rounded up; that takes three commits at most. It arrives when the latency,
      rounded up, has passed too. */
  method SendAlone(net: Network, i: nat, size: real, now: int) returns (commits: nat)
    requires net.Valid() && net.clock <= now <= net.nextEvent && AllEmpty(net.nifs)
    requires i < |net.nifs| && net.nifs[i].sendRate > 0.0 && net.bandwidth > 0.0 && size >= 0.0
    requires now + Ceil(size / Min(net.nifs[i].sendRate, net.bandwidth)) <= TS_NEVER
    modifies net
    ensures net.Valid() && AllEmpty(net.nifs)
    ensures net.clock == now + Ceil(size / Min(old(net.nifs)[i].sendRate, net.bandwidth))
    ensures exists m :: net.arrived == old(net.arrived) + [m]
                        && m.size == m.sent == m.recv == size && m.endTime == net.clock + Ceil(net.latency)
    ensures net.nextEvent == Earlier(TS_NEVER, net.clock + Ceil(net.latency))
    ensures 1 <= commits <= 3
  {
    ghost var rate, ifaceRate, before := Min(net.nifs[i].sendRate, net.bandwidth), net.nifs[i].sendRate, net.arrived;
    ghost var m := SubmitAlone(net, i, size, now);
    ghost var left := size;
    var arrival;
    m, arrival := CommitAlone(net, i, m, now);
    commits := 1;
    while net.nifs[i].outbox != []
      invariant net.Valid() && i < |net.nifs| && net.nifs[i].sendRate == ifaceRate
      invariant arrival == net.clock + Ceil(net.latency)
      invariant UnderWay(m, size, left, rate, net.clock) && Phase(commits, size, left, rate, now, net.clock)
      invariant Settled(net.nifs, i, m, net.arrived, before, net.nextEvent, net.clock, arrival)
      decreases 3 - commits
    {
      NextPhase(commits, size, left, rate, now, net.clock);
      m, arrival := LookAlone(net, i, m, size, left, rate);
      left := LeftThen(left, rate);
      commits := commits + 1;
    }
    LastPhase(commits, size, rate, now, net.clock);
  }
}
