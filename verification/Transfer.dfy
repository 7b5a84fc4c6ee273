/** Sharing the bandwidth of a simulated network and counting the bytes: network::commit in
    comm/network.cpp, in the REJECT mode. */
module Transfer {

  const TS_NEVER: int := 2147483647

  datatype MessageState = NoState | Sending | Delivered | Rejected | Delayed

  datatype Message = Message(size: real, sent: real, recv: real, buffered: real, sendRate: real, bufferRate: real,
                             lastUpdate: int, state: MessageState, endTime: int)

  function Min(x: real, y: real): real {
    if x <= y then x else y
  }

  function Left(m: Message): real {
    m.size - m.sent
  }

  // ----- one message -----------------------------------------------------------------

  function Counted(m: Message, now: int): Message {
    var dt := (now - m.lastUpdate) as real;
    m.(sent := m.sent + m.sendRate * dt, buffered := m.buffered + m.bufferRate * dt,
       recv := m.recv + m.sendRate * dt, lastUpdate := now)
  }

  /** The rate a message gets when `used` of the bandwidth has been given away. `net_bw_used` is
      zero throughout, so the test for being out of bandwidth is a test for having none at all. */
  function Allotted(m: Message, ifaceRate: real, bandwidth: real, used: real): Message {
    var m1 :=
      if bandwidth - used > ifaceRate then m.(sendRate := ifaceRate, bufferRate := 0.0, state := Sending)
      else if bandwidth == 0.0 then
        m.(sendRate := 0.0, bufferRate := 0.0, state := if m.sent > 0.0 then Delayed else Rejected)
      else m.(sendRate := bandwidth - used, bufferRate := 0.0, state := Sending);
    if Left(m1) < m1.sendRate + m1.bufferRate then
      if Left(m1) < m1.sendRate then m1.(sendRate := Left(m1), bufferRate := 0.0)
      else m1.(bufferRate := Left(m1) - m1.sendRate)
    else m1
  }

  /** When a message that is under way has to be looked at again. */
  function NextLook(m: Message, now: int): int {
    if m.sendRate > 0.0 then
      var predicted := (m.size - m.recv) / m.sendRate;
      if predicted < 1.0 then now + 1 else predicted.Floor + now
    else TS_NEVER
  }

  // ----- an outbox and the whole network ---------------------------------------------

  datatype Iface = Iface(sendRate: real, bandwidthUsed: real, outbox: seq<Message>)

  function CountedBox(box: seq<Message>, now: int): (r: seq<Message>)
    ensures |r| == |box| && forall j {:trigger r[j]} :: 0 <= j < |box| ==> r[j] == Counted(box[j], now)
  {
    seq(|box|, j requires 0 <= j < |box| => Counted(box[j], now))
  }

  function AllottedBox(box: seq<Message>, rate: real, bandwidth: real, used: real): (r: seq<Message>)
    ensures |r| == |box|
  {
    if box == [] then []
    else
      var m := Allotted(box[0], rate, bandwidth, used);
      [m] + AllottedBox(box[1..], rate, bandwidth, used + m.sendRate)
  }

  function Rates(box: seq<Message>): seq<real> {
    seq(|box|, j requires 0 <= j < |box| => box[j].sendRate)
  }

  function Sum(xs: seq<real>): real {
    if xs == [] then 0.0 else xs[0] + Sum(xs[1..])
  }

  /** What stays in an outbox, what leaves it, and when it has to be looked at again. */
  function Staying(box: seq<Message>): seq<Message> {
    if box == [] then []
    else (if box[0].recv >= box[0].size then [] else [box[0]]) + Staying(box[1..])
  }

  function Arrived(m: Message, arrival: int): Message {
    m.(state := Delivered, endTime := arrival)
  }

  function Leaving(box: seq<Message>, arrival: int): seq<Message> {
    if box == [] then []
    else (if box[0].recv >= box[0].size then [Arrived(box[0], arrival)] else []) + Leaving(box[1..], arrival)
  }

  /** The earliest thing to happen to the messages of an outbox. */
  function NextInBox(box: seq<Message>, now: int, arrival: int): (t: int)
    ensures t <= TS_NEVER
  {
    if box == [] then TS_NEVER
    else
      var t := NextInBox(box[1..], now, arrival);
      var u := if box[0].recv >= box[0].size then arrival else NextLook(box[0], now);
      if u < t then u else t
  }

  function Ceil(x: real): int {
    -((-x).Floor)
  }

  /** Whole seconds, as few as are enough. */
  lemma CeilIsEnough(x: real)
    ensures x <= Ceil(x) as real < x + 1.0
  {
  }

  // ----- the greedy fill -------------------------------------------------------------

  /** What a message could use: its interface's rate, and the bytes it has left. */
  datatype Ask = Ask(rate: real, left: real)

  /** The reference: each in turn gets all it can use of the room that is left. */
  function Greedy(asks: seq<Ask>, room: real): (r: seq<real>)
    ensures |r| == |asks|
  {
    if asks == [] then []
    else
      var g := Min(Min(asks[0].rate, asks[0].left), room);
      [g] + Greedy(asks[1..], room - g)
  }

  function Wanted(asks: seq<Ask>): real {
    if asks == [] then 0.0 else Min(asks[0].rate, asks[0].left) + Wanted(asks[1..])
  }

  ghost predicate Sensible(asks: seq<Ask>) {
    forall a <- asks :: a.rate >= 0.0 && a.left >= 0.0
  }

  /** The fill uses all the room there is, or meets every demand: nothing is wasted. */
  lemma {:induction false} GreedyFills(asks: seq<Ask>, room: real)
    requires Sensible(asks) && room >= 0.0
    ensures Sum(Greedy(asks, room)) == Min(room, Wanted(asks))
    ensures forall g <- Greedy(asks, room) :: g >= 0.0
  {
    if asks != [] {
      var g := Min(Min(asks[0].rate, asks[0].left), room);
      assert Sensible(asks[1..]);
      GreedyFills(asks[1..], room - g);
      WantedNonNegative(asks[1..]);
      assert Greedy(asks, room)[1..] == Greedy(asks[1..], room - g);
    }
  }

  lemma WantedNonNegative(asks: seq<Ask>)
    requires Sensible(asks)
    ensures Wanted(asks) >= 0.0
  {
    if asks != [] {
      assert Sensible(asks[1..]);
      WantedNonNegative(asks[1..]);
    }
  }

  function AsksOf(box: seq<Message>, rate: real): seq<Ask> {
    seq(|box|, j requires 0 <= j < |box| => Ask(rate, Left(box[j])))
  }

  /** One message is served as the reference serves it. */
  lemma AllottedIsGreedy(m: Message, rate: real, bandwidth: real, used: real)
    requires rate >= 0.0 && Left(m) >= 0.0 && used <= bandwidth && bandwidth >= 0.0
    requires bandwidth == 0.0 ==> used == 0.0
    ensures var r := Allotted(m, rate, bandwidth, used);
            && r.sendRate == Min(Min(rate, Left(m)), bandwidth - used) && r.bufferRate == 0.0
            && r == m.(sendRate := r.sendRate, bufferRate := 0.0, state := r.state)
            && r.state == (if bandwidth > 0.0 then Sending else if m.sent > 0.0 then Delayed else Rejected)
  {
  }

  /** So a network whose bandwidth is positive, as its initialization demands, rejects nothing:
      every message is marked as being sent, also one that is given no bandwidth at all. */
  lemma {:induction false} NeverRejects(box: seq<Message>, rate: real, bandwidth: real, used: real)
    requires bandwidth > 0.0
    ensures forall m <- AllottedBox(box, rate, bandwidth, used) :: m.state == Sending
    decreases |box|
  {
    if box != [] { NeverRejects(box[1..], rate, bandwidth, used + Allotted(box[0], rate, bandwidth, used).sendRate); }
  }

  ghost predicate RoomFor(box: seq<Message>, rate: real, bandwidth: real, used: real) {
    && rate >= 0.0 && 0.0 <= used <= bandwidth
    && forall m <- box :: Left(m) >= 0.0
  }

  lemma {:induction false} BoxIsGreedy(box: seq<Message>, rate: real, bandwidth: real, used: real)
    requires RoomFor(box, rate, bandwidth, used)
    ensures Rates(AllottedBox(box, rate, bandwidth, used)) == Greedy(AsksOf(box, rate), bandwidth - used)
  {
    if box != [] {
      var m := Allotted(box[0], rate, bandwidth, used);
      AllottedIsGreedy(box[0], rate, bandwidth, used);
      BoxIsGreedy(box[1..], rate, bandwidth, used + m.sendRate);
      var rest := AllottedBox(box[1..], rate, bandwidth, used + m.sendRate);
      assert AsksOf(box, rate) == [Ask(rate, Left(box[0]))] + AsksOf(box[1..], rate);
      assert Rates([m] + rest) == [m.sendRate] + Rates(rest);
    }
  }

  lemma {:induction false} GreedyAppends(a: seq<Ask>, b: seq<Ask>, room: real)
    ensures Greedy(a + b, room) == Greedy(a, room) + Greedy(b, room - Sum(Greedy(a, room)))
  {
    if a == [] {
      assert a + b == b;
    } else {
      var g := Min(Min(a[0].rate, a[0].left), room);
      var rest := Greedy(a[1..], room - g);
      var tail := Greedy(b, room - Sum(Greedy(a, room)));
      assert (a + b)[0] == a[0] && (a + b)[1..] == a[1..] + b;
      GreedyAppends(a[1..], b, room - g);
      SumCons(g, rest);
      assert Greedy(a, room) == [g] + rest;
      assert [g] + (rest + tail) == ([g] + rest) + tail;
    }
  }

  lemma SumCons(g: real, rest: seq<real>)
    ensures Sum([g] + rest) == g + Sum(rest)
  {
    assert ([g] + rest)[1..] == rest;
  }

  /** What one outbox is given leaves the rest of the bandwidth to the others. */
  lemma BoxLeavesRoom(box: seq<Message>, rate: real, bandwidth: real, used: real)
    requires RoomFor(box, rate, bandwidth, used)
    ensures 0.0 <= Sum(Rates(AllottedBox(box, rate, bandwidth, used))) <= bandwidth - used
  {
    BoxIsGreedy(box, rate, bandwidth, used);
    var asks := AsksOf(box, rate);
    assert forall j :: 0 <= j < |box| ==> box[j] in box;
    GreedyFills(asks, bandwidth - used);
    WantedNonNegative(asks);
  }

  ghost predicate OrderlyBox(nif: Iface) {
    nif.sendRate >= 0.0 && forall m <- nif.outbox :: Left(m) >= 0.0
  }

  ghost predicate Orderly(nifs: seq<Iface>) {
    forall nif <- nifs :: OrderlyBox(nif)
  }

  /** What the outboxes of the first `n` interfaces ask for, and what they are given. */
  function AllAsks(nifs: seq<Iface>, n: nat): seq<Ask>
    requires n <= |nifs|
  {
    if n == 0 then [] else AllAsks(nifs, n - 1) + AsksOf(nifs[n - 1].outbox, nifs[n - 1].sendRate)
  }

  function AllRates(nifs: seq<Iface>, n: nat): seq<real>
    requires n <= |nifs|
  {
    if n == 0 then [] else AllRates(nifs, n - 1) + Rates(nifs[n - 1].outbox)
  }

  /** The bandwidth used by the first `n` interfaces, and the interface after its turn. */
  function UsedBy(nifs: seq<Iface>, n: nat, bandwidth: real): real
    requires n <= |nifs|
    decreases n, 0
  {
    if n == 0 then 0.0 else UsedBy(nifs, n - 1, bandwidth) + Sum(Rates(BoxAfter(nifs, n - 1, bandwidth)))
  }

  function BoxAfter(nifs: seq<Iface>, i: nat, bandwidth: real): seq<Message>
    requires i < |nifs|
    decreases i, 1
  {
    AllottedBox(nifs[i].outbox, nifs[i].sendRate, bandwidth, UsedBy(nifs, i, bandwidth))
  }

  function AllottedAll(nifs: seq<Iface>, bandwidth: real): (r: seq<Iface>)
    ensures |r| == |nifs|
    ensures forall i {:trigger r[i]} :: 0 <= i < |nifs| ==>
              r[i] == Iface(nifs[i].sendRate, Sum(Rates(BoxAfter(nifs, i, bandwidth))), BoxAfter(nifs, i, bandwidth))
  {
    seq(|nifs|, i requires 0 <= i < |nifs| =>
      Iface(nifs[i].sendRate, Sum(Rates(BoxAfter(nifs, i, bandwidth))), BoxAfter(nifs, i, bandwidth)))
  }

  lemma SumAppends(a: seq<real>, b: seq<real>)
    ensures Sum(a + b) == Sum(a) + Sum(b)
  {
    if a == [] { assert a + b == b; }
    else {
      assert (a + b)[1..] == a[1..] + b;
      SumAppends(a[1..], b);
    }
  }

  lemma {:induction false} PrefixIsGreedy(nifs: seq<Iface>, n: nat, bandwidth: real)
    requires n <= |nifs| && bandwidth >= 0.0 && Orderly(nifs)
    ensures AllRates(AllottedAll(nifs, bandwidth), n) == Greedy(AllAsks(nifs, n), bandwidth)
    ensures UsedBy(nifs, n, bandwidth) == Sum(AllRates(AllottedAll(nifs, bandwidth), n))
    ensures 0.0 <= UsedBy(nifs, n, bandwidth) <= bandwidth
  {
    if n > 0 {
      var nif, used, box := nifs[n - 1], UsedBy(nifs, n - 1, bandwidth), BoxAfter(nifs, n - 1, bandwidth);
      var asks := AsksOf(nif.outbox, nif.sendRate);
      PrefixIsGreedy(nifs, n - 1, bandwidth);
      assert OrderlyBox(nif);
      assert Rates(box) == Greedy(asks, bandwidth - used) by { BoxIsGreedy(nif.outbox, nif.sendRate, bandwidth, used); }
      assert 0.0 <= Sum(Rates(box)) <= bandwidth - used by { BoxLeavesRoom(nif.outbox, nif.sendRate, bandwidth, used); }
      GreedyAppends(AllAsks(nifs, n - 1), asks, bandwidth);
      SumAppends(AllRates(AllottedAll(nifs, bandwidth), n - 1), Rates(box));
    }
  }

  /** The law of the allocation: the nested loops of the program are one greedy fill, and the
      rates add up to the bandwidth or to all that could be used, whichever is less. */
  lemma AllotmentIsGreedy(nifs: seq<Iface>, bandwidth: real)
    requires bandwidth >= 0.0 && Orderly(nifs)
    ensures var rates, asks := AllRates(AllottedAll(nifs, bandwidth), |nifs|), AllAsks(nifs, |nifs|);
            && rates == Greedy(asks, bandwidth)
            && UsedBy(nifs, |nifs|, bandwidth) == Sum(rates) == Min(bandwidth, Wanted(asks))
  {
    PrefixIsGreedy(nifs, |nifs|, bandwidth);
    AsksAreSensible(nifs, |nifs|);
    GreedyFills(AllAsks(nifs, |nifs|), bandwidth);
  }

  lemma AsksAreSensible(nifs: seq<Iface>, n: nat)
    requires n <= |nifs| && Orderly(nifs)
    ensures Sensible(AllAsks(nifs, n))
  {
    if n > 0 {
      AsksAreSensible(nifs, n - 1);
      assert OrderlyBox(nifs[n - 1]);
    }
  }

  // ----- byte accounting -------------------------------------------------------------

  /** What is sent is received, never more than the message holds; nothing is buffered; and at
      the present rate the message does not run over before the next event. */
  ghost predicate Accounted(m: Message, event: int) {
    && 0.0 <= m.sent == m.recv <= m.size
    && m.buffered == 0.0 && m.bufferRate == 0.0
    && m.sendRate >= 0.0
    && (m.sendRate > 0.0 ==> m.lastUpdate <= event && m.sendRate * (event - m.lastUpdate) as real <= Left(m))
  }

  /** A message counted up to now, and not yet given a new rate. */
  ghost predicate CountedUp(m: Message, now: int) {
    && 0.0 <= m.sent == m.recv <= m.size
    && m.buffered == 0.0 && m.lastUpdate == now
  }

  /** Counting the bytes up to any moment no later than the event keeps the account. */
  lemma CountingKeepsAccount(m: Message, now: int, event: int)
    requires Accounted(m, event) && m.lastUpdate <= now <= event
    ensures CountedUp(Counted(m, now), now) && m.sent <= Counted(m, now).sent && Counted(m, now).size == m.size
  {
    if m.sendRate > 0.0 {
      var dt, span := (now - m.lastUpdate) as real, (event - m.lastUpdate) as real;
      assert m.sendRate * dt <= m.sendRate * span;
    }
  }

  /** The event predicted for a message at its new rate comes before it runs over. */
  lemma LookInTime(m: Message, now: int, event: int)
    requires 0.0 <= m.sendRate <= Left(m) && m.sent == m.recv && event <= NextLook(m, now)
    ensures m.sendRate > 0.0 ==> now < NextLook(m, now) && m.sendRate * (event - now) as real <= Left(m)
  {
    if m.sendRate > 0.0 {
      var predicted := Left(m) / m.sendRate;
      assert predicted * m.sendRate == Left(m);
      assert predicted >= 1.0;
      var steps := predicted.Floor;
      assert (event - now) as real <= steps as real <= predicted;
      assert m.sendRate * (event - now) as real <= m.sendRate * predicted;
    }
  }

  /** A message is waited for: it has arrived, or it is under way and would run over one second after
      the event. */
  predicate Awaited(m: Message, now: int, arrival: int, event: int) {
    if m.recv >= m.size then event == arrival
    else m.sendRate > 0.0 && m.sendRate * (event + 1 - now) as real > Left(m)
  }

  /** The event predicted for a message is the last it can be left to; one that gets no bandwidth is
      not waited for. */
  lemma LookIsLatest(m: Message, now: int, arrival: int)
    requires 0.0 <= m.sendRate <= Left(m) && m.sent == m.recv < m.size
    ensures m.sendRate == 0.0 ==> NextLook(m, now) == 2147483647
    ensures m.sendRate > 0.0 ==> Awaited(m, now, arrival, NextLook(m, now))
  {
    if m.sendRate > 0.0 {
      var predicted := Left(m) / m.sendRate;
      assert predicted * m.sendRate == Left(m);
      assert predicted >= 1.0;
      var steps := (predicted.Floor + 1) as real;
      assert steps > predicted;
      assert m.sendRate * steps > m.sendRate * predicted;
    }
  }

  /** An outbox announces an event only for a message that is waited for. */
  lemma {:induction false} NextHasReason(box: seq<Message>, now: int, arrival: int)
    requires forall m <- box :: CountedUp(m, now) && 0.0 <= m.sendRate <= Left(m)
    ensures var event := NextInBox(box, now, arrival);
            event < TS_NEVER ==> exists m <- box :: Awaited(m, now, arrival, event)
  {
    if box != [] {
      assert box[0] in box;
      NextHasReason(box[1..], now, arrival);
      if box[0].recv < box[0].size { LookIsLatest(box[0], now, arrival); }
    }
  }

  // ----- the effect of one commit on one message, over an outbox ---------------------

  lemma {:induction false} AllottedMember(box: seq<Message>, rate: real, bandwidth: real, used: real, now: int)
    requires RoomFor(box, rate, bandwidth, used)
    requires forall m <- box :: CountedUp(m, now)
    ensures forall m <- AllottedBox(box, rate, bandwidth, used) ::
              CountedUp(m, now) && m.bufferRate == 0.0 && 0.0 <= m.sendRate <= Left(m)
  {
    if box != [] {
      assert box[0] in box;
      AllottedIsGreedy(box[0], rate, bandwidth, used);
      AllottedMember(box[1..], rate, bandwidth, used + Allotted(box[0], rate, bandwidth, used).sendRate, now);
    }
  }

  lemma {:induction false} StayingInAccount(box: seq<Message>, now: int, arrival: int, event: int)
    requires forall m <- box :: CountedUp(m, now) && m.bufferRate == 0.0 && 0.0 <= m.sendRate <= Left(m)
    requires now <= event <= NextInBox(box, now, arrival)
    ensures forall m <- Staying(box) :: Accounted(m, event) && m.lastUpdate == now
    ensures forall m <- Leaving(box, arrival) ::
              m.state == Delivered && m.sent == m.recv == m.size && m.endTime == arrival
    ensures |Staying(box)| + |Leaving(box, arrival)| == |box|
  {
    if box != [] {
      assert box[0] in box;
      StayingInAccount(box[1..], now, arrival, event);
      if box[0].recv < box[0].size { LookInTime(box[0], now, event); }
    }
  }

  lemma {:induction false} NextIsNotPast(box: seq<Message>, now: int, arrival: int)
    requires forall m <- box :: CountedUp(m, now) && 0.0 <= m.sendRate <= Left(m)
    requires now <= arrival && now <= TS_NEVER
    ensures now <= NextInBox(box, now, arrival)
  {
    if box != [] {
      assert box[0] in box;
      NextIsNotPast(box[1..], now, arrival);
      LookInTime(box[0], now, NextLook(box[0], now));
    }
  }
}
