/** Federates that remember the time they were last granted: helics_msg::clk_update in
    connection/helics_msg.cpp, called by clock_update in connection/init.cpp. */
module Federation {

  const TS_INVALID: int := -1

  datatype MessageType = General | Json

  /** A request that was answered with a time the federate took: the global clock and the last
      time granted when it asked, the time it asked for, and the time granted. */
  datatype Exchange = Exchange(clock: int, last: int, request: int, grant: int)

  /** A request that was for the publishing time, and whether there was publishing then. */
  datatype Publication = Publication(time: int, stop: int, sent: bool)

  /** The publishing times come one period after another, and this is the next. */
  ghost predicate OnSchedule(ps: seq<Publication>, start: int, period: int, next: int) {
    if ps == [] then next == start + period
    else
      var last := |ps| - 1;
      next == ps[last].time + period && OnSchedule(ps[..last], start, period, ps[last].time)
  }

  lemma OneMoreDue(ps: seq<Publication>, start: int, period: int, next: int, p: Publication)
    ensures OnSchedule(ps, start, period, next) && p.time == next ==> OnSchedule(ps + [p], start, period, next + period)
  {
    assert (ps + [p])[..|ps|] == ps;
  }

  /** What a federate asks for: no time beyond the stop time, until that has been reached. */
  function Request(clock: int, stop: int, t: int): int {
    if t > stop && clock < stop then stop else t
  }

  class Federate {
    const kind: MessageType
    const publishPeriod: nat
    var lastApproved: int
    var publishTime: int
    var exitDeltamode: bool

    /** The time it started from, and its exchanges since. */
    ghost const start: int
    ghost var log: seq<Exchange>
    /** How often it has asked, and its publications. */
    ghost var asked: nat
    ghost var publications: seq<Publication>

    /** JSON messages are published every three seconds if no period is given. */
    constructor (kind: MessageType, publishPeriod: nat, clock: nat)
      ensures this.kind == kind && start == lastApproved == clock && log == [] && Scheduled()
      ensures this.publishPeriod == if kind == Json && publishPeriod == 0 then 3 else publishPeriod
    {
      var period := if kind == Json && publishPeriod == 0 then 3 else publishPeriod;
      this.kind, this.publishPeriod, start := kind, period, clock;
      lastApproved, publishTime, exitDeltamode := clock, clock + period, false;
      log, asked, publications := [], 0, [];
    }

    /** Without a period, every time it asks is one to publish at; with one, the times are a period
        apart. JSON messages are not published at the stop time or later. */
    ghost predicate Scheduled()
      reads this
    {
      Planned() && (publishPeriod == 0 ==> |publications| == asked)
    }

    ghost predicate Planned()
      reads this
    {
      && (publishPeriod > 0 ==> OnSchedule(publications, start, publishPeriod, publishTime))
      && forall p <- publications :: p.sent <==> kind == General || p.time < p.stop
    }

    /** Is the federate going to ask for a time, when this one is proposed? */
    predicate Asks(clock: int, stop: int, t: int)
      reads this
    {
      t > lastApproved && clock != stop
    }

    /** Is the federate to publish first, and is it going to? */
    predicate Due(request: int)
      reads this
    {
      publishPeriod == 0 || request == publishTime
    }

    predicate Publishes(stop: int, request: int)
      reads this
    {
      Due(request) && (kind == Json ==> request < stop)
    }

    /** Publishes at a publishing time, and moves on to the next; false if that fails. */
    method PublishIfDue(t1: int, stop: int, published: bool) returns (ok: bool)
      modifies this`publishTime, this`publications
      ensures ok == !(old(Publishes(stop, t1)) && !published)
      ensures publishTime == (if 0 < publishPeriod && t1 == old(publishTime)
                              then old(publishTime) + publishPeriod else old(publishTime))
      ensures publications == old(publications) +
                (if old(Due(t1)) then [Publication(t1, stop, old(Publishes(stop, t1)))] else [])
      ensures old(Planned()) ==> Planned()
    {
      if kind == General {
        if publishPeriod == 0 || t1 == publishTime {
          OneMoreDue(publications, start, publishPeriod, publishTime, Publication(t1, stop, true));
          publications := publications + [Publication(t1, stop, true)];
          if publishPeriod > 0 { publishTime := t1 + publishPeriod; }
          if !published { return false; }
        }
      } else {
        if publishPeriod == 0 || t1 == publishTime {
          OneMoreDue(publications, start, publishPeriod, publishTime, Publication(t1, stop, t1 < stop));
          publications := publications + [Publication(t1, stop, t1 < stop)];
          if publishPeriod > 0 { publishTime := t1 + publishPeriod; }
          if t1 < stop {
            if !published { return false; }
          }
        }
      }
      return true;
    }

    /** The call. `published` is whether publishing succeeds, and `answer` the time the broker
        grants, if they come to it: any time. One after the global clock is taken, whatever was
        asked for and whatever was granted before. */
    method ClkUpdate(proposal: int, clock: int, stop: int, published: bool, answer: int) returns (r: int)
      modifies this
      ensures var asks, request := old(Asks(clock, stop, proposal)), Request(clock, stop, proposal);
              var fails := asks && ((old(Publishes(stop, request)) && !published) || answer <= clock);
              && r == (if !asks then proposal else if fails then TS_INVALID else answer)
              && lastApproved == (if asks && !fails then answer else old(lastApproved))
              && log == old(log)
                        + (if asks && !fails then [Exchange(clock, old(lastApproved), request, answer)] else [])
              && publishTime == (if asks && 0 < publishPeriod && request == old(publishTime)
                                 then old(publishTime) + publishPeriod else old(publishTime))
              && asked == (if asks then old(asked) + 1 else old(asked))
              && publications == old(publications) +
                   (if asks && old(Due(request))
                    then [Publication(request, stop, old(Publishes(stop, request)))] else [])
              && !exitDeltamode
      ensures old(Scheduled()) ==> Scheduled()
      ensures 0 < publishPeriod && old(publishTime <= lastApproved) &&
                RoomToRise(old(lastApproved), proposal, clock, stop) ==>
                publishTime == old(publishTime) && publications == old(publications)
    {
      var t1 := proposal;
      if exitDeltamode { exitDeltamode := false; }
      if t1 > lastApproved {
        if clock == stop {
          return t1;
        } else if t1 > stop && clock < stop {
          t1 := stop;
        }
        asked := asked + 1;
        var ok := PublishIfDue(t1, stop, published);
        if !ok { return TS_INVALID; }
        if answer <= clock {
          return TS_INVALID;
        } else {
          log := log + [Exchange(clock, lastApproved, t1, answer)];
          lastApproved := answer;
          t1 := answer;
        }
      }
      return t1;
    }
  }

  // ----- one negotiation -------------------------------------------------------------

  /** The federates on the list. */
  ghost predicate Registered(fs: seq<Federate>)
    reads fs
  {
    && (forall i, j :: 0 <= i < j < |fs| ==> fs[i] != fs[j])
    && (forall f <- fs :: f.lastApproved >= 0 && f.Scheduled())
  }

  /** No federate would ask for a time, so all leave this one alone. */
  ghost predicate AllAgree(fs: seq<Federate>, clock: int, stop: int, t: int)
    reads fs
  {
    forall f <- fs :: !f.Asks(clock, stop, t)
  }

  /** Is a request sure to be after the last grant? Not for a proposal past the stop time to a
      federate already granted the stop time: it asks for the stop time again. */
  predicate RoomToRise(last: int, proposal: int, clock: int, stop: int) {
    proposal <= stop || clock >= stop || last < stop
  }

  /** The exchange of a federate asked in a negotiation that has come to time `t`. The request is
      after the last grant exactly when there is room for that. */
  predicate Proper(e: Exchange, last: int, proposal: int, clock: int, stop: int, t: int) {
    && e.clock == clock && e.last == last && clock < e.grant && t <= e.grant
    && e.request <= proposal && (clock < stop ==> e.request <= stop) && (e.request == stop || t <= e.request)
    && (last < e.request <==> RoomToRise(last, proposal, clock, stop))
  }

  /** Asked for any time up to the proposal and after its last grant. */
  lemma ProperAsk(last: int, t: int, proposal: int, clock: int, stop: int, answer: int)
    requires last < t <= proposal && clock != stop && clock < answer && clock < t
    ensures Proper(Exchange(clock, last, Request(clock, stop, t), answer), last, proposal, clock, stop,
                   if answer < t then answer else t)
  {
  }

  /** What a federate remembered before a negotiation. */
  datatype Past = Past(last: int, log: seq<Exchange>, publishTime: int, publications: seq<Publication>)

  ghost function PastOf(f: Federate): Past
    reads f
  {
    Past(f.lastApproved, f.log, f.publishTime, f.publications)
  }

  /** A federate that has been granted a time later than its publishing time publishes no more. */
  ghost predicate Silent(f: Federate, past: Past)
    reads f
  {
    0 < f.publishPeriod && past.publishTime <= past.last ==>
      f.publishTime == past.publishTime && f.publications == past.publications
  }

  /** Since then it has not been asked, or once. */
  ghost predicate Stands(f: Federate, past: Past, asked: bool, proposal: int, clock: int, stop: int, t: int)
    reads f
  {
    (RoomToRise(past.last, proposal, clock, stop) ==> Silent(f, past)) &&
    if !asked then f.lastApproved == past.last && f.log == past.log
    else
      && |f.log| == |past.log| + 1 && f.log[..|past.log|] == past.log
      && var e := f.log[|past.log|];
         f.lastApproved == e.grant && Proper(e, past.last, proposal, clock, stop, t)
  }

  twostate predicate AskedAtMostOnce(f: Federate, proposal: int, clock: int, stop: int, t: int)
    reads f
  {
    var past := old(PastOf(f));
    Stands(f, past, false, proposal, clock, stop, t) || Stands(f, past, true, proposal, clock, stop, t)
  }

  ghost predicate AllStand(fs: seq<Federate>, was: map<Federate, Past>, unasked: set<Federate>,
                           proposal: int, clock: int, stop: int, t: int)
    reads fs
  {
    forall f <- fs :: f in was && Stands(f, was[f], f !in unasked, proposal, clock, stop, t)
  }

  /** One turn of the loop over the list: a federate that lowers the time is asked no more. */
  method AskNext(fs: seq<Federate>, i: nat, t: int, proposal: int, clock: nat, stop: int,
                 ghost was: map<Federate, Past>, ghost unasked: set<Federate>)
    returns (t1: int, ghost left: set<Federate>)
    requires Registered(fs) && i < |fs| && (t == TS_INVALID || clock < t <= proposal)
    requires AllStand(fs, was, unasked, proposal, clock, stop, t)
    modifies fs[i]
    ensures Registered(fs) && t1 <= t && (t1 == TS_INVALID || clock < t1)
    ensures AllStand(fs, was, left, proposal, clock, stop, t1) && left <= unasked
    ensures t1 == t ==> !fs[i].Asks(clock, stop, t)
    ensures t1 < t && t1 != TS_INVALID ==> left < unasked
    ensures clock == stop ==> t1 == t && left == unasked
  {
    var f, published, answer := fs[i], *, *;
    ghost var last := f.lastApproved;
    t1 := f.ClkUpdate(t, clock, stop, published, answer);
    left := unasked;
    if old(f.Asks(clock, stop, t)) && t1 != TS_INVALID {
      ProperAsk(last, t, proposal, clock, stop, answer);
      left := unasked - {f};
    }
    if t1 >= t { t1 := t; }
  }

  /** One pass over the list. */
  method AskAll(fs: seq<Federate>, t: int, proposal: int, clock: nat, stop: int,
                ghost was: map<Federate, Past>, ghost unasked: set<Federate>)
    returns (ok: bool, t1: int, ghost left: set<Federate>)
    requires Registered(fs) && (t == TS_INVALID || clock < t <= proposal)
    requires AllStand(fs, was, unasked, proposal, clock, stop, t)
    modifies fs
    ensures Registered(fs) && (t1 == TS_INVALID || clock < t1 <= t) && t1 <= t
    ensures AllStand(fs, was, left, proposal, clock, stop, t1) && left <= unasked
    ensures if ok then t1 == t && AllAgree(fs, clock, stop, t1) else t1 < t && (t1 == TS_INVALID || left < unasked)
    ensures clock == stop ==> t1 == t && left == unasked
  {
    ok, t1, left := true, t, unasked;
    for i := 0 to |fs|
      invariant Registered(fs) && (t1 == TS_INVALID || clock < t1 <= proposal)
      invariant AllStand(fs, was, left, proposal, clock, stop, t1) && left <= unasked
      invariant t1 <= t && (ok <==> t1 == t)
      invariant clock == stop ==> t1 == t && left == unasked
      invariant !ok ==> t1 == TS_INVALID || left < unasked
      invariant ok ==> forall k :: 0 <= k < i ==> !fs[k].Asks(clock, stop, t1)
    {
      var t2;
      t2, left := AskNext(fs, i, t1, proposal, clock, stop, was, left);
      if t2 < t1 {
        ok := false;
        t1 := t2;
      }
    }
  }

  /** The negotiation of clock_update over such federates, with a broker that may grant any time and
      publishing that may fail. It always ends: each pass that lowers the time uses up a federate.
      Unless one fails, the result is after the global clock and, but for the stop time, not after what
      any has been granted; none is asked twice. */
  method Negotiate(fs: seq<Federate>, proposal: int, clock: nat, stop: int) returns (t1: int)
    requires Registered(fs) && proposal > clock
    modifies fs
    ensures Registered(fs) && AllAgree(fs, clock, stop, t1)
    ensures t1 == TS_INVALID || clock < t1 <= proposal
    ensures clock != stop ==> forall f <- fs :: t1 <= f.lastApproved
    ensures forall f <- fs :: AskedAtMostOnce(f, proposal, clock, stop, t1)
    ensures clock == stop ==> t1 == proposal && forall f <- fs :: f.log == old(f.log)
  {
    t1 := proposal;
    var ok := false;
    ghost var was, unasked := map f | f in fs :: PastOf(f), set f | f in fs;
    while !ok
      invariant Registered(fs) && (t1 == TS_INVALID || clock < t1 <= proposal)
      invariant AllStand(fs, was, unasked, proposal, clock, stop, t1)
      invariant ok ==> AllAgree(fs, clock, stop, t1)
      invariant clock == stop ==> t1 == proposal && unasked == set f | f in fs
      decreases t1 != TS_INVALID, unasked, !ok
    {
      ok, t1, unasked := AskAll(fs, t1, proposal, clock, stop, was, unasked);
    }
  }

  // ----- runs of negotiations --------------------------------------------------------

  /** The exchange started from the grant of the one before it, asked for a later time, and was
      granted one after the global clock. */
  predicate Follows(log: seq<Exchange>, start: int, i: nat)
    requires i < |log|
  {
    && log[i].last == (if i == 0 then start else log[i - 1].grant)
    && log[i].last < log[i].request && log[i].clock < log[i].grant
  }

  ghost predicate History(log: seq<Exchange>, start: int, last: int) {
    && last == (if log == [] then start else log[|log| - 1].grant)
    && forall i :: 0 <= i < |log| ==> Follows(log, start, i)
  }

  ghost predicate Recorded(f: Federate)
    reads f
  {
    History(f.log, f.start, f.lastApproved)
  }

  lemma OneMoreExchange(log: seq<Exchange>, start: int, last: int, now: seq<Exchange>)
    requires History(log, start, last) && |now| == |log| + 1 && now[..|log|] == log
    requires now[|log|].last == last < now[|log|].request && now[|log|].clock < now[|log|].grant
    ensures History(now, start, now[|log|].grant)
  {
    forall i | 0 <= i < |now| ensures Follows(now, start, i) {
      if i < |log| { assert Follows(log, start, i) && now[i] == log[i]; }
      if i > 0 { assert now[i - 1] == log[i - 1]; }
    }
  }

  /** The broker never goes back, which is not tested. */
  ghost predicate NeverGoesBack(log: seq<Exchange>) {
    forall i :: 0 <= i < |log| ==> log[i].last < log[i].grant
  }

  /** It publishes no more, and its last grant is still later. */
  ghost predicate Quiet(f: Federate, past: Past)
    reads f
  {
    && Silent(f, past)
    && (0 < f.publishPeriod && past.publishTime <= past.last ==> f.publishTime <= f.lastApproved)
  }

  lemma BackBefore(a: seq<Exchange>, b: seq<Exchange>)
    requires a <= b
    ensures NeverGoesBack(b) ==> NeverGoesBack(a)
  {
  }

  /** A step of the simulation: the time proposed, the global clock and the stop time. */
  datatype Round = Round(proposal: int, clock: nat, stop: int)

  /** A run of negotiations, with arbitrary rounds of proposals up to the stop time, and an
      arbitrary broker. Every request of a federate is after the last time granted to it. */
  method Simulate(fs: seq<Federate>, rounds: seq<Round>)
    requires Registered(fs)
    requires forall r <- rounds :: r.proposal > r.clock && (r.proposal <= r.stop || r.clock >= r.stop)
    requires forall f <- fs :: Recorded(f)
    modifies fs
    ensures forall f <- fs :: Recorded(f) && old(f.log) <= f.log
    ensures forall f <- fs :: NeverGoesBack(f.log) ==> Silent(f, old(PastOf(f)))
  {
    ghost var first := map f | f in fs :: PastOf(f);
    for i := 0 to |rounds|
      invariant Registered(fs)
      invariant forall f <- fs :: Recorded(f) && old(f.log) <= f.log
      invariant forall f <- fs :: NeverGoesBack(f.log) ==> Quiet(f, first[f])
    {
      label Before:
      var r := rounds[i];
      var t := Negotiate(fs, r.proposal, r.clock, r.stop);
      forall f | f in fs
        ensures Recorded(f) && old@Before(f.log) <= f.log && (NeverGoesBack(f.log) ==> Quiet(f, first[f]))
      {
        assert AskedAtMostOnce@Before(f, r.proposal, r.clock, r.stop, t);
        assert old@Before(NeverGoesBack(f.log) ==> Quiet(f, first[f]));
        BackBefore(old@Before(f.log), f.log);
        if f.log != old@Before(f.log) {
          OneMoreExchange(old@Before(f.log), f.start, old@Before(f.lastApproved), f.log);
        }
      }
    }
  }

  // ----- do the grants rise? ---------------------------------------------------------

  /** Every grant, and every request, is after all earlier grants. */
  ghost predicate Rising(log: seq<Exchange>, start: int) {
    && (forall i :: 0 <= i < |log| ==> start < log[i].grant && start < log[i].request)
    && (forall i, j :: 0 <= i < j < |log| ==> log[i].grant < log[j].grant && log[i].grant < log[j].request)
  }

  /** If it never goes back, the last time granted covers all earlier ones. */
  lemma {:induction false} LastCovers(log: seq<Exchange>, start: int, last: int, j: nat)
    requires History(log, start, last) && NeverGoesBack(log) && j < |log|
    ensures start <= log[j].last && forall i :: 0 <= i < j ==> log[i].grant <= log[j].last
    decreases j
  {
    assert Follows(log, start, j);
    if j > 0 {
      LastCovers(log, start, last, j - 1);
      assert log[j - 1].last < log[j - 1].grant;
    }
  }

  /** Over any run, grants rise and no federate is asked for a time at or before one granted to it,
      if and only if the broker never goes back. */
  lemma RisingIff(log: seq<Exchange>, start: int, last: int)
    requires History(log, start, last)
    ensures Rising(log, start) <==> NeverGoesBack(log)
  {
    if NeverGoesBack(log) {
      forall j | 0 <= j < |log|
        ensures start < log[j].grant && start < log[j].request
        ensures forall i :: 0 <= i < j ==> log[i].grant < log[j].grant && log[i].grant < log[j].request
      {
        LastCovers(log, start, last, j);
        assert Follows(log, start, j) && log[j].last < log[j].grant;
      }
    }
    if Rising(log, start) {
      forall j | 0 <= j < |log| ensures log[j].last < log[j].grant {
        assert Follows(log, start, j);
        if j > 0 { assert log[j - 1].grant < log[j].grant; }
      }
    }
  }

  /** A federate can tell beforehand: whatever the broker answers keeps its grants rising if and
      only if the global clock has come to the last time granted to it when it asks. */
  lemma AnyAnswerRisesIff(log: seq<Exchange>, start: int, last: int, clock: int, request: int)
    requires History(log, start, last) && Rising(log, start) && last < request
    ensures (forall answer :: clock < answer ==> Rising(log + [Exchange(clock, last, request, answer)], start))
            <==> last <= clock
  {
    forall answer | clock < answer
      ensures Rising(log + [Exchange(clock, last, request, answer)], start) <==> last < answer
    {
      var now := log + [Exchange(clock, last, request, answer)];
      OneMoreExchange(log, start, last, now);
      RisingIff(log, start, last);
      RisingIff(now, start, answer);
      assert forall i :: 0 <= i < |log| ==> now[i] == log[i];
    }
    if clock < last { assert !Rising(log + [Exchange(clock, last, request, clock + 1)], start); }
  }

  /** Two grants that the code takes, the second before the first, although it is after the global
      clock and not after the request. The next request is for a time before one already granted. */
  method GrantFalls() returns (f: Federate)
    ensures fresh(f) && f.log == [Exchange(4, 4, 12, 10), Exchange(5, 10, 20, 7), Exchange(7, 7, 8, 8)]
    ensures Recorded(f) && !Rising(f.log, f.start)
  {
    f := new Federate(General, 0, 4);
    var r := f.ClkUpdate(12, 4, 100, true, 10);
    r := f.ClkUpdate(20, 5, 100, true, 7);
    r := f.ClkUpdate(8, 7, 100, true, 8);
    assert f.log[0].grant > f.log[1].grant && f.log[2].request < f.log[0].grant;
  }
}
