/** Agreeing on the next time: clock_update in connection/init.cpp over callbacks that depend
    only on the proposal. */
module Clock {

  type Callback = int -> int

  /** All callbacks leave the time alone: none answers with an earlier one. */
  ghost predicate Accepted(callbacks: seq<Callback>, t: int) {
    forall f <- callbacks :: f(t) >= t
  }

  ghost predicate Monotone(f: Callback) {
    forall x, y :: x <= y ==> f(x) <= f(y)
  }

  ghost predicate AllMonotone(callbacks: seq<Callback>) {
    forall f <- callbacks :: Monotone(f)
  }

  /** The latest time, not after the proposal, that all callbacks leave alone. */
  ghost predicate IsAgreement(callbacks: seq<Callback>, proposal: int, t: int) {
    && t <= proposal && Accepted(callbacks, t)
    && forall u :: u <= proposal && Accepted(callbacks, u) ==> u <= t
  }

  /** One pass over the list: each callback sees the time as lowered by those before it. */
  function Pass(callbacks: seq<Callback>, t: int): (r: int)
    ensures r <= t
    ensures r == t <==> Accepted(callbacks, t)
  {
    if callbacks == [] then t
    else
      var answer := callbacks[0](t);
      Pass(callbacks[1..], if answer < t then answer else t)
  }

  function Passes(callbacks: seq<Callback>, t: int, n: nat): int
    decreases n
  {
    if n == 0 then t else Passes(callbacks, Pass(callbacks, t), n - 1)
  }

  /** The loop ends with the first pass that changes nothing. */
  ghost predicate SettlesAt(callbacks: seq<Callback>, t: int, n: nat) {
    Accepted(callbacks, Passes(callbacks, t, n))
  }

  /** A pass of monotone callbacks never drops below a time they all accept. */
  lemma {:induction false} PassStaysAbove(callbacks: seq<Callback>, t: int, floor: int)
    requires AllMonotone(callbacks) && floor <= t && Accepted(callbacks, floor)
    ensures floor <= Pass(callbacks, t)
  {
    if callbacks != [] {
      var f := callbacks[0];
      assert f in callbacks && Monotone(f) && f(floor) <= f(t);
      assert forall g <- callbacks[1..] :: g in callbacks;
      PassStaysAbove(callbacks[1..], if f(t) < t then f(t) else t, floor);
    }
  }

  /** With monotone callbacks the negotiation ends if and only if some time not after the
      proposal is accepted by all. */
  lemma SettlesIff(callbacks: seq<Callback>, t: int)
    requires AllMonotone(callbacks)
    ensures (exists n :: SettlesAt(callbacks, t, n)) <==> (exists u :: u <= t && Accepted(callbacks, u))
  {
    if n :| SettlesAt(callbacks, t, n) {
      PassesDecrease(callbacks, t, n);
    }
    if u :| u <= t && Accepted(callbacks, u) {
      var n := SettlesAbove(callbacks, t, u);
    }
  }

  lemma {:induction false} PassesDecrease(callbacks: seq<Callback>, t: int, n: nat)
    ensures Passes(callbacks, t, n) <= t
    decreases n
  {
    if n > 0 { PassesDecrease(callbacks, Pass(callbacks, t), n - 1); }
  }

  lemma {:induction false} SettlesAbove(callbacks: seq<Callback>, t: int, floor: int) returns (n: nat)
    requires AllMonotone(callbacks) && floor <= t && Accepted(callbacks, floor)
    ensures SettlesAt(callbacks, t, n)
    decreases t - floor
  {
    if Accepted(callbacks, t) { n := 0; }
    else {
      PassStaysAbove(callbacks, t, floor);
      var m := SettlesAbove(callbacks, Pass(callbacks, t), floor);
      n := m + 1;
      assert Passes(callbacks, t, n) == Passes(callbacks, Pass(callbacks, t), m);
    }
  }

  /** The agreement does not depend on the order, or the repetition, of the callbacks. */
  lemma AgreementIgnoresOrder(one: seq<Callback>, other: seq<Callback>, proposal: int, t: int, u: int)
    requires forall f :: f in one <==> f in other
    requires IsAgreement(one, proposal, t) && IsAgreement(other, proposal, u)
    ensures t == u
  {
    assert Accepted(other, t) && Accepted(one, u);
  }

  /** The negotiation. Any time, not after the proposal, that all callbacks accept is enough for
      it to end, and it ends with the latest such time. */
  method ClockUpdate(callbacks: seq<Callback>, proposal: int) returns (t1: int)
    requires AllMonotone(callbacks)
    requires exists u :: u <= proposal && Accepted(callbacks, u)
    ensures IsAgreement(callbacks, proposal, t1)
  {
    ghost var floor :| floor <= proposal && Accepted(callbacks, floor);
    t1 := proposal;
    var ok := false;
    while !ok
      invariant floor <= t1 <= proposal
      invariant forall u :: u <= proposal && Accepted(callbacks, u) ==> u <= t1
      invariant ok ==> Accepted(callbacks, t1)
      decreases t1 - floor, !ok
    {
      ok := true;
      ghost var t0 := t1;
      for i := 0 to |callbacks|
        invariant floor <= t1 <= t0 && (ok <==> t1 == t0)
        invariant forall u :: u <= proposal && Accepted(callbacks, u) ==> u <= t1
        invariant ok ==> forall k :: 0 <= k < i ==> callbacks[k](t1) >= t1
      {
        var t2 := callbacks[i](t1);
        if t2 < t1 {
          forall u | u <= proposal && Accepted(callbacks, u) ensures u <= t2 {
            assert Monotone(callbacks[i]) && callbacks[i] in callbacks;
            assert u <= callbacks[i](u) <= callbacks[i](t1);
          }
          ok := false;
          t1 := t2;
        }
      }
    }
  }

  /** Two negotiations over the same callbacks, registered in any orders and any numbers of times,
      come to the same time. */
  method ClockUpdateTwice(one: seq<Callback>, other: seq<Callback>, proposal: int) returns (t: int, u: int)
    requires AllMonotone(one) && (forall f :: f in one <==> f in other)
    requires exists v :: v <= proposal && Accepted(one, v)
    ensures IsAgreement(one, proposal, t) && t == u
  {
    t := ClockUpdate(one, proposal);
    assert Accepted(other, t);
    u := ClockUpdate(other, proposal);
    AgreementIgnoresOrder(one, other, proposal, t, u);
  }
}
