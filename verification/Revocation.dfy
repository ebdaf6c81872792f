/**
 * Eventually operators over past operators: exactly when their verdicts are kept. Running out of events
 * before the time asked for is what makes a verdict revocable, on every window.
 */
module Revocation {
  import opened Values
  import opened Traces
  import opened Formulas
  import opened Soundness
  import opened Irrevocability

  /** At least k events lie before now, b or more ticks back not counted. */
  function Earlier(k: nat, b: int): (f: Formula)
    ensures WellNested(f)
  {
    if k == 0 then True else Since(True, Earlier(k - 1, b), b)
  }

  lemma {:induction false} EarlierIsDense(k: nat, b: int, w: seq<Event>)
    ensures Dense(Earlier(k, b), w)
  {
    if k > 0 { EarlierIsDense(k - 1, b, w); }
  }

  /** Counting earlier events is never unknown: with a bound past every event it is a matter of position. */
  lemma {:induction false} EarlierCounts(k: nat, b: int, w: seq<Event>, j: nat)
    requires WellTimed(w) && j < |w| && w[|w| - 1].time < b
    ensures EvalAt(Earlier(k, b), w, j) == if k <= j then T_TRUE else T_FALSE
    decreases k, 1, 0
  {
    var t := w[j].time;
    assert EvalAt(Earlier(k, b), w, j) == Eval(Earlier(k, b), w, j, t);
    if k > 0 && j > 0 { EarlierCountsDown(k, b, w, j, j - 1); }
  }

  lemma {:induction false} EarlierCountsDown(k: nat, b: int, w: seq<Event>, j: nat, m: nat)
    requires WellTimed(w) && m < j < |w| && w[|w| - 1].time < b && k > 0
    ensures SinceFrom(Earlier(k, b), w, m, w[j].time) == if k <= m + 1 then T_TRUE else T_FALSE
    decreases k, 0, m
  {
    EarlierCounts(k - 1, b, w, m);
    assert EvalAt(True, w, m) == Eval(True, w, m, w[m].time) == T_TRUE;
    assert w[j].time <= w[|w| - 1].time;
    if m > 0 { EarlierCountsDown(k, b, w, j, m - 1); }
  }

  /** The window with one event more, one tick later. */
  function OneMore(w: seq<Event>): seq<Event>
    requires |w| > 0
  {
    w + [Event(0, w[|w| - 1].time + 1)]
  }

  /** A formula that is false at every event of the window and true at the next event. */
  lemma TrueOnlyNext(w: seq<Event>) returns (phi: Formula)
    requires |w| > 0 && WellTimed(w)
    ensures WellNested(phi) && Dense(phi, w) && WellTimed(OneMore(w))
    ensures forall j: nat | j < |w| :: EvalAt(phi, w, j) == EvalAt(phi, OneMore(w), j) == T_FALSE
    ensures EvalAt(phi, OneMore(w), |w|) == T_TRUE && HoldsAt(phi, OneMore(w), |w|)
  {
    var s := OneMore(w);
    var b := w[|w| - 1].time + 2;
    phi := Earlier(|w|, b);
    forall j: nat | j < |w| ensures EvalAt(phi, w, j) == EvalAt(phi, s, j) == T_FALSE {
      EarlierCounts(|w|, b, w, j);
      EarlierCounts(|w|, b, s, j);
    }
    EarlierCounts(|w|, b, s, |w|);
    EarlierIsDense(|w|, b, w);
    EarlierIsDense(|w|, b, s);
    WellNestedIsInSight(phi, s, s[|w|].time);
    VerdictAtIsTruth(phi, s, s, |w|, s[|w|].time);
  }

  /** What eventually_equal answers when no event lies past its time: its subformula at the last one. */
  lemma {:induction false} RunsOut(phi: Formula, b: int, w: seq<Event>, j: nat, t: int, symbol: ThreeValued)
    requires Increasing(w) && j < |w| && w[|w| - 1].time <= t + b
    ensures EventuallyEqualFrom(EventuallyEqual(phi, b), w, j, t, symbol) == EvalAt(phi, w, |w| - 1)
    decreases |w| - j
  {
    assert j < |w| - 1 ==> w[j].time < w[|w| - 1].time;
    if j + 1 < |w| { RunsOut(phi, b, w, j + 1, t, EvalAt(phi, w, j)); }
  }

  /**
   * On every window that ends before t + b some past formula makes eventually_equal say false, and the next event
   * true.
   */
  lemma EarlyVerdictIsRevoked(b: int, w: seq<Event>, i: nat, t: int) returns (phi: Formula)
    requires WellTimed(w) && i < |w| && w[|w| - 1].time < t + b
    ensures WellNested(phi) && Dense(phi, w) && w <= OneMore(w) && WellTimed(OneMore(w))
    ensures Eval(EventuallyEqual(phi, b), w, i, t) == T_FALSE
    ensures Eval(EventuallyEqual(phi, b), OneMore(w), i, t) == T_TRUE
    ensures Holds(EventuallyEqual(phi, b), OneMore(w), i, t)
  {
    var s := OneMore(w);
    phi := TrueOnlyNext(w);
    RunsOut(phi, b, w, i, t, T_UNKNOWN);
    RunsOut(phi, b, s, i, t, T_UNKNOWN);
    assert Covers(s, |w|, t + b);
  }

  /**
   * The verdict of eventually_equal is kept, and true, whatever well-nested formula it is over and whatever
   * follows.
   */
  ghost predicate AlwaysStands(b: int, w: seq<Event>, i: nat, t: int)
    requires i < |w|
  {
    forall phi, s | WellNested(phi) && Dense(phi, w) && w <= s && WellTimed(s) ::
      IsRight(EventuallyEqual(phi, b), w, s, i, t)
  }

  ghost predicate IsRight(f: Formula, w: seq<Event>, s: seq<Event>, i: nat, t: int)
    requires w <= s && i < |w|
  {
    Keeps(Eval(f, w, i, t), Eval(f, s, i, t)) && Agrees(Eval(f, w, i, t), Holds(f, s, i, t))
  }

  lemma LateVerdictStands(phi: Formula, b: int, w: seq<Event>, s: seq<Event>, i: nat, t: int)
    requires WellNested(phi) && Dense(phi, w) && w <= s && WellTimed(s) && i < |w| && w[i].time <= t
    requires t + b <= w[|w| - 1].time
    ensures IsRight(EventuallyEqual(phi, b), w, s, i, t)
  {
    WellNestedIsInSight(phi, w, t + b);
    VerdictIsIrrevocable(EventuallyEqual(phi, b), w, s, i, t, t);
    VerdictIsTruth(EventuallyEqual(phi, b), w, s, i, t, t);
  }

  /** So exactly the guard of the loop decides: some buffered event is at t + b or later. */
  lemma EventuallyEqualStandsIff(b: int, w: seq<Event>, i: nat, t: int)
    requires WellTimed(w) && i < |w| && w[i].time <= t
    ensures AlwaysStands(b, w, i, t) <==> t + b <= w[|w| - 1].time
  {
    if t + b <= w[|w| - 1].time {
      forall phi, s | WellNested(phi) && Dense(phi, w) && w <= s && WellTimed(s)
        ensures IsRight(EventuallyEqual(phi, b), w, s, i, t)
      {
        LateVerdictStands(phi, b, w, s, i, t);
      }
    } else {
      var phi := EarlyVerdictIsRevoked(b, w, i, t);
      assert !IsRight(EventuallyEqual(phi, b), w, OneMore(w), i, t);
    }
  }

  /**
   * A false verdict of eventually_less_unbounded is revoked by the next event, on every window and from every
   * cursor.
   */
  lemma EventuallyFalseIsRevoked(w: seq<Event>, i: nat, t: int) returns (phi: Formula)
    requires WellTimed(w) && i < |w|
    ensures WellNested(phi) && Dense(phi, w) && w <= OneMore(w) && WellTimed(OneMore(w))
    ensures Eval(EventuallyUnbounded(phi), w, i, t) == T_FALSE
    ensures Eval(EventuallyUnbounded(phi), OneMore(w), i, t) == T_TRUE
    ensures Holds(EventuallyUnbounded(phi), OneMore(w), i, t)
  {
    phi := TrueOnlyNext(w);
    FalseUpTo(phi, w, i);
    FalseUpTo(phi, OneMore(w), i);
    assert HoldsAt(phi, OneMore(w), |w|);
  }

  lemma {:induction false} FalseUpTo(phi: Formula, w: seq<Event>, j: nat)
    requires j < |w| && forall k: nat | j <= k < |w| - 1 :: EvalAt(phi, w, k) == T_FALSE
    ensures EventuallyFrom(EventuallyUnbounded(phi), w, j) == EvalAt(phi, w, |w| - 1)
    decreases |w| - j
  {
    if j + 1 < |w| { FalseUpTo(phi, w, j + 1); }
  }
}
