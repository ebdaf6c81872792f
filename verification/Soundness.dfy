/** A true or false verdict is the two-valued truth on every trace that extends the buffered window. */
module Soundness {
  import opened Values
  import opened Traces
  import opened Formulas
  import opened Constants
  import opened Integrals
  import opened Durations

  /** Until, one event at a time. */
  lemma {:induction false} UntilUnfolds(f: Formula, s: seq<Event>, i: nat, t: int)
    requires f.Until? && Increasing(s) && i < |s|
    ensures var later := i + 1 < |s| && Holds(f, s, i + 1, t);
            Holds(f, s, i, t) <==>
              s[i].time < t + f.b && (HoldsAt(f.phi2, s, i) || (HoldsAt(f.phi1, s, i) && later))
  {
    if Holds(f, s, i, t) { UntilGoesUp(f, s, i, t); }
    if i + 1 < |s| && Holds(f, s, i + 1, t) { UntilComesDown(f, s, i, t); }
  }

  lemma {:induction false} UntilGoesUp(f: Formula, s: seq<Event>, i: nat, t: int)
    requires f.Until? && Increasing(s) && i < |s| && Holds(f, s, i, t)
    ensures s[i].time < t + f.b
    ensures HoldsAt(f.phi2, s, i) || (HoldsAt(f.phi1, s, i) && i + 1 < |s| && Holds(f, s, i + 1, t))
  {
    var j :| i <= j < |s| && s[j].time < t + f.b && HoldsAt(f.phi2, s, j)
             && forall k | i <= k < j :: HoldsAt(f.phi1, s, k);
    assert s[i].time <= s[j].time;
    if i < j {
      assert forall k | i + 1 <= k < j :: HoldsAt(f.phi1, s, k);
      assert Holds(f, s, i + 1, t);
    }
  }

  lemma {:induction false} UntilComesDown(f: Formula, s: seq<Event>, i: nat, t: int)
    requires f.Until? && i + 1 < |s| && Holds(f, s, i + 1, t)
    ensures HoldsAt(f.phi1, s, i) ==> Holds(f, s, i, t)
  {
    var j :| i + 1 <= j < |s| && s[j].time < t + f.b && HoldsAt(f.phi2, s, j)
             && forall k | i + 1 <= k < j :: HoldsAt(f.phi1, s, k);
    if HoldsAt(f.phi1, s, i) {
      assert forall k | i <= k < j :: HoldsAt(f.phi1, s, k);
    }
  }

  /** Since, one event at a time, skipping an event at the time of evaluation itself. */
  lemma {:induction false} SinceUnfolds(f: Formula, s: seq<Event>, i: nat, t: int)
    requires f.Since? && Increasing(s) && i < |s|
    ensures var earlier := i > 0 && Holds(f, s, i - 1, t);
            Holds(f, s, i, t) <==>
              if s[i].time == t then earlier
              else t - f.b < s[i].time && (HoldsAt(f.phi2, s, i) || (HoldsAt(f.phi1, s, i) && earlier))
  {
    if Holds(f, s, i, t) { SinceComesDown(f, s, i, t); }
    if i > 0 && Holds(f, s, i - 1, t) { SinceGoesUp(f, s, i, t); }
  }

  lemma {:induction false} SinceComesDown(f: Formula, s: seq<Event>, i: nat, t: int)
    requires f.Since? && Increasing(s) && i < |s| && Holds(f, s, i, t)
    ensures s[i].time == t || t - f.b < s[i].time
    ensures s[i].time == t || !HoldsAt(f.phi2, s, i) ==> i > 0 && Holds(f, s, i - 1, t)
    ensures s[i].time == t || HoldsAt(f.phi2, s, i) || HoldsAt(f.phi1, s, i)
  {
    var j :| 0 <= j <= i && s[j].time != t && t - f.b < s[j].time && HoldsAt(f.phi2, s, j)
             && forall k | j < k <= i && s[k].time != t :: HoldsAt(f.phi1, s, k);
    assert s[j].time <= s[i].time;
    if j < i {
      assert forall k | j < k <= i - 1 && s[k].time != t :: HoldsAt(f.phi1, s, k);
      assert Holds(f, s, i - 1, t);
    }
  }

  lemma {:induction false} SinceGoesUp(f: Formula, s: seq<Event>, i: nat, t: int)
    requires f.Since? && Increasing(s) && 0 < i < |s| && Holds(f, s, i - 1, t)
    ensures s[i].time == t || HoldsAt(f.phi1, s, i) ==> Holds(f, s, i, t)
    ensures s[i].time == t || t - f.b < s[i].time
  {
    var j :| 0 <= j <= i - 1 && s[j].time != t && t - f.b < s[j].time && HoldsAt(f.phi2, s, j)
             && forall k | j < k <= i - 1 && s[k].time != t :: HoldsAt(f.phi1, s, k);
    assert s[j].time < s[i].time;
    if s[i].time == t || HoldsAt(f.phi1, s, i) {
      assert forall k | j < k <= i && s[k].time != t :: HoldsAt(f.phi1, s, k);
    }
  }

  /**
   * Soundness, for every formula in sight at the time of evaluation, cursor, and extension of the window at its
   * top.
   */
  lemma {:induction false} VerdictIsTruth(f: Formula, w: seq<Event>, s: seq<Event>, i: nat, t: int, u: int)
    requires w <= s && WellTimed(s) && i < |w| && t <= u && w[i].time <= u && InSight(f, w, u) && Dense(f, w)
    requires Comparing(f) ==> w[i].time <= t
    ensures Agrees(Eval(f, w, i, t), Holds(f, s, i, t))
    decreases f, 1, 0
  {
    match f
    case True =>
    case Prop(_) =>
      if Brackets(w, i, t) {
        assert Covers(s, i, t);
        forall k | Covers(s, k, t) ensures k == i { CoveringEventIsUnique(s, k, i, t); }
      }
    case Not(g) => VerdictIsTruth(g, w, s, i, t, u);
    case Or(g, h) => VerdictIsTruth(g, w, s, i, t, u); VerdictIsTruth(h, w, s, i, t, u);
    case And(g, h) => VerdictIsTruth(g, w, s, i, t, u); VerdictIsTruth(h, w, s, i, t, u);
    case Until(_, _, _) => UntilIsTruth(f, w, s, i, t, u);
    case Since(_, _, _) => SinceIsTruth(f, w, s, i, t, u);
    case EventuallyEqual(_, _) => EventuallyEqualIsTruth(f, w, s, i, i, t, u, T_UNKNOWN);
    case EventuallyUnbounded(_) => EventuallyIsTruth(f, w, s, i, t);
    case PastEventuallyEqual(_, _) => PastEventuallyIsTruth(f, w, s, i, i, t, u, T_UNKNOWN);
    case Less(m, n) => ValueIsTruth(m, w, s, i, t, u); ValueIsTruth(n, w, s, i, t, u);
  }

  /** A definite value of a term is its value over the true integrals, from a cursor not later than t. */
  lemma {:induction false} ValueIsTruth(m: Term, w: seq<Event>, s: seq<Event>, i: nat, t: int, u: int)
    requires w <= s && WellTimed(s) && i < |w| && w[i].time <= t <= u && InSightTerm(m, w, u) && DenseTerm(m, w)
    ensures Value(m, w, i, t).unknown || Value(m, w, i, t).ticks == TrueValue(m, s, t)
    decreases m, 1, 0
  {
    match m
    case Constant(_) =>
    case Integral(f, upper) =>
      if !DurationTerm(f, w, i, t, upper).unknown { DurationIsTruth(f, w, s, i, t, upper, u + upper); }
    case Sum(l, r) => ValueIsTruth(l, w, s, i, t, u); ValueIsTruth(r, w, s, i, t, u);
    case Product(l, r) => ValueIsTruth(l, w, s, i, t, u); ValueIsTruth(r, w, s, i, t, u);
  }

  lemma {:induction false} DurationIsTruth(f: Formula, w: seq<Event>, s: seq<Event>, start: nat, t: int,
                                           upper: int, u: int)
    requires w <= s && WellTimed(s) && start < |w| && w[start].time <= t && t + upper <= u
    requires InSight(f, w, u) && Dense(f, w) && 0 <= upper && GapsWithin(w, upper)
    requires !DurationTerm(f, w, start, t, upper).unknown
    ensures DurationTerm(f, w, start, t, upper) == Duration(TrueTicks(Truths(f, s), s, t, upper), false)
    decreases f, 3, 0
  {
    var i, k := DefiniteIsClosed(Indicators(f, w), w, start, t, upper);
    forall j: nat | i <= j <= k ensures Agrees(EvalAt(f, w, j), HoldsAt(f, s, j)) {
      assert j < k ==> w[j].time < w[k].time;
      VerdictAtIsTruth(f, w, s, j, u);
    }
    DefiniteDurationIsTruth(f, w, s, start, i, k, t, upper);
  }

  lemma {:induction false} VerdictAtIsTruth(f: Formula, w: seq<Event>, s: seq<Event>, j: nat, u: int)
    requires w <= s && WellTimed(s) && j < |w| && w[j].time <= u && InSight(f, w, u) && Dense(f, w)
    ensures Agrees(EvalAt(f, w, j), HoldsAt(f, s, j))
    decreases f, 2, 0
  {
    VerdictIsTruth(f, w, s, j, w[j].time, u);
  }

  lemma {:induction false} UntilIsTruth(f: Formula, w: seq<Event>, s: seq<Event>, j: nat, t: int, u: int)
    requires f.Until? && w <= s && WellTimed(s) && j < |w| && t <= u && InSight(f, w, u) && Dense(f, w)
    ensures Agrees(UntilFrom(f, w, j, t), Holds(f, s, j, t))
    decreases f, 0, |w| - j
  {
    UntilUnfolds(f, s, j, t);
    if w[j].time < t + f.b {
      VerdictAtIsTruth(f.phi1, w, s, j, u + f.b);
      VerdictAtIsTruth(f.phi2, w, s, j, u + f.b);
      if j + 1 < |w| { UntilIsTruth(f, w, s, j + 1, t, u); }
    }
  }

  lemma {:induction false} SinceIsTruth(f: Formula, w: seq<Event>, s: seq<Event>, j: nat, t: int, u: int)
    requires f.Since? && w <= s && WellTimed(s) && j < |w| && w[j].time <= u && InSight(f, w, u) && Dense(f, w)
    ensures Agrees(SinceFrom(f, w, j, t), Holds(f, s, j, t))
    decreases f, 0, j
  {
    SinceUnfolds(f, s, j, t);
    VerdictAtIsTruth(f.phi1, w, s, j, u);
    VerdictAtIsTruth(f.phi2, w, s, j, u);
    if j > 0 { SinceIsTruth(f, w, s, j - 1, t, u); }
  }

  /** The loop's symbol is the verdict at the event before j, or unknown when there was none. */
  lemma {:induction false} EventuallyEqualIsTruth(f: Formula, w: seq<Event>, s: seq<Event>, i: nat, j: nat,
                                                  t: int, u: int, symbol: ThreeValued)
    requires f.EventuallyEqual? && w <= s && WellTimed(s) && i <= j < |w| && t <= u && InSight(f, w, u) && Dense(f, w)
    requires if j == i then symbol == T_UNKNOWN
             else w[j - 1].time <= t + f.b && Agrees(symbol, HoldsAt(f.phi, s, j - 1))
    ensures Agrees(EventuallyEqualFrom(f, w, j, t, symbol), Holds(f, s, i, t))
    decreases f, 0, |w| - j
  {
    if w[j].time > f.b + t {
      if j > i { OnlyCovering(f, s, i, j - 1, t); }
    } else {
      VerdictAtIsTruth(f.phi, w, s, j, u + f.b);
      if j + 1 < |w| {
        EventuallyEqualIsTruth(f, w, s, i, j + 1, t, u, EvalAt(f.phi, w, j));
      } else {
        LastEventIsTruth(f, w, s, i, t);
      }
    }
  }

  /** Running out of events is no loss: the last one is in force at t + b, or its verdict does not depend on events. */
  lemma LastEventIsTruth(f: Formula, w: seq<Event>, s: seq<Event>, i: nat, t: int)
    requires f.EventuallyEqual? && w <= s && WellTimed(s) && i < |w| && w[|w| - 1].time <= t + f.b
    requires PastFree(f.phi) || t + f.b <= w[|w| - 1].time
    requires Agrees(EvalAt(f.phi, w, |w| - 1), HoldsAt(f.phi, s, |w| - 1))
    ensures Agrees(EvalAt(f.phi, w, |w| - 1), Holds(f, s, i, t))
  {
    var j := |w| - 1;
    var k := CoveringEvent(s, j, t + f.b);
    OnlyCovering(f, s, i, k, t);
    if PastFree(f.phi) {
      LastEventDecidesNothing(f.phi, w);
      KnownIsTheTruth(f.phi, s, k);
    } else {
      CoveringEventIsUnique(s, j, k, t + f.b);
    }
  }

  lemma {:induction false} EventuallyIsTruth(f: Formula, w: seq<Event>, s: seq<Event>, j: nat, t: int)
    requires f.EventuallyUnbounded? && PastFree(f.phi) && Dense(f, w) && w <= s && WellTimed(s) && j < |w|
    ensures Agrees(EventuallyFrom(f, w, j), Holds(f, s, j, t))
    decreases f, 0, |w| - j
  {
    PastFreeIsWellNested(f.phi);
    WellNestedIsInSight(f.phi, w, w[j].time);
    VerdictAtIsTruth(f.phi, w, s, j, w[j].time);
    if EvalAt(f.phi, w, j) == T_TRUE {
      assert HoldsAt(f.phi, s, j);
    } else if EvalAt(f.phi, w, j) == T_FALSE {
      if j + 1 < |w| {
        EventuallyIsTruth(f, w, s, j + 1, t);
        assert Holds(f, s, j + 1, t) == Holds(f, s, j, t);
      } else {
        LastEventDecidesNothing(f.phi, w);
        forall k: nat | k < |s| ensures Agrees(Known(f.phi), HoldsAt(f.phi, s, k)) { KnownIsTheTruth(f.phi, s, k); }
      }
    }
  }

  /** A true verdict of eventually_less_unbounded is the truth even over a past operator. */
  lemma {:induction false} EventuallyTrueIsTruth(f: Formula, w: seq<Event>, s: seq<Event>, j: nat, t: int)
    requires f.EventuallyUnbounded? && w <= s && WellTimed(s) && j < |w|
    requires InSight(f.phi, w, w[|w| - 1].time) && Dense(f, w)
    requires EventuallyFrom(f, w, j) == T_TRUE
    ensures Holds(f, s, j, t)
    decreases |w| - j
  {
    assert j < |w| - 1 ==> s[j].time < s[|w| - 1].time;
    VerdictAtIsTruth(f.phi, w, s, j, w[|w| - 1].time);
    if EvalAt(f.phi, w, j) == T_TRUE {
      assert HoldsAt(f.phi, s, j);
    } else {
      EventuallyTrueIsTruth(f, w, s, j + 1, t);
    }
  }

  /** The loop's symbol is the verdict at the earliest event after j that counts, or unknown when there was none. */
  lemma {:induction false} PastEventuallyIsTruth(f: Formula, w: seq<Event>, s: seq<Event>, i: nat, j: nat,
                                                 t: int, u: int, symbol: ThreeValued)
    requires f.PastEventuallyEqual? && w <= s && WellTimed(s) && j <= i < |w| && w[i].time <= u
    requires InSight(f, w, u) && Dense(f, w)
    requires (symbol == T_UNKNOWN && forall k | j < k <= i :: s[k].time == t)
             || exists k :: EarliestYet(f, s, i, j, t, k) && Agrees(symbol, HoldsAt(f.phi, s, k))
    ensures Agrees(PastEventuallyFrom(f, w, j, t, symbol), Holds(f, s, i, t))
    decreases f, 0, j
  {
    VerdictAtIsTruth(f.phi, w, s, j, u);
    if s[j].time == t || t - f.b < s[j].time {
      var next := if s[j].time == t then symbol else EvalAt(f.phi, w, j);
      if s[j].time == t {
        forall k | EarliestYet(f, s, i, j, t, k) ensures EarliestYet(f, s, i, j - 1, t, k) {}
      } else {
        assert EarliestYet(f, s, i, j - 1, t, j);
      }
      if j > 0 {
        PastEventuallyIsTruth(f, w, s, i, j - 1, t, u, next);
      } else {
        OnlyFirst(f, s, i, -1, t, next);
      }
    } else {
      OnlyFirst(f, s, i, j, t, symbol);
    }
  }

  /** Event k is the earliest of those that count and that the loop has met, which are the ones after j. */
  ghost predicate EarliestYet(f: Formula, s: seq<Event>, i: nat, j: int, t: int, k: int)
    requires f.PastEventuallyEqual? && i < |s| && -1 <= j
  {
    j < k <= i && s[k].time != t && t - f.b < s[k].time && forall m | j < m < k :: s[m].time == t
  }

  lemma OnlyFirst(f: Formula, s: seq<Event>, i: nat, j: int, t: int, symbol: ThreeValued)
    requires f.PastEventuallyEqual? && Increasing(s) && i < |s| && -1 <= j <= i
    requires j >= 0 ==> s[j].time <= t - f.b
    requires (symbol == T_UNKNOWN && forall k | j < k <= i :: s[k].time == t)
             || exists k :: EarliestYet(f, s, i, j, t, k) && Agrees(symbol, HoldsAt(f.phi, s, k))
    ensures Agrees(symbol, Holds(f, s, i, t))
  {
    if symbol != T_UNKNOWN {
      var k :| EarliestYet(f, s, i, j, t, k) && Agrees(symbol, HoldsAt(f.phi, s, k));
      forall m | 0 <= m < k ensures s[m].time == t || s[m].time <= t - f.b {
        if m <= j { assert s[m].time <= s[j].time; }
      }
      assert FirstWithin(s, k, t, f.b);
      forall m | FirstWithin(s, m, t, f.b) ensures m == k {}
    }
  }
}
