/** Later events never change a true or false verdict. */
module Irrevocability {
  import opened Values
  import opened Traces
  import opened Formulas
  import opened Constants
  import opened Integrals
  import opened Durations

  ghost predicate Keeps(v: ThreeValued, later: ThreeValued) {
    v != T_UNKNOWN ==> later == v
  }

  /**
   * Verdicts on f at time x stand when w grows to s: no operator of f can answer from the last buffered event
   * what a later one should, whatever the window; or none does on this window at times up to u.
   */
  ghost predicate Stands(f: Formula, w: seq<Event>, s: seq<Event>, x: int, u: int) {
    w <= s && |w| > 0 && Dense(f, w) && (WellNested(f) || (Increasing(s) && x <= u && InSight(f, w, u)))
  }

  ghost predicate TermStands(m: Term, w: seq<Event>, s: seq<Event>, x: int, u: int) {
    w <= s && |w| > 0 && DenseTerm(m, w) && (WellNestedTerm(m) || (Increasing(s) && x <= u && InSightTerm(m, w, u)))
  }

  /** Irrevocability, for every formula that is well nested or in sight, cursor, and appended events. */
  lemma {:induction false} VerdictIsIrrevocable(f: Formula, w: seq<Event>, s: seq<Event>, i: nat, t: int, u: int)
    requires i < |w| && Stands(f, w, s, t, u) && Stands(f, w, s, w[i].time, u)
    requires Comparing(f) ==> w[i].time <= t
    ensures Keeps(Eval(f, w, i, t), Eval(f, s, i, t))
    decreases f, 1, 0
  {
    match f
    case True =>
    case Prop(_) =>
    case Not(g) => VerdictIsIrrevocable(g, w, s, i, t, u);
    case Or(g, h) => VerdictIsIrrevocable(g, w, s, i, t, u); VerdictIsIrrevocable(h, w, s, i, t, u);
    case And(g, h) => VerdictIsIrrevocable(g, w, s, i, t, u); VerdictIsIrrevocable(h, w, s, i, t, u);
    case Until(_, _, _) => UntilIsIrrevocable(f, w, s, i, t, u);
    case Since(_, _, _) => SinceIsIrrevocable(f, w, s, i, t, u);
    case EventuallyEqual(_, _) => EventuallyEqualIsIrrevocable(f, w, s, i, t, u, T_UNKNOWN, T_UNKNOWN);
    case EventuallyUnbounded(_) => EventuallyIsIrrevocable(f, w, s, i);
    case PastEventuallyEqual(_, _) => PastEventuallyIsIrrevocable(f, w, s, i, t, u, T_UNKNOWN, T_UNKNOWN);
    case Less(m, n) => ValueIsKept(m, w, s, i, t, u); ValueIsKept(n, w, s, i, t, u);
  }

  lemma {:induction false} ValueIsKept(m: Term, w: seq<Event>, s: seq<Event>, i: nat, t: int, u: int)
    requires i < |w| && TermStands(m, w, s, t, u) && w[i].time <= t
    ensures Value(m, w, i, t).unknown || Value(m, s, i, t) == Value(m, w, i, t)
    decreases m, 1, 0
  {
    match m
    case Constant(_) =>
    case Integral(f, upper) => DurationIsKept(f, w, s, i, t, upper, u + upper);
    case Sum(l, r) => ValueIsKept(l, w, s, i, t, u); ValueIsKept(r, w, s, i, t, u);
    case Product(l, r) => ValueIsKept(l, w, s, i, t, u); ValueIsKept(r, w, s, i, t, u);
  }

  /** The duration reads no event later than its end, so those are all it needs to stand. */
  lemma {:induction false} DurationIsKept(f: Formula, w: seq<Event>, s: seq<Event>, i: nat, t: int, upper: int, u: int)
    requires i < |w| && Stands(f, w, s, t + upper, u) && w[i].time <= t && 0 <= upper && GapsWithin(w, upper)
    ensures DurationTerm(f, w, i, t, upper).unknown
            || DurationTerm(f, s, i, t, upper) == DurationTerm(f, w, i, t, upper)
    decreases f, 3, 0
  {
    if !DurationTerm(f, w, i, t, upper).unknown {
      var _, k := DefiniteIsClosed(Indicators(f, w), w, i, t, upper);
      forall j: nat | j <= k && EvalAt(f, w, j) != T_UNKNOWN ensures EvalAt(f, s, j) == EvalAt(f, w, j) {
        assert j < k ==> w[j].time < w[k].time;
        VerdictAtIsIrrevocable(f, w, s, j, u);
      }
      DefiniteDurationIsKept(f, w, s, i, k, t, upper);
    }
  }

  lemma {:induction false} VerdictAtIsIrrevocable(f: Formula, w: seq<Event>, s: seq<Event>, j: nat, u: int)
    requires j < |w| && Stands(f, w, s, w[j].time, u)
    ensures Keeps(EvalAt(f, w, j), EvalAt(f, s, j))
    decreases f, 2, 0
  {
    VerdictIsIrrevocable(f, w, s, j, w[j].time, u);
  }

  lemma {:induction false} UntilIsIrrevocable(f: Formula, w: seq<Event>, s: seq<Event>, j: nat, t: int, u: int)
    requires f.Until? && j < |w| && Stands(f, w, s, t, u)
    ensures Keeps(UntilFrom(f, w, j, t), UntilFrom(f, s, j, t))
    decreases f, 0, |w| - j
  {
    if w[j].time < t + f.b {
      VerdictAtIsIrrevocable(f.phi1, w, s, j, u + f.b);
      VerdictAtIsIrrevocable(f.phi2, w, s, j, u + f.b);
      if j + 1 < |w| { UntilIsIrrevocable(f, w, s, j + 1, t, u); }
    }
  }

  lemma {:induction false} SinceIsIrrevocable(f: Formula, w: seq<Event>, s: seq<Event>, j: nat, t: int, u: int)
    requires f.Since? && j < |w| && Stands(f, w, s, w[j].time, u)
    ensures Keeps(SinceFrom(f, w, j, t), SinceFrom(f, s, j, t))
    decreases f, 0, j
  {
    VerdictAtIsIrrevocable(f.phi1, w, s, j, u);
    VerdictAtIsIrrevocable(f.phi2, w, s, j, u);
    if j > 0 { SinceIsIrrevocable(f, w, s, j - 1, t, u); }
  }

  lemma {:induction false} EventuallyEqualIsIrrevocable(f: Formula, w: seq<Event>, s: seq<Event>, j: nat,
                                                        t: int, u: int, v: ThreeValued, later: ThreeValued)
    requires f.EventuallyEqual? && j < |w| && Stands(f, w, s, t, u) && Keeps(v, later)
    ensures Keeps(EventuallyEqualFrom(f, w, j, t, v), EventuallyEqualFrom(f, s, j, t, later))
    decreases f, 0, |w| - j
  {
    if PastFree(f.phi) { PastFreeIsWellNested(f.phi); }
    if w[j].time <= f.b + t {
      VerdictAtIsIrrevocable(f.phi, w, s, j, u + f.b);
      if j + 1 < |w| {
        EventuallyEqualIsIrrevocable(f, w, s, j + 1, t, u, EvalAt(f.phi, w, j), EvalAt(f.phi, s, j));
      } else if PastFree(f.phi) {
        LastEventDecidesNothing(f.phi, w);
        if Known(f.phi) != T_UNKNOWN { KnownEventuallyEqual(f, s, j, t, later); }
      }
    }
  }

  lemma {:induction false} EventuallyIsIrrevocable(f: Formula, w: seq<Event>, s: seq<Event>, j: nat)
    requires f.EventuallyUnbounded? && PastFree(f.phi) && Dense(f.phi, w) && w <= s && j < |w|
    ensures Keeps(EventuallyFrom(f, w, j), EventuallyFrom(f, s, j))
    decreases f, 0, |w| - j
  {
    PastFreeIsWellNested(f.phi);
    VerdictAtIsIrrevocable(f.phi, w, s, j, w[j].time);
    if j + 1 < |w| {
      EventuallyIsIrrevocable(f, w, s, j + 1);
    } else {
      LastEventDecidesNothing(f.phi, w);
      if Known(f.phi) != T_UNKNOWN { KnownEventually(f, s, j); }
    }
  }

  lemma {:induction false} PastEventuallyIsIrrevocable(f: Formula, w: seq<Event>, s: seq<Event>, j: nat, t: int, u: int,
                                                       v: ThreeValued, later: ThreeValued)
    requires f.PastEventuallyEqual? && j < |w| && Stands(f, w, s, w[j].time, u) && Keeps(v, later)
    ensures Keeps(PastEventuallyFrom(f, w, j, t, v), PastEventuallyFrom(f, s, j, t, later))
    decreases f, 0, j
  {
    VerdictAtIsIrrevocable(f.phi, w, s, j, u);
    if j > 0 {
      PastEventuallyIsIrrevocable(f, w, s, j - 1, t, u, v, later);
      PastEventuallyIsIrrevocable(f, w, s, j - 1, t, u, EvalAt(f.phi, w, j), EvalAt(f.phi, s, j));
    }
  }

  /** A true verdict of eventually_less_unbounded is kept even over a past operator. */
  lemma {:induction false} EventuallyTrueIsKept(f: Formula, w: seq<Event>, s: seq<Event>, j: nat)
    requires f.EventuallyUnbounded? && j < |w| && w <= s && EventuallyFrom(f, w, j) == T_TRUE
    requires forall k | j <= k < |w| :: Stands(f.phi, w, s, w[k].time, w[|w| - 1].time)
    ensures EventuallyFrom(f, s, j) == T_TRUE
    decreases |w| - j
  {
    VerdictAtIsIrrevocable(f.phi, w, s, j, w[|w| - 1].time);
    if EvalAt(f.phi, w, j) != T_TRUE { EventuallyTrueIsKept(f, w, s, j + 1); }
  }
}
