/** When a verdict is definite, and the operators in terms of one another. */
module Horizon {
  import opened Values
  import opened Traces
  import opened Formulas
  import opened Durations
  import opened Timed

  /** How far past the time of evaluation a bounded formula can look. */
  function HorizonOf(f: Formula): nat {
    match f
    case True => 0
    case Prop(_) => 0
    case Not(g) => HorizonOf(g)
    case Or(g, h) => Max(HorizonOf(g), HorizonOf(h))
    case And(g, h) => Max(HorizonOf(g), HorizonOf(h))
    case Until(g, h, b) => Max(0, b + Max(HorizonOf(g), HorizonOf(h)))
    case Since(_, _, _) => 0
    case EventuallyEqual(g, b) => Max(0, b + HorizonOf(g))
    case EventuallyUnbounded(_) => 0
    case PastEventuallyEqual(_, _) => 0
    case Less(m, n) => Max(HorizonOfTerm(m), HorizonOfTerm(n))
  }

  function HorizonOfTerm(m: Term): nat {
    match m
    case Constant(_) => 0
    case Integral(f, upper) => Max(0, upper + HorizonOf(f))
    case Sum(l, r) => Max(HorizonOfTerm(l), HorizonOfTerm(r))
    case Product(l, r) => Max(HorizonOfTerm(l), HorizonOfTerm(r))
  }

  /** Built from propositions, connectives, until, always, eventually at a time not before now, and comparisons. */
  predicate Bounded(f: Formula) {
    match f
    case True => true
    case Prop(_) => true
    case Not(g) => Bounded(g)
    case Or(g, h) => Bounded(g) && Bounded(h)
    case And(g, h) => Bounded(g) && Bounded(h)
    case Until(g, h, _) => Bounded(g) && Bounded(h)
    case Since(_, _, _) => false
    case EventuallyEqual(g, b) => b >= 0 && Bounded(g)
    case EventuallyUnbounded(_) => false
    case PastEventuallyEqual(_, _) => false
    case Less(m, n) => BoundedTerm(m) && BoundedTerm(n)
  }

  predicate BoundedTerm(m: Term) {
    match m
    case Constant(_) => true
    case Integral(f, upper) => upper >= 0 && Bounded(f)
    case Sum(l, r) => BoundedTerm(l) && BoundedTerm(r)
    case Product(l, r) => BoundedTerm(l) && BoundedTerm(r)
  }

  /** Completeness: once some buffered event m lies past the horizon, the verdict is definite. */
  lemma {:induction false} DefinitePastHorizon(f: Formula, w: seq<Event>, i: nat, t: int, m: nat)
    requires Bounded(f) && Dense(f, w) && Increasing(w) && Covers(w, i, t)
    requires m < |w| && t + HorizonOf(f) < w[m].time
    ensures Eval(f, w, i, t) != T_UNKNOWN
    decreases f, 1, 0
  {
    match f
    case True =>
    case Prop(_) => NotLast(w, i, t, m);
    case Not(g) => DefinitePastHorizon(g, w, i, t, m);
    case Or(g, h) => DefinitePastHorizon(g, w, i, t, m); DefinitePastHorizon(h, w, i, t, m);
    case And(g, h) => DefinitePastHorizon(g, w, i, t, m); DefinitePastHorizon(h, w, i, t, m);
    case Until(_, _, _) => UntilIsDefinite(f, w, i, t, m);
    case EventuallyEqual(_, _) => EventuallyEqualIsDefinite(f, w, i, t, m, T_UNKNOWN);
    case Less(l, r) => ValueIsDefinite(l, w, i, t, m); ValueIsDefinite(r, w, i, t, m);
  }

  lemma {:induction false} ValueIsDefinite(n: Term, w: seq<Event>, i: nat, t: int, m: nat)
    requires BoundedTerm(n) && DenseTerm(n, w) && Increasing(w) && Covers(w, i, t)
    requires m < |w| && t + HorizonOfTerm(n) < w[m].time
    ensures !Value(n, w, i, t).unknown
    decreases n, 1, 0
  {
    match n
    case Constant(_) =>
    case Integral(f, upper) => DurationIsDefinite(f, w, i, t, upper, m);
    case Sum(l, r) => ValueIsDefinite(l, w, i, t, m); ValueIsDefinite(r, w, i, t, m);
    case Product(l, r) => ValueIsDefinite(l, w, i, t, m); ValueIsDefinite(r, w, i, t, m);
  }

  lemma {:induction false} DurationIsDefinite(f: Formula, w: seq<Event>, i: nat, t: int, upper: nat, m: nat)
    requires Bounded(f) && Dense(f, w) && GapsWithin(w, upper) && Covers(w, i, t)
    requires m < |w| && t + upper + HorizonOf(f) < w[m].time
    ensures !DurationTerm(f, w, i, t, upper).unknown
    decreases f, 3, 0
  {
    NotLast(w, i, t, m);
    var k := CoveringEvent(w, i, t + upper);
    NotLast(w, k, t + upper, m);
    assert w[i + 1].time - w[i].time <= upper;
    forall j: nat | i <= j <= k ensures !Indicators(f, w)[j].unknown {
      assert j < k ==> w[j].time < w[k].time;
      DefiniteAtEvent(f, w, j, m);
      assert Indicators(f, w)[j] == Indicator(f, w, j);
    }
    DurationIsIntegral(f, w, i, i, k, t, upper);
  }

  lemma NotLast(w: seq<Event>, i: nat, t: int, m: nat)
    requires Increasing(w) && i < |w| && w[i].time <= t && m < |w| && t < w[m].time
    ensures i < m
  {
  }

  lemma {:induction false} DefiniteAtEvent(f: Formula, w: seq<Event>, j: nat, m: nat)
    requires Bounded(f) && Dense(f, w) && Increasing(w) && j < |w| && m < |w| && w[j].time + HorizonOf(f) < w[m].time
    ensures EvalAt(f, w, j) != T_UNKNOWN
    decreases f, 2, 0
  {
    DefinitePastHorizon(f, w, j, w[j].time, m);
  }

  lemma {:induction false} UntilIsDefinite(f: Formula, w: seq<Event>, j: nat, t: int, m: nat)
    requires f.Until? && Bounded(f) && Dense(f, w) && Increasing(w) && j < |w|
    requires m < |w| && t + HorizonOf(f) < w[m].time
    ensures UntilFrom(f, w, j, t) != T_UNKNOWN
    decreases f, 0, |w| - j
  {
    if w[j].time < t + f.b {
      DefiniteAtEvent(f.phi1, w, j, m);
      DefiniteAtEvent(f.phi2, w, j, m);
      NotLast(w, j, w[j].time, m);
      UntilIsDefinite(f, w, j + 1, t, m);
    }
  }

  lemma {:induction false} EventuallyEqualIsDefinite(f: Formula, w: seq<Event>, j: nat, t: int, m: nat,
                                                     symbol: ThreeValued)
    requires f.EventuallyEqual? && Bounded(f) && Dense(f, w) && Increasing(w) && j < |w|
    requires m < |w| && t + HorizonOf(f) < w[m].time
    requires w[j].time <= t + f.b || symbol != T_UNKNOWN
    ensures EventuallyEqualFrom(f, w, j, t, symbol) != T_UNKNOWN
    decreases f, 0, |w| - j
  {
    if w[j].time <= t + f.b {
      DefiniteAtEvent(f.phi, w, j, m);
      NotLast(w, j, w[j].time, m);
      EventuallyEqualIsDefinite(f, w, j + 1, t, m, EvalAt(f.phi, w, j));
    }
  }

  lemma {:induction false} BoundedIsPastFree(f: Formula)
    requires Bounded(f)
    ensures PastFree(f)
  {
    match f
    case True =>
    case Prop(_) =>
    case Not(g) => BoundedIsPastFree(g);
    case Or(g, h) => BoundedIsPastFree(g); BoundedIsPastFree(h);
    case And(g, h) => BoundedIsPastFree(g); BoundedIsPastFree(h);
    case Until(g, h, _) => BoundedIsPastFree(g); BoundedIsPastFree(h);
    case EventuallyEqual(g, _) => BoundedIsPastFree(g);
    case Less(m, n) => BoundedTermIsPastFree(m); BoundedTermIsPastFree(n);
  }

  lemma {:induction false} BoundedTermIsPastFree(m: Term)
    requires BoundedTerm(m)
    ensures PastFreeTerm(m)
  {
    match m
    case Constant(_) =>
    case Integral(f, _) => BoundedIsPastFree(f);
    case Sum(l, r) => BoundedTermIsPastFree(l); BoundedTermIsPastFree(r);
    case Product(l, r) => BoundedTermIsPastFree(l); BoundedTermIsPastFree(r);
  }

  /** Past the horizon the verdict is therefore the truth at t, on every extension of the window. */
  lemma DecidedPastHorizon(f: Formula, w: seq<Event>, s: seq<Event>, i: nat, t: int, m: nat)
    requires Bounded(f) && Dense(f, w) && w <= s && WellTimed(s) && Covers(w, i, t)
    requires m < |w| && t + HorizonOf(f) < w[m].time
    ensures Eval(f, w, i, t) == if Truth(f, s, t) then T_TRUE else T_FALSE
    ensures Truth(f, s, t) == Holds(f, s, i, t)
  {
    assert forall j, k | 0 <= j < k < |w| :: w[j] == s[j] && w[k] == s[k];
    DefinitePastHorizon(f, w, i, t, m);
    BoundedIsPastFree(f);
    PastFreeIsWellNested(f);
    WellNestedIsInSight(f, w, t);
    NotLast(w, i, t, m);
    VerdictIsTruthAtTime(f, w, s, i, t);
    CursorIsNoPartOfTruth(f, s, i, t);
  }

  lemma NotAt(phi: Formula, s: seq<Event>, j: nat)
    requires j < |s|
    ensures HoldsAt(Not(phi), s, j) == !HoldsAt(phi, s, j) && HoldsAt(True, s, j)
  {
    assert HoldsAt(Not(phi), s, j) == Holds(Not(phi), s, j, s[j].time);
  }

  /** always_less means what its name says: phi at every event of the interval. */
  lemma AlwaysMeansEveryEvent(phi: Formula, b: int, s: seq<Event>, i: nat, t: int)
    requires i < |s|
    ensures Holds(Always(phi, b), s, i, t) <==>
              forall j | i <= j < |s| && s[j].time < t + b :: HoldsAt(phi, s, j)
  {
    var u := Until(True, Not(phi), b);
    assert Holds(Always(phi, b), s, i, t) == !Holds(u, s, i, t);
    forall j | 0 <= j < |s| ensures HoldsAt(Not(phi), s, j) == !HoldsAt(phi, s, j) && HoldsAt(True, s, j) {
      NotAt(phi, s, j);
    }
    assert Holds(u, s, i, t) == exists j :: i <= j < |s| && s[j].time < t + b && HoldsAt(Not(phi), s, j)
                                            && forall k | i <= k < j :: HoldsAt(True, s, k);
  }

  /** historically_less: phi at every event before t and later than t - b. */
  lemma HistoricallyMeansEveryEvent(phi: Formula, b: int, s: seq<Event>, i: nat, t: int)
    requires i < |s|
    ensures Holds(Historically(phi, b), s, i, t) <==>
              forall j | 0 <= j <= i && s[j].time != t && t - b < s[j].time :: HoldsAt(phi, s, j)
  {
    var u := Since(True, Not(phi), b);
    assert Holds(Historically(phi, b), s, i, t) == !Holds(u, s, i, t);
    forall j | 0 <= j < |s| ensures HoldsAt(Not(phi), s, j) == !HoldsAt(phi, s, j) && HoldsAt(True, s, j) {
      NotAt(phi, s, j);
    }
    assert Holds(u, s, i, t) == exists j :: 0 <= j <= i && s[j].time != t && t - b < s[j].time
                                            && HoldsAt(Not(phi), s, j)
                                            && forall k | j < k <= i && s[k].time != t :: HoldsAt(True, s, k);
  }

  /**
   * On a bound that reaches past every buffered event, until_less with true on the left answers what
   * eventually_less_unbounded answers, except where the latter turns exhaustion into false.
   */
  lemma {:induction false} UnboundedAgreesWithUntil(phi: Formula, b: int, w: seq<Event>, j: nat, t: int)
    requires j < |w| && forall k | 0 <= k < |w| :: w[k].time < b + t
    ensures var e := EventuallyFrom(EventuallyUnbounded(phi), w, j);
            UntilFrom(Until(True, phi, b), w, j, t) == if e == T_FALSE then T_UNKNOWN else e
    decreases |w| - j
  {
    assert EvalAt(True, w, j) == Eval(True, w, j, w[j].time);
    if j + 1 < |w| { UnboundedAgreesWithUntil(phi, b, w, j + 1, t); }
  }

  /** eventually_equal answers with phi at the event in force at t + b, or at the last buffered one. */
  lemma {:induction false} EventuallyEqualReadsOneEvent(phi: Formula, b: int, w: seq<Event>, j: nat, t: int,
                                                        symbol: ThreeValued) returns (k: nat)
    requires j < |w| && w[j].time <= t + b
    ensures j <= k && Covers(w, k, t + b)
    ensures EventuallyEqualFrom(EventuallyEqual(phi, b), w, j, t, symbol) == EvalAt(phi, w, k)
    decreases |w| - j
  {
    k := j;
    if j + 1 < |w| && w[j + 1].time <= t + b {
      k := EventuallyEqualReadsOneEvent(phi, b, w, j + 1, t, EvalAt(phi, w, j));
    }
  }

  /** eventually_equal of a proposition is the proposition at the pair that brackets u = t + b, unknown without one. */
  lemma EventuallyEqualIsSeekThenProp(p: int, b: int, w: seq<Event>, i: nat, t: int, u: int)
    requires Increasing(w) && Covers(w, i, t) && 0 <= b && u == t + b
    ensures forall k: nat | Brackets(w, k, u) ::
              Eval(EventuallyEqual(Prop(p), b), w, i, t) == Eval(Prop(p), w, k, u)
    ensures (forall k :: !Brackets(w, k, u)) ==> Eval(EventuallyEqual(Prop(p), b), w, i, t) == T_UNKNOWN
  {
    var f := EventuallyEqual(Prop(p), b);
    var j := EventuallyEqualReadsOneEvent(Prop(p), b, w, i, t, T_UNKNOWN);
    assert Eval(f, w, i, t) == EventuallyEqualFrom(f, w, i, t, T_UNKNOWN);
    assert EvalAt(Prop(p), w, j) == Eval(Prop(p), w, j, w[j].time);
    assert j + 1 < |w| ==> Brackets(w, j, u);
    forall k: nat | Brackets(w, k, u) ensures k == j { CoveringEventIsUnique(w, k, j, u); }
  }
}
