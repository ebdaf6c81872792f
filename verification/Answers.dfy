/**
 * What each operator answers, unknown included, in terms of the answers of its subformulas: which event decides,
 * and what is answered when none does.
 */
module Answers {
  import opened Values
  import opened Traces
  import opened Formulas
  import opened Horizon

  // ---------- propositions, connectives, comparisons ----------

  /** A proposition is answered exactly from a cursor whose event and the next one bracket t. */
  lemma PropAnswers(p: int, w: seq<Event>, i: nat, t: int)
    requires i < |w|
    ensures Eval(Prop(p), w, i, t) != T_UNKNOWN <==> Brackets(w, i, t)
    ensures Eval(Prop(p), w, i, t) == T_TRUE <==> Brackets(w, i, t) && w[i].data == p
  {
  }

  /** Every two-valued completion of the operands gives answer v. */
  ghost predicate OrForces(a: ThreeValued, b: ThreeValued, v: ThreeValued) {
    forall x, y | Agrees(a, x) && Agrees(b, y) :: (v == T_TRUE) == (x || y)
  }

  ghost predicate AndForces(a: ThreeValued, b: ThreeValued, v: ThreeValued) {
    forall x, y | Agrees(a, x) && Agrees(b, y) :: (v == T_TRUE) == (x && y)
  }

  ghost predicate NotForces(a: ThreeValued, v: ThreeValued) {
    forall x | Agrees(a, x) :: (v == T_TRUE) == !x
  }

  /** A connective answers true or false exactly when every completion of unknown operands gives that answer. */
  lemma ConnectivesAnswer(g: Formula, h: Formula, w: seq<Event>, i: nat, t: int, v: ThreeValued)
    requires i < |w| && v != T_UNKNOWN
    ensures Eval(Or(g, h), w, i, t) == v <==> OrForces(Eval(g, w, i, t), Eval(h, w, i, t), v)
    ensures Eval(And(g, h), w, i, t) == v <==> AndForces(Eval(g, w, i, t), Eval(h, w, i, t), v)
    ensures Eval(Not(g), w, i, t) == v <==> NotForces(Eval(g, w, i, t), v)
  {
    ConnectivesAreExact(Eval(g, w, i, t), Eval(h, w, i, t), v);
  }

  /** Some duration in the term is unknown. */
  predicate HasUnknown(m: Term, w: seq<Event>, i: nat, t: int)
    requires i < |w|
  {
    match m
    case Constant(_) => false
    case Integral(f, upper) => DurationTerm(f, w, i, t, upper).unknown
    case Sum(l, r) => HasUnknown(l, w, i, t) || HasUnknown(r, w, i, t)
    case Product(l, r) => HasUnknown(l, w, i, t) || HasUnknown(r, w, i, t)
  }

  lemma {:induction false} UnknownIffADurationIs(m: Term, w: seq<Event>, i: nat, t: int)
    requires i < |w|
    ensures Value(m, w, i, t).unknown <==> HasUnknown(m, w, i, t)
  {
    match m
    case Constant(_) =>
    case Integral(_, _) =>
    case Sum(l, r) => UnknownIffADurationIs(l, w, i, t); UnknownIffADurationIs(r, w, i, t);
    case Product(l, r) => UnknownIffADurationIs(l, w, i, t); UnknownIffADurationIs(r, w, i, t);
  }

  /** A comparison is answered exactly when no duration in it is unknown, and then by the numbers. */
  lemma ComparisonAnswers(m: Term, n: Term, w: seq<Event>, i: nat, t: int)
    requires i < |w|
    ensures Eval(Less(m, n), w, i, t) == T_UNKNOWN <==> HasUnknown(m, w, i, t) || HasUnknown(n, w, i, t)
    ensures Eval(Less(m, n), w, i, t) == T_TRUE ==> Value(m, w, i, t).ticks < Value(n, w, i, t).ticks
    ensures Eval(Less(m, n), w, i, t) == T_FALSE ==> Value(m, w, i, t).ticks >= Value(n, w, i, t).ticks
  {
    UnknownIffADurationIs(m, w, i, t);
    UnknownIffADurationIs(n, w, i, t);
  }

  // ---------- until ----------

  /** Event j decides nothing: the left side still holds and the right side does not yet. */
  predicate GoesOn(g: Formula, h: Formula, w: seq<Event>, j: nat)
    requires j < |w|
  {
    EvalAt(g, w, j) == T_TRUE && EvalAt(h, w, j) == T_FALSE
  }

  /** What the event that decides answers: the right side unless it is false, and else the left side. */
  function Decision(g: Formula, h: Formula, w: seq<Event>, k: nat): ThreeValued
    requires k < |w|
  {
    if EvalAt(h, w, k) != T_FALSE then EvalAt(h, w, k) else EvalAt(g, w, k)
  }

  /** The first event before t + b that decides gives the answer, whether or not t + b has been reached. */
  lemma {:induction false} UntilDecides(g: Formula, h: Formula, b: int, w: seq<Event>, i: nat, k: nat, t: int)
    requires i <= k < |w| && w[k].time < t + b && !GoesOn(g, h, w, k)
    requires forall j: nat | i <= j < k :: w[j].time < t + b && GoesOn(g, h, w, j)
    ensures Eval(Until(g, h, b), w, i, t) == Decision(g, h, w, k)
    decreases k - i
  {
    var f := Until(g, h, b);
    assert Eval(f, w, i, t) == UntilFrom(f, w, i, t);
    if i < k {
      UntilDecides(g, h, b, w, i + 1, k, t);
      assert Eval(f, w, i + 1, t) == UntilFrom(f, w, i + 1, t);
    }
  }

  /** With none, the answer is false once an event at t + b or later is buffered, and unknown until then. */
  lemma {:induction false} UntilRunsOut(g: Formula, h: Formula, b: int, w: seq<Event>, i: nat, t: int)
    requires i < |w| && forall j: nat | i <= j < |w| && w[j].time < t + b :: GoesOn(g, h, w, j)
    ensures Eval(Until(g, h, b), w, i, t)
            == if exists j :: i <= j < |w| && w[j].time >= t + b then T_FALSE else T_UNKNOWN
    decreases |w| - i
  {
    var f := Until(g, h, b);
    assert Eval(f, w, i, t) == UntilFrom(f, w, i, t);
    if w[i].time < t + b && i + 1 < |w| {
      UntilRunsOut(g, h, b, w, i + 1, t);
      assert Eval(f, w, i + 1, t) == UntilFrom(f, w, i + 1, t);
    }
  }

  /** always_less: the first event before t + b where phi is not true gives the answer. */
  lemma AlwaysDecides(phi: Formula, b: int, w: seq<Event>, i: nat, k: nat, t: int)
    requires i <= k < |w| && w[k].time < t + b && EvalAt(phi, w, k) != T_TRUE
    requires forall j: nat | i <= j < k :: w[j].time < t + b && EvalAt(phi, w, j) == T_TRUE
    ensures Eval(Always(phi, b), w, i, t) == EvalAt(phi, w, k)
  {
    forall j: nat | i <= j <= k { NegatedAt(phi, w, j); }
    UntilDecides(True, Not(phi), b, w, i, k, t);
    assert Eval(Always(phi, b), w, i, t) == B3Not(Eval(Until(True, Not(phi), b), w, i, t));
  }

  /** With none, it is true once an event at t + b or later is buffered, and unknown until then. */
  lemma AlwaysRunsOut(phi: Formula, b: int, w: seq<Event>, i: nat, t: int)
    requires i < |w| && forall j: nat | i <= j < |w| && w[j].time < t + b :: EvalAt(phi, w, j) == T_TRUE
    ensures Eval(Always(phi, b), w, i, t)
            == if exists j :: i <= j < |w| && w[j].time >= t + b then T_TRUE else T_UNKNOWN
  {
    forall j: nat | i <= j < |w| { NegatedAt(phi, w, j); }
    UntilRunsOut(True, Not(phi), b, w, i, t);
    assert Eval(Always(phi, b), w, i, t) == B3Not(Eval(Until(True, Not(phi), b), w, i, t));
  }

  lemma NegatedAt(phi: Formula, w: seq<Event>, j: nat)
    requires j < |w|
    ensures EvalAt(True, w, j) == T_TRUE
    ensures EvalAt(Not(phi), w, j) == T_FALSE <==> EvalAt(phi, w, j) == T_TRUE
    ensures EvalAt(Not(phi), w, j) == T_TRUE <==> EvalAt(phi, w, j) == T_FALSE
  {
    assert EvalAt(True, w, j) == Eval(True, w, j, w[j].time);
    assert EvalAt(Not(phi), w, j) == Eval(Not(phi), w, j, w[j].time) == B3Not(EvalAt(phi, w, j));
  }

  // ---------- since ----------

  /** The nearest event from i down, not at t, that is within the bound and decides gives the answer. */
  lemma {:induction false} SinceDecides(g: Formula, h: Formula, b: int, w: seq<Event>, i: nat, k: nat, t: int)
    requires k <= i < |w| && w[k].time != t && t - b < w[k].time && !GoesOn(g, h, w, k)
    requires forall j: nat | k < j <= i && w[j].time != t :: t - b < w[j].time && GoesOn(g, h, w, j)
    ensures Eval(Since(g, h, b), w, i, t) == Decision(g, h, w, k)
    decreases i
  {
    var f := Since(g, h, b);
    assert Eval(f, w, i, t) == SinceFrom(f, w, i, t);
    if k < i {
      SinceDecides(g, h, b, w, i - 1, k, t);
      assert Eval(f, w, i - 1, t) == SinceFrom(f, w, i - 1, t);
    }
  }

  /** With none before an event at or past the bound, the answer is false just at t - b and unknown past it. */
  lemma {:induction false} SinceStops(g: Formula, h: Formula, b: int, w: seq<Event>, i: nat, k: nat, t: int)
    requires k <= i < |w| && 0 <= w[k].time <= t - b && w[k].time != t
    requires forall j: nat | k < j <= i && w[j].time != t :: t - b < w[j].time && GoesOn(g, h, w, j)
    ensures Eval(Since(g, h, b), w, i, t) == if w[k].time == t - b then T_FALSE else T_UNKNOWN
    decreases i
  {
    var f := Since(g, h, b);
    assert Eval(f, w, i, t) == SinceFrom(f, w, i, t);
    if k < i {
      SinceStops(g, h, b, w, i - 1, k, t);
      assert Eval(f, w, i - 1, t) == SinceFrom(f, w, i - 1, t);
    }
  }

  /** With none and no such event, the answer is false, if the bound is not negative. */
  lemma {:induction false} SinceRunsOut(g: Formula, h: Formula, b: int, w: seq<Event>, i: nat, t: int)
    requires i < |w|
    requires forall j: nat | j <= i && w[j].time != t :: t - b < w[j].time && GoesOn(g, h, w, j)
    ensures Eval(Since(g, h, b), w, i, t) == if t - b <= w[0].time then T_FALSE else T_UNKNOWN
    ensures t - b <= w[0].time || (b < 0 && w[0].time == t)
    decreases i
  {
    var f := Since(g, h, b);
    assert Eval(f, w, i, t) == SinceFrom(f, w, i, t);
    if i > 0 {
      SinceRunsOut(g, h, b, w, i - 1, t);
      assert Eval(f, w, i - 1, t) == SinceFrom(f, w, i - 1, t);
    }
  }

  /** historically_less: the nearest event, not at t, within the bound and where phi is not true gives the answer. */
  lemma HistoricallyDecides(phi: Formula, b: int, w: seq<Event>, i: nat, k: nat, t: int)
    requires k <= i < |w| && w[k].time != t && t - b < w[k].time && EvalAt(phi, w, k) != T_TRUE
    requires forall j: nat | k < j <= i && w[j].time != t :: t - b < w[j].time && EvalAt(phi, w, j) == T_TRUE
    ensures Eval(Historically(phi, b), w, i, t) == EvalAt(phi, w, k)
  {
    forall j: nat | k <= j <= i { NegatedAt(phi, w, j); }
    SinceDecides(True, Not(phi), b, w, i, k, t);
    assert Eval(Historically(phi, b), w, i, t) == B3Not(Eval(Since(True, Not(phi), b), w, i, t));
  }

  /** With none before an event at or past the bound, it is true just at t - b and unknown past it. */
  lemma HistoricallyStops(phi: Formula, b: int, w: seq<Event>, i: nat, k: nat, t: int)
    requires k <= i < |w| && 0 <= w[k].time <= t - b && w[k].time != t
    requires forall j: nat | k < j <= i && w[j].time != t :: t - b < w[j].time && EvalAt(phi, w, j) == T_TRUE
    ensures Eval(Historically(phi, b), w, i, t) == if w[k].time == t - b then T_TRUE else T_UNKNOWN
  {
    forall j: nat | k < j <= i { NegatedAt(phi, w, j); }
    SinceStops(True, Not(phi), b, w, i, k, t);
    assert Eval(Historically(phi, b), w, i, t) == B3Not(Eval(Since(True, Not(phi), b), w, i, t));
  }

  // ---------- eventually ----------

  /** eventually_equal over any formula: phi at the buffered event in force at t + b, unknown from a cursor past it. */
  lemma EventuallyEqualAnswers(phi: Formula, b: int, w: seq<Event>, i: nat, t: int, k: nat)
    requires Increasing(w) && i < |w|
    ensures i <= k && Covers(w, k, t + b) ==> Eval(EventuallyEqual(phi, b), w, i, t) == EvalAt(phi, w, k)
    ensures t + b < w[i].time ==> Eval(EventuallyEqual(phi, b), w, i, t) == T_UNKNOWN
  {
    var f, u := EventuallyEqual(phi, b), t + b;
    assert Eval(f, w, i, t) == EventuallyEqualFrom(f, w, i, t, T_UNKNOWN);
    if i <= k && Covers(w, k, u) {
      assert i < k ==> w[i].time < w[k].time;
      var m := EventuallyEqualReadsOneEvent(phi, b, w, i, t, T_UNKNOWN);
      CoveringEventIsUnique(w, k, m, u);
    }
  }

  /** eventually_less_unbounded: the first event where phi is not false gives the answer. */
  lemma {:induction false} EventuallyDecides(phi: Formula, w: seq<Event>, i: nat, k: nat, t: int)
    requires i <= k < |w| && EvalAt(phi, w, k) != T_FALSE
    requires forall j: nat | i <= j < k :: EvalAt(phi, w, j) == T_FALSE
    ensures Eval(EventuallyUnbounded(phi), w, i, t) == EvalAt(phi, w, k)
    decreases k - i
  {
    var f := EventuallyUnbounded(phi);
    assert Eval(f, w, i, t) == EventuallyFrom(f, w, i);
    if i < k {
      assert EvalAt(f.phi, w, i) == T_FALSE;
      EventuallyDecides(phi, w, i + 1, k, t);
      assert Eval(f, w, i + 1, t) == EventuallyFrom(f, w, i + 1);
    }
  }

  /** With none it is false. */
  lemma {:induction false} EventuallyRunsOut(phi: Formula, w: seq<Event>, i: nat, t: int)
    requires i < |w| && forall j: nat | i <= j < |w| :: EvalAt(phi, w, j) == T_FALSE
    ensures Eval(EventuallyUnbounded(phi), w, i, t) == T_FALSE
    decreases |w| - i
  {
    var f := EventuallyUnbounded(phi);
    assert Eval(f, w, i, t) == EventuallyFrom(f, w, i);
    if i + 1 < |w| {
      EventuallyRunsOut(phi, w, i + 1, t);
      assert Eval(f, w, i + 1, t) == EventuallyFrom(f, w, i + 1);
    }
  }

  // ---------- past eventually ----------

  /** pasteventually_equal: phi at the earliest event, not at t, later than t - b; unknown when there is none. */
  lemma PastEventuallyAnswers(phi: Formula, b: int, w: seq<Event>, i: nat, t: int)
    requires WellTimed(w) && i < |w|
    ensures forall k: nat | k <= i && FirstWithin(w, k, t, b) ::
              Eval(PastEventuallyEqual(phi, b), w, i, t) == EvalAt(phi, w, k)
    ensures (forall k: nat | k <= i :: !FirstWithin(w, k, t, b)) ==>
              Eval(PastEventuallyEqual(phi, b), w, i, t) == T_UNKNOWN
  {
    var f := PastEventuallyEqual(phi, b);
    assert Eval(f, w, i, t) == PastEventuallyFrom(f, w, i, t, T_UNKNOWN);
    forall k: nat | k <= i && FirstWithin(w, k, t, b) ensures Eval(f, w, i, t) == EvalAt(phi, w, k) {
      PastEventuallyReadsOneEvent(phi, b, w, i, k, t, T_UNKNOWN);
    }
    if forall k: nat | k <= i :: !FirstWithin(w, k, t, b) {
      NoneWithin(b, w, i, t);
      PastEventuallyReadsNone(phi, b, w, i, t, T_UNKNOWN);
    }
  }

  lemma {:induction false} PastEventuallyReadsOneEvent(phi: Formula, b: int, w: seq<Event>, j: nat, k: nat, t: int,
                                                       symbol: ThreeValued)
    requires WellTimed(w) && k <= j < |w| && FirstWithin(w, k, t, b)
    ensures PastEventuallyFrom(PastEventuallyEqual(phi, b), w, j, t, symbol) == EvalAt(phi, w, k)
    decreases j
  {
    if k < j {
      assert w[k].time < w[j].time;
      PastEventuallyReadsOneEvent(phi, b, w, j - 1, k, t, if w[j].time == t then symbol else EvalAt(phi, w, j));
    } else if k > 0 {
      PastEventuallyReadsNone(phi, b, w, k - 1, t, EvalAt(phi, w, k));
    }
  }

  /** From below all that counts the loop changes nothing. */
  lemma {:induction false} PastEventuallyReadsNone(phi: Formula, b: int, w: seq<Event>, j: nat, t: int,
                                                   symbol: ThreeValued)
    requires WellTimed(w) && j < |w| && forall m: nat | m <= j :: w[m].time == t || w[m].time <= t - b
    ensures PastEventuallyFrom(PastEventuallyEqual(phi, b), w, j, t, symbol) == symbol
    decreases j
  {
    if w[j].time == t && j > 0 { PastEventuallyReadsNone(phi, b, w, j - 1, t, symbol); }
  }

  lemma {:induction false} NoneWithin(b: int, w: seq<Event>, i: nat, t: int)
    requires i < |w| && forall k: nat | k <= i :: !FirstWithin(w, k, t, b)
    ensures forall m: nat | m <= i :: w[m].time == t || w[m].time <= t - b
    decreases i
  {
    if i > 0 { NoneWithin(b, w, i - 1, t); }
    assert !FirstWithin(w, i, t, b);
  }
}
