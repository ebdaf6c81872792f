/** Terms over durations, as b3_lessthan compares them. */
module Terms {
  import opened Values
  import opened Traces
  import opened Formulas
  import opened Integrals
  import opened Durations
  import opened Soundness
  import opened Irrevocability
  import opened Revocation

  /** Every duration in the term starts under event i and ends under a later, bracketed one. */
  ghost predicate Spread(term: Term, w: seq<Event>, i: nat, t: int)
    requires |w| > 0
  {
    match term
    case Constant(_) => true
    case Integral(f, upper) => InSight(f, w, t + upper) && Dense(f, w) && exists k :: i < k && Closed(w, i, k, t, upper)
    case Sum(l, r) => Spread(l, w, i, t) && Spread(r, w, i, t)
    case Product(l, r) => Spread(l, w, i, t) && Spread(r, w, i, t)
  }

  lemma {:induction false} DefiniteValueIsTrue(term: Term, w: seq<Event>, s: seq<Event>, i: nat, t: int)
    requires w <= s && WellTimed(s) && i < |w| && Spread(term, w, i, t) && !Value(term, w, i, t).unknown
    ensures Value(term, w, i, t).ticks == TrueValue(term, s, t)
  {
    match term
    case Constant(_) =>
    case Integral(f, upper) =>
      var k :| i < k && Closed(w, i, k, t, upper);
      forall j: nat | i <= j <= k ensures Agrees(EvalAt(f, w, j), HoldsAt(f, s, j)) {
        assert j < k ==> w[j].time < w[k].time;
        VerdictAtIsTruth(f, w, s, j, t + upper);
      }
      DefiniteDurationIsTruth(f, w, s, i, i, k, t, upper);
    case Sum(l, r) => DefiniteValueIsTrue(l, w, s, i, t); DefiniteValueIsTrue(r, w, s, i, t);
    case Product(l, r) => DefiniteValueIsTrue(l, w, s, i, t); DefiniteValueIsTrue(r, w, s, i, t);
  }

  /** A definite comparison of terms is the comparison of their true values, on every extension of the window. */
  lemma ComparisonIsTruth(m: Term, n: Term, w: seq<Event>, s: seq<Event>, i: nat, t: int)
    requires w <= s && WellTimed(s) && i < |w| && Spread(m, w, i, t) && Spread(n, w, i, t)
    ensures Agrees(B3LessThan(Value(m, w, i, t), Value(n, w, i, t)), TrueValue(m, s, t) < TrueValue(n, s, t))
  {
    if !Value(m, w, i, t).unknown && !Value(n, w, i, t).unknown {
      DefiniteValueIsTrue(m, w, s, i, t);
      DefiniteValueIsTrue(n, w, s, i, t);
    }
  }

  // ---------- comparisons of durations shorter than a gap ----------

  lemma {:induction false} AllTicks(marks: seq<Duration>, w: seq<Event>, t: int, n: nat)
    requires |w| > 0 && Marked(marks, w) && forall j | 0 <= j < |w| :: marks[j].ticks == 1
    ensures Ticks(marks, w, t, n) == n
  {
    if n > 0 { AllTicks(marks, w, t, n - 1); }
  }

  lemma {:induction false} AllTrueTicks(truths: seq<bool>, s: seq<Event>, t: int, n: nat)
    requires |truths| == |s| > 0 && forall j | 0 <= j < |s| :: truths[j]
    ensures TrueTicks(truths, s, t, n) == n
  {
    if n > 0 { AllTrueTicks(truths, s, t, n - 1); }
  }

  /** The time that the constant true takes up, compared with one tick more. */
  function Shorter(upper: nat): Formula {
    Less(Integral(True, upper), Constant(upper + 1))
  }

  /** Over a gap longer than upper the comparison comes out false, though it is true on every trace. */
  lemma LongGapIsWrong(w: seq<Event>, i: nat, upper: nat)
    requires WellTimed(w) && i + 1 < |w| && upper < w[i + 1].time - w[i].time
    ensures Eval(Shorter(upper), w, i, w[i].time) == T_FALSE && Holds(Shorter(upper), w, i, w[i].time)
  {
    var t, marks := w[i].time, Indicators(True, w);
    forall j: nat | j < |w| ensures marks[j] == Duration(1, false) && Truths(True, w)[j] {
      assert EvalAt(True, w, j) == Eval(True, w, j, w[j].time) == T_TRUE && marks[j] == Indicator(True, w, j);
      assert HoldsAt(True, w, j) == Holds(True, w, j, w[j].time);
    }
    IntegratesToTheLast(marks, w, i, i, t, upper, Duration(0, false));
    AllTicks(marks, w, t, w[|w| - 1].time - t);
    AllTrueTicks(Truths(True, w), w, t, upper);
    var m, n := Integral(True, upper), Constant(upper + 1);
    assert Value(m, w, i, t) == DurationTerm(True, w, i, t, upper) == Duration(w[|w| - 1].time - t, false);
    assert Eval(Shorter(upper), w, i, t) == B3LessThan(Value(m, w, i, t), Value(n, w, i, t));
    assert TrueValue(m, w, t) == upper;
  }

  /** Every comparison of a duration of length upper with a number is right and kept, from cursors not later than t. */
  ghost predicate ComparisonsStand(upper: nat, w: seq<Event>) {
    forall phi, n, s, i: nat, t |
      WellNested(phi) && Dense(phi, w) && i < |w| && w[i].time <= t && w <= s && WellTimed(s) ::
        IsRight(Less(Integral(phi, upper), Constant(n)), w, s, i, t)
  }

  /** So density is the exact condition: no gap of the window is longer than the duration. */
  lemma ComparisonsStandIff(upper: nat, w: seq<Event>)
    requires WellTimed(w)
    ensures ComparisonsStand(upper, w) <==> GapsWithin(w, upper)
  {
    if GapsWithin(w, upper) {
      forall phi, n, s, i: nat, t |
        WellNested(phi) && Dense(phi, w) && i < |w| && w[i].time <= t && w <= s && WellTimed(s)
        ensures IsRight(Less(Integral(phi, upper), Constant(n)), w, s, i, t)
      {
        var f := Less(Integral(phi, upper), Constant(n));
        assert WellNestedTerm(f.left) && WellNestedTerm(f.right) && DenseTerm(f.left, w) && DenseTerm(f.right, w);
        WellNestedIsInSight(f, w, t);
        VerdictIsTruth(f, w, s, i, t, t);
        VerdictIsIrrevocable(f, w, s, i, t, t);
      }
    } else {
      var i: nat :| i + 1 < |w| && w[i + 1].time - w[i].time > upper;
      LongGapIsWrong(w, i, upper);
      assert !IsRight(Shorter(upper), w, w, i, w[i].time);
    }
  }
}
