/** What the last buffered event can decide: only what a formula's shape decides on its own. */
module Constants {
  import opened Values
  import opened Traces
  import opened Integrals
  import opened Formulas

  /** The value of a past-free formula that no event has any say in. */
  function Known(f: Formula): ThreeValued {
    match f
    case True => T_TRUE
    case Prop(_) => T_UNKNOWN
    case Not(g) => B3Not(Known(g))
    case Or(g, h) => B3Or(Known(g), Known(h))
    case And(g, h) => B3And(Known(g), Known(h))
    case Until(g, h, b) => if b <= 0 then T_FALSE else B4ToB3(EvalI(Known(g), Known(h)))
    case Since(_, _, _) => T_UNKNOWN
    case EventuallyEqual(g, b) => if b < 0 then T_UNKNOWN else Known(g)
    case EventuallyUnbounded(g) => Known(g)
    case PastEventuallyEqual(_, _) => T_UNKNOWN
    case Less(m, n) => B3LessThan(KnownValue(m), KnownValue(n))
  }

  function KnownValue(m: Term): Duration {
    match m
    case Constant(n) => Duration(n, false)
    case Integral(_, _) => Duration(0, true)
    case Sum(l, r) => SumDur(KnownValue(l), KnownValue(r))
    case Product(l, r) => MultDur(KnownValue(l), KnownValue(r))
  }

  /** At the last buffered event every duration is unknown and counts nothing. */
  lemma {:induction false} LastValue(m: Term, w: seq<Event>)
    requires PastFreeTerm(m) && |w| > 0
    ensures Value(m, w, |w| - 1, w[|w| - 1].time) == KnownValue(m)
  {
    match m
    case Constant(_) =>
    case Integral(f, upper) => DurationEnds(Indicators(f, w), w, w[|w| - 1].time, upper, Duration(0, false));
    case Sum(l, r) => LastValue(l, w); LastValue(r, w);
    case Product(l, r) => LastValue(l, w); LastValue(r, w);
  }

  /** A term without durations has one value everywhere. */
  lemma {:induction false} KnownValueIsTheValue(m: Term, w: seq<Event>, k: nat, t: int)
    requires PastFreeTerm(m) && !KnownValue(m).unknown && k < |w|
    ensures Value(m, w, k, t) == KnownValue(m) && TrueValue(m, w, t) == KnownValue(m).ticks
  {
    match m
    case Constant(_) =>
    case Sum(l, r) => KnownValueIsTheValue(l, w, k, t); KnownValueIsTheValue(r, w, k, t);
    case Product(l, r) => KnownValueIsTheValue(l, w, k, t); KnownValueIsTheValue(r, w, k, t);
  }

  /** On the last buffered event a past-free formula has exactly its event-independent value. */
  lemma {:induction false} LastEventDecidesNothing(f: Formula, w: seq<Event>)
    requires PastFree(f) && |w| > 0
    ensures EvalAt(f, w, |w| - 1) == Known(f)
  {
    var t := w[|w| - 1].time;
    assert EvalAt(f, w, |w| - 1) == Eval(f, w, |w| - 1, t);
    match f
    case True =>
    case Prop(_) =>
    case Not(g) => LastEventDecidesNothing(g, w);
    case Or(g, h) => LastEventDecidesNothing(g, w); LastEventDecidesNothing(h, w);
    case And(g, h) => LastEventDecidesNothing(g, w); LastEventDecidesNothing(h, w);
    case Until(g, h, _) =>
      LastEventDecidesNothing(g, w);
      LastEventDecidesNothing(h, w);
      assert Eval(f, w, |w| - 1, t) == UntilFrom(f, w, |w| - 1, t);
    case EventuallyEqual(g, _) =>
      LastEventDecidesNothing(g, w);
      assert Eval(f, w, |w| - 1, t) == EventuallyEqualFrom(f, w, |w| - 1, t, T_UNKNOWN);
    case EventuallyUnbounded(g) =>
      LastEventDecidesNothing(g, w);
      assert Eval(f, w, |w| - 1, t) == EventuallyFrom(f, w, |w| - 1);
    case Less(m, n) => LastValue(m, w); LastValue(n, w);
  }

  /** An event-independent value is the verdict at every event of every window. */
  lemma {:induction false} KnownIsTheVerdict(f: Formula, w: seq<Event>, k: nat)
    requires PastFree(f) && Known(f) != T_UNKNOWN && k < |w|
    ensures EvalAt(f, w, k) == Known(f)
    decreases f, 0
  {
    assert EvalAt(f, w, k) == Eval(f, w, k, w[k].time);
    match f
    case True =>
    case Not(g) => KnownIsTheVerdict(g, w, k);
    case Or(g, h) => KnownOrNot(g, w, k); KnownOrNot(h, w, k);
    case And(g, h) => KnownOrNot(g, w, k); KnownOrNot(h, w, k);
    case Until(g, h, _) =>
      KnownOrNot(g, w, k);
      KnownOrNot(h, w, k);
      assert Eval(f, w, k, w[k].time) == UntilFrom(f, w, k, w[k].time);
    case EventuallyEqual(_, _) => KnownEventuallyEqual(f, w, k, w[k].time, T_UNKNOWN);
    case EventuallyUnbounded(_) =>
      KnownEventually(f, w, k);
      assert Eval(f, w, k, w[k].time) == EventuallyFrom(f, w, k);
    case Less(m, n) => KnownValueIsTheValue(m, w, k, w[k].time); KnownValueIsTheValue(n, w, k, w[k].time);
  }

  lemma {:induction false} KnownOrNot(f: Formula, w: seq<Event>, k: nat)
    requires PastFree(f) && k < |w|
    ensures Known(f) != T_UNKNOWN ==> EvalAt(f, w, k) == Known(f)
    decreases f, 1
  {
    if Known(f) != T_UNKNOWN { KnownIsTheVerdict(f, w, k); }
  }

  lemma {:induction false} KnownEventuallyEqual(f: Formula, w: seq<Event>, j: nat, t: int, symbol: ThreeValued)
    requires f.EventuallyEqual? && PastFree(f) && Known(f.phi) != T_UNKNOWN && j < |w|
    requires w[j].time <= t + f.b || symbol == Known(f.phi)
    ensures EventuallyEqualFrom(f, w, j, t, symbol) == Known(f.phi)
    decreases f, 0, |w| - j
  {
    if w[j].time <= f.b + t {
      KnownIsTheVerdict(f.phi, w, j);
      if j + 1 < |w| { KnownEventuallyEqual(f, w, j + 1, t, EvalAt(f.phi, w, j)); }
    }
  }

  lemma {:induction false} KnownEventually(f: Formula, w: seq<Event>, j: nat)
    requires f.EventuallyUnbounded? && PastFree(f) && Known(f.phi) != T_UNKNOWN && j < |w|
    ensures EventuallyFrom(f, w, j) == Known(f.phi)
    decreases f, 0, |w| - j
  {
    KnownIsTheVerdict(f.phi, w, j);
    if j + 1 < |w| { KnownEventually(f, w, j + 1); }
  }

  /** An event-independent value is the truth at every event of every trace. */
  lemma {:induction false} KnownIsTheTruth(f: Formula, s: seq<Event>, k: nat)
    requires PastFree(f) && Increasing(s) && k < |s|
    ensures Agrees(Known(f), HoldsAt(f, s, k))
  {
    match f
    case True =>
    case Prop(_) =>
    case Not(g) => KnownIsTheTruth(g, s, k);
    case Or(g, h) => KnownIsTheTruth(g, s, k); KnownIsTheTruth(h, s, k);
    case And(g, h) => KnownIsTheTruth(g, s, k); KnownIsTheTruth(h, s, k);
    case Until(g, h, b) =>
      forall j: nat | j < |s|
        ensures Agrees(Known(g), HoldsAt(g, s, j)) && Agrees(Known(h), HoldsAt(h, s, j))
      {
        KnownIsTheTruth(g, s, j);
        KnownIsTheTruth(h, s, j);
      }
      KnownUntil(f, s, k);
    case EventuallyEqual(g, b) =>
      forall j: nat | j < |s| ensures Agrees(Known(g), HoldsAt(g, s, j)) { KnownIsTheTruth(g, s, j); }
      if b >= 0 {
        var j := CoveringEvent(s, k, s[k].time + b);
        OnlyCovering(f, s, k, j, s[k].time);
        assert HoldsAt(f, s, k) == Holds(f, s, k, s[k].time);
      }
    case EventuallyUnbounded(g) =>
      forall j: nat | j < |s| ensures Agrees(Known(g), HoldsAt(g, s, j)) { KnownIsTheTruth(g, s, j); }
      assert HoldsAt(f, s, k) == Holds(f, s, k, s[k].time);
      assert Known(g) == T_TRUE ==> HoldsAt(g, s, k);
    case Less(m, n) =>
      assert HoldsAt(f, s, k) == Holds(f, s, k, s[k].time);
      if Known(f) != T_UNKNOWN {
        KnownValueIsTheValue(m, s, k, s[k].time);
        KnownValueIsTheValue(n, s, k, s[k].time);
      }
  }

  lemma KnownUntil(f: Formula, s: seq<Event>, k: nat)
    requires f.Until? && Increasing(s) && k < |s|
    requires forall j | 0 <= j < |s| ::
               Agrees(Known(f.phi1), HoldsAt(f.phi1, s, j)) && Agrees(Known(f.phi2), HoldsAt(f.phi2, s, j))
    ensures Agrees(Known(f), HoldsAt(f, s, k))
  {
    var t := s[k].time;
    assert HoldsAt(f, s, k) == Holds(f, s, k, t);
    if f.b > 0 && Known(f.phi2) == T_TRUE {
      assert HoldsAt(f.phi2, s, k);
    } else if Holds(f, s, k, t) {
      var j :| k <= j < |s| && s[j].time < t + f.b && HoldsAt(f.phi2, s, j)
               && forall m | k <= m < j :: HoldsAt(f.phi1, s, m);
      assert t <= s[j].time;
      assert k < j ==> HoldsAt(f.phi1, s, k);
    }
  }

  lemma OnlyCovering(f: Formula, s: seq<Event>, i: nat, k: nat, t: int)
    requires f.EventuallyEqual? && Increasing(s) && i <= k && Covers(s, k, t + f.b)
    ensures Holds(f, s, i, t) == HoldsAt(f.phi, s, k)
  {
    var u := t + f.b;
    forall j | Covers(s, j, u) ensures j == k { CoveringEventIsUnique(s, j, k, u); }
  }
}
