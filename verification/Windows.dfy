/** What overwriting the oldest events does to verdicts: nothing, unless a past operator reaches back to them. */
module Windows {
  import opened Values
  import opened Traces
  import opened Integrals
  import opened Formulas
  import opened Soundness
  import opened Timed
  import opened Rings

  /** How far before the time of evaluation a formula can look. */
  function Reach(f: Formula): nat {
    match f
    case True => 0
    case Prop(_) => 0
    case Not(g) => Reach(g)
    case Or(g, h) => Max(Reach(g), Reach(h))
    case And(g, h) => Max(Reach(g), Reach(h))
    case Until(g, h, _) => Max(Reach(g), Reach(h))
    case Since(g, h, b) => Max(0, b) + Max(Reach(g), Reach(h))
    case EventuallyEqual(g, _) => Reach(g)
    case EventuallyUnbounded(g) => Reach(g)
    case PastEventuallyEqual(g, b) => Max(0, b) + Reach(g)
    case Less(m, n) => Max(ReachOfTerm(m), ReachOfTerm(n))
  }

  function ReachOfTerm(m: Term): nat {
    match m
    case Constant(_) => 0
    case Integral(f, _) => Reach(f)
    case Sum(l, r) => Max(ReachOfTerm(l), ReachOfTerm(r))
    case Product(l, r) => Max(ReachOfTerm(l), ReachOfTerm(r))
  }

  /** With d events dropped, f has what it looks for at times from u on: the oldest event left is that far back. */
  ghost predicate Reaches(f: Formula, w: seq<Event>, d: nat, u: int)
    requires d < |w|
  {
    PastFree(f) || d == 0 || (WellTimed(w) && w[d].time < u && w[d].time + Reach(f) <= u)
  }

  ghost predicate ReachesTerm(m: Term, w: seq<Event>, d: nat, u: int)
    requires d < |w|
  {
    PastFreeTerm(m) || d == 0 || (WellTimed(w) && w[d].time < u && w[d].time + ReachOfTerm(m) <= u)
  }

  /** Then dropping them changes no verdict, from any cursor on an event that is left. */
  lemma {:induction false} BottomDoesNotMatter(f: Formula, w: seq<Event>, d: nat, i: nat, t: int)
    requires d <= i < |w| && Reaches(f, w, d, t) && Reaches(f, w, d, w[i].time)
    ensures Eval(f, w[d..], i - d, t) == Eval(f, w, i, t)
    decreases f, 1, 0
  {
    match f
    case True =>
    case Prop(_) =>
    case Not(g) => BottomDoesNotMatter(g, w, d, i, t);
    case Or(g, h) => BottomDoesNotMatter(g, w, d, i, t); BottomDoesNotMatter(h, w, d, i, t);
    case And(g, h) => BottomDoesNotMatter(g, w, d, i, t); BottomDoesNotMatter(h, w, d, i, t);
    case Until(_, _, _) => UntilIgnoresBottom(f, w, d, i, t);
    case Since(_, _, _) => SinceIgnoresBottom(f, w, d, i, t);
    case EventuallyEqual(_, _) => EventuallyEqualIgnoresBottom(f, w, d, i, t, T_UNKNOWN);
    case EventuallyUnbounded(_) => EventuallyIgnoresBottom(f, w, d, i);
    case PastEventuallyEqual(_, _) => PastEventuallyIgnoresBottom(f, w, d, i, t, T_UNKNOWN);
    case Less(m, n) => ValueIgnoresBottom(m, w, d, i, t); ValueIgnoresBottom(n, w, d, i, t);
  }

  lemma {:induction false} ValueIgnoresBottom(m: Term, w: seq<Event>, d: nat, i: nat, t: int)
    requires d <= i < |w| && ReachesTerm(m, w, d, w[i].time)
    ensures Value(m, w[d..], i - d, t) == Value(m, w, i, t)
    decreases m, 1, 0
  {
    match m
    case Constant(_) =>
    case Integral(f, upper) => DurationIgnoresBottom(f, w, d, i, t, upper);
    case Sum(l, r) => ValueIgnoresBottom(l, w, d, i, t); ValueIgnoresBottom(r, w, d, i, t);
    case Product(l, r) => ValueIgnoresBottom(l, w, d, i, t); ValueIgnoresBottom(r, w, d, i, t);
  }

  lemma {:induction false} DurationIgnoresBottom(f: Formula, w: seq<Event>, d: nat, i: nat, t: int, upper: int)
    requires d <= i < |w| && Reaches(f, w, d, w[i].time)
    ensures DurationTerm(f, w[d..], i - d, t, upper) == DurationTerm(f, w, i, t, upper)
    decreases f, 3, 0
  {
    var marks, kept := Indicators(f, w), Indicators(f, w[d..]);
    forall j: nat | i <= j < |w| ensures kept[j - d] == marks[j] {
      AtIgnoresBottom(f, w, d, j);
      assert kept[j - d] == Indicator(f, w[d..], j - d) && marks[j] == Indicator(f, w, j);
    }
    LoopIgnoresBottom(marks, kept, w, d, i, t, upper, Duration(0, false));
  }

  lemma {:induction false} LoopIgnoresBottom(marks: seq<Duration>, kept: seq<Duration>, w: seq<Event>, d: nat, j: nat,
                                             t: int, upper: int, acc: Duration)
    requires d <= j < |w| && |marks| == |w| && |kept| == |w| - d
    requires forall k: nat | j <= k < |w| :: kept[k - d] == marks[k]
    ensures DurationFrom(kept, w[d..], j - d, t, upper, acc) == DurationFrom(marks, w, j, t, upper, acc)
    decreases |w| - j
  {
    if j + 1 < |w| {
      DurationTurn(marks, w, j, t, upper, acc);
      DurationTurn(kept, w[d..], j - d, t, upper, acc);
      LoopIgnoresBottom(marks, kept, w, d, j + 1, t, upper, DurationStep(marks, w, j, t, upper, acc).0);
    }
  }

  lemma {:induction false} AtIgnoresBottom(f: Formula, w: seq<Event>, d: nat, j: nat)
    requires d <= j < |w| && Reaches(f, w, d, w[j].time)
    ensures EvalAt(f, w[d..], j - d) == EvalAt(f, w, j)
    decreases f, 2, 0
  {
    BottomDoesNotMatter(f, w, d, j, w[j].time);
  }

  lemma {:induction false} UntilIgnoresBottom(f: Formula, w: seq<Event>, d: nat, j: nat, t: int)
    requires f.Until? && d <= j < |w| && Reaches(f, w, d, w[j].time)
    ensures UntilFrom(f, w[d..], j - d, t) == UntilFrom(f, w, j, t)
    decreases f, 0, |w| - j
  {
    AtIgnoresBottom(f.phi1, w, d, j);
    AtIgnoresBottom(f.phi2, w, d, j);
    if j + 1 < |w| { UntilIgnoresBottom(f, w, d, j + 1, t); }
  }

  lemma {:induction false} SinceIgnoresBottom(f: Formula, w: seq<Event>, d: nat, j: nat, t: int)
    requires f.Since? && d <= j < |w| && Reaches(f, w, d, t)
    ensures SinceFrom(f, w[d..], j - d, t) == SinceFrom(f, w, j, t)
    decreases f, 0, j
  {
    if d == 0 {
      assert w[d..] == w;
    } else {
      if w[j].time != t && t - f.b < w[j].time {
        AtIgnoresBottom(f.phi1, w, d, j);
        AtIgnoresBottom(f.phi2, w, d, j);
      }
      if d < j { SinceIgnoresBottom(f, w, d, j - 1, t); }
    }
  }

  lemma {:induction false} EventuallyEqualIgnoresBottom(f: Formula, w: seq<Event>, d: nat, j: nat, t: int,
                                                        symbol: ThreeValued)
    requires f.EventuallyEqual? && d <= j < |w| && Reaches(f, w, d, w[j].time)
    ensures EventuallyEqualFrom(f, w[d..], j - d, t, symbol) == EventuallyEqualFrom(f, w, j, t, symbol)
    decreases f, 0, |w| - j
  {
    AtIgnoresBottom(f.phi, w, d, j);
    if j + 1 < |w| { EventuallyEqualIgnoresBottom(f, w, d, j + 1, t, EvalAt(f.phi, w, j)); }
  }

  lemma {:induction false} EventuallyIgnoresBottom(f: Formula, w: seq<Event>, d: nat, j: nat)
    requires f.EventuallyUnbounded? && d <= j < |w| && Reaches(f, w, d, w[j].time)
    ensures EventuallyFrom(f, w[d..], j - d) == EventuallyFrom(f, w, j)
    decreases f, 0, |w| - j
  {
    AtIgnoresBottom(f.phi, w, d, j);
    if j + 1 < |w| { EventuallyIgnoresBottom(f, w, d, j + 1); }
  }

  lemma {:induction false} PastEventuallyIgnoresBottom(f: Formula, w: seq<Event>, d: nat, j: nat, t: int,
                                                       symbol: ThreeValued)
    requires f.PastEventuallyEqual? && d <= j < |w| && Reaches(f, w, d, t)
    ensures PastEventuallyFrom(f, w[d..], j - d, t, symbol) == PastEventuallyFrom(f, w, j, t, symbol)
    decreases f, 0, j
  {
    if d == 0 {
      assert w[d..] == w;
    } else if w[j].time == t {
      PastEventuallyIgnoresBottom(f, w, d, j - 1, t, symbol);
    } else if t - f.b < w[j].time {
      AtIgnoresBottom(f.phi, w, d, j);
      PastEventuallyIgnoresBottom(f, w, d, j - 1, t, EvalAt(f.phi, w, j));
    }
  }

  // ---------- the same of the truth ----------

  /** Nor does dropping them change the truth. */
  lemma {:induction false} TruthIgnoresBottom(f: Formula, s: seq<Event>, d: nat, i: nat, t: int)
    requires Increasing(s) && d <= i < |s| && s[i].time <= t && Reaches(f, s, d, s[i].time)
    ensures Holds(f, s[d..], i - d, t) == Holds(f, s, i, t)
    decreases f, 1
  {
    if d == 0 {
      assert s[d..] == s;
    } else {
      match f
      case True =>
      case Prop(_) => CoverIgnoresBottom(s, d, i, t);
      case Not(g) => TruthIgnoresBottom(g, s, d, i, t);
      case Or(g, h) => TruthIgnoresBottom(g, s, d, i, t); TruthIgnoresBottom(h, s, d, i, t);
      case And(g, h) => TruthIgnoresBottom(g, s, d, i, t); TruthIgnoresBottom(h, s, d, i, t);
      case Until(g, h, _) =>
        TruthsFrom(g, s, d, i); TruthsFrom(h, s, d, i);
        UntilTruthIgnoresBottom(f, s, d, i, t);
      case Since(_, _, _) => SinceAboveBottom(f, s, d, i, t);
      case EventuallyEqual(g, b) =>
        TruthsFrom(g, s, d, i);
        EventuallyEqualTruthIgnoresBottom(f, s, d, i, t);
      case EventuallyUnbounded(g) =>
        TruthsFrom(g, s, d, i);
        EventuallyTruthIgnoresBottom(f, s, d, i, t);
      case PastEventuallyEqual(_, _) => PastEventuallyAboveBottom(f, s, d, i, t);
      case Less(m, n) =>
        TrueValueIgnoresBottom(m, s, d, i, t); TrueValueIgnoresBottom(n, s, d, i, t);
    }
  }

  lemma {:induction false} SinceAboveBottom(f: Formula, s: seq<Event>, d: nat, i: nat, t: int)
    requires f.Since? && Increasing(s) && 0 < d <= i < |s| && s[i].time <= t && Reaches(f, s, d, s[i].time)
    ensures Holds(f, s[d..], i - d, t) == Holds(f, s, i, t)
    decreases f, 0
  {
    TruthsWithin(f.phi1, s, d, i, t - f.b);
    TruthsWithin(f.phi2, s, d, i, t - f.b);
    SinceTruthIgnoresBottom(f, s, d, i, t);
  }

  lemma {:induction false} PastEventuallyAboveBottom(f: Formula, s: seq<Event>, d: nat, i: nat, t: int)
    requires f.PastEventuallyEqual? && Increasing(s) && 0 < d <= i < |s|
    requires s[i].time <= t && Reaches(f, s, d, s[i].time)
    ensures Holds(f, s[d..], i - d, t) == Holds(f, s, i, t)
    decreases f, 0
  {
    TruthsWithin(f.phi, s, d, i, t - f.b);
    PastEventuallyTruthIgnoresBottom(f, s, d, i, t);
  }

  /** f is as true at event j of the trace as at the same event without the dropped ones. */
  ghost predicate SameAt(f: Formula, s: seq<Event>, d: nat, j: nat)
    requires d <= j < |s|
  {
    HoldsAt(f, s[d..], j - d) == HoldsAt(f, s, j)
  }

  lemma {:induction false} TruthsFrom(f: Formula, s: seq<Event>, d: nat, i: nat)
    requires Increasing(s) && d <= i < |s| && Reaches(f, s, d, s[i].time)
    ensures forall j: nat | i <= j < |s| :: SameAt(f, s, d, j)
    decreases f, 2
  {
    forall j: nat | i <= j < |s| ensures SameAt(f, s, d, j) {
      assert s[i].time <= s[j].time;
      TruthIgnoresBottom(f, s, d, j, s[j].time);
    }
  }

  lemma {:induction false} TruthsWithin(f: Formula, s: seq<Event>, d: nat, i: nat, u: int)
    requires Increasing(s) && 0 < d <= i < |s|
    requires PastFree(f) || (WellTimed(s) && s[d].time + Reach(f) <= u)
    ensures SameWithin(f, s, d, i, u)
    decreases f, 2
  {
    forall j: nat | d <= j <= i && u < s[j].time ensures SameAt(f, s, d, j) {
      TruthIgnoresBottom(f, s, d, j, s[j].time);
    }
  }

  lemma CoverIgnoresBottom(s: seq<Event>, d: nat, i: nat, u: int)
    requires Increasing(s) && d <= i < |s| && s[i].time <= u
    ensures forall k | Covers(s, k, u) :: i <= k && Covers(s[d..], k - d, u)
    ensures forall k | Covers(s[d..], k, u) :: i <= k + d && Covers(s, k + d, u)
  {
  }

  lemma UntilTruthIgnoresBottom(f: Formula, s: seq<Event>, d: nat, i: nat, t: int)
    requires f.Until? && d <= i < |s|
    requires forall j: nat | i <= j < |s| :: SameAt(f.phi1, s, d, j) && SameAt(f.phi2, s, d, j)
    ensures Holds(f, s[d..], i - d, t) == Holds(f, s, i, t)
  {
    if Holds(f, s, i, t) { UntilWithout(f, s, d, i, t); }
    if Holds(f, s[d..], i - d, t) { UntilWith(f, s, d, i, t); }
  }

  lemma UntilWithout(f: Formula, s: seq<Event>, d: nat, i: nat, t: int)
    requires f.Until? && d <= i < |s| && Holds(f, s, i, t)
    requires forall j: nat | i <= j < |s| :: SameAt(f.phi1, s, d, j) && SameAt(f.phi2, s, d, j)
    ensures Holds(f, s[d..], i - d, t)
  {
    var v := s[d..];
    var j :| i <= j < |s| && s[j].time < t + f.b && HoldsAt(f.phi2, s, j)
             && forall k | i <= k < j :: HoldsAt(f.phi1, s, k);
    assert SameAt(f.phi2, s, d, j);
    forall k: nat | i - d <= k < j - d ensures HoldsAt(f.phi1, v, k) { assert SameAt(f.phi1, s, d, k + d); }
    assert v[j - d].time < t + f.b && HoldsAt(f.phi2, v, j - d);
  }

  lemma UntilWith(f: Formula, s: seq<Event>, d: nat, i: nat, t: int)
    requires f.Until? && d <= i < |s| && Holds(f, s[d..], i - d, t)
    requires forall j: nat | i <= j < |s| :: SameAt(f.phi1, s, d, j) && SameAt(f.phi2, s, d, j)
    ensures Holds(f, s, i, t)
  {
    var v := s[d..];
    var j :| i - d <= j < |v| && v[j].time < t + f.b && HoldsAt(f.phi2, v, j)
             && forall k | i - d <= k < j :: HoldsAt(f.phi1, v, k);
    assert SameAt(f.phi2, s, d, j + d);
    forall k: nat | i <= k < j + d ensures HoldsAt(f.phi1, s, k) {
      assert SameAt(f.phi1, s, d, k) && HoldsAt(f.phi1, v, k - d);
    }
    assert s[j + d].time < t + f.b && HoldsAt(f.phi2, s, j + d);
  }

  /** Above time u, f is as true at the events up to i as without the dropped ones. */
  ghost predicate SameWithin(f: Formula, s: seq<Event>, d: nat, i: nat, u: int)
    requires i < |s|
  {
    forall j: nat | d <= j <= i && u < s[j].time :: SameAt(f, s, d, j)
  }

  lemma SinceTruthIgnoresBottom(f: Formula, s: seq<Event>, d: nat, i: nat, t: int)
    requires f.Since? && Increasing(s) && d <= i < |s| && s[d].time <= t - f.b
    requires SameWithin(f.phi1, s, d, i, t - f.b) && SameWithin(f.phi2, s, d, i, t - f.b)
    ensures Holds(f, s[d..], i - d, t) == Holds(f, s, i, t)
  {
    if Holds(f, s, i, t) { SinceWithout(f, s, d, i, t); }
    if Holds(f, s[d..], i - d, t) { SinceWith(f, s, d, i, t); }
  }

  lemma SinceWithout(f: Formula, s: seq<Event>, d: nat, i: nat, t: int)
    requires f.Since? && Increasing(s) && d <= i < |s| && s[d].time <= t - f.b && Holds(f, s, i, t)
    requires SameWithin(f.phi1, s, d, i, t - f.b) && SameWithin(f.phi2, s, d, i, t - f.b)
    ensures Holds(f, s[d..], i - d, t)
  {
    var v := s[d..];
    var j :| 0 <= j <= i && s[j].time != t && t - f.b < s[j].time && HoldsAt(f.phi2, s, j)
             && forall k | j < k <= i && s[k].time != t :: HoldsAt(f.phi1, s, k);
    assert d <= j && SameAt(f.phi2, s, d, j);
    forall k: nat | j - d < k <= i - d && v[k].time != t ensures HoldsAt(f.phi1, v, k) {
      assert s[j].time < s[k + d].time && SameAt(f.phi1, s, d, k + d);
    }
    assert v[j - d].time == s[j].time && HoldsAt(f.phi2, v, j - d);
  }

  lemma SinceWith(f: Formula, s: seq<Event>, d: nat, i: nat, t: int)
    requires f.Since? && Increasing(s) && d <= i < |s| && Holds(f, s[d..], i - d, t)
    requires SameWithin(f.phi1, s, d, i, t - f.b) && SameWithin(f.phi2, s, d, i, t - f.b)
    ensures Holds(f, s, i, t)
  {
    var v := s[d..];
    var j :| 0 <= j <= i - d && v[j].time != t && t - f.b < v[j].time && HoldsAt(f.phi2, v, j)
             && forall k | j < k <= i - d && v[k].time != t :: HoldsAt(f.phi1, v, k);
    assert SameAt(f.phi2, s, d, j + d);
    forall k: nat | j + d < k <= i && s[k].time != t ensures HoldsAt(f.phi1, s, k) {
      assert s[j + d].time < s[k].time && SameAt(f.phi1, s, d, k) && v[k - d] == s[k];
    }
    assert s[j + d].time == v[j].time && HoldsAt(f.phi2, s, j + d);
  }

  lemma EventuallyEqualTruthIgnoresBottom(f: Formula, s: seq<Event>, d: nat, i: nat, t: int)
    requires f.EventuallyEqual? && d <= i < |s|
    requires forall j: nat | i <= j < |s| :: SameAt(f.phi, s, d, j)
    ensures Holds(f, s[d..], i - d, t) == Holds(f, s, i, t)
  {
    var v, u := s[d..], t + f.b;
    forall j: nat | i <= j < |s|
      ensures HoldsAt(f.phi, v, j - d) == HoldsAt(f.phi, s, j) && Covers(v, j - d, u) == Covers(s, j, u)
    {
      assert SameAt(f.phi, s, d, j);
    }
    if j :| i - d <= j && Covers(v, j, u) && HoldsAt(f.phi, v, j) { assert Covers(s, j + d, u); }
    if j :| i <= j && Covers(s, j, u) && HoldsAt(f.phi, s, j) { assert Covers(v, j - d, u); }
  }

  lemma EventuallyTruthIgnoresBottom(f: Formula, s: seq<Event>, d: nat, i: nat, t: int)
    requires f.EventuallyUnbounded? && d <= i < |s|
    requires forall j: nat | i <= j < |s| :: SameAt(f.phi, s, d, j)
    ensures Holds(f, s[d..], i - d, t) == Holds(f, s, i, t)
  {
    var v := s[d..];
    forall j: nat | i <= j < |s| ensures HoldsAt(f.phi, s, j) == HoldsAt(f.phi, v, j - d) {
      assert SameAt(f.phi, s, d, j);
    }
    forall j: nat | i - d <= j < |v| ensures HoldsAt(f.phi, v, j) == HoldsAt(f.phi, s, j + d) {
      assert SameAt(f.phi, s, d, j + d);
    }
  }

  lemma PastEventuallyTruthIgnoresBottom(f: Formula, s: seq<Event>, d: nat, i: nat, t: int)
    requires f.PastEventuallyEqual? && Increasing(s) && d <= i < |s| && s[d].time <= t - f.b
    requires SameWithin(f.phi, s, d, i, t - f.b)
    ensures Holds(f, s[d..], i - d, t) == Holds(f, s, i, t)
  {
    var v := s[d..];
    if Holds(f, s, i, t) {
      var j :| 0 <= j <= i && FirstWithin(s, j, t, f.b) && HoldsAt(f.phi, s, j);
      assert d <= j && SameAt(f.phi, s, d, j) && FirstWithin(v, j - d, t, f.b);
    }
    if Holds(f, v, i - d, t) {
      var j :| 0 <= j <= i - d && FirstWithin(v, j, t, f.b) && HoldsAt(f.phi, v, j);
      forall k | 0 <= k < j + d ensures s[k].time == t || s[k].time <= t - f.b {
        if k >= d { assert v[k - d] == s[k]; }
      }
      assert SameAt(f.phi, s, d, j + d) && FirstWithin(s, j + d, t, f.b);
    }
  }

  lemma {:induction false} TrueValueIgnoresBottom(m: Term, s: seq<Event>, d: nat, i: nat, t: int)
    requires Increasing(s) && d <= i < |s| && s[i].time <= t && ReachesTerm(m, s, d, s[i].time)
    ensures TrueValue(m, s[d..], t) == TrueValue(m, s, t)
    decreases m, 0
  {
    match m
    case Constant(_) =>
    case Integral(f, upper) =>
      if upper >= 0 {
        TruthsFrom(f, s, d, i);
        forall j: nat | i <= j < |s| ensures Truths(f, s[d..])[j - d] == Truths(f, s)[j] { assert SameAt(f, s, d, j); }
        forall u: int | t <= u ensures i <= InForce(s, 0, u) == InForce(s[d..], 0, u) + d {
          InForceFromBottom(s, d, i, u);
        }
        TrueTicksIgnoreBottom(Truths(f, s[d..]), Truths(f, s), s, s[d..], d, i, t, upper);
      }
    case Sum(l, r) => TrueValueIgnoresBottom(l, s, d, i, t); TrueValueIgnoresBottom(r, s, d, i, t);
    case Product(l, r) => TrueValueIgnoresBottom(l, s, d, i, t); TrueValueIgnoresBottom(r, s, d, i, t);
  }

  lemma {:induction false} TrueTicksIgnoreBottom(kept: seq<bool>, truths: seq<bool>, s: seq<Event>, v: seq<Event>,
                                                 d: nat, i: nat, t: int, n: nat)
    requires d <= i < |s| && v == s[d..] && |truths| == |s| && |kept| == |v|
    requires forall j: nat | i <= j < |s| :: kept[j - d] == truths[j]
    requires forall u: int | t <= u :: i <= InForce(s, 0, u) == InForce(v, 0, u) + d
    ensures TrueTicks(kept, v, t, n) == TrueTicks(truths, s, t, n)
    decreases n
  {
    if n > 0 {
      TrueTicksIgnoreBottom(kept, truths, s, v, d, i, t, n - 1);
      var k := InForce(s, 0, t + n - 1);
      assert InForce(v, 0, t + n - 1) == k - d && kept[k - d] == truths[k];
    }
  }

  lemma InForceFromBottom(s: seq<Event>, d: nat, i: nat, u: int)
    requires Increasing(s) && d <= i < |s| && s[i].time <= u
    ensures i <= InForce(s, 0, u) && InForce(s[d..], 0, u) == InForce(s, 0, u) - d
  {
    var k := CoveringEvent(s, i, u);
    CoverIgnoresBottom(s, d, i, u);
    InForceIs(s, k, u);
    InForceIs(s[d..], k - d, u);
  }

  // ---------- on the ring ----------

  /** What a ring after n pushes shows is enough for f from event i on: nothing was dropped, or not too recently. */
  ghost predicate Suffices(f: Formula, size: nat, n: nat, w: seq<Event>, i: nat)
    requires i < |w|
  {
    PastFree(f) || n < size || (w[0].time < w[i].time && w[0].time + Reach(f) <= w[i].time)
  }

  /** A formula then has on the ring the verdict it has on the whole log. */
  lemma RingVerdictIsLogVerdict(f: Formula, size: nat, r: Ring, log: seq<Event>, i: nat, t: int)
    requires Logged(size, r, log) && WellTimed(log) && i < |Unroll(size, r)|
    requires Suffices(f, size, |log|, Unroll(size, r), i) && (PastFree(f) || Unroll(size, r)[i].time <= t)
    ensures Oldest(size, |log|) + i < |log|
    ensures Eval(f, Unroll(size, r), i, t) == Eval(f, log, Oldest(size, |log|) + i, t)
  {
    WindowIsLogSuffix(size, r, log);
    SuffixVerdict(f, size, log, Unroll(size, r), i, t);
  }

  lemma SuffixVerdict(f: Formula, size: nat, log: seq<Event>, w: seq<Event>, i: nat, t: int)
    requires 0 < size && w == log[Oldest(size, |log|)..] && i < |w| && WellTimed(log)
    requires Suffices(f, size, |log|, w, i) && (PastFree(f) || w[i].time <= t)
    ensures Eval(f, w, i, t) == Eval(f, log, Oldest(size, |log|) + i, t)
  {
    var o := Oldest(size, |log|);
    assert w[0] == log[o] && w[i] == log[o + i];
    BottomDoesNotMatter(f, log, o, o + i, t);
  }

  /** And a true or false one is the truth on the whole log, and on every longer one. */
  lemma RingVerdictIsTruth(f: Formula, size: nat, r: Ring, log: seq<Event>, s: seq<Event>, i: nat, t: int)
    requires Logged(size, r, log) && log <= s && WellTimed(s)
    requires i < |Unroll(size, r)| && Covers(s, Oldest(size, |log|) + i, t)
    requires Suffices(f, size, |log|, Unroll(size, r), i)
    requires InSight(f, Unroll(size, r), t) && Dense(f, Unroll(size, r))
    ensures Agrees(Eval(f, Unroll(size, r), i, t), Truth(f, s, t))
  {
    WindowIsLogSuffix(size, r, log);
    SuffixVerdictIsTruth(f, size, log, Unroll(size, r), s, i, t);
  }

  /** Only what the window holds must be dense: the trace is cut where the window is. */
  lemma SuffixVerdictIsTruth(f: Formula, size: nat, log: seq<Event>, w: seq<Event>, s: seq<Event>, i: nat, t: int)
    requires 0 < size && w == log[Oldest(size, |log|)..] && i < |w| && log <= s && WellTimed(s)
    requires Covers(s, Oldest(size, |log|) + i, t)
    requires Suffices(f, size, |log|, w, i) && InSight(f, w, t) && Dense(f, w)
    ensures Agrees(Eval(f, w, i, t), Truth(f, s, t))
  {
    var o := Oldest(size, |log|);
    assert w[0] == s[o] && w[i] == s[o + i] && w <= s[o..];
    CutVerdictIsTruth(f, w, s, o, i, t);
  }

  lemma CutVerdictIsTruth(f: Formula, w: seq<Event>, s: seq<Event>, o: nat, i: nat, t: int)
    requires i < |w| && o <= |s| && w <= s[o..] && WellTimed(s) && Covers(s, o + i, t)
    requires Reaches(f, s, o, s[o + i].time) && InSight(f, w, t) && Dense(f, w)
    ensures Agrees(Eval(f, w, i, t), Truth(f, s, t))
  {
    SuffixIsWellTimed(s, o);
    VerdictIsTruth(f, w, s[o..], i, t, t);
    TruthIgnoresBottom(f, s, o, o + i, t);
    CursorIsNoPartOfTruth(f, s, o + i, t);
  }

  lemma SuffixIsWellTimed(s: seq<Event>, d: nat)
    requires d <= |s| && WellTimed(s)
    ensures WellTimed(s[d..])
  {
  }
}
