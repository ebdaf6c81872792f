/** Formulas, the value the evaluators give them on a window of events, and their two-valued meaning. */
module Formulas {
  import opened Values
  import opened Traces
  import opened Integrals

  /** The templates of formulas.h that formulas are built from. */
  datatype Formula =
    | True
    | Prop(p: int)
    | Not(phi: Formula)
    | Or(phi1: Formula, phi2: Formula)
    | And(phi1: Formula, phi2: Formula)
    | Until(phi1: Formula, phi2: Formula, b: int)
    | Since(phi1: Formula, phi2: Formula, b: int)
    | EventuallyEqual(phi: Formula, b: int)
    | EventuallyUnbounded(phi: Formula)
    | PastEventuallyEqual(phi: Formula, b: int)
    | Less(left: Term, right: Term)

  /** The terms that b3_lessthan compares: numbers, durations, their sums and products. */
  datatype Term =
    | Constant(n: int)
    | Integral(psi: Formula, upper: int)
    | Sum(left: Term, right: Term)
    | Product(left: Term, right: Term)

  /** always_less and historically_less are built from until_less and since_less. */
  function Always(phi: Formula, b: int): Formula {
    Not(Until(True, Not(phi), b))
  }

  function Historically(phi: Formula, b: int): Formula {
    Not(Since(True, Not(phi), b))
  }

  // ---------- what the evaluators return ----------

  /** The verdict on f at time t, with the cursor on event i of window w. */
  function Eval(f: Formula, w: seq<Event>, i: nat, t: int): ThreeValued
    requires i < |w|
    decreases f, 2, 0
  {
    match f
    case True => T_TRUE
    case Prop(p) =>
      if Brackets(w, i, t) then if w[i].data == p then T_TRUE else T_FALSE else T_UNKNOWN
    case Not(g) => B3Not(Eval(g, w, i, t))
    case Or(g, h) => B3Or(Eval(g, w, i, t), Eval(h, w, i, t))
    case And(g, h) => B3And(Eval(g, w, i, t), Eval(h, w, i, t))
    case Until(_, _, _) => UntilFrom(f, w, i, t)
    case Since(_, _, _) => SinceFrom(f, w, i, t)
    case EventuallyEqual(_, _) => EventuallyEqualFrom(f, w, i, t, T_UNKNOWN)
    case EventuallyUnbounded(_) => EventuallyFrom(f, w, i)
    case PastEventuallyEqual(_, _) => PastEventuallyFrom(f, w, i, t, T_UNKNOWN)
    case Less(m, n) => B3LessThan(Value(m, w, i, t), Value(n, w, i, t))
  }

  /** The verdict on f at event j, at the time of that event. */
  function EvalAt(f: Formula, w: seq<Event>, j: nat): ThreeValued
    requires j < |w|
    decreases f, 3, 0
  {
    Eval(f, w, j, w[j].time)
  }

  function UntilFrom(f: Formula, w: seq<Event>, j: nat, t: int): ThreeValued
    requires f.Until? && j < |w|
    decreases f, 0, |w| - j
  {
    if w[j].time >= f.b + t then T_FALSE else
    var rs := EvalI(EvalAt(f.phi1, w, j), EvalAt(f.phi2, w, j));
    if rs != FV_SYMBOL then B4ToB3(rs)
    else if j + 1 < |w| then UntilFrom(f, w, j + 1, t)
    else T_UNKNOWN
  }

  function SinceFrom(f: Formula, w: seq<Event>, j: nat, t: int): ThreeValued
    requires f.Since? && j < |w|
    decreases f, 0, j
  {
    var stop := if w[j].time < t - f.b then T_UNKNOWN else T_FALSE;
    if w[j].time == t then
      if j > 0 then SinceFrom(f, w, j - 1, t) else stop
    else if t >= f.b && w[j].time <= t - f.b then stop else
    var rs := EvalI(EvalAt(f.phi1, w, j), EvalAt(f.phi2, w, j));
    if rs != FV_SYMBOL then B4ToB3(rs)
    else if j > 0 then SinceFrom(f, w, j - 1, t)
    else stop
  }

  function EventuallyEqualFrom(f: Formula, w: seq<Event>, j: nat, t: int, symbol: ThreeValued): ThreeValued
    requires f.EventuallyEqual? && j < |w|
    decreases f, 0, |w| - j
  {
    if w[j].time > f.b + t then symbol
    else if j + 1 < |w| then EventuallyEqualFrom(f, w, j + 1, t, EvalAt(f.phi, w, j))
    else EvalAt(f.phi, w, j)
  }

  function EventuallyFrom(f: Formula, w: seq<Event>, j: nat): ThreeValued
    requires f.EventuallyUnbounded? && j < |w|
    decreases f, 0, |w| - j
  {
    var symbol := EvalAt(f.phi, w, j);
    if symbol == T_FALSE && j + 1 < |w| then EventuallyFrom(f, w, j + 1) else symbol
  }

  function PastEventuallyFrom(f: Formula, w: seq<Event>, j: nat, t: int, symbol: ThreeValued): ThreeValued
    requires f.PastEventuallyEqual? && j < |w|
    decreases f, 0, j
  {
    if w[j].time == t then
      if j > 0 then PastEventuallyFrom(f, w, j - 1, t, symbol) else symbol
    else if t >= f.b && w[j].time <= t - f.b then symbol
    else if j > 0 then PastEventuallyFrom(f, w, j - 1, t, EvalAt(f.phi, w, j))
    else EvalAt(f.phi, w, j)
  }

  /** The value of a term at time t, with the cursor on event i of window w. */
  function Value(m: Term, w: seq<Event>, i: nat, t: int): Duration
    requires i < |w|
    decreases m, 7, 0
  {
    match m
    case Constant(n) => Duration(n, false)
    case Integral(f, upper) => DurationTerm(f, w, i, t, upper)
    case Sum(l, r) => SumDur(Value(l, w, i, t), Value(r, w, i, t))
    case Product(l, r) => MultDur(Value(l, w, i, t), Value(r, w, i, t))
  }

  /** What duration_term returns for a formula, from the cursor on event i. */
  function DurationTerm(f: Formula, w: seq<Event>, i: nat, t: int, upper: int): Duration
    requires i < |w|
    decreases f, 6, 0
  {
    DurationFrom(Indicators(f, w), w, i, t, upper, Duration(0, false))
  }

  /** The indicators of a formula at all events of the window. */
  function Indicators(f: Formula, w: seq<Event>): (marks: seq<Duration>)
    ensures Marked(marks, w) && forall j | 0 <= j < |w| :: marks[j] == Indicator(f, w, j)
    decreases f, 5, 0
  {
    seq(|w|, (j: nat) requires j < |w| => Indicator(f, w, j))
  }

  function Indicator(f: Formula, w: seq<Event>, j: nat): Duration
    requires j < |w|
    decreases f, 4, 0
  {
    match EvalAt(f, w, j)
    case T_TRUE => Duration(1, false)
    case T_FALSE => Duration(0, false)
    case T_UNKNOWN => Duration(0, true)
  }

  // ---------- two-valued meaning ----------

  /** The truth of f at time t on trace s, for an evaluation that starts at event i. */
  ghost predicate Holds(f: Formula, s: seq<Event>, i: int, t: int)
    requires 0 <= i < |s|
    decreases f, 0
  {
    match f
    case True => true
    case Prop(p) => exists k :: Covers(s, k, t) && s[k].data == p
    case Not(g) => !Holds(g, s, i, t)
    case Or(g, h) => Holds(g, s, i, t) || Holds(h, s, i, t)
    case And(g, h) => Holds(g, s, i, t) && Holds(h, s, i, t)
    case Until(g, h, b) =>
      exists j :: i <= j < |s| && s[j].time < t + b && HoldsAt(h, s, j)
                  && forall k | i <= k < j :: HoldsAt(g, s, k)
    case Since(g, h, b) =>
      exists j :: 0 <= j <= i && s[j].time != t && t - b < s[j].time && HoldsAt(h, s, j)
                  && forall k | j < k <= i && s[k].time != t :: HoldsAt(g, s, k)
    case EventuallyEqual(g, b) =>
      exists j :: i <= j && Covers(s, j, t + b) && HoldsAt(g, s, j)
    case EventuallyUnbounded(g) =>
      exists j :: i <= j < |s| && HoldsAt(g, s, j)
    case PastEventuallyEqual(g, b) =>
      exists j :: 0 <= j <= i && FirstWithin(s, j, t, b) && HoldsAt(g, s, j)
    case Less(m, n) => TrueValue(m, s, t) < TrueValue(n, s, t)
  }

  ghost predicate HoldsAt(f: Formula, s: seq<Event>, j: int)
    requires 0 <= j < |s|
    decreases f, 1
  {
    Holds(f, s, j, s[j].time)
  }

  /** The value of a term on a trace: durations are the integrals of the truth of their formulas. */
  ghost function TrueValue(m: Term, s: seq<Event>, t: int): int
    requires |s| > 0
    decreases m, 3
  {
    match m
    case Constant(n) => n
    case Integral(f, upper) => if upper < 0 then 0 else TrueTicks(Truths(f, s), s, t, upper)
    case Sum(l, r) => TrueValue(l, s, t) + TrueValue(r, s, t)
    case Product(l, r) => TrueValue(l, s, t) * TrueValue(r, s, t)
  }

  /** The truth of f at every event of a trace. */
  ghost function Truths(f: Formula, s: seq<Event>): (truths: seq<bool>)
    ensures |truths| == |s| && forall j | 0 <= j < |s| :: truths[j] == HoldsAt(f, s, j)
    decreases f, 2
  {
    seq(|s|, (j: nat) requires j < |s| => HoldsAt(f, s, j))
  }

  /** Event j is the earliest one, other than at t itself, that is later than t - b. */
  ghost predicate FirstWithin(s: seq<Event>, j: int, t: int, b: int) {
    0 <= j < |s| && s[j].time != t && t - b < s[j].time
    && forall k | 0 <= k < j :: s[k].time == t || s[k].time <= t - b
  }

  // ---------- classes of formulas ----------

  /** No past operator anywhere; durations, which only look ahead, of lengths that are not negative. */
  predicate PastFree(f: Formula) {
    match f
    case True => true
    case Prop(_) => true
    case Not(g) => PastFree(g)
    case Or(g, h) => PastFree(g) && PastFree(h)
    case And(g, h) => PastFree(g) && PastFree(h)
    case Until(g, h, _) => PastFree(g) && PastFree(h)
    case Since(_, _, _) => false
    case EventuallyEqual(g, _) => PastFree(g)
    case EventuallyUnbounded(g) => PastFree(g)
    case PastEventuallyEqual(_, _) => false
    case Less(m, n) => PastFreeTerm(m) && PastFreeTerm(n)
  }

  predicate PastFreeTerm(m: Term) {
    match m
    case Constant(_) => true
    case Integral(f, upper) => 0 <= upper && PastFree(f)
    case Sum(l, r) => PastFreeTerm(l) && PastFreeTerm(r)
    case Product(l, r) => PastFreeTerm(l) && PastFreeTerm(r)
  }

  /** No past operator below an operator that may answer from the last buffered event. */
  predicate WellNested(f: Formula) {
    match f
    case True => true
    case Prop(_) => true
    case Not(g) => WellNested(g)
    case Or(g, h) => WellNested(g) && WellNested(h)
    case And(g, h) => WellNested(g) && WellNested(h)
    case Until(g, h, _) => WellNested(g) && WellNested(h)
    case Since(g, h, _) => WellNested(g) && WellNested(h)
    case EventuallyEqual(g, _) => PastFree(g)
    case EventuallyUnbounded(g) => PastFree(g)
    case PastEventuallyEqual(g, _) => WellNested(g)
    case Less(m, n) => WellNestedTerm(m) && WellNestedTerm(n)
  }

  predicate WellNestedTerm(m: Term) {
    match m
    case Constant(_) => true
    case Integral(f, _) => WellNested(f)
    case Sum(l, r) => WellNestedTerm(l) && WellNestedTerm(r)
    case Product(l, r) => WellNestedTerm(l) && WellNestedTerm(r)
  }

  /**
   * Evaluated at times up to u, no past operator is answered by the last buffered event where a later event
   * would answer: eventually_equal over a past operator looks no further than the last buffered event.
   */
  predicate InSight(f: Formula, w: seq<Event>, u: int)
    requires |w| > 0
  {
    match f
    case True => true
    case Prop(_) => true
    case Not(g) => InSight(g, w, u)
    case Or(g, h) => InSight(g, w, u) && InSight(h, w, u)
    case And(g, h) => InSight(g, w, u) && InSight(h, w, u)
    case Until(g, h, b) => InSight(g, w, u + b) && InSight(h, w, u + b)
    case Since(g, h, _) => InSight(g, w, u) && InSight(h, w, u)
    case EventuallyEqual(g, b) => InSight(g, w, u + b) && (PastFree(g) || u + b <= w[|w| - 1].time)
    case EventuallyUnbounded(g) => PastFree(g)
    case PastEventuallyEqual(g, _) => InSight(g, w, u)
    case Less(m, n) => InSightTerm(m, w, u) && InSightTerm(n, w, u)
  }

  predicate InSightTerm(m: Term, w: seq<Event>, u: int)
    requires |w| > 0
  {
    match m
    case Constant(_) => true
    case Integral(f, upper) => InSight(f, w, u + upper)
    case Sum(l, r) => InSightTerm(l, w, u) && InSightTerm(r, w, u)
    case Product(l, r) => InSightTerm(l, w, u) && InSightTerm(r, w, u)
  }

  /**
   * Every duration in f is at least as long as the window is ever without an event, so that it cannot begin and
   * end under one event. True of any window when f compares no durations.
   */
  ghost predicate Dense(f: Formula, w: seq<Event>) {
    match f
    case True => true
    case Prop(_) => true
    case Not(g) => Dense(g, w)
    case Or(g, h) => Dense(g, w) && Dense(h, w)
    case And(g, h) => Dense(g, w) && Dense(h, w)
    case Until(g, h, _) => Dense(g, w) && Dense(h, w)
    case Since(g, h, _) => Dense(g, w) && Dense(h, w)
    case EventuallyEqual(g, _) => Dense(g, w)
    case EventuallyUnbounded(g) => Dense(g, w)
    case PastEventuallyEqual(g, _) => Dense(g, w)
    case Less(m, n) => DenseTerm(m, w) && DenseTerm(n, w)
  }

  ghost predicate DenseTerm(m: Term, w: seq<Event>) {
    match m
    case Constant(_) => true
    case Integral(f, upper) => 0 <= upper && GapsWithin(w, upper) && Dense(f, w)
    case Sum(l, r) => DenseTerm(l, w) && DenseTerm(r, w)
    case Product(l, r) => DenseTerm(l, w) && DenseTerm(r, w)
  }

  /** f compares durations at the time it is itself evaluated at. */
  predicate Comparing(f: Formula) {
    match f
    case True => false
    case Prop(_) => false
    case Not(g) => Comparing(g)
    case Or(g, h) => Comparing(g) || Comparing(h)
    case And(g, h) => Comparing(g) || Comparing(h)
    case Until(_, _, _) => false
    case Since(_, _, _) => false
    case EventuallyEqual(_, _) => false
    case EventuallyUnbounded(_) => false
    case PastEventuallyEqual(_, _) => false
    case Less(_, _) => true
  }

  /** Below an eventually operator that would need it there is no past operator at all. */
  lemma {:induction false} WellNestedIsInSight(f: Formula, w: seq<Event>, u: int)
    requires WellNested(f) && |w| > 0
    ensures InSight(f, w, u)
  {
    match f
    case True =>
    case Prop(_) =>
    case Not(g) => WellNestedIsInSight(g, w, u);
    case Or(g, h) => WellNestedIsInSight(g, w, u); WellNestedIsInSight(h, w, u);
    case And(g, h) => WellNestedIsInSight(g, w, u); WellNestedIsInSight(h, w, u);
    case Until(g, h, b) => WellNestedIsInSight(g, w, u + b); WellNestedIsInSight(h, w, u + b);
    case Since(g, h, _) => WellNestedIsInSight(g, w, u); WellNestedIsInSight(h, w, u);
    case EventuallyEqual(g, b) => PastFreeIsWellNested(g); WellNestedIsInSight(g, w, u + b);
    case EventuallyUnbounded(g) =>
    case PastEventuallyEqual(g, _) => WellNestedIsInSight(g, w, u);
    case Less(m, n) => WellNestedTermIsInSight(m, w, u); WellNestedTermIsInSight(n, w, u);
  }

  lemma {:induction false} WellNestedTermIsInSight(m: Term, w: seq<Event>, u: int)
    requires WellNestedTerm(m) && |w| > 0
    ensures InSightTerm(m, w, u)
  {
    match m
    case Constant(_) =>
    case Integral(f, upper) => WellNestedIsInSight(f, w, u + upper);
    case Sum(l, r) => WellNestedTermIsInSight(l, w, u); WellNestedTermIsInSight(r, w, u);
    case Product(l, r) => WellNestedTermIsInSight(l, w, u); WellNestedTermIsInSight(r, w, u);
  }

  lemma {:induction false} PastFreeIsWellNested(f: Formula)
    requires PastFree(f)
    ensures WellNested(f)
  {
    match f
    case True =>
    case Prop(_) =>
    case Not(g) => PastFreeIsWellNested(g);
    case Or(g, h) => PastFreeIsWellNested(g); PastFreeIsWellNested(h);
    case And(g, h) => PastFreeIsWellNested(g); PastFreeIsWellNested(h);
    case Until(g, h, _) => PastFreeIsWellNested(g); PastFreeIsWellNested(h);
    case EventuallyEqual(g, _) =>
    case EventuallyUnbounded(g) =>
    case Less(m, n) => PastFreeTermIsWellNested(m); PastFreeTermIsWellNested(n);
  }

  lemma {:induction false} PastFreeTermIsWellNested(m: Term)
    requires PastFreeTerm(m)
    ensures WellNestedTerm(m)
  {
    match m
    case Constant(_) =>
    case Integral(f, _) => PastFreeIsWellNested(f);
    case Sum(l, r) => PastFreeTermIsWellNested(l); PastFreeTermIsWellNested(r);
    case Product(l, r) => PastFreeTermIsWellNested(l); PastFreeTermIsWellNested(r);
  }
}
