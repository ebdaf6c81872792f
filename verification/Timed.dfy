/** The same meaning without a cursor: truth at a time, and its agreement with truth at a cursor. */
module Timed {
  import opened Values
  import opened Traces
  import opened Formulas
  import opened Integrals
  import opened Soundness

  /** Event k is the one in force at t or a later one. */
  ghost predicate FromNow(s: seq<Event>, k: int, t: int) {
    0 <= k < |s| && (Covers(s, k, t) || t < s[k].time)
  }

  /** The truth of f at time t of trace s. */
  ghost predicate Truth(f: Formula, s: seq<Event>, t: int)
    decreases f, 0
  {
    match f
    case True => true
    case Prop(p) => exists k :: Covers(s, k, t) && s[k].data == p
    case Not(g) => !Truth(g, s, t)
    case Or(g, h) => Truth(g, s, t) || Truth(h, s, t)
    case And(g, h) => Truth(g, s, t) && Truth(h, s, t)
    case Until(g, h, b) =>
      exists j :: FromNow(s, j, t) && s[j].time < t + b && TruthAt(h, s, j)
                  && forall k | FromNow(s, k, t) && k < j :: TruthAt(g, s, k)
    case Since(g, h, b) =>
      exists j :: 0 <= j < |s| && t - b < s[j].time < t && TruthAt(h, s, j)
                  && forall k | j < k < |s| && s[k].time < t :: TruthAt(g, s, k)
    case EventuallyEqual(g, b) =>
      exists j :: FromNow(s, j, t) && Covers(s, j, t + b) && TruthAt(g, s, j)
    case EventuallyUnbounded(g) =>
      exists j :: FromNow(s, j, t) && TruthAt(g, s, j)
    case PastEventuallyEqual(g, b) =>
      exists j :: FirstWithin(s, j, t, b) && s[j].time < t && TruthAt(g, s, j)
    case Less(m, n) => TimedValue(m, s, t) < TimedValue(n, s, t)
  }

  /** The value of a term at time t of trace s. */
  ghost function TimedValue(m: Term, s: seq<Event>, t: int): int
    decreases m, 3
  {
    match m
    case Constant(n) => n
    case Integral(f, upper) => if upper < 0 || s == [] then 0 else TrueTicks(TimedTruths(f, s), s, t, upper)
    case Sum(l, r) => TimedValue(l, s, t) + TimedValue(r, s, t)
    case Product(l, r) => TimedValue(l, s, t) * TimedValue(r, s, t)
  }

  ghost function TimedTruths(f: Formula, s: seq<Event>): (truths: seq<bool>)
    ensures |truths| == |s| && forall j | 0 <= j < |s| :: truths[j] == TruthAt(f, s, j)
    decreases f, 2
  {
    seq(|s|, (j: nat) requires j < |s| => TruthAt(f, s, j))
  }

  ghost predicate TruthAt(f: Formula, s: seq<Event>, j: int)
    requires 0 <= j < |s|
    decreases f, 1
  {
    Truth(f, s, s[j].time)
  }

  /** A cursor on the event in force at t makes truth at the cursor truth at t. */
  lemma {:induction false} CursorIsNoPartOfTruth(f: Formula, s: seq<Event>, i: nat, t: int)
    requires Increasing(s) && Covers(s, i, t)
    ensures Holds(f, s, i, t) == Truth(f, s, t)
    decreases f, 0
  {
    match f
    case True =>
    case Prop(_) =>
    case Not(g) => CursorIsNoPartOfTruth(g, s, i, t);
    case Or(g, h) => CursorIsNoPartOfTruth(g, s, i, t); CursorIsNoPartOfTruth(h, s, i, t);
    case And(g, h) => CursorIsNoPartOfTruth(g, s, i, t); CursorIsNoPartOfTruth(h, s, i, t);
    case Until(g, h, _) =>
      EveryEvent(g, s); EveryEvent(h, s); UntilAtCursor(f, s, i, t);
    case Since(g, h, _) =>
      EveryEvent(g, s); EveryEvent(h, s); SinceAtCursor(f, s, i, t);
    case EventuallyEqual(g, b) =>
      EveryEvent(g, s); FromNowIsFromCursor(s, i, t);
    case EventuallyUnbounded(g) =>
      EveryEvent(g, s); FromNowIsFromCursor(s, i, t);
    case PastEventuallyEqual(g, b) =>
      EveryEvent(g, s); BeforeNowIsBelowCursor(s, i, t);
    case Less(m, n) =>
      ValueIsTimed(m, s, t); ValueIsTimed(n, s, t);
  }

  lemma {:induction false} ValueIsTimed(m: Term, s: seq<Event>, t: int)
    requires Increasing(s) && |s| > 0
    ensures TrueValue(m, s, t) == TimedValue(m, s, t)
    decreases m, 2
  {
    match m
    case Constant(_) =>
    case Integral(f, _) =>
      EveryEvent(f, s);
      assert Truths(f, s) == TimedTruths(f, s);
    case Sum(l, r) => ValueIsTimed(l, s, t); ValueIsTimed(r, s, t);
    case Product(l, r) => ValueIsTimed(l, s, t); ValueIsTimed(r, s, t);
  }

  ghost predicate SameAtEvents(f: Formula, s: seq<Event>) {
    forall j | 0 <= j < |s| :: HoldsAt(f, s, j) == TruthAt(f, s, j)
  }

  lemma UntilAtCursor(f: Formula, s: seq<Event>, i: nat, t: int)
    requires f.Until? && Increasing(s) && Covers(s, i, t) && SameAtEvents(f.phi1, s) && SameAtEvents(f.phi2, s)
    ensures Holds(f, s, i, t) == Truth(f, s, t)
  {
    var (g, h, b) := (f.phi1, f.phi2, f.b);
    FromNowIsFromCursor(s, i, t);
    if Holds(f, s, i, t) {
      var j :| i <= j < |s| && s[j].time < t + b && HoldsAt(h, s, j) && forall k | i <= k < j :: HoldsAt(g, s, k);
      assert FromNow(s, j, t) && TruthAt(h, s, j);
    }
    if Truth(f, s, t) {
      var j :| FromNow(s, j, t) && s[j].time < t + b && TruthAt(h, s, j)
               && forall k | FromNow(s, k, t) && k < j :: TruthAt(g, s, k);
      assert HoldsAt(h, s, j);
      forall k | i <= k < j ensures HoldsAt(g, s, k) { assert FromNow(s, k, t); }
    }
  }

  lemma SinceAtCursor(f: Formula, s: seq<Event>, i: nat, t: int)
    requires f.Since? && Increasing(s) && Covers(s, i, t) && SameAtEvents(f.phi1, s) && SameAtEvents(f.phi2, s)
    ensures Holds(f, s, i, t) == Truth(f, s, t)
  {
    BeforeNowIsBelowCursor(s, i, t);
    if Holds(f, s, i, t) { SinceCursorIsTrue(f, s, i, t); }
    if Truth(f, s, t) { SinceTrueIsCursor(f, s, i, t); }
  }

  ghost predicate BeforeNow(s: seq<Event>, i: nat, t: int) {
    forall k | 0 <= k < |s| :: s[k].time < t <==> k <= i && s[k].time != t
  }

  lemma SinceCursorIsTrue(f: Formula, s: seq<Event>, i: nat, t: int)
    requires f.Since? && i < |s| && BeforeNow(s, i, t) && SameAtEvents(f.phi1, s) && SameAtEvents(f.phi2, s)
    requires Holds(f, s, i, t)
    ensures Truth(f, s, t)
  {
    var j :| 0 <= j <= i && s[j].time != t && t - f.b < s[j].time && HoldsAt(f.phi2, s, j)
             && forall k | j < k <= i && s[k].time != t :: HoldsAt(f.phi1, s, k);
    assert TruthAt(f.phi2, s, j);
    forall k | j < k < |s| && s[k].time < t ensures TruthAt(f.phi1, s, k) { assert HoldsAt(f.phi1, s, k); }
  }

  lemma SinceTrueIsCursor(f: Formula, s: seq<Event>, i: nat, t: int)
    requires f.Since? && i < |s| && BeforeNow(s, i, t) && SameAtEvents(f.phi1, s) && SameAtEvents(f.phi2, s)
    requires Truth(f, s, t)
    ensures Holds(f, s, i, t)
  {
    var j :| 0 <= j < |s| && t - f.b < s[j].time < t && TruthAt(f.phi2, s, j)
             && forall k | j < k < |s| && s[k].time < t :: TruthAt(f.phi1, s, k);
    assert HoldsAt(f.phi2, s, j);
    forall k | j < k <= i && s[k].time != t ensures HoldsAt(f.phi1, s, k) { assert TruthAt(f.phi1, s, k); }
  }

  lemma {:induction false} EveryEvent(f: Formula, s: seq<Event>)
    requires Increasing(s)
    ensures SameAtEvents(f, s)
    decreases f, 1
  {
    forall j | 0 <= j < |s| ensures HoldsAt(f, s, j) == TruthAt(f, s, j) {
      CursorIsNoPartOfTruth(f, s, j, s[j].time);
    }
  }

  lemma FromNowIsFromCursor(s: seq<Event>, i: nat, t: int)
    requires Increasing(s) && Covers(s, i, t)
    ensures forall k | 0 <= k < |s| :: FromNow(s, k, t) <==> i <= k
  {
    forall k | 0 <= k < |s| ensures FromNow(s, k, t) <==> i <= k {
      if Covers(s, k, t) { CoveringEventIsUnique(s, i, k, t); }
      assert k < i ==> s[k].time < s[i].time;
      assert i + 1 <= k ==> s[i + 1].time <= s[k].time;
    }
  }

  lemma BeforeNowIsBelowCursor(s: seq<Event>, i: nat, t: int)
    requires Increasing(s) && Covers(s, i, t)
    ensures BeforeNow(s, i, t)
  {
    forall k | i < k < |s| ensures t < s[k].time {
      assert s[i + 1].time <= s[k].time;
    }
    assert forall k | 0 <= k < i :: s[k].time < s[i].time;
  }

  /** The main theorem: with the cursor on the event in force at t, a true or false verdict is the truth at t. */
  lemma VerdictIsTruthAtTime(f: Formula, w: seq<Event>, s: seq<Event>, i: nat, t: int)
    requires w <= s && WellTimed(s) && Covers(s, i, t) && i < |w| && InSight(f, w, t) && Dense(f, w)
    ensures Agrees(Eval(f, w, i, t), Truth(f, s, t))
  {
    VerdictIsTruth(f, w, s, i, t, t);
    CursorIsNoPartOfTruth(f, s, i, t);
  }

  /**
   * What pasteventually_equal means: phi at the event that follows the one in force at t - b, if that comes before
   * t. So it means phi at t - b just when phi is as true at that event, where there is one, as at t - b.
   */
  lemma PastEventuallyIsAfter(phi: Formula, b: int, s: seq<Event>, k: nat, t: int)
    requires Increasing(s) && Covers(s, k, t - b)
    ensures Truth(PastEventuallyEqual(phi, b), s, t) <==>
              k + 1 < |s| && s[k + 1].time < t && TruthAt(phi, s, k + 1)
  {
    var f := PastEventuallyEqual(phi, b);
    if k + 1 < |s| && s[k + 1].time < t { assert FirstWithin(s, k + 1, t, b); }
    assert forall j | 0 <= j < k :: s[j].time < s[k].time;
    assert forall j | k + 1 < j < |s| :: s[k + 1].time < s[j].time;
    forall j | FirstWithin(s, j, t, b) && s[j].time < t ensures j == k + 1 {}
  }
}
