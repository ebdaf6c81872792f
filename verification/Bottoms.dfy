/**
 * Past operators take the bottom of the window for the start of the trace: exactly when their answers are still
 * right for every trace that ends with the window.
 */
module Bottoms {
  import opened Values
  import opened Traces
  import opened Formulas
  import opened Soundness
  import opened Windows

  /** Log is a trace that ends with window w. */
  ghost predicate EndsWith(log: seq<Event>, w: seq<Event>) {
    |w| <= |log| && log[|log| - |w|..] == w && WellTimed(log)
  }

  /** Log ends with window w and makes f true at t, from event i of the window. */
  ghost predicate TrueOn(f: Formula, log: seq<Event>, w: seq<Event>, i: nat, t: int)
    requires i < |w|
  {
    EndsWith(log, w) && Holds(f, log, |log| - |w| + i, t)
  }

  /** since_less gets to the bottom with nothing decided and still within its bound. */
  predicate Undecided(f: Formula, w: seq<Event>, i: nat, t: int)
    requires f.Since? && i < |w|
  {
    t - f.b < w[0].time
    && forall j | 0 <= j <= i && w[j].time != t ::
         t - f.b < w[j].time && EvalI(EvalAt(f.phi1, w, j), EvalAt(f.phi2, w, j)) == FV_SYMBOL
  }

  lemma {:induction false} UndecidedIsFalse(f: Formula, w: seq<Event>, i: nat, t: int)
    requires f.Since? && i < |w| && Undecided(f, w, i, t)
    ensures SinceFrom(f, w, i, t) == T_FALSE
    decreases i
  {
    if i > 0 { UndecidedIsFalse(f, w, i - 1, t); }
  }

  /** On a longer log the loop would go on below the window. */
  lemma {:induction false} GoesOnBelow(f: Formula, log: seq<Event>, d: nat, i: nat, t: int)
    requires f.Since? && PastFree(f.phi1) && PastFree(f.phi2)
    requires 0 < d && d + i < |log| && Undecided(f, log[d..], i, t)
    ensures SinceFrom(f, log, d + i, t) == SinceFrom(f, log, d - 1, t)
    decreases i
  {
    AtIgnoresBottom(f.phi1, log, d, d + i);
    AtIgnoresBottom(f.phi2, log, d, d + i);
    assert log[d..][i] == log[d + i];
    if i > 0 { GoesOnBelow(f, log, d, i - 1, t); }
  }

  /** Any older event that the bound still covers and that satisfies phi2 makes since true. */
  lemma OlderEventDecides(f: Formula, w: seq<Event>, i: nat, t: int, e: Event)
    requires f.Since? && PastFree(f.phi1) && PastFree(f.phi2) && i < |w| && Undecided(f, w, i, t)
    requires t - f.b < e.time && e.time != t && EvalAt(f.phi2, [e] + w, 0) == T_TRUE
    ensures Eval(f, [e] + w, i + 1, t) == T_TRUE
  {
    var log := [e] + w;
    assert log[1..] == w;
    GoesOnBelow(f, log, 1, i, t);
  }

  /** Some older event would be both on the clock and later than t - b. */
  predicate Room(w: seq<Event>, t: int, b: int)
    requires |w| > 0
  {
    0 < w[0].time && t - b + 1 < w[0].time
  }

  lemma Older(w: seq<Event>, e: Event)
    requires WellTimed(w) && |w| > 0 && 0 <= e.time < w[0].time
    ensures WellTimed([e] + w) && ([e] + w)[1..] == w
  {
    assert forall j | 0 < j < |w| :: w[0].time < w[j].time;
  }

  /**
   * For a proposition on the right: the answer false is wrong for some log that ends with the window exactly when
   * an older event would fit within the bound: the oldest buffered event is neither at time 0 nor at the first tick
   * after t - b.
   */
  lemma SinceIsContradictedIff(g: Formula, p: int, b: int, w: seq<Event>, i: nat, t: int)
    requires PastFree(g) && WellTimed(w) && i < |w| && w[i].time <= t && Undecided(Since(g, Prop(p), b), w, i, t)
    requires Dense(g, [Event(p, w[0].time - 1)] + w)
    ensures var f := Since(g, Prop(p), b);
            Eval(f, w, i, t) == T_FALSE
            && ((exists log :: TrueOn(f, log, w, i, t)) <==> Room(w, t, b))
  {
    var f := Since(g, Prop(p), b);
    UndecidedIsFalse(f, w, i, t);
    if Room(w, t, b) {
      OneOlder(g, p, b, w, i, t);
    } else if log :| TrueOn(f, log, w, i, t) {
      NothingOlderCounts(f, log, |log| - |w|, i, t);
    }
  }

  lemma OneOlder(g: Formula, p: int, b: int, w: seq<Event>, i: nat, t: int)
    requires PastFree(g) && WellTimed(w) && i < |w| && w[i].time <= t && Undecided(Since(g, Prop(p), b), w, i, t)
    requires Dense(g, [Event(p, w[0].time - 1)] + w) && Room(w, t, b)
    ensures TrueOn(Since(g, Prop(p), b), [Event(p, w[0].time - 1)] + w, w, i, t)
  {
    var f, e := Since(g, Prop(p), b), Event(p, w[0].time - 1);
    var log := [e] + w;
    Older(w, e);
    assert i > 0 ==> w[0].time < w[i].time;
    assert EvalAt(Prop(p), log, 0) == Eval(Prop(p), log, 0, e.time) == T_TRUE;
    OlderEventDecides(f, w, i, t, e);
    PastFreeIsWellNested(g);
    WellNestedIsInSight(f, log, t);
    VerdictIsTruth(f, log, log, i + 1, t, t);
  }

  lemma OlderIsOut(log: seq<Event>, d: nat, j: nat, t: int, b: int)
    requires WellTimed(log) && j < d < |log| && !Room(log[d..], t, b)
    ensures log[j].time <= t - b
  {
    assert 0 <= log[j].time < log[d].time;
  }

  lemma NothingOlderCounts(f: Formula, log: seq<Event>, d: nat, i: nat, t: int)
    requires f.Since? && PastFree(f.phi2) && Dense(f.phi2, log) && WellTimed(log) && d + i < |log|
    requires Undecided(f, log[d..], i, t) && !Room(log[d..], t, f.b)
    ensures !Holds(f, log, d + i, t)
  {
    forall j: nat | j < d ensures log[j].time <= t - f.b { OlderIsOut(log, d, j, t, f.b); }
    if Holds(f, log, d + i, t) {
      var j :| 0 <= j <= d + i && log[j].time != t && t - f.b < log[j].time && HoldsAt(f.phi2, log, j);
      if j >= d {
        AtIgnoresBottom(f.phi2, log, d, j);
        assert log[d..][j - d] == log[j];
        PastFreeIsWellNested(f.phi2);
        WellNestedIsInSight(f.phi2, log, log[j].time);
        VerdictAtIsTruth(f.phi2, log, log, j, log[j].time);
      }
    }
  }

  /** The answer false of since_less, where it gets to the bottom undecided, is right for every log that ends so. */
  ghost predicate FalseStands(b: int, w: seq<Event>, i: nat, t: int)
    requires i < |w|
  {
    forall g, h, log | PastFree(g) && PastFree(h) && Dense(h, log) && EndsWith(log, w)
                     && Undecided(Since(g, h, b), w, i, t) ::
      !TrueOn(Since(g, h, b), log, w, i, t)
  }

  lemma FalseStandsWithoutRoom(b: int, w: seq<Event>, i: nat, t: int)
    requires i < |w| && !Room(w, t, b)
    ensures FalseStands(b, w, i, t)
  {
    forall g, h, log | PastFree(g) && PastFree(h) && Dense(h, log) && EndsWith(log, w)
                     && Undecided(Since(g, h, b), w, i, t)
      ensures !TrueOn(Since(g, h, b), log, w, i, t)
    {
      NothingOlderCounts(Since(g, h, b), log, |log| - |w|, i, t);
    }
  }

  lemma FalseFallsWithRoom(b: int, w: seq<Event>, i: nat, t: int)
    requires WellTimed(w) && Brackets(w, i, t) && t - b < w[0].time && Room(w, t, b)
    ensures !FalseStands(b, w, i, t)
  {
    var p := FreshProposition(w, |w|);
    UndecidedFresh(p, b, w, i, t);
    OneOlder(True, p, b, w, i, t);
    assert TrueOn(Since(True, Prop(p), b), [Event(p, w[0].time - 1)] + w, w, i, t);
  }

  /** So, over all past-free formulas: false stands if and only if there is no room for an older event. */
  lemma SinceStandsIff(b: int, w: seq<Event>, i: nat, t: int)
    requires WellTimed(w) && Brackets(w, i, t) && t - b < w[0].time
    ensures FalseStands(b, w, i, t) <==> !Room(w, t, b)
  {
    if Room(w, t, b) { FalseFallsWithRoom(b, w, i, t); } else { FalseStandsWithoutRoom(b, w, i, t); }
  }

  /** A proposition that none of the first n events carries. */
  lemma {:induction false} FreshProposition(w: seq<Event>, n: nat) returns (p: int)
    requires n <= |w|
    ensures forall j | 0 <= j < n :: w[j].data < p
  {
    if n == 0 {
      p := 0;
    } else {
      p := FreshProposition(w, n - 1);
      p := Max(p, w[n - 1].data + 1);
    }
  }

  lemma UndecidedFresh(p: int, b: int, w: seq<Event>, i: nat, t: int)
    requires WellTimed(w) && Brackets(w, i, t) && t - b < w[0].time && forall j | 0 <= j < |w| :: w[j].data < p
    ensures Undecided(Since(True, Prop(p), b), w, i, t)
  {
    forall j: nat | j <= i
      ensures t - b < w[j].time && EvalI(EvalAt(True, w, j), EvalAt(Prop(p), w, j)) == FV_SYMBOL
    {
      assert w[0].time <= w[j].time;
      assert EvalAt(True, w, j) == Eval(True, w, j, w[j].time) == T_TRUE;
      assert EvalAt(Prop(p), w, j) == Eval(Prop(p), w, j, w[j].time) == T_FALSE;
    }
  }

  /** pasteventually_equal gets to the bottom still within its bound, past an event that counts. */
  predicate AllWithin(b: int, w: seq<Event>, i: nat, t: int)
    requires i < |w|
  {
    t - b < w[0].time < t && w[i].time <= t
  }

  lemma {:induction false} ReadsTheOldest(f: Formula, w: seq<Event>, j: nat, t: int, symbol: ThreeValued)
    requires f.PastEventuallyEqual? && WellTimed(w) && j < |w| && AllWithin(f.b, w, j, t)
    ensures PastEventuallyFrom(f, w, j, t, symbol) == EvalAt(f.phi, w, 0)
    decreases j
  {
    if j > 0 {
      assert w[0].time < w[j].time && w[j - 1].time < w[j].time;
      ReadsTheOldest(f, w, j - 1, t, if w[j].time == t then symbol else EvalAt(f.phi, w, j));
    }
  }

  /** Log ends with window w and makes f at t what the verdict says it is not. */
  ghost predicate Denies(v: ThreeValued, f: Formula, log: seq<Event>, w: seq<Event>, i: nat, t: int)
    requires i < |w|
  {
    EndsWith(log, w) && !Agrees(v, Holds(f, log, |log| - |w| + i, t))
  }

  /**
   * Likewise for pasteventually_equal of a proposition: a definite answer from the oldest event is wrong for some
   * log exactly when there is room.
   */
  lemma PastEventuallyIsContradictedIff(p: int, b: int, w: seq<Event>, i: nat, t: int)
    requires WellTimed(w) && i < |w| && AllWithin(b, w, i, t)
    requires Eval(PastEventuallyEqual(Prop(p), b), w, i, t) != T_UNKNOWN
    ensures var f := PastEventuallyEqual(Prop(p), b);
            (exists log :: Denies(Eval(f, w, i, t), f, log, w, i, t)) <==> Room(w, t, b)
  {
    var f := PastEventuallyEqual(Prop(p), b);
    var v := Eval(f, w, i, t);
    ReadsTheOldest(f, w, i, t, T_UNKNOWN);
    if Room(w, t, b) {
      var e := Event(if v == T_TRUE then p + 1 else p, w[0].time - 1);
      var log := [e] + w;
      Older(w, e);
      OldestDecides(p, b, log, i + 1, t);
      assert log[1..] == w && Denies(v, f, log, w, i, t);
    } else if log: seq<Event> :| Denies(v, f, log, w, i, t) {
      var d := |log| - |w|;
      forall j: nat | j < d ensures log[j].time <= t - b { OlderIsOut(log, d, j, t, b); }
      OldestWithinDecides(p, b, log, d, i, t);
    }
  }

  /** The oldest event of a log that the bound reaches past decides alone. */
  lemma OldestDecides(p: int, b: int, log: seq<Event>, i: nat, t: int)
    requires WellTimed(log) && i < |log| && AllWithin(b, log, i, t)
    ensures Holds(PastEventuallyEqual(Prop(p), b), log, i, t) == (log[0].data == p)
  {
    assert log[0..] == log;
    OldestWithinDecides(p, b, log, 0, i, t);
  }

  lemma OldestWithinDecides(p: int, b: int, log: seq<Event>, d: nat, i: nat, t: int)
    requires WellTimed(log) && d + i < |log| && AllWithin(b, log[d..], i, t)
    requires forall j | 0 <= j < d :: log[j].time <= t - b
    ensures Holds(PastEventuallyEqual(Prop(p), b), log, d + i, t) == (log[d].data == p)
  {
    assert log[d..][0] == log[d];
    assert FirstWithin(log, d, t, b);
    forall j | FirstWithin(log, j, t, b) ensures j == d {}
    assert Covers(log, d, log[d].time);
    forall k | Covers(log, k, log[d].time) ensures k == d {}
    assert HoldsAt(Prop(p), log, d) == Holds(Prop(p), log, d, log[d].time);
  }

  /** A definite answer of pasteventually_equal from the oldest event is right for every log that ends so. */
  ghost predicate AnswerStands(b: int, w: seq<Event>, i: nat, t: int)
    requires i < |w|
  {
    forall phi, log | PastFree(phi) && Dense(phi, log) && EndsWith(log, w) ::
      !Denies(Eval(PastEventuallyEqual(phi, b), w, i, t), PastEventuallyEqual(phi, b), log, w, i, t)
  }

  /** So, over all past-free formulas: it stands if and only if there is no room for an older event. */
  lemma PastEventuallyStandsIff(b: int, w: seq<Event>, i: nat, t: int)
    requires WellTimed(w) && i < |w| && |w| > 1 && AllWithin(b, w, i, t)
    ensures AnswerStands(b, w, i, t) <==> !Room(w, t, b)
  {
    if Room(w, t, b) {
      var f := PastEventuallyEqual(Prop(w[0].data), b);
      ReadsTheOldest(f, w, i, t, T_UNKNOWN);
      assert EvalAt(f.phi, w, 0) == Eval(f.phi, w, 0, w[0].time) == T_TRUE;
      PastEventuallyIsContradictedIff(w[0].data, b, w, i, t);
      var log: seq<Event> :| Denies(Eval(f, w, i, t), f, log, w, i, t);
      assert PastFree(f.phi) && Dense(f.phi, log);
    } else {
      forall phi, log | PastFree(phi) && Dense(phi, log) && EndsWith(log, w)
        ensures !Denies(Eval(PastEventuallyEqual(phi, b), w, i, t), PastEventuallyEqual(phi, b), log, w, i, t)
      {
        AnswerOfTheOldest(phi, b, log, |log| - |w|, i, t);
      }
    }
  }

  lemma AnswerOfTheOldest(phi: Formula, b: int, log: seq<Event>, d: nat, i: nat, t: int)
    requires PastFree(phi) && Dense(phi, log) && WellTimed(log) && d + i < |log|
    requires AllWithin(b, log[d..], i, t) && !Room(log[d..], t, b)
    ensures Agrees(Eval(PastEventuallyEqual(phi, b), log[d..], i, t), Holds(PastEventuallyEqual(phi, b), log, d + i, t))
  {
    var f := PastEventuallyEqual(phi, b);
    assert log[d..][0] == log[d];
    SuffixIsWellTimed(log, d);
    ReadsTheOldest(f, log[d..], i, t, T_UNKNOWN);
    AtIgnoresBottom(phi, log, d, d);
    PastFreeIsWellNested(phi);
    WellNestedIsInSight(phi, log, log[d].time);
    VerdictAtIsTruth(phi, log, log, d, log[d].time);
    forall j: nat | j < d ensures log[j].time <= t - b { OlderIsOut(log, d, j, t, b); }
    assert FirstWithin(log, d, t, b);
    forall j | FirstWithin(log, j, t, b) ensures j == d {}
  }
}
