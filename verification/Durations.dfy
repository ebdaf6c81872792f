/** duration_term of a formula: the integral it stands for, when the two agree, and its laws. */
module Durations {
  import opened Values
  import opened Traces
  import opened Integrals
  import opened Formulas

  /**
   * The duration is the integral, from any start at or before the event in force at t, when the interval
   * ends under a later event than it starts; it is unknown when the formula is, at some event in between.
   */
  lemma DurationIsIntegral(f: Formula, w: seq<Event>, s: nat, i: nat, k: nat, t: int, upper: int)
    requires Closed(w, i, k, t, upper) && s <= i < k
    ensures var marks := Indicators(f, w);
            DurationTerm(f, w, s, t, upper) == Duration(Ticks(marks, w, t, upper), SomeUnknown(marks, i, k))
  {
    var marks := Indicators(f, w);
    StartIsForgotten(marks, w, s, i, t, upper, Duration(0, false));
    BracketsAreApart(w, i, t);
    BracketsAreApart(w, k, t + upper);
    IntegralSoFar(marks, w, i, i + 1, k, t, t, upper);
  }

  /**
   * Exactly when the value is right: when the two ends lie under different events, or the formula is true
   * at no event from the one in force on, the last buffered one aside.
   */
  lemma DurationIsIntegralIff(f: Formula, w: seq<Event>, s: nat, i: nat, k: nat, t: int, upper: int)
    requires Closed(w, i, k, t, upper) && s <= i
    ensures DurationTerm(f, w, s, t, upper).ticks == Ticks(Indicators(f, w), w, t, upper)
            <==> i < k || forall j | i <= j < |w| - 1 :: Indicator(f, w, j).ticks == 0
  {
    if i < k {
      DurationIsIntegral(f, w, s, i, k, t, upper);
    } else {
      var marks := Indicators(f, w);
      BetweenEnds(w, i, |w| - 1, t, t + upper);
      InForceIs(w, k, t + upper);
      SameEventAtBothEnds(marks, w, s, i, t, upper, Duration(0, false));
      NoneCountsIff(f, w, i, |w| - 1);
    }
  }

  lemma NoneCountsIff(f: Formula, w: seq<Event>, i: nat, m: nat)
    requires m <= |w|
    ensures NoneCounts(Indicators(f, w), i, m) <==> forall j | i <= j < m :: Indicator(f, w, j).ticks == 0
  {
    var marks := Indicators(f, w);
    if forall j | i <= j < m :: Indicator(f, w, j).ticks == 0 {
      forall j | i <= j < m ensures marks[j].ticks == 0 { assert marks[j] == Indicator(f, w, j); }
      assert NoneCounts(marks, i, m);
    } else {
      var j: nat :| i <= j < m && Indicator(f, w, j).ticks != 0;
      assert marks[j] == Indicator(f, w, j);
      assert !NoneCounts(marks, i, m);
      assert exists k | i <= k < m :: Indicator(f, w, k).ticks != 0;
    }
  }

  /** Three ticks of a formula that is always true come out as eighteen. */
  lemma ShortDurationIsWrong() returns (w: seq<Event>)
    ensures |w| == 3 && WellTimed(w) && Closed(w, 0, 0, 2, 3)
    ensures DurationTerm(True, w, 0, 2, 3) == Duration(18, false)
    ensures Ticks(Indicators(True, w), w, 2, 3) == 3
  {
    w := [Event(0, 0), Event(0, 10), Event(0, 20)];
    var marks := Indicators(True, w);
    assert forall j | 0 <= j < 3 :: EvalAt(True, w, j) == Eval(True, w, j, w[j].time) == T_TRUE;
    TicksOfOneEvent(marks, w, 2, 0, 0, 3);
    var acc := Duration(0, false);
    assert DurationStep(marks, w, 0, 2, 3, acc) == (Duration(8, false), false);
    assert DurationStep(marks, w, 1, 2, 3, Duration(8, false)) == (Duration(18, false), false);
    assert DurationFrom(marks, w, 1, 2, 3, Duration(8, false)) == DurationFrom(marks, w, 2, 2, 3, Duration(18, false));
  }

  /**
   * What duration_term returns where it is no integral from t to t + upper: while the upper end is open, or when
   * no interval from the cursor on is that of the lower end, it runs from t or from the event under the cursor.
   */
  lemma OpenDurationAnswers(f: Formula, w: seq<Event>, s: nat, i: nat, t: int, upper: nat)
    requires Increasing(w) && Brackets(w, i, t) && s <= i && w[|w| - 1].time <= t + upper
    ensures t < w[|w| - 1].time
    ensures DurationTerm(f, w, s, t, upper) == Duration(Ticks(Indicators(f, w), w, t, w[|w| - 1].time - t), true)
  {
    OpenDurationRuns(Indicators(f, w), w, s, i, t, upper, Duration(0, false));
  }

  lemma DurationFromCursorAnswers(f: Formula, w: seq<Event>, s: nat, t: int, upper: nat, u: int)
    requires Increasing(w) && s < |w| && u == t + upper && (forall m | s <= m :: !Brackets(w, m, t))
    ensures forall k: nat | s <= k && Brackets(w, k, u) ::
              w[s].time <= u && DurationTerm(f, w, s, t, upper)
                == Duration(Ticks(Indicators(f, w), w, w[s].time, u - w[s].time), SomeUnknown(Indicators(f, w), s, k))
    ensures (forall k: nat | s <= k :: !Brackets(w, k, u)) ==>
              w[s].time <= w[|w| - 1].time && DurationTerm(f, w, s, t, upper)
                == Duration(Ticks(Indicators(f, w), w, w[s].time, w[|w| - 1].time - w[s].time),
                            SomeUnknown(Indicators(f, w), s, |w| - 2) || w[|w| - 1].time <= u)
  {
    forall k: nat | s <= k && Brackets(w, k, u)
      ensures w[s].time <= u
      ensures DurationTerm(f, w, s, t, upper)
              == Duration(Ticks(Indicators(f, w), w, w[s].time, u - w[s].time), SomeUnknown(Indicators(f, w), s, k))
    {
      DurationToUpperEnd(f, w, s, k, t, upper);
    }
    if forall k: nat | s <= k :: !Brackets(w, k, u) {
      NoLowerEndRuns(Indicators(f, w), w, s, t, upper);
    }
  }

  lemma DurationToUpperEnd(f: Formula, w: seq<Event>, s: nat, k: nat, t: int, upper: nat)
    requires Increasing(w) && s <= k && Brackets(w, k, t + upper) && (forall m | s <= m :: !Brackets(w, m, t))
    ensures w[s].time <= t + upper
    ensures DurationTerm(f, w, s, t, upper)
            == Duration(Ticks(Indicators(f, w), w, w[s].time, t + upper - w[s].time),
                        SomeUnknown(Indicators(f, w), s, k))
  {
    if s == k {
      NoLowerEndClosesAtOnce(Indicators(f, w), w, s, t, upper);
    } else {
      NoLowerEndCloses(Indicators(f, w), w, s, k, t, upper);
    }
  }

  // ---------- laws ----------

  /** Durations over adjacent intervals add up. */
  lemma DurationsAdd(f: Formula, w: seq<Event>, i: nat, j: nat, k: nat, t: int, m: nat, n: nat)
    requires Closed(w, i, j, t, m) && Closed(w, j, k, t + m, n) && i < j < k
    ensures SumDur(DurationTerm(f, w, i, t, m), DurationTerm(f, w, j, t + m, n)) == DurationTerm(f, w, i, t, m + n)
  {
    var marks := Indicators(f, w);
    DurationIsIntegral(f, w, i, i, j, t, m);
    DurationIsIntegral(f, w, j, j, k, t + m, n);
    DurationIsIntegral(f, w, i, i, k, t, m + n);
    TicksAdd(marks, w, t, m, n);
    SomeUnknownJoins(marks, i, j, k);
  }

  /** Definite durations of a formula and its negation share the interval out between them. */
  lemma NegationIsTheRest(f: Formula, w: seq<Event>, i: nat, k: nat, t: int, upper: nat)
    requires Closed(w, i, k, t, upper) && i < k && !DurationTerm(f, w, i, t, upper).unknown
    ensures SumDur(DurationTerm(f, w, i, t, upper), DurationTerm(Not(f), w, i, t, upper)) == Duration(upper, false)
  {
    var marks, rest := Indicators(f, w), Indicators(Not(f), w);
    DurationIsIntegral(f, w, i, i, k, t, upper);
    DurationIsIntegral(Not(f), w, i, i, k, t, upper);
    forall j | i <= j <= k
      ensures !rest[j].unknown && rest[j].ticks == 1 - marks[j].ticks
    {
      assert !marks[j].unknown;
      assert EvalAt(Not(f), w, j) == Eval(Not(f), w, j, w[j].time) == B3Not(EvalAt(f, w, j));
    }
    ComplementaryTicks(marks, rest, w, i, k, t, upper);
  }

  // ---------- the integral of the truth ----------

  /** A definite duration is the integral of the truth, if the verdicts of its formula are true at the events met. */
  lemma DefiniteDurationIsTruth(f: Formula, w: seq<Event>, s: seq<Event>, start: nat, i: nat, k: nat, t: int,
                                upper: int)
    requires w <= s && Increasing(s) && Closed(w, i, k, t, upper) && start <= i < k
    requires forall j: nat | i <= j <= k :: Agrees(EvalAt(f, w, j), HoldsAt(f, s, j))
    requires !DurationTerm(f, w, start, t, upper).unknown
    ensures DurationTerm(f, w, start, t, upper) == Duration(TrueTicks(Truths(f, s), s, t, upper), false)
  {
    var marks, truths := Indicators(f, w), Truths(f, s);
    DurationIsIntegral(f, w, start, i, k, t, upper);
    forall j: nat | i <= j <= k ensures marks[j].ticks == if truths[j] then 1 else 0 {
      assert !marks[j].unknown && marks[j] == Indicator(f, w, j);
      assert Agrees(EvalAt(f, w, j), HoldsAt(f, s, j));
    }
    forall u | t <= u < t + upper
      ensures i <= InForce(w, 0, u) <= k && InForce(s, 0, u) == InForce(w, 0, u)
    {
      SameEventInForce(w, s, i, k, t, u);
    }
    TicksAreTrue(marks, truths, w, s, i, k, t, upper);
  }

  /**
   * A definite duration that ends under event k is kept by later events, if the verdicts of its formula up to
   * there are.
   */
  lemma DefiniteDurationIsKept(f: Formula, w: seq<Event>, s: seq<Event>, start: nat, k: nat, t: int, upper: int)
    requires w <= s && start <= k && Brackets(w, k, t + upper) && !Brackets(w, k, t)
    requires forall j: nat | j <= k && EvalAt(f, w, j) != T_UNKNOWN :: EvalAt(f, s, j) == EvalAt(f, w, j)
    requires !DurationTerm(f, w, start, t, upper).unknown
    ensures DurationTerm(f, s, start, t, upper) == DurationTerm(f, w, start, t, upper)
  {
    var marks, later := Indicators(f, w), Indicators(f, s);
    forall j: nat | j <= k ensures marks[j].unknown || later[j] == marks[j] {
      assert marks[j] == Indicator(f, w, j) && later[j] == Indicator(f, s, j);
      assert EvalAt(f, w, j) != T_UNKNOWN ==> EvalAt(f, s, j) == EvalAt(f, w, j);
    }
    LaterMarks(marks, later, w, s, start, k, t, upper, Duration(0, false), Duration(0, false));
  }
}
