/** The loop of duration_term over the indicators of the events, and the integral it stands for. */
module Integrals {
  import opened Values
  import opened Traces

  predicate Marked(marks: seq<Duration>, w: seq<Event>) {
    |marks| == |w| && forall j | 0 <= j < |marks| :: 0 <= marks[j].ticks <= 1
  }

  /** What d ticks under one indicator, which is zero or one, count for. */
  function Counted(d: int, symbol: Duration): int {
    if symbol.ticks == 1 then d else 0
  }

  /** What an interval [from, to) adds to the accumulator, and whether the duration ends in it. */
  function Accumulated(from: int, to: int, t: int, upper: int, symbol: Duration, acc: Duration): (Duration, bool) {
    if from <= t < to then
      (Duration(Counted(to - t, symbol), symbol.unknown), false)
    else if from <= t + upper < to then
      (Duration(acc.ticks + Counted(t + upper - from, symbol), acc.unknown || symbol.unknown), true)
    else
      (Duration(acc.ticks + Counted(to - from, symbol), acc.unknown || symbol.unknown), false)
  }

  /** What one turn of the loop, from event j to j+1, makes of the accumulator; and whether it is the last. */
  function DurationStep(marks: seq<Duration>, w: seq<Event>, j: nat, t: int, upper: int,
                        acc: Duration): (Duration, bool)
    requires |marks| == |w| && j + 1 < |w|
  {
    Accumulated(w[j].time, w[j + 1].time, t, upper, marks[j], acc)
  }

  /** The duration from event j on: the accumulator, flagged when no event past the end has been seen. */
  function DurationFrom(marks: seq<Duration>, w: seq<Event>, j: nat, t: int, upper: int, acc: Duration): Duration
    requires |marks| == |w| && j < |w|
    decreases |w| - j
  {
    if j + 1 < |w| then
      var (next, last) := DurationStep(marks, w, j, t, upper, acc);
      if last then next else DurationFrom(marks, w, j + 1, t, upper, next)
    else acc.(unknown := acc.unknown || w[j].time <= t + upper)
  }

  lemma DurationTurn(marks: seq<Duration>, w: seq<Event>, j: nat, t: int, upper: int, acc: Duration)
    requires |marks| == |w| && j + 1 < |w|
    ensures var (next, last) := Accumulated(w[j].time, w[j + 1].time, t, upper, marks[j], acc);
            && (last ==> t + upper < w[j + 1].time)
            && DurationFrom(marks, w, j, t, upper, acc)
               == if last then next else DurationFrom(marks, w, j + 1, t, upper, next)
  {
  }

  lemma DurationEnds(marks: seq<Duration>, w: seq<Event>, t: int, upper: int, acc: Duration)
    requires |marks| == |w| > 0
    ensures DurationFrom(marks, w, |w| - 1, t, upper, acc)
            == acc.(unknown := acc.unknown || w[|w| - 1].time <= t + upper)
  {
  }

  // ---------- the integral ----------

  /** The event in force at time u, searched from event i up. */
  function InForce(w: seq<Event>, i: nat, u: int): (k: nat)
    requires i < |w|
    ensures i <= k < |w|
    ensures w[i].time <= u ==> Covers(w, k, u)
    decreases |w| - i
  {
    if i + 1 < |w| && w[i + 1].time <= u then InForce(w, i + 1, u) else i
  }

  lemma InForceIs(w: seq<Event>, k: nat, u: int)
    requires Increasing(w) && Covers(w, k, u)
    ensures InForce(w, 0, u) == k
  {
    assert k > 0 ==> w[0].time < w[k].time;
    CoveringEventIsUnique(w, InForce(w, 0, u), k, u);
  }

  lemma BetweenEnds(w: seq<Event>, i: nat, k: nat, t: int, u: int)
    requires Increasing(w) && Covers(w, i, t) && i <= k < |w| && t <= u && (k + 1 < |w| ==> u < w[k + 1].time)
    ensures i <= InForce(w, 0, u) <= k && Covers(w, InForce(w, 0, u), u)
  {
    assert forall m | 0 <= m <= i :: w[m].time <= w[i].time;
    assert forall m | k < m < |w| :: w[k + 1].time <= w[m].time;
  }

  /** The integral over [t, t + n) of the indicator of the event in force, tick by tick. */
  ghost function Ticks(marks: seq<Duration>, w: seq<Event>, t: int, n: nat): nat
    requires |w| > 0 && Marked(marks, w)
  {
    if n == 0 then 0
    else Ticks(marks, w, t, n - 1) + marks[InForce(w, 0, t + n - 1)].ticks
  }

  /** Some event from i to k has an unknown indicator. */
  ghost predicate SomeUnknown(marks: seq<Duration>, i: nat, k: int) {
    exists j :: i <= j <= k && j < |marks| && marks[j].unknown
  }

  /** Within the interval of one event every tick counts alike. */
  lemma {:induction false} TicksOfOneEvent(marks: seq<Duration>, w: seq<Event>, t: int, k: nat, n: nat, d: nat)
    requires Increasing(w) && Marked(marks, w) && k < |w|
    requires w[k].time <= t + n && (k + 1 < |w| ==> t + n + d <= w[k + 1].time)
    ensures Ticks(marks, w, t, n + d) == Ticks(marks, w, t, n) + Counted(d, marks[k])
    decreases d
  {
    if d > 0 {
      TicksOfOneEvent(marks, w, t, k, n, d - 1);
      InForceIs(w, k, t + n + d - 1);
    }
  }

  lemma {:induction false} TicksAdd(marks: seq<Duration>, w: seq<Event>, t: int, m: nat, n: nat)
    requires |w| > 0 && Marked(marks, w)
    ensures Ticks(marks, w, t, m + n) == Ticks(marks, w, t, m) + Ticks(marks, w, t + m, n)
    decreases n
  {
    if n > 0 { TicksAdd(marks, w, t, m, n - 1); }
  }

  lemma SomeUnknownJoins(marks: seq<Duration>, i: nat, j: nat, k: nat)
    requires i <= j <= k
    ensures SomeUnknown(marks, i, k) == (SomeUnknown(marks, i, j) || SomeUnknown(marks, j, k))
  {
  }

  // ---------- the loop computes the integral ----------

  /** Event i is in force at t, k at the end of the duration, and an event later than that is buffered. */
  ghost predicate Closed(w: seq<Event>, i: nat, k: nat, t: int, upper: int) {
    Increasing(w) && 0 <= upper && Brackets(w, i, t) && Brackets(w, k, t + upper)
  }

  /** In a window that is never without an event for longer than upper, a duration that is not unknown is closed. */
  lemma DefiniteIsClosed(marks: seq<Duration>, w: seq<Event>, s: nat, t: int, upper: int) returns (i: nat, k: nat)
    requires Marked(marks, w) && s < |w| && w[s].time <= t && 0 <= upper && GapsWithin(w, upper)
    requires !DurationFrom(marks, w, s, t, upper, Duration(0, false)).unknown
    ensures s <= i < k && Closed(w, i, k, t, upper) && !Brackets(w, k, t)
  {
    if w[|w| - 1].time <= t + upper {
      OpenDurationIsUnknown(marks, w, s, t, upper, Duration(0, false));
    }
    i := CoveringEvent(w, s, t);
    k := CoveringEvent(w, i, t + upper);
    assert i + 1 < |w| ==> w[i + 1].time - w[i].time <= upper;
  }

  lemma WholeInterval(marks: seq<Duration>, w: seq<Event>, j: nat, t: int, upper: int, acc: Duration)
    requires |marks| == |w| && j + 1 < |w| && !Brackets(w, j, t) && !Brackets(w, j, t + upper)
    ensures DurationFrom(marks, w, j, t, upper, acc)
            == DurationFrom(marks, w, j + 1, t, upper,
                            Duration(acc.ticks + Counted(w[j + 1].time - w[j].time, marks[j]),
                                acc.unknown || marks[j].unknown))
  {
  }

  /** The integral from t to u, with the unknowns met from event i to event k. */
  ghost function IntegralTo(marks: seq<Duration>, w: seq<Event>, i: nat, k: int, t: int, u: int): Duration
    requires |w| > 0 && Marked(marks, w) && t <= u
  {
    Duration(Ticks(marks, w, t, u - t), SomeUnknown(marks, i, k))
  }

  /** Events before the one in force at t leave no trace in the accumulator. */
  lemma {:induction false} StartIsForgotten(marks: seq<Duration>, w: seq<Event>, j: nat, i: nat, t: int,
                                            upper: int, acc: Duration)
    requires Increasing(w) && Marked(marks, w) && 0 <= upper && Brackets(w, i, t) && j <= i
    ensures DurationFrom(marks, w, j, t, upper, acc)
            == DurationFrom(marks, w, i + 1, t, upper, IntegralTo(marks, w, i, i, t, w[i + 1].time))
    decreases i - j
  {
    if j < i {
      assert w[j + 1].time <= w[i].time;
      WholeInterval(marks, w, j, t, upper, acc);
      StartIsForgotten(marks, w, j + 1, i, t, upper,
                       Duration(acc.ticks + Counted(w[j + 1].time - w[j].time, marks[j]),
                           acc.unknown || marks[j].unknown));
    } else {
      TicksOfOneEvent(marks, w, t, i, 0, w[i + 1].time - t);
      assert DurationStep(marks, w, i, t, upper, acc) == (IntegralTo(marks, w, i, i, t, w[i + 1].time), false);
    }
  }

  lemma AddInterval(marks: seq<Duration>, w: seq<Event>, i: nat, j: nat, t: int, u: int)
    requires Increasing(w) && Marked(marks, w) && Brackets(w, i, t)
    requires i < j && j + 1 < |w| && w[j].time <= u <= w[j + 1].time
    ensures t < w[j].time && !Brackets(w, j, t)
    ensures var acc := IntegralTo(marks, w, i, j - 1, t, w[j].time);
            IntegralTo(marks, w, i, j, t, u)
            == Duration(acc.ticks + Counted(u - w[j].time, marks[j]), acc.unknown || marks[j].unknown)
  {
    assert w[i + 1].time <= w[j].time;
    TicksOfOneEvent(marks, w, t, j, w[j].time - t, u - w[j].time);
    assert SomeUnknown(marks, i, j) == (SomeUnknown(marks, i, j - 1) || marks[j].unknown);
  }

  /** From event j on, no interval is that of the lower end, and the first that is that of the upper end is k's. */
  ghost predicate NoEnds(w: seq<Event>, j: nat, k: nat, t: int, u: int) {
    forall m | j <= m < k :: !Brackets(w, m, t) && !Brackets(w, m, u)
  }

  /** From the first event after `from` on, the accumulator is the integral so far; it is closed at event k. */
  lemma {:induction false} IntegralSoFar(marks: seq<Duration>, w: seq<Event>, i: nat, j: nat, k: nat, from: int, t: int,
                                         upper: int)
    requires Increasing(w) && Marked(marks, w) && Brackets(w, i, from) && i < j <= k && Brackets(w, k, t + upper)
    requires from < w[j].time && NoEnds(w, j, k, t, t + upper) && !Brackets(w, k, t)
    ensures from <= t + upper
    ensures DurationFrom(marks, w, j, t, upper, IntegralTo(marks, w, i, j - 1, from, w[j].time))
            == IntegralTo(marks, w, i, k, from, t + upper)
    decreases k - j
  {
    if j < k {
      assert w[j + 1].time <= w[k].time;
      AddInterval(marks, w, i, j, from, w[j + 1].time);
      WholeInterval(marks, w, j, t, upper, IntegralTo(marks, w, i, j - 1, from, w[j].time));
      IntegralSoFar(marks, w, i, j + 1, k, from, t, upper);
    } else {
      AddInterval(marks, w, i, k, from, t + upper);
      assert DurationStep(marks, w, k, t, upper, IntegralTo(marks, w, i, k - 1, from, w[k].time))
          == (IntegralTo(marks, w, i, k, from, t + upper), true);
    }
  }

  /** With no upper end to come it runs to the last event, and is flagged while that is not past the upper end. */
  lemma {:induction false} RunsToTheLastEvent(marks: seq<Duration>, w: seq<Event>, i: nat, j: nat, from: int, t: int,
                                              upper: int)
    requires Increasing(w) && Marked(marks, w) && Brackets(w, i, from) && i < j < |w| && from < w[j].time
    requires NoEnds(w, j, |w|, t, t + upper)
    ensures from < w[|w| - 1].time
    ensures DurationFrom(marks, w, j, t, upper, IntegralTo(marks, w, i, j - 1, from, w[j].time))
            == Flagged(IntegralTo(marks, w, i, |w| - 2, from, w[|w| - 1].time), w, t + upper)
    decreases |w| - j
  {
    assert w[i + 1].time <= w[j].time;
    if j + 1 < |w| {
      AddInterval(marks, w, i, j, from, w[j + 1].time);
      WholeInterval(marks, w, j, t, upper, IntegralTo(marks, w, i, j - 1, from, w[j].time));
      RunsToTheLastEvent(marks, w, i, j + 1, from, t, upper);
    }
  }

  /** The flag is set while the last event is not past time u. */
  function Flagged(acc: Duration, w: seq<Event>, u: int): Duration
    requires |w| > 0
  {
    acc.(unknown := acc.unknown || w[|w| - 1].time <= u)
  }

  lemma BracketsAreApart(w: seq<Event>, i: nat, u: int)
    requires Increasing(w) && Brackets(w, i, u)
    ensures forall m | Brackets(w, m, u) :: m == i
  {
    forall m: nat | Brackets(w, m, u) ensures m == i { CoveringEventIsUnique(w, i, m, u); }
  }

  lemma OpenHasNoEnds(w: seq<Event>, i: nat, t: int, u: int)
    requires Increasing(w) && Brackets(w, i, t) && w[|w| - 1].time <= u
    ensures NoEnds(w, i + 1, |w|, t, u)
  {
    forall m: nat | i + 1 <= m < |w| ensures !Brackets(w, m, t) && !Brackets(w, m, u) {
      assert w[i + 1].time <= w[m].time;
      assert m + 1 < |w| ==> w[m + 1].time <= w[|w| - 1].time;
    }
  }

  /** While the upper end is open the ticks run from t to the last event, and the flag is set. */
  lemma OpenDurationRuns(marks: seq<Duration>, w: seq<Event>, s: nat, i: nat, t: int, upper: int, acc: Duration)
    requires Increasing(w) && Marked(marks, w) && 0 <= upper && Brackets(w, i, t) && s <= i
    requires w[|w| - 1].time <= t + upper
    ensures t < w[|w| - 1].time
    ensures DurationFrom(marks, w, s, t, upper, acc)
            == Duration(Ticks(marks, w, t, w[|w| - 1].time - t), true)
  {
    StartIsForgotten(marks, w, s, i, t, upper, acc);
    OpenHasNoEnds(w, i, t, t + upper);
    RunsToTheLastEvent(marks, w, i, i + 1, t, t, upper);
  }

  /** From a start that no interval of the lower end follows, the ticks run from the start: first to the upper end, */
  lemma NoLowerEndCloses(marks: seq<Duration>, w: seq<Event>, s: nat, k: nat, t: int, upper: int)
    requires Increasing(w) && Marked(marks, w) && s < k && (forall m | s <= m :: !Brackets(w, m, t))
    requires Brackets(w, k, t + upper)
    ensures w[s].time <= t + upper
    ensures DurationFrom(marks, w, s, t, upper, Duration(0, false)) == IntegralTo(marks, w, s, k, w[s].time, t + upper)
  {
    BracketsAreApart(w, k, t + upper);
    assert w[s].time < w[k].time;
    FirstInterval(marks, w, s, t, upper);
    IntegralSoFar(marks, w, s, s + 1, k, w[s].time, t, upper);
  }

  /** or else to the last event. */
  lemma NoLowerEndRuns(marks: seq<Duration>, w: seq<Event>, s: nat, t: int, upper: int)
    requires Increasing(w) && Marked(marks, w) && s < |w| && NoEnds(w, s, |w|, t, t + upper)
    ensures s + 1 < |w| ==> w[s].time < w[|w| - 1].time
    ensures DurationFrom(marks, w, s, t, upper, Duration(0, false))
            == if s + 1 < |w| then Flagged(IntegralTo(marks, w, s, |w| - 2, w[s].time, w[|w| - 1].time), w, t + upper)
               else Flagged(Duration(0, false), w, t + upper)
  {
    if s + 1 < |w| {
      FirstInterval(marks, w, s, t, upper);
      RunsToTheLastEvent(marks, w, s, s + 1, w[s].time, t, upper);
    }
  }

  lemma FirstInterval(marks: seq<Duration>, w: seq<Event>, s: nat, t: int, upper: int)
    requires Increasing(w) && Marked(marks, w) && s + 1 < |w| && !Brackets(w, s, t) && !Brackets(w, s, t + upper)
    ensures DurationFrom(marks, w, s, t, upper, Duration(0, false))
            == DurationFrom(marks, w, s + 1, t, upper, IntegralTo(marks, w, s, s, w[s].time, w[s + 1].time))
  {
    WholeInterval(marks, w, s, t, upper, Duration(0, false));
    TicksOfOneEvent(marks, w, w[s].time, s, 0, w[s + 1].time - w[s].time);
    assert SomeUnknown(marks, s, s) == marks[s].unknown;
  }

  /** When the upper end comes in the very first interval only its part up to there counts. */
  lemma NoLowerEndClosesAtOnce(marks: seq<Duration>, w: seq<Event>, s: nat, t: int, upper: int)
    requires Increasing(w) && Marked(marks, w) && !Brackets(w, s, t) && Brackets(w, s, t + upper)
    ensures DurationFrom(marks, w, s, t, upper, Duration(0, false)) == IntegralTo(marks, w, s, s, w[s].time, t + upper)
  {
    TicksOfOneEvent(marks, w, w[s].time, s, 0, t + upper - w[s].time);
    assert SomeUnknown(marks, s, s) == marks[s].unknown;
  }

  // ---------- one event in force at both ends ----------

  /** The ticks of one event are none just when it does not count. */
  lemma OneEventCounts(marks: seq<Duration>, w: seq<Event>, t: int, k: nat, n: nat, m: nat)
    requires Increasing(w) && Marked(marks, w) && k < |w| && n < m
    requires w[k].time <= t + n && (k + 1 < |w| ==> t + m <= w[k + 1].time)
    ensures Ticks(marks, w, t, m) == 0 <==> Ticks(marks, w, t, n) == 0 && marks[k].ticks == 0
  {
    TicksOfOneEvent(marks, w, t, k, n, m - n);
  }

  /** The ticks from u up to event m are none just when no event in force in between counts. */
  lemma {:induction false} NoTicksIff(marks: seq<Duration>, w: seq<Event>, i: nat, u: int, m: nat)
    requires Increasing(w) && Marked(marks, w) && Covers(w, i, u) && i < m < |w| && u < w[m].time
    ensures Ticks(marks, w, u, w[m].time - u) == 0 <==> NoneCounts(marks, i, m)
    decreases m
  {
    if m == i + 1 {
      OneEventCounts(marks, w, u, i, 0, w[m].time - u);
    } else {
      assert w[i + 1].time <= w[m - 1].time;
      NoTicksIff(marks, w, i, u, m - 1);
      OneEventCounts(marks, w, u, m - 1, w[m - 1].time - u, w[m].time - u);
    }
  }

  ghost predicate NoneCounts(marks: seq<Duration>, i: nat, m: nat) {
    forall j | i <= j < m && j < |marks| :: marks[j].ticks == 0
  }

  /** When one event is in force at both ends the loop never finds its end: it integrates to the last event. */
  lemma IntegratesToTheLast(marks: seq<Duration>, w: seq<Event>, s: nat, i: nat, t: int, upper: int, acc: Duration)
    requires Closed(w, i, i, t, upper) && Marked(marks, w) && s <= i
    ensures t + upper < w[|w| - 1].time
    ensures DurationFrom(marks, w, s, t, upper, acc) == IntegralTo(marks, w, i, |w| - 2, t, w[|w| - 1].time)
  {
    assert w[i + 1].time <= w[|w| - 1].time;
    StartIsForgotten(marks, w, s, i, t, upper, acc);
    BracketsAreApart(w, i, t);
    BracketsAreApart(w, i, t + upper);
    RunsToTheLastEvent(marks, w, i, i + 1, t, t, upper);
  }

  lemma RestIsNothingIff(marks: seq<Duration>, w: seq<Event>, i: nat, t: int, upper: int, m: nat)
    requires Increasing(w) && Marked(marks, w) && 0 <= upper && Covers(w, i, t + upper)
    requires i < m < |w| && t + upper < w[m].time
    ensures Ticks(marks, w, t, w[m].time - t) == Ticks(marks, w, t, upper) <==> NoneCounts(marks, i, m)
  {
    TicksAdd(marks, w, t, upper, w[m].time - (t + upper));
    NoTicksIff(marks, w, i, t + upper, m);
  }

  /** So the value is right just when nothing counts from there on. */
  lemma SameEventAtBothEnds(marks: seq<Duration>, w: seq<Event>, s: nat, i: nat, t: int, upper: int, acc: Duration)
    requires Closed(w, i, i, t, upper) && Marked(marks, w) && s <= i
    ensures DurationFrom(marks, w, s, t, upper, acc).ticks == Ticks(marks, w, t, upper)
            <==> NoneCounts(marks, i, |w| - 1)
  {
    IntegratesToTheLast(marks, w, s, i, t, upper, acc);
    RestIsNothingIff(marks, w, i, t, upper, |w| - 1);
  }

  /** While no event past the end is buffered the duration is unknown. */
  lemma {:induction false} OpenDurationIsUnknown(marks: seq<Duration>, w: seq<Event>, j: nat, t: int,
                                                 upper: int, acc: Duration)
    requires Increasing(w) && Marked(marks, w) && j < |w| && w[|w| - 1].time <= t + upper
    ensures DurationFrom(marks, w, j, t, upper, acc).unknown
    decreases |w| - j
  {
    if j + 1 < |w| {
      assert w[j + 1].time <= w[|w| - 1].time;
      OpenDurationIsUnknown(marks, w, j + 1, t, upper, DurationStep(marks, w, j, t, upper, acc).0);
    }
  }

  lemma {:induction false} ComplementaryTicks(marks: seq<Duration>, rest: seq<Duration>, w: seq<Event>, i: nat,
                                              k: nat, t: int, n: nat)
    requires Increasing(w) && Marked(marks, w) && Marked(rest, w)
    requires Covers(w, i, t) && i <= k < |w| && (k + 1 < |w| ==> t + n <= w[k + 1].time)
    requires forall j | i <= j <= k :: rest[j].ticks == 1 - marks[j].ticks
    ensures Ticks(marks, w, t, n) + Ticks(rest, w, t, n) == n
    decreases n
  {
    if n > 0 {
      ComplementaryTicks(marks, rest, w, i, k, t, n - 1);
      BetweenEnds(w, i, k, t, t + n - 1);
    }
  }

  // ---------- the integral of the truth ----------

  /** The number of ticks in [t, t + n) at which the event in force is marked true. */
  ghost function TrueTicks(truths: seq<bool>, s: seq<Event>, t: int, n: nat): nat
    requires |truths| == |s| > 0
  {
    if n == 0 then 0
    else TrueTicks(truths, s, t, n - 1) + if truths[InForce(s, 0, t + n - 1)] then 1 else 0
  }

  lemma SameEventInForce(w: seq<Event>, s: seq<Event>, i: nat, k: nat, t: int, u: int)
    requires w <= s && Increasing(s) && Increasing(w)
    requires Brackets(w, i, t) && i <= k && k + 1 < |w| && t <= u < w[k + 1].time
    ensures i <= InForce(w, 0, u) <= k && InForce(s, 0, u) == InForce(w, 0, u)
  {
    BetweenEnds(w, i, k, t, u);
    InForceIs(s, InForce(w, 0, u), u);
  }

  lemma {:induction false} TicksAreTrue(marks: seq<Duration>, truths: seq<bool>, w: seq<Event>, s: seq<Event>,
                                        i: nat, k: nat, t: int, n: nat)
    requires 0 < |w| <= |s| && Marked(marks, w) && |truths| == |s|
    requires forall j | i <= j <= k && j < |w| :: marks[j].ticks == if truths[j] then 1 else 0
    requires forall u | t <= u < t + n :: i <= InForce(w, 0, u) <= k && InForce(s, 0, u) == InForce(w, 0, u)
    ensures Ticks(marks, w, t, n) == TrueTicks(truths, s, t, n)
    decreases n
  {
    if n > 0 { TicksAreTrue(marks, truths, w, s, i, k, t, n - 1); }
  }

  // ---------- later events ----------

  /** A definite duration that ends at event k of the window comes out the same on a longer one. */
  lemma {:induction false} LaterMarks(marks: seq<Duration>, later: seq<Duration>, w: seq<Event>, s: seq<Event>,
                                      j: nat, k: nat, t: int, upper: int, acc: Duration, acc': Duration)
    requires w <= s && |marks| == |w| && |later| == |s|
    requires forall m: nat | m <= k && k < |w| :: marks[m].unknown || later[m] == marks[m]
    requires j <= k && Brackets(w, k, t + upper) && !Brackets(w, k, t)
    requires acc.unknown || acc' == acc
    requires !DurationFrom(marks, w, j, t, upper, acc).unknown
    ensures DurationFrom(later, s, j, t, upper, acc') == DurationFrom(marks, w, j, t, upper, acc)
    decreases k - j
  {
    DurationTurn(marks, w, j, t, upper, acc);
    DurationTurn(later, s, j, t, upper, acc');
    var (next, last) := Accumulated(w[j].time, w[j + 1].time, t, upper, marks[j], acc);
    var (next', last') := Accumulated(w[j].time, w[j + 1].time, t, upper, later[j], acc');
    if !last {
      LaterMarks(marks, later, w, s, j + 1, k, t, upper, next, next');
    }
  }
}
