# Verification of rtmlib

rtmlib carries time-stamped events from a system under observation to monitors that evaluate the
three-valued metric temporal logic RMTLD3 on them. This project models its three cores in Dafny and proves
what they are for:

- **The evaluators** (`Evaluators`, over the cursor of `TraceReaders`) are the loops of `formulas.h` and
  `terms.h`. Each is a method that moves the cursor about a ring buffer, puts it back, and returns exactly
  what a recursive function over the buffered events returns (`Formulas.Eval`, `Formulas.Value`), and
  `Answers` says of every operator which event decides and what is answered when none does. Formulas and
  terms are mutually recursive: a comparison of durations may stand below any operator, and a duration may be
  over any formula. That function is then related to a two-valued meaning: `Formulas.Holds`, which still names
  the event an evaluation starts from, and `Timed.Truth`, which names nothing but a time. True and false
  verdicts are true of every trace that extends the window, later events never change them, they must come once
  an event past the formula's horizon is buffered, and a duration is the integral of an indicator.
- **The ring and its readers** (`Rings`, `Buffers`, `Readers`, `TraceReaders`, `Deliveries`, `Windows`,
  `Bottoms`, `Progress`, `Monitors`). `Rings.Logged` ties the array and its two ends to the log of everything that
  was ever pushed. On top of it come exact loss detection, what a reader is handed over whole runs and when it has
  to be handed something, what overwriting does to verdicts, and the safety of a monitor's verdict over all its runs.
- **The lock-free push** (`Publication`, `Protocol`, `Schedules`, `Tearing`, `Writers`) is a step relation with one writer
  and any number of readers, one shared field access per step. The invariant `Publication.Inv` gives
  linearization, reads that never meet an unwritten slot, consistent snapshots and wait-freedom.

## Assumptions the code makes

- Event times increase strictly inside a window (`Formulas.Increasing`). Soundness of the past operators also
  needs times that are not negative (`Formulas.WellTimed`): the guard `t >= b` of `since_less` ignores the
  bound for a `t` below it, which is right only if nothing is older than time 0.
- Times, counters and ticks are unbounded integers; `timespan` is signed, as on x86. Indices are `size_t`: the
  one place where unsignedness shows is `read_previous` at raw index 0, which asks for slot 2^64 - 1 and is
  therefore unavailable. A backward seek stops there (`TraceReaders.TraceReader.Floor`).
- An evaluator starts with the cursor on a buffered event (`TraceReader.OnEvent`). With the cursor on top it
  would read a slot that holds no event of the window.
- A duration inside a formula is not shorter than the window is ever without an event (`Formulas.Dense`; true of
  every window for a formula that compares no durations), and is compared from a cursor no later than t. On a
  window with a longer gap some comparison has a false verdict although it is true (`Terms.ComparisonsStandIff`).

## Results that are less than the names in the code suggest

- `eventually_equal` and `eventually_less_unbounded` may answer from the last buffered event. Over a past-free
  formula that is harmless. Over a past operator it is not: on every window that ends before `t + b` there is a
  past formula for which `eventually_equal` says false and, one event later, true
  (`Revocation.EarlyVerdictIsRevoked`). From `t + b` on every such verdict stands, so the guard of the loop is
  the exact condition (`Revocation.EventuallyEqualStandsIff`). For `eventually_less_unbounded` true always
  stands, and on every window false is revoked for some past formula (`Revocation.EventuallyFalseIsRevoked`).
  Soundness and irrevocability are stated for every formula that is `InSight`: its eventually_equal operators over
  past operators look no further than the last buffered event. Formulas that have no past operator there
  (`WellNested`) are in sight on every window.
- `duration_term` tests for the lower end of its interval first, so when both ends lie under one event the
  upper end is never met: `Durations.ShortDurationIsWrong` has eighteen ticks for an interval of three.
  `Durations.DurationIsIntegralIff` says exactly when the number is right.
- Past operators take the bottom of the window for the start of the trace. On a ring that has overwritten events
  every verdict is still that of the whole log if the oldest event left is as far back as the bounds of the
  formula's past operators add up to (`Windows.Reach`), and so is the truth. When `since_less` gets to the bottom
  undecided and within its bound, its answer false is right for all past-free formulas and all logs that end with
  the window exactly when no older event would fit within the bound (`Bottoms.SinceStandsIff`); for one formula
  with a proposition on the right that is the exact condition too (`Bottoms.SinceIsContradictedIff`), while a right
  side that never holds is never contradicted. The same goes for the answer that `pasteventually_equal` takes from
  the oldest event (`Bottoms.PastEventuallyStandsIff`, `Bottoms.PastEventuallyIsContradictedIff`).
- `pasteventually_equal` does not mean its formula at `t - b`, as its name and `eventually_equal` suggest: the loop
  breaks at `c_time <= t - b`, so the event in force at `t - b` is never evaluated. It means the formula at the
  event after that one, if it comes before t (`Timed.PastEventuallyIsAfter`); with such
  an event the two agree exactly when the formula is as true there as at the event in force at `t - b`, and without
  one exactly when it is false at the latter.
- `RTML_reader::pull` copies its timestamp from the slot that `gap` compares it with straight afterwards, so in
  a sequential use it never returns READER_OVERFLOW although its declaration provides for it. The contract of
  `Readers.Reader.Pull` says so. The loss can be seen before the pull: `gap` says NO_GAP just when the pull will
  hand out the event the reader stands at (`Deliveries.PullDelivers`).
- `RTML_reader::pull` serves a reader with more than one event between bottom and top. One that is exactly N + 1
  events behind has top equal to bottom: it is not served, although its event is still in its slot and
  `synchronize` reports no gap (`Progress.ServedWithinTheRing`).
- Where the ends are not wrapped, `synchronize` reports a gap even when nothing was lost, and leaves a reader that
  is not in slot 0 where it stands even when its event was overwritten (`Deliveries.SyncLands`).
- A reader may drain the buffer by any number of pulls after one synchronize. If events are pushed in between
  and the reader has been overtaken, the next pull hands out an event that is not the next one, with no gap
  reported (`Deliveries.LatePullSkips`). The reader stays above all that was delivered exactly when that is not the
  newest event (`Deliveries.LatePullStaysAboveIff`); otherwise it goes back by a whole ring and can deliver an event
  twice (`Deliveries.LatePullDeliversTwice`). Deliveries are right on every run whose pulls have no push since the
  last synchronize or NO_GAP just before them (`Deliveries.Timely`).
- A reader loads the two ends of a record at different steps of the writer, which may be filling it. What it finds
  at each step is `Tearing.TopFound` and `Tearing.BottomFound`, and `Tearing.SnapshotTornIff` says exactly when
  the two are the ends of no publication. One publication after the load of the page and the middle of the next
  push are enough (`Tearing.TornInThePush`), and for one step a reader can get the index just past the ring
  (`Tearing.TornAtTheWrap`), which is a slot of the array all the same (`Tearing.LoadedEndsAreSlots`).

## Model

| member | source | states |
|---|---|---|
| Values.ConnectivesAreExact | src/rmtld3/rmtld3.h:54-68 | or, and, not answer true or false exactly when every two-valued completion of their unknown operands gives that answer |
| Answers.PropAnswers | src/rmtld3/formulas.h:44-53 | a proposition is answered if and only if the event under the cursor and the next one bracket t, by the data of the former |
| Answers.ConnectivesAnswer | tests/custom-rtm-monitor/Rtm_compute_6ea3.h:55-75 | or, and, not of formulas answer true or false exactly when every completion of their unknown operands does |
| Answers.ComparisonAnswers | src/rmtld3/rmtld3.h:71-73 | a comparison is unknown if and only if some duration in it is, and is otherwise that of the two numbers |
| Answers.UntilDecides | src/rmtld3/formulas.h:107-156 | until answers at the first event before t + b where phi2 is not false or phi1 not true: phi2 there unless it is false, and else phi1; whether or not t + b has been reached |
| Answers.UntilRunsOut | src/rmtld3/formulas.h:173-175 | with no such event until is false if an event at t + b or later is buffered, and unknown otherwise |
| Answers.AlwaysDecides | src/rmtld3/formulas.h:278-297 | always_less answers at the first event before t + b where its formula is not true, with the answer there |
| Answers.AlwaysRunsOut | src/rmtld3/formulas.h:278-297 | with none it is true if an event at t + b or later is buffered, and unknown otherwise |
| Answers.SinceDecides | src/rmtld3/formulas.h:350-371 | since answers at the nearest event, other than at t and later than t - b, where phi2 is not false or phi1 not true: phi2 there unless it is false, and else phi1 |
| Answers.SinceStops | src/rmtld3/formulas.h:359-360 | with no such event before one at or past the bound, since is false if that event is just at t - b and unknown if it is older |
| Answers.SinceRunsOut | src/rmtld3/formulas.h:388-390 | with neither, since is false, for any bound that is not negative |
| Answers.HistoricallyDecides | src/rmtld3/formulas.h:456-475 | historically_less answers at the nearest such event where its formula is not true, with the answer there |
| Answers.HistoricallyStops | src/rmtld3/formulas.h:456-475 | with none before an event at or past the bound it is true just at t - b and unknown past it |
| Answers.EventuallyEqualAnswers | src/rmtld3/formulas.h:182-214 | eventually_equal over any formula answers with it at the buffered event in force at t + b, and is unknown from a cursor later than t + b |
| Answers.EventuallyDecides | src/rmtld3/formulas.h:229-250 | eventually_less_unbounded answers at the first event where its formula is not false, with the answer there |
| Answers.EventuallyRunsOut | src/rmtld3/formulas.h:225-255 | with none it is false |
| Answers.PastEventuallyAnswers | src/rmtld3/formulas.h:406-432 | pasteventually_equal answers with its formula at the earliest event, other than at t, that is later than t - b, and is unknown when there is none |
| Constants.LastEventDecidesNothing | src/rmtld3/formulas.h:36-54 | at the last buffered event a past-free formula has the value its shape alone gives it, whatever the window: a proposition or a duration there is unknown |
| Constants.LastValue | src/rmtld3/terms.h:90-92 | at the last buffered event a term with a duration in it is unknown |
| Constants.KnownIsTheVerdict | src/rmtld3/formulas.h:182-256 | a value that is definite at the last event is the verdict at every event of every window |
| Constants.KnownIsTheTruth | src/rmtld3/formulas.h:182-256 | and it agrees with the two-valued meaning at every event of every trace |
| Soundness.UntilUnfolds | src/rmtld3/formulas.h:107-156 | the existential meaning of until equals its one-event-at-a-time unfolding with the bound test first, in both directions |
| Soundness.SinceUnfolds | src/rmtld3/formulas.h:350-371 | the same for since going down, an event at the time of evaluation itself being skipped |
| Soundness.VerdictIsTruth | src/rmtld3/formulas.h:36-433 | for every formula in sight at the time of evaluation, cursor and extension of the window at its top: a true or false verdict is the two-valued truth |
| Soundness.ValueIsTruth | src/rmtld3/rmtld3.h:38-44 | by mutual induction, a definite value of a term of durations is its value over the true integrals |
| Soundness.DurationIsTruth | src/rmtld3/terms.h:27-97 | by mutual induction, a definite duration of a formula in sight is the integral of its truth on every extension of the window |
| Soundness.UntilIsTruth | src/rmtld3/formulas.h:101-176 | the same for the loop of until_less from any event |
| Soundness.SinceIsTruth | src/rmtld3/formulas.h:344-391 | the same for the loop of since_less, whose running out of events is false only within the bound |
| Soundness.EventuallyEqualIsTruth | src/rmtld3/formulas.h:182-214 | the loop of eventually_equal, with a symbol that agrees with the event before, agrees with the truth at the event in force at t + b; over a past operator when t + b is not past the last event |
| Soundness.LastEventIsTruth | src/rmtld3/formulas.h:191-208 | running out of events at or before t + b is no loss when the last one is in force at t + b or the formula is past-free |
| Soundness.EventuallyIsTruth | src/rmtld3/formulas.h:220-256 | over a past-free formula the loop of eventually_less_unbounded agrees with the existence of a later event where it holds, false included |
| Soundness.EventuallyTrueIsTruth | src/rmtld3/formulas.h:245-246 | its answer true is the truth over past operators too |
| Soundness.PastEventuallyIsTruth | src/rmtld3/formulas.h:397-433 | the loop of pasteventually_equal agrees with the subformula at the earliest event later than t - b, other than at t |
| Timed.CursorIsNoPartOfTruth | src/rmtld3/formulas.h:36-433 | with the cursor on the event in force at t, truth from the cursor is truth at time t, for every formula |
| Timed.VerdictIsTruthAtTime | src/rmtld3/formulas.h:36-433 | a true or false verdict of a formula in sight there is its truth at time t of every extension of the window |
| Irrevocability.VerdictIsIrrevocable | src/rmtld3/formulas.h:36-433 | appending any events to the window never changes a true or false verdict, for every formula that is well nested or in sight |
| Irrevocability.ValueIsKept | src/rmtld3/rmtld3.h:38-44 | nor a definite value of a term |
| Irrevocability.DurationIsKept | src/rmtld3/terms.h:27-97 | nor a definite duration, which depends on no event later than its end |
| Irrevocability.EventuallyEqualIsIrrevocable | src/rmtld3/formulas.h:182-214 | the same for the loop of eventually_equal, whose last buffered event need not be the last of the trace; over a past operator when t + b is not past it |
| Irrevocability.EventuallyIsIrrevocable | src/rmtld3/formulas.h:220-256 | the same for eventually_less_unbounded over a past-free formula, which returns false on exhaustion |
| Irrevocability.EventuallyTrueIsKept | src/rmtld3/formulas.h:245-246 | its answer true is kept over past operators too |
| Revocation.EarlyVerdictIsRevoked | src/rmtld3/formulas.h:191-208 | on every window that ends before t + b some past formula makes eventually_equal false, and true, rightly, when one event more is buffered |
| Revocation.LateVerdictStands | src/rmtld3/formulas.h:197-198 | once some buffered event is at t + b or later, the verdict of eventually_equal over any well-nested formula is true and kept |
| Revocation.EventuallyEqualStandsIff | src/rmtld3/formulas.h:197-208 | so the verdict stands for all such formulas and all extensions if and only if some buffered event is at t + b or later |
| Revocation.EventuallyFalseIsRevoked | src/rmtld3/formulas.h:245-249 | on every window some past formula makes eventually_less_unbounded false, and true, rightly, when one event more is buffered |
| Horizon.DefinitePastHorizon | src/rmtld3/formulas.h:59-297 | a bounded formula, comparisons of durations included, evaluated from the event in force at t is not unknown once an event later than t plus its horizon is buffered |
| Horizon.DurationIsDefinite | src/rmtld3/terms.h:27-97 | a duration is not unknown once an event later than its end plus the horizon of its formula is buffered |
| Horizon.UntilIsDefinite | src/rmtld3/formulas.h:101-176 | the same for the loop of until_less from any event |
| Horizon.DecidedPastHorizon | src/rmtld3/formulas.h:59-297 | the verdict is then the truth at t, both ways, on every extension of the window |
| Horizon.AlwaysMeansEveryEvent | src/rmtld3/formulas.h:278-297 | always_less, built from until_less, means the formula at every event of [t, t + b) |
| Horizon.HistoricallyMeansEveryEvent | src/rmtld3/formulas.h:456-475 | historically_less, built from since_less, means the formula at every event of (t - b, t) |
| Horizon.UnboundedAgreesWithUntil | src/rmtld3/formulas.h:220-256 | eventually_less_unbounded equals until_less with true on the left for every bound past the buffered events, except that its false is unknown there |
| Horizon.EventuallyEqualReadsOneEvent | src/rmtld3/formulas.h:182-214 | eventually_equal answers with the subformula at the buffered event in force at t + b |
| Horizon.EventuallyEqualIsSeekThenProp | src/rmtld3/formulas.h:182-214 | for a proposition that is prop at the bracketing pair of t + b, and unknown when no pair brackets it |
| Windows.BottomDoesNotMatter | src/rmtld3/formulas.h:36-433 | dropping events below the cursor changes no verdict of any formula whose reach, the sum of the bounds of nested past operators, ends at or above the oldest event left |
| Windows.DurationIgnoresBottom | src/rmtld3/terms.h:52-92 | nor any duration |
| Windows.RingVerdictIsLogVerdict | src/circularbuffer.h:177-198 | a formula without past operators, or any formula whose reach the ring covers, has on the ring the verdict it has on the whole log |
| Windows.TruthIgnoresBottom | src/rmtld3/formulas.h:36-433 | nor does dropping those events change the truth, for any formula whose reach ends at or above the oldest event left |
| Windows.RingVerdictIsTruth | src/circularbuffer.h:177-198 | its true and false verdicts on a ring that has overwritten any number of events are true of the whole log and of every longer one; only what the ring holds need be dense |
| Bottoms.GoesOnBelow | src/rmtld3/formulas.h:370-371 | where since_less over past-free formulas reaches the bottom undecided, on a longer log it goes on with the event below |
| Bottoms.OlderEventDecides | src/rmtld3/formulas.h:366-371 | so that an older event within the bound that satisfies phi2, put before the window, makes it true |
| Bottoms.SinceIsContradictedIff | src/rmtld3/formulas.h:388-390 | for a past-free phi1 and a proposition as phi2 it answers false there, and some log that ends with the window makes since true if and only if the oldest event is neither at time 0 nor at the first tick after t - b |
| Bottoms.SinceStandsIff | src/rmtld3/formulas.h:388-390 | over all past-free phi1 and phi2 and all logs that end with the window, the answer false is right if and only if that is not so |
| Bottoms.PastEventuallyIsContradictedIff | src/rmtld3/formulas.h:406-432 | for a proposition, a definite answer that pasteventually_equal takes from the oldest event is wrong for some log that ends with the window under the same condition, and only then |
| Bottoms.PastEventuallyStandsIff | src/rmtld3/formulas.h:406-432 | over all past-free formulas and all logs that end with the window, the answer from the oldest event is right if and only if there is no room for an older one |
| Timed.PastEventuallyIsAfter | src/rmtld3/formulas.h:415-420 | pasteventually_equal is true at t if and only if its formula is true at the event that follows the one in force at t - b and comes before t |
| Integrals.StartIsForgotten | src/rmtld3/terms.h:52-65 | the accumulator after the lower-end branch does not depend on where at or before the event in force at t the cursor started |
| Durations.DurationIsIntegral | src/rmtld3/terms.h:27-97 | with the two ends under different events and a later one buffered, the value is the number of ticks in [t, t + t_upper) whose event counts, and the flag the disjunction over the events met |
| Integrals.IntegratesToTheLast | src/rmtld3/terms.h:59-82 | with one event in force at both ends the loop integrates up to the last buffered event |
| Durations.DurationIsIntegralIff | src/rmtld3/terms.h:59-82 | the number is the integral if and only if the ends lie under different events, or no event from there to the last but one counts |
| Durations.ShortDurationIsWrong | src/rmtld3/terms.h:59-82 | three events and a true formula for which three ticks come out as eighteen |
| Integrals.OpenDurationIsUnknown | src/rmtld3/terms.h:90-92 | while no event later than t + t_upper is buffered the flag is set, from any start |
| Durations.OpenDurationAnswers | src/rmtld3/terms.h:78-92 | while the upper end is open the ticks are those from t to the last event, and the flag is set |
| Durations.DurationFromCursorAnswers | src/rmtld3/terms.h:52-92 | when no interval from the cursor on is that of the lower end, the ticks run from the event under the cursor to the upper end, or to the last event if that is not met |
| Durations.DurationsAdd | src/rmtld3/terms.h:52-92 | durations over adjacent intervals add up, flags included |
| Durations.NegationIsTheRest | src/rmtld3/terms.h:34-43 | definite durations of a formula and of its negation sum to the length of the interval |
| Durations.DefiniteDurationIsTruth | src/rmtld3/terms.h:27-97 | a definite duration is the integral of the truth of its formula, if the verdicts at the events it meets agree with the truth |
| Integrals.DefiniteIsClosed | src/rmtld3/terms.h:59-92 | in a window never without an event for longer than t_upper, a duration that is not unknown begins and ends under different events, with a later one buffered |
| Integrals.LaterMarks | src/rmtld3/terms.h:52-82 | the loop ends the same on a longer window if the indicators up to the end of the duration are kept |
| Terms.DefiniteValueIsTrue | src/rmtld3/rmtld3.h:38-44 | where each duration begins and ends under different events, definite sums and products have the value of the same expression over the true integrals |
| Terms.ComparisonIsTruth | src/rmtld3/rmtld3.h:71-73 | a definite comparison of two terms is the comparison of their true values on every extension of the window |
| Terms.LongGapIsWrong | src/rmtld3/terms.h:59-82 | on every window with a gap longer than a duration there is a comparison of it that comes out false and is true |
| Terms.ComparisonsStandIff | src/rmtld3/terms.h:27-97 | all comparisons of a duration with a number are right and kept on a window if and only if no gap of the window is longer than the duration |
| Rings.PushAppends | src/circularbuffer.h:177-198 | a push appends to the unrolled ring and drops its first event exactly when N events were held |
| Rings.BottomTakes | src/circularbuffer.h:200-206 | moving bottom up takes the first event of the unrolled ring |
| Rings.TopTakes | src/circularbuffer.h:214-220 | moving top down takes the last event of the unrolled ring |
| Rings.PushKeepsLogged | src/circularbuffer.h:177-198 | after n pushes the ends are those of n and max(0, n - N), and the slot of each of the last N + 1 events holds it |
| Rings.SlotIsRemainder | src/circularbuffer.h:71-98 | k steps of the wrapping increment lead to k mod (N + 1) |
| Rings.WindowIsLogSuffix | src/circularbuffer.h:177-198 | the ring shows the log from event max(0, n - N) on |
| Buffers.Buffer.constructor | src/circularbuffer.h:174-175 | a new buffer shows the empty log through its own state record |
| Buffers.Buffer.Push | src/circularbuffer.h:177-198 | in place: the contents gain the event and lose the oldest when full, which is exactly when BUFFER_OVERFLOW is returned |
| Buffers.Buffer.Pull | src/circularbuffer.h:200-212 | takes the first of the contents, or reports EMPTY and changes nothing |
| Buffers.Buffer.Pop | src/circularbuffer.h:214-226 | takes the last of the contents, or reports EMPTY and changes nothing |
| Buffers.Buffer.Write | src/circularbuffer.h:237-244 | sets one slot, or reports OUT_OF_BOUND and changes nothing |
| Buffers.Buffer.State | src/circularbuffer.h:256-268 | both ends of the published record and the times in their slots |
| Buffers.Buffer.Length | src/circularbuffer.h:270-274 | the number of events the ring represents |
| Readers.Reader.Gap | src/reader.h:276-291 | GAP exactly when the slot at the reader's bottom is later than the reader's timestamp |
| Readers.Reader.Pull | src/reader.h:156-189 | with more than one event before top: hands out the one at bottom, moves on, takes the next event's time, and reports AVAILABLE; otherwise nothing changes |
| Readers.Reader.Synchronize | src/reader.h:211-274 | the new position and report of every branch, as a function of position and ring |
| Deliveries.GapIsExact | src/reader.h:276-291 | a reader at log event k gets GAP if and only if more than k + N + 1 events were pushed, that is if and only if the slot was overwritten |
| Deliveries.EndsOfLog | src/circularbuffer.h:187-193 | the ends meet only in a ring nothing was pushed to; unwrapped, bottom is slot 0; what the slots at the ends hold |
| Deliveries.WrappedIff | src/reader.h:226-241 | which branch synchronize takes, in terms of the number of events pushed |
| Deliveries.SyncLands | src/reader.h:226-256 | where synchronize takes a reader at log event k and what it reports: wrapped, a gap if and only if the event was overwritten, and then the oldest event in the ring, else k; not wrapped, a gap always, and the oldest event from slot 0, else k |
| Deliveries.FirstSyncLands | src/reader.h:226-256 | a reader that has met no event goes to the oldest one in the ring |
| Deliveries.SyncKeepsPlace | src/reader.h:226-256 | so synchronize leaves the reader on its event or takes it up to the oldest one in the ring, passing over none that is still there; an event not overwritten keeps the reader, and NO_GAP means that |
| Deliveries.PullDelivers | src/reader.h:161-181 | a pull at any time after a synchronize hands out the event the reader stands at if and only if gap says NO_GAP just before, that is if and only if its slot was not overwritten; it goes on to the next event, or a whole ring back after the newest one |
| Deliveries.PullIsGood | src/reader.h:156-189 | a pull with no push since the last synchronize, or with NO_GAP before it, delivers the next event or one a gap was reported for |
| Deliveries.RunAccounts | src/reader.h:156-274 | the invariant of whole runs of push, synchronize and such pulls that ties deliveries, gaps and position to the log |
| Deliveries.DeliveriesFollowTheLog | src/reader.h:156-274 | over every such run no event is delivered twice, deliveries with no gap reported between them are consecutive, and before the first overflow they are the log from its start |
| Deliveries.LatePullSkips | src/reader.h:156-189 | conversely, after such a run any other pull, with no gap reported since the last delivery, hands out an event that is not the next one |
| Deliveries.LatePullStaysAboveIff | src/reader.h:156-189 | any such pull hands out an event not delivered before, and leaves the reader above all delivered ones if and only if it was not the newest, which the times of two slots tell before the pull |
| Deliveries.LatePullDeliversTwice | src/reader.h:156-189 | a run with N = 2 and a late pull of the newest event in which one event is delivered twice |
| Progress.PullServedIff | src/reader.h:161-163 | a pull by a reader at log event k with the top of n events is served if and only if n - k leaves more than one modulo N + 1, and otherwise changes nothing |
| Progress.ServedWithinTheRing | src/reader.h:161-163 | for a reader at most a whole ring behind: if and only if k + 1 < n < k + N + 1 |
| Progress.PullsDeliver | src/reader.h:156-189 | by a reader less than a whole ring behind, m pulls with no push since the synchronize deliver exactly log[k..k + m] |
| Progress.PullsDrain | src/reader.h:156-189 | n - 1 - k of them deliver exactly log[k..n - 1], and the next one nothing |
| Progress.SynchronizeThenDrain | src/reader.h:156-274 | so after a synchronize on any run of timely pulls, and always from the oldest event in the ring when the reader was taken there |
| TraceReaders.TraceReader.CursorFacts | src/rmtld3/reader.h:261-268 | length counts the events from the cursor up, consumed those below it, wrapped or not |
| TraceReaders.TraceReader.SetCursor | src/rmtld3/reader.h:157-170 | moves to any slot of the buffer, otherwise UNAVAILABLE and unmoved |
| TraceReaders.TraceReader.IncrementCursor | src/rmtld3/reader.h:176-188 | one event up, UNAVAILABLE on top |
| TraceReaders.TraceReader.DecrementCursor | src/rmtld3/reader.h:190-204 | one event down, UNAVAILABLE at the bottom of the window |
| TraceReaders.TraceReader.Pull | src/rmtld3/reader.h:206-223 | hands out the event under the cursor and moves on; AVAILABLE exactly while another event follows |
| TraceReaders.TraceReader.ReadNext | src/rmtld3/reader.h:233-244 | the event after the cursor, if the window has one |
| TraceReaders.TraceReader.ReadPrevious | src/rmtld3/reader.h:246-259 | the event before the cursor, except at the bottom and at raw index 0 |
| TraceReaders.TraceReader.SeekBackward | src/rmtld3/reader.h:130-140 | ends above the bracketing pair nearest below, or at the floor with no pair in between |
| TraceReaders.TraceReader.SeekForward | src/rmtld3/reader.h:142-152 | ends on the first bracketing pair above, or on the last event with none passed |
| TraceReaders.TraceReader.Set | src/rmtld3/reader.h:125-155 | AVAILABLE if and only if an adjacent pair from the floor up brackets t, and then exactly where the cursor ends |
| TraceReaders.SeekIsStable | src/rmtld3/reader.h:125-155 | a seek that succeeded succeeds again and stays where it is |
| TraceReaders.OnlyBracket | src/rmtld3/reader.h:134-134 | in increasing times at most one adjacent pair brackets t |
| Evaluators.EvaluateProp | src/rmtld3/formulas.h:36-54 | refines the specification of a proposition and moves nothing |
| Evaluators.Evaluate | tests/custom-rtm-monitor/Rtm_compute_6ea3.h:41-76 | any nesting of templates, connectives and comparisons returns the specified verdict and leaves cursor, ends and slots as they were |
| Evaluators.EvaluateTerm | src/rmtld3/rmtld3.h:38-44 | sums and products of durations return the specified value, cursor restored |
| Evaluators.EvalB | src/rmtld3/formulas.h:64-99 | both subformulas at the event under the cursor, the cursor restored after each |
| Evaluators.UntilLess | src/rmtld3/formulas.h:59-176 | the loop terminates, returns what the recursive specification returns on any window, wrapped or not, and restores the cursor |
| Evaluators.SinceTurn | src/rmtld3/formulas.h:353-371 | one turn of the loop: skip, stop, or evaluate, and the step down |
| Evaluators.SinceLess | src/rmtld3/formulas.h:302-391 | the loop terminates, returns what the recursive specification returns on any window and restores the cursor |
| Evaluators.AlwaysLess | src/rmtld3/formulas.h:278-297 | the verdict of the formula it abbreviates, cursor restored |
| Evaluators.HistoricallyLess | src/rmtld3/formulas.h:456-475 | the verdict of the formula it abbreviates, cursor restored |
| Evaluators.EventuallyEq | src/rmtld3/formulas.h:182-214 | refines its recursive specification, cursor restored |
| Evaluators.EventuallyLessUnbounded | src/rmtld3/formulas.h:220-256 | refines its recursive specification, cursor restored |
| Evaluators.PastTurn | src/rmtld3/formulas.h:406-427 | one turn of the loop: skip, stop, or evaluate, and the step down |
| Evaluators.PastEventuallyEq | src/rmtld3/formulas.h:397-433 | refines its recursive specification, cursor restored |
| Evaluators.IndicatorHere | src/rmtld3/terms.h:34-43 | the indicator of the event under the cursor, cursor restored |
| Evaluators.NextInterval | src/rmtld3/terms.h:52-82 | one turn of the loop turns the specified duration from one event on into that from the next, or into its result at the last interval or the last event |
| Evaluators.DurationLoop | src/rmtld3/terms.h:45-92 | the accumulator, flagged by the last event seen, is the specified duration |
| Evaluators.DurationOf | src/rmtld3/terms.h:27-97 | refines its recursive specification, cursor restored |
| Monitors.SynchronizesWithAll | src/reader.h:241-255 | before the first overflow synchronize keeps the reader's bottom at the start of the log and brings its top to the end |
| Monitors.Monitor.Run | tests/custom-rtm-monitor/Rtm_monitor_62be.h:42-52 | one run is a step of the monitor's state machine on the whole log |
| Monitors.RunSettles | tests/custom-rtm-monitor/Rtm_monitor_62be.h:46-50 | a run on a longer log returns to the first event of the same pair, and leaves the verdict evaluated there, for every formula |
| Monitors.VerdictStays | tests/custom-rtm-monitor/Rtm_monitor_62be.h:42-52 | over all runs on a growing log: once the verdict is true or false every later run leaves it so, for a well-nested formula or one that the run had in sight |
| Monitors.VerdictIsRight | tests/custom-rtm-monitor/Rtm_monitor_62be.h:42-52 | and after any number of runs it is the truth of the formula at the watched time, whatever is pushed later |
| Monitors.VerdictComes | tests/custom-rtm-monitor/Rtm_monitor_62be.h:42-52 | and for a bounded formula it comes: a run on a log that starts at or before the watched time and holds an event past the horizon leaves exactly the truth |
| Publication.StepKeepsInv | src/atomic_compat.h:236-281 | every step of the writer or of any reader keeps the protocol invariant |
| Publication.ReachableInv | src/atomic_compat.h:225-281 | so it holds after every schedule from a fresh buffer |
| Publication.WaitIsOver | src/atomic_compat.h:250-258 | the completion wait ends at its first test |
| Publication.OldestAdvances | src/writer.h:112-118 | the body's conditional increment of bottom moves it from the oldest of n to the oldest of n + 1 events |
| Publication.SwapKeepsInv | src/atomic_compat.h:279-281 | the compare-and-swap always succeeds and publishes exactly the event being pushed |
| Publication.SlotWritten | src/writer.h:123-123 | the late slot write completes the published log in the slots |
| Publication.EndsStay | src/atomic_compat.h:260-271 | until a record is filled again it keeps the ends it was published with |
| Publication.SpareEnds | src/atomic_compat.h:268-271 | the ends in the record that is not published at every step of a push: old, copied, one past the ring, new |
| Protocol.PublishedEnds | src/atomic_compat.h:260-281 | in every reachable state the record being filled is not the published one, which holds top = n mod (N + 1) and bottom = max(0, n - N) mod (N + 1) |
| Protocol.SwapIsThePush | src/atomic_compat.h:279-281 | the swap moves the ends and the log as one sequential push, and no other step of anyone moves them |
| Protocol.IdleIsSequential | src/writer.h:123-123 | whenever no slot write is outstanding the shared memory is the sequential ring of the log |
| Protocol.OnlyTheLastIsMissing | src/writer.h:123-123 | a recent event that is not in its slot is the last one published, in the slot before top, with its write outstanding |
| Protocol.PullIsSafe | src/reader.h:161-166 | a pull with the ends of one publication and more than one event, by a reader overtaken or not, never reads an unwritten slot, and reads event k if and only if nothing was written over it |
| Protocol.SnapshotIsConsistent | src/atomic_compat.h:220-223 | bottom and top read one after the other are those of one publication, unless the second push after it has begun to fill its record |
| Protocol.WriterProgresses | src/atomic_compat.h:236-281 | every step of the writer brings its push nearer its end: no wait repeated, no swap retried |
| Protocol.PushIsWaitFree | src/atomic_compat.h:236-281 | under every schedule sixteen steps of the writer complete its push and log its event, whatever readers do in between |
| Tearing.TornIff | src/atomic_compat.h:220-223 | two numbers are the ends of some publication if and only if both are slots and the bottom is slot 0 or the one after the top |
| Tearing.TornFromBottom | src/atomic_compat.h:220-223 | with the bottom of publication n: if and only if the top is a slot, and is that of n unless the bottom is slot 0 |
| Tearing.EndsOfRecord | src/atomic_compat.h:260-271 | what a reader finds in the record of any publication at every step of the writer |
| Tearing.SnapshotTornIff | src/atomic_compat.h:220-223 | in every reachable state, for every reader that has a bottom, whenever it was loaded: the top it gets and the exact condition under which the two are the ends of no publication; never while the record is not being filled again |
| Tearing.TornBetweenPushes | src/atomic_compat.h:220-223 | for any events: a top loaded between pushes makes the ends torn if and only if the bottom is not slot 0 and the even part of the number of later publications is not a multiple of N + 1 |
| Tearing.TornInThePush | src/atomic_compat.h:268-271 | for any events: one later publication and a push stopped after the copy make the ends torn if and only if the bottom is not slot 0 |
| Tearing.TornAtTheWrap | src/writer.h:55-59 | for any events: a reader can get the index just past the ring for its top, between the increment and the wrap |
| Tearing.LoadedEndsAreSlots | src/circularbuffer.h:262-263 | under every schedule the ends a reader has loaded index slots of the array, of which there are N + 2 |
| Writers.Writer.constructor | src/writer.h:93-96 | a writer has a record of its own and counts itself in, in eight bits |
| Writers.Writer.PushAll | src/writer.h:130-157 | uninterrupted, in place: the effect of a sequential push through the other record, one publication more, the old record untouched |
| Writers.Writer.Push | src/writer.h:98-128 | the same with the event's time set from the clock |

## Left out

- Pushes of several writers that overlap: all writers use the buffer's `state_global` as their spare record, so the ownership part of the invariant does not hold for them.
- The pages of ARM and RISC-V without a counter, memory ordering, torn copies of events, and the wrap-around of counters, times and `size_t`.
- The search between events in `until_less` (src/rmtld3/formulas.h:120-150), which is off unless a fourth template argument is given.
- Completeness for `since_less` and `historically_less`: past its bound the loop answers unknown (src/rmtld3/formulas.h:388-390). `Answers.SinceDecides`, `Answers.SinceStops` and `Answers.SinceRunsOut` say exactly what is answered when.
- Monitors.VerdictStays: speaks of histories of such runs, so of runs before the first overflow.
- Monitors.Monitor.Run: covers runs while at most N events have been pushed; after an overflow the reader may be moved off the start of the log, and its cursor may be on a slot outside its window.
- Writers.Writer.PushAll: does not model other threads; that the previous push is complete is a precondition there, and the wait for it is part of the step relation.
- Protocol.PullIsSafe: speaks of the one read of a slot; the later reads of `pull` by a reader overtaken in the middle are not part of the step relation.
- Publication.WriterNext: the writer's reads of the record it is filling, which nobody else writes, belong to the step that writes it next.
- Evaluators.Evaluate: subformulas are evaluated once where a macro may repeat its argument, which changes nothing since evaluators restore the cursor.
- Soundness.VerdictIsTruth: durations shorter than some gap of the window are covered outside temporal operators only, by `Durations.DurationIsIntegralIff` and `Terms.ComparisonIsTruth`; inside them verdicts on such windows need not be true (`Terms.LongGapIsWrong`).
- Bottoms.GoesOnBelow: past-free subformulas only, since a past subformula may itself answer differently on a longer log.
- TraceReaders.TraceReader: holds a reader where the code inherits from one; `reset`, `debug` and the local memory are not part of this model.
- `always_equal` and `historically_equal`, which only call `eventually_equal` and `pasteventually_equal`.
- `RTML_reader::pop`, the assignment and debug output of `RTML_buffer`, and the use of its push, pull and pop together with a writer's push.
- The clock, which is a parameter of `Writers.Writer.Push`.
- Periodic threads, time arithmetic in macros, the pattern stub, debug output and the hardware branch: `src/periodicmonitor.h`, `src/task_compat.h`, `src/rmtld3/pattern.h`, `src/debug_compat.h`.
