/** Events, and sequences of them: windows on a buffer and whole traces. */
module Traces {

  datatype Event = Event(data: int, time: int)

  function Max(a: int, b: int): int {
    if a >= b then a else b
  }

  /** Event times increase strictly. */
  ghost predicate Increasing(w: seq<Event>) {
    forall i, j | 0 <= i < j < |w| :: w[i].time < w[j].time
  }

  /** Event times increase strictly from a clock that is never negative. */
  ghost predicate WellTimed(w: seq<Event>) {
    Increasing(w) && forall i | 0 <= i < |w| :: 0 <= w[i].time
  }

  /** Event k is in force at time t. The last event of a trace stays in force. */
  predicate Covers(w: seq<Event>, k: int, t: int) {
    0 <= k < |w| && w[k].time <= t && (k + 1 < |w| ==> t < w[k + 1].time)
  }

  /** No two adjacent events are further apart than d. */
  ghost predicate GapsWithin(w: seq<Event>, d: int) {
    Increasing(w) && forall k: nat | k + 1 < |w| :: w[k + 1].time - w[k].time <= d
  }

  /** Events k and k+1 are both in the window and enclose time t. */
  predicate Brackets(w: seq<Event>, k: int, t: int) {
    0 <= k && k + 1 < |w| && w[k].time <= t < w[k + 1].time
  }

  /** From an event no later than t, the event in force at t is found at or after it. */
  lemma {:induction false} CoveringEvent(s: seq<Event>, k: nat, t: int) returns (j: nat)
    requires k < |s| && s[k].time <= t
    ensures k <= j && Covers(s, j, t)
    decreases |s| - k
  {
    if k + 1 < |s| && s[k + 1].time <= t {
      j := CoveringEvent(s, k + 1, t);
    } else {
      j := k;
    }
  }

  lemma CoveringEventIsUnique(s: seq<Event>, j: int, k: int, t: int)
    requires Increasing(s) && Covers(s, j, t) && Covers(s, k, t)
    ensures j == k
  {
  }
}
