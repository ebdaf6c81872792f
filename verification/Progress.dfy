/** What a reader is handed: when a pull has to be served, and all of what a synchronize made available. */
module Progress {
  import opened Traces
  import opened Rings
  import opened Deliveries

  /** How far apart two log events' slots are, going up. */
  lemma {:induction false} DistanceIsSlot(size: nat, k: nat, d: nat)
    requires 0 < size
    ensures Distance(size, Slot(size, k), Slot(size, k + d)) == Slot(size, d)
    decreases d
  {
    if d < size {
      SlotAdvances(size, k, d);
      SmallSlot(size, d);
    } else {
      DistanceIsSlot(size, k, d - size);
      SlotAdvances(size, k + d - size, size);
      SlotAdvances(size, d - size, size);
    }
  }

  /** A reader at log event k with the top of n events. */
  ghost predicate Reading(size: nat, s: Run, k: nat, n: nat) {
    && ValidRun(size, s) && Logged(size, s.ring, s.log) && Increasing(s.log)
    && At(size, s.log, s.pos, k) && k <= n <= |s.log| && s.pos.top == Slot(size, n)
  }

  /** A pull is served exactly when n - k leaves more than one over whole rounds, and otherwise changes nothing. */
  lemma PullServedIff(size: nat, s: Run, k: nat, n: nat)
    requires Reading(size, s, k, n)
    ensures var s' := StepRun(size, s, Pull);
            if (n - k) % size > 1 then |s'.delivered| == |s.delivered| + 1 && |s'.gapped| == |s.gapped| + 1 else s' == s
  {
    DistanceIsSlot(size, k, n - k);
    SlotIsRemainder(size, n - k);
  }

  /**
   * For a reader less than a whole ring behind: exactly when more than the event it stands at is there. One
   * exactly a whole ring behind is not served, although its event is still there and no gap is reported.
   */
  lemma ServedWithinTheRing(size: nat, s: Run, k: nat, n: nat)
    requires Reading(size, s, k, n) && n <= k + size
    ensures StepRun(size, s, Pull) != s <==> k + 1 < n < k + size
    ensures k + 1 < n < k + size ==> |StepRun(size, s, Pull).delivered| == |s.delivered| + 1
  {
    DistanceIsSlot(size, k, n - k);
    if n < k + size {
      SmallSlot(size, n - k);
    } else {
      SlotAdvances(size, 0, size);
    }
  }

  ghost function Pulls(size: nat, s: Run, m: nat): (s': Run)
    requires ValidRun(size, s)
    ensures ValidRun(size, s')
    decreases m
  {
    if m == 0 then s else Pulls(size, StepRun(size, s, Pull), m - 1)
  }

  /** One pull on the way: the event the reader stands at, and on to the next one. */
  lemma PullNext(size: nat, s: Run, k: nat)
    requires Reading(size, s, k, |s.log|) && k + 1 < |s.log| < k + size
    ensures var s' := StepRun(size, s, Pull);
            Reading(size, s', k + 1, |s.log|) && s'.log == s.log && s'.delivered == s.delivered + [s.log[k]]
  {
    ServedWithinTheRing(size, s, k, |s.log|);
    var _ := PullDelivers(size, s.ring, s.log, s.pos, k, |s.log|);
  }

  lemma OneMore(delivered: seq<Event>, log: seq<Event>, k: nat, m: nat)
    requires 0 < m && k + m <= |log|
    ensures delivered + [log[k]] + log[k + 1..k + m] == delivered + log[k..k + m]
  {
  }

  /** Pulls with no push since the synchronize hand out the log from where the reader stands, event by event. */
  lemma {:induction false} PullsDeliver(size: nat, s: Run, k: nat, m: nat)
    requires Reading(size, s, k, |s.log|) && k + m < |s.log| < k + size
    ensures var s' := Pulls(size, s, m);
            s'.log == s.log && Reading(size, s', k + m, |s.log|) && s'.delivered == s.delivered + s.log[k..k + m]
    decreases m
  {
    if m > 0 {
      PullNext(size, s, k);
      PullsDeliver(size, StepRun(size, s, Pull), k + 1, m - 1);
      OneMore(s.delivered, s.log, k, m);
    }
  }

  /** So n - 1 - k pulls drain it: they deliver exactly log[k..n - 1], and the next one nothing. */
  lemma PullsDrain(size: nat, s: Run, k: nat)
    requires Reading(size, s, k, |s.log|) && k < |s.log| < k + size
    ensures var n := |s.log|;
            var s' := Pulls(size, s, n - 1 - k);
            s'.delivered == s.delivered + s.log[k..n - 1] && StepRun(size, s', Pull) == s'
  {
    var n := |s.log|;
    PullsDeliver(size, s, k, n - 1 - k);
    ServedWithinTheRing(size, Pulls(size, s, n - 1 - k), n - 1, n);
  }

  /** Where a synchronize takes a reader that has kept its account. */
  lemma SynchronizeReads(size: nat, s: Run, idx: seq<nat>, next: nat) returns (k: nat)
    requires Good(size, s, idx, next) && Ticking(s.log) && s.log != []
    ensures Reading(size, StepRun(size, s, Synchronize), k, |s.log|)
    ensures k == next || k == Oldest(size, |s.log|)
  {
    k := SyncKeepsPlace(size, s.ring, s.log, s.pos, next);
  }

  /**
   * A reader just synchronized, at event k: if it is less than a whole ring behind, pulls hand it every event from
   * its place up to the last but one. From the oldest event in the ring it is.
   */
  ghost predicate Drains(size: nat, s: Run, k: nat) {
    var n := |s.log|;
    && k < n && Reading(size, s, k, n)
    && (k == Oldest(size, n) ==> n < k + size)
    && (n < k + size ==> Pulls(size, s, n - 1 - k).delivered == s.delivered + s.log[k..n - 1])
  }

  lemma ReadingDrains(size: nat, s: Run, k: nat)
    requires Reading(size, s, k, |s.log|)
    ensures Drains(size, s, k)
  {
    if |s.log| < k + size { PullsDrain(size, s, k); }
  }

  lemma SynchronizedDrains(size: nat, s: Run, idx: seq<nat>, next: nat) returns (k: nat)
    requires Good(size, s, idx, next) && Ticking(s.log) && s.log != []
    ensures Drains(size, StepRun(size, s, Synchronize), k)
  {
    k := SynchronizeReads(size, s, idx, next);
    ReadingDrains(size, StepRun(size, s, Synchronize), k);
  }

  /** So after a synchronize on any run of timely pulls. */
  lemma SynchronizeThenDrain(size: nat, ops: seq<Op>) returns (k: nat)
    requires 1 < size && Timely(size, ops) && Ticking(After(size, ops).log) && After(size, ops).log != []
    ensures Drains(size, StepRun(size, After(size, ops), Synchronize), k)
  {
    var idx, next := RunAccounts(size, ops);
    k := SynchronizedDrains(size, After(size, ops), idx, next);
  }
}
