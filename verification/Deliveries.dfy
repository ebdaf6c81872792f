/** What one reader is handed over a whole run of pushes, synchronizations and pulls. */
module Deliveries {
  import opened Traces
  import opened Rings
  import opened Readers

  datatype Op = Push(event: Event) | Synchronize | Pull

  /**
   * The log of pushes, how much of it there was at the last synchronize, the ring, the reader's position, what
   * pull handed out, for each delivery whether a synchronize since the delivery before it reported a gap, and
   * whether one has since the last.
   */
  datatype Run = Run(log: seq<Event>, synced: nat, ring: Ring, pos: Position,
                     delivered: seq<Event>, gapped: seq<bool>, gap: bool)

  ghost predicate ValidRun(size: nat, s: Run) {
    1 < size && ValidRing(size, s.ring) && ValidPosition(size, s.pos)
  }

  ghost function StepRun(size: nat, s: Run, op: Op): (s': Run)
    requires ValidRun(size, s)
    ensures ValidRun(size, s')
  {
    match op
    case Push(e) => s.(log := s.log + [e], ring := PushRing(size, s.ring, e))
    case Synchronize =>
      var (p, g) := SyncOf(size, s.ring, s.pos);
      s.(synced := |s.log|, pos := p, gap := s.gap || g != NO_GAP)
    case Pull =>
      if CanPull(size, s.pos) then
        s.(pos := AfterPull(size, s.ring, s.pos), delivered := s.delivered + [s.ring.slots[s.pos.bottom]],
           gapped := s.gapped + [s.gap], gap := false)
      else s
  }

  /** A fresh buffer with a fresh reader. */
  ghost function Start(size: nat): (s: Run)
    requires 1 < size
    ensures ValidRun(size, s) && Logged(size, s.ring, s.log)
  {
    Run([], 0, Ring(seq(size + 1, _ => NO_EVENT), 0, 0), Position(0, 0, 0), [], [], false)
  }

  ghost function After(size: nat, ops: seq<Op>): (s: Run)
    requires 1 < size
    ensures ValidRun(size, s)
  {
    if ops == [] then Start(size)
    else StepRun(size, After(size, ops[..|ops| - 1]), ops[|ops| - 1])
  }

  /**
   * A pull is timely when nothing was pushed since the last synchronize, however many pulls came in between, or
   * when gap() says NO_GAP just before it; and always when it hands out nothing.
   */
  ghost predicate TimelyPull(size: nat, s: Run)
    requires ValidRun(size, s)
  {
    !CanPull(size, s.pos) || s.synced == |s.log| || GapOf(size, s.ring, s.pos) == NO_GAP
  }

  ghost predicate Timely(size: nat, ops: seq<Op>)
    requires 1 < size
  {
    forall i | 0 <= i < |ops| && ops[i].Pull? :: TimelyPull(size, After(size, ops[..i]))
  }

  lemma TimelyBefore(size: nat, ops: seq<Op>)
    requires 1 < size && ops != [] && Timely(size, ops)
    ensures Timely(size, ops[..|ops| - 1])
    ensures ops[|ops| - 1].Pull? ==> TimelyPull(size, After(size, ops[..|ops| - 1]))
  {
    var before := ops[..|ops| - 1];
    forall i | 0 <= i < |before| && before[i].Pull? ensures TimelyPull(size, After(size, before[..i])) {
      assert before[..i] == ops[..i];
    }
  }

  /** Event times are positive and increase. */
  ghost predicate Ticking(log: seq<Event>) {
    Increasing(log) && forall k | 0 <= k < |log| :: 0 < log[k].time
  }

  // ---------- where a reader stands ----------

  /** The reader's bottom is the slot of log event k and its timestamp that event's time. */
  ghost predicate At(size: nat, log: seq<Event>, p: Position, k: nat) {
    0 < size && k < |log| && p.bottom == Slot(size, k) && p.timestamp == log[k].time
  }

  ghost predicate Standing(size: nat, log: seq<Event>, p: Position, k: nat) {
    At(size, log, p, k) || (k == 0 && p == Position(0, 0, 0))
  }

  /** Event k has been overwritten just when more than size events were pushed after and with it. */
  lemma GapIsExact(size: nat, r: Ring, log: seq<Event>, p: Position, k: nat)
    requires Logged(size, r, log) && Increasing(log) && ValidPosition(size, p) && At(size, log, p, k)
    ensures GapOf(size, r, p) == GAP <==> |log| > k + size
    ensures |log| <= k + size <==> r.slots[Slot(size, k)] == log[k]
  {
    if |log| > k + size {
      var d := Latest(size, r, log, k);
      assert log[k].time < log[d].time;
    }
  }

  /** The log event that is in the slot of event k now. */
  lemma {:induction false} Latest(size: nat, r: Ring, log: seq<Event>, k: nat) returns (d: nat)
    requires Logged(size, r, log) && k < |log|
    ensures k <= d < |log| <= d + size && Slot(size, d) == Slot(size, k) && r.slots[Slot(size, k)] == log[d]
    ensures d == k || k + size <= d
    decreases |log| - k
  {
    if |log| <= k + size {
      d := k;
    } else {
      SlotAdvances(size, k, size);
      d := Latest(size, r, log, k + size);
    }
  }

  /** Top and bottom meet only in an empty ring; unwrapped, a full ring has its bottom in slot 0. */
  lemma EndsOfLog(size: nat, r: Ring, log: seq<Event>)
    requires 1 < size && Logged(size, r, log) && |log| > 0
    ensures r.top != r.bottom
    ensures r.bottom < r.top ==> r.bottom == 0
    ensures r.slots[r.bottom] == log[Oldest(size, |log|)]
    ensures |log| < size ==> r.bottom == 0 && r.top == |log|
    ensures |log| < size ==> r.slots[r.top] == NO_EVENT
    ensures |log| >= size ==> r.slots[r.top] == log[|log| - size]
  {
    var o := Oldest(size, |log|);
    SlotsDiffer(size, o, |log|);
    if |log| < size {
      SmallSlot(size, |log|);
    } else {
      SlotAdvances(size, |log| - size, size);
      SlotAdvances(size, |log| - size, 1);
    }
  }

  /** After n pushes the ends are the other way round in the array: the ring has overflowed and bottom is not slot 0. */
  predicate Wrapped(size: nat, n: nat)
    requires 0 < size
  {
    size <= n && Slot(size, n) != size - 1
  }

  lemma WrappedIff(size: nat, r: Ring, log: seq<Event>)
    requires 1 < size && Logged(size, r, log)
    ensures r.top < r.bottom <==> Wrapped(size, |log|)
  {
    var n := |log|;
    if n < size { SmallSlot(size, n); } else { SlotAdvances(size, n - size, size); }
  }

  /**
   * Where synchronize takes a reader that stands at log event k, and what it reports. Wrapped, it tells exactly
   * whether event k was overwritten: if so the reader goes to the oldest event in the ring, else it stays. Not
   * wrapped, it always reports a gap; a reader in slot 0 goes to the oldest event, any other stays.
   */
  lemma SyncLands(size: nat, r: Ring, log: seq<Event>, p: Position, k: nat)
    requires 1 < size && Logged(size, r, log) && Ticking(log) && ValidPosition(size, p) && At(size, log, p, k)
    ensures var (q, g) := SyncOf(size, r, p);
            var n, o := |log|, Oldest(size, |log|);
            && q.top == Slot(size, n)
            && (Wrapped(size, n) ==>
                  (g == if k + size < n then GAP else NO_GAP) && At(size, log, q, if k + size < n then o else k))
            && (!Wrapped(size, n) ==> g == GAP && At(size, log, q, if Slot(size, k) == 0 then o else k))
  {
    WrappedIff(size, r, log);
    EndsOfLog(size, r, log);
    GapIsExact(size, r, log, p, k);
  }

  /** A reader that has never synchronized with an event goes to the oldest one in the ring. */
  lemma FirstSyncLands(size: nat, r: Ring, log: seq<Event>)
    requires 1 < size && Logged(size, r, log) && Ticking(log) && log != []
    ensures var (q, g) := SyncOf(size, r, Position(0, 0, 0));
            q.top == Slot(size, |log|) && g == GAP && At(size, log, q, Oldest(size, |log|))
  {
    EndsOfLog(size, r, log);
    var _ := Latest(size, r, log, 0);
  }

  /** Not wrapped, the oldest event in the ring is in slot 0: a reader there is at it, or was overtaken. */
  lemma OldestFromSlotZero(size: nat, n: nat, k: nat)
    requires 1 < size && k < n && !Wrapped(size, n) && Slot(size, k) == 0
    ensures k <= Oldest(size, n) && (n <= k + size ==> k == Oldest(size, n))
  {
    var o := Oldest(size, n);
    if n < size {
      SmallSlot(size, k);
    } else {
      SlotAdvances(size, n - size, size);
      SlotAdvances(size, n - size, 1);
      if o <= k { SlotsDiffer(size, o, k); } else if n <= k + size { SlotsDiffer(size, k, n); }
    }
  }

  /**
   * So synchronize leaves the reader where it stands, or moves it up to the oldest event in the ring: no event
   * that is still there is passed over. Without a gap it stays.
   */
  lemma SyncKeepsPlace(size: nat, r: Ring, log: seq<Event>, p: Position, k: nat) returns (k': nat)
    requires 1 < size && Logged(size, r, log) && Ticking(log) && ValidPosition(size, p)
    requires Standing(size, log, p, k)
    ensures var (q, g) := SyncOf(size, r, p);
            && Standing(size, log, q, k') && k <= k' && (k' == k || k' == Oldest(size, |log|))
            && q.top == r.top
            && (log != [] ==> At(size, log, q, k'))
            && (g == NO_GAP ==> k' == k && |log| <= k + size)
            && (|log| <= k + size && At(size, log, p, k) ==> k' == k)
            && (|log| < size ==> k' == k)
  {
    k' := k;
    if log != [] {
      var n, o := |log|, Oldest(size, |log|);
      if At(size, log, p, k) {
        SyncLands(size, r, log, p, k);
        if Wrapped(size, n) {
          k' := if k + size < n then o else k;
        } else if Slot(size, k) == 0 {
          OldestFromSlotZero(size, n, k);
          k' := o;
        }
      } else {
        FirstSyncLands(size, r, log);
        k' := o;
      }
    }
  }

  /**
   * pull, with the top of some earlier log of n events, hands out the log event d that is in the reader's slot
   * now: the one the reader stands at just when gap() says NO_GAP. The reader goes on to the event after it,
   * unless d is the newest event; it then steps back by a whole ring.
   */
  lemma PullDelivers(size: nat, r: Ring, log: seq<Event>, p: Position, k: nat, n: nat) returns (d: nat)
    requires 1 < size && Logged(size, r, log) && Increasing(log) && ValidPosition(size, p) && At(size, log, p, k)
    requires k <= n <= |log| && p.top == Slot(size, n) && CanPull(size, p)
    ensures k <= d < |log| <= d + size && r.slots[p.bottom] == log[d]
    ensures d == k <==> |log| <= k + size
    ensures d == k <==> GapOf(size, r, p) == NO_GAP
    ensures d == k || n == |log| ==> d + 1 < n
    ensures d + 1 < |log| ==> At(size, log, AfterPull(size, r, p), d + 1)
    ensures d + 1 == |log| ==> size <= d + 1 && At(size, log, AfterPull(size, r, p), d + 1 - size)
    ensures d + 1 < |log| <==> NotNewest(size, r, p)
  {
    d := Latest(size, r, log, k);
    GapIsExact(size, r, log, p, k);
    StaysBelowTop(size, k, n);
    if n == |log| { SameSlotBelowTop(size, d, k, n); }
    if d + 1 < |log| {
      assert r.slots[Slot(size, d + 1)] == log[d + 1];
    } else {
      SlotAdvances(size, d + 1 - size, size);
      assert r.slots[Slot(size, d + 1 - size)] == log[d + 1 - size];
    }
  }

  /** The slot after the reader's holds a later event. */
  ghost predicate NotNewest(size: nat, r: Ring, p: Position)
    requires ValidRing(size, r) && ValidPosition(size, p)
  {
    r.slots[p.bottom].time < r.slots[Next(size, p.bottom)].time
  }

  lemma SameSlotBelowTop(size: nat, d: nat, k: nat, n: nat)
    requires 1 < size && d < n && Slot(size, d) == Slot(size, k)
    requires Distance(size, Slot(size, k), Slot(size, n)) > 1
    ensures d + 1 < n
  {
    StaysBelowTop(size, d, n);
  }

  // ---------- whole runs ----------

  /** The deliveries are the log events idx, the reader has the log up to `next` behind it. */
  ghost predicate Accounts(size: nat, s: Run, idx: seq<nat>, next: nat) {
    && |idx| == |s.delivered| == |s.gapped|
    && (forall j | 0 <= j < |idx| :: idx[j] < |s.log| && idx[j] < next && s.delivered[j] == s.log[idx[j]])
    && (forall i, j | 0 <= i < j < |idx| :: idx[i] < idx[j])
    && (forall j | 0 < j < |idx| && !s.gapped[j] :: idx[j] == idx[j - 1] + 1)
    && (|idx| > 0 && !s.gap ==> next == idx[|idx| - 1] + 1)
    && (|s.log| < size ==> next == |idx| && forall j | 0 <= j < |idx| :: idx[j] == j)
  }

  /** The reader's top is that of the last synchronize, and it never stands above it. */
  ghost predicate Synced(size: nat, s: Run, next: nat)
    requires 0 < size
  {
    && next <= s.synced <= |s.log| && s.pos.top == Slot(size, s.synced)
    && (s.synced > 0 ==> At(size, s.log, s.pos, next))
    && (s.synced == |s.log| && !s.gap ==> |s.log| <= next + size)
  }

  ghost predicate Good(size: nat, s: Run, idx: seq<nat>, next: nat) {
    && ValidRun(size, s) && Logged(size, s.ring, s.log)
    && Standing(size, s.log, s.pos, next) && Synced(size, s, next) && Accounts(size, s, idx, next)
  }

  lemma StartIsGood(size: nat)
    requires 1 < size
    ensures Good(size, Start(size), [], 0)
  {
  }

  lemma PushIsGood(size: nat, s: Run, e: Event, idx: seq<nat>, next: nat)
    requires Good(size, s, idx, next)
    ensures Good(size, StepRun(size, s, Push(e)), idx, next)
  {
    PushKeepsLogged(size, s.ring, s.log, e);
  }

  lemma SynchronizeIsGood(size: nat, s: Run, idx: seq<nat>, next: nat) returns (next': nat)
    requires Good(size, s, idx, next) && Ticking(s.log)
    ensures Good(size, StepRun(size, s, Synchronize), idx, next')
  {
    next' := SyncKeepsPlace(size, s.ring, s.log, s.pos, next);
  }

  /** A timely pull keeps the account: it delivers the next event, or a later one that a gap was reported for. */
  lemma PullIsGood(size: nat, s: Run, idx: seq<nat>, next: nat) returns (idx': seq<nat>, next': nat)
    requires Good(size, s, idx, next) && Increasing(s.log) && TimelyPull(size, s)
    ensures Good(size, StepRun(size, s, Pull), idx', next')
  {
    idx', next' := idx, next;
    if CanPull(size, s.pos) {
      assert s.synced > 0;
      var d := PullDelivers(size, s.ring, s.log, s.pos, next, s.synced);
      idx', next' := idx + [d], d + 1;
      DeliveryAccounts(size, s, idx, next, d);
    }
  }

  /** The account with one delivery more. */
  lemma DeliveryAccounts(size: nat, s: Run, idx: seq<nat>, next: nat, d: nat)
    requires ValidRun(size, s) && CanPull(size, s.pos) && Accounts(size, s, idx, next)
    requires next <= d < |s.log| && s.ring.slots[s.pos.bottom] == s.log[d]
    requires !s.gap || |s.log| < size ==> d == next
    ensures Accounts(size, StepRun(size, s, Pull), idx + [d], d + 1)
  {
  }

  lemma {:induction false} RunAccounts(size: nat, ops: seq<Op>) returns (idx: seq<nat>, next: nat)
    requires 1 < size && Timely(size, ops) && Ticking(After(size, ops).log)
    ensures Good(size, After(size, ops), idx, next)
    decreases |ops|
  {
    if ops == [] {
      idx, next := [], 0;
      StartIsGood(size);
    } else {
      var before, op := ops[..|ops| - 1], ops[|ops| - 1];
      var s := After(size, before);
      TickingBefore(s.log, After(size, ops).log);
      TimelyBefore(size, ops);
      idx, next := RunAccounts(size, before);
      match op {
        case Push(e) => PushIsGood(size, s, e, idx, next);
        case Synchronize => next := SynchronizeIsGood(size, s, idx, next);
        case Pull => idx, next := PullIsGood(size, s, idx, next);
      }
    }
  }

  lemma TickingBefore(log: seq<Event>, later: seq<Event>)
    requires log <= later && Ticking(later)
    ensures Ticking(log)
  {
    assert forall k | 0 <= k < |log| :: log[k] == later[k];
  }

  /**
   * Delivery over whole runs of timely pulls: no event is delivered twice, deliveries with no gap reported between them
   * are consecutive, and until the ring first overflows they are the log from its start.
   */
  lemma DeliveriesFollowTheLog(size: nat, ops: seq<Op>) returns (idx: seq<nat>)
    requires 1 < size && Timely(size, ops) && Ticking(After(size, ops).log)
    ensures var s := After(size, ops);
            && |idx| == |s.delivered| == |s.gapped|
            && (forall j | 0 <= j < |idx| :: idx[j] < |s.log| && s.delivered[j] == s.log[idx[j]])
            && (forall i, j | 0 <= i < j < |idx| :: idx[i] < idx[j])
            && (forall j | 0 < j < |idx| && !s.gapped[j] :: idx[j] == idx[j - 1] + 1)
            && (|s.log| < size ==> s.delivered <= s.log)
  {
    var next;
    idx, next := RunAccounts(size, ops);
  }

  /**
   * The converse: the first pull that is not timely, after a delivery and with no gap reported since, hands out
   * an event that is not the next one. Deliveries are then no longer consecutive, and nothing says so.
   */
  lemma LatePullSkips(size: nat, ops: seq<Op>) returns (c: nat, d: nat)
    requires 1 < size && Timely(size, ops) && Ticking(After(size, ops).log)
    requires var s := After(size, ops); !TimelyPull(size, s) && s.delivered != [] && !s.gap
    ensures var s := StepRun(size, After(size, ops), Pull);
            var m := |s.delivered|;
            && c + 1 < d < |s.log| && m == |s.gapped| > 1 && !s.gapped[m - 1]
            && s.delivered[m - 2] == s.log[c] && s.delivered[m - 1] == s.log[d]
  {
    var s := After(size, ops);
    var idx, next := RunAccounts(size, ops);
    c := idx[|idx| - 1];
    d := PullDelivers(size, s.ring, s.log, s.pos, next, s.synced);
  }

  lemma OneStanding(size: nat, log: seq<Event>, p: Position, k: nat, k': nat)
    requires Increasing(log) && At(size, log, p, k) && At(size, log, p, k')
    ensures k == k'
  {
  }

  /**
   * A late pull, gap reported or not, still hands out an event that was not delivered before. The reader stays
   * above all that was delivered exactly when that was not the newest event, which the times of its slot and the
   * next one tell before the pull; otherwise it goes back by a whole ring.
   */
  lemma LatePullStaysAboveIff(size: nat, ops: seq<Op>) returns (idx: seq<nat>, d: nat)
    requires 1 < size && Timely(size, ops) && Ticking(After(size, ops).log) && !TimelyPull(size, After(size, ops))
    ensures var s, s' := After(size, ops), StepRun(size, After(size, ops), Pull);
            && |idx| == |s.delivered| && s'.delivered == s.delivered + [s.ring.slots[s.pos.bottom]]
            && d < |s.log| && s'.delivered[|idx|] == s.log[d]
            && (forall j | 0 <= j < |idx| :: idx[j] < d && s.delivered[j] == s.log[idx[j]])
            && (NotNewest(size, s.ring, s.pos) <==> exists k :: At(size, s.log, s'.pos, k) && d < k)
            && (!NotNewest(size, s.ring, s.pos) ==>
                  d + 1 == |s.log| && size <= d + 1 && At(size, s.log, s'.pos, d + 1 - size))
  {
    var s, next := After(size, ops), 0;
    idx, next := RunAccounts(size, ops);
    d := PullDelivers(size, s.ring, s.log, s.pos, next, s.synced);
    var p := AfterPull(size, s.ring, s.pos);
    if d + 1 == |s.log| {
      forall k: nat | At(size, s.log, p, k) ensures k <= d { OneStanding(size, s.log, p, k, d + 1 - size); }
    }
  }

  // ---------- a run with a late pull ----------

  const TICKS: seq<Event> := [Event(0, 1), Event(1, 2), Event(2, 3), Event(3, 4), Event(4, 5), Event(5, 6)]

  /** One event delivered, the third one pushed and synchronized with. */
  const SYNCHRONIZED: Run := Run(TICKS[..3], 3, Ring([TICKS[0], TICKS[1], TICKS[2], NO_EVENT], 1, 0),
                                 Position(1, 0, 2), [TICKS[0]], [true], false)

  /** Two more pushes have overwritten the slot at the reader's bottom before it pulls. */
  const OVERTAKEN: Run := Run(TICKS[..5], 3, Ring([TICKS[3], TICKS[4], TICKS[2], NO_EVENT], 0, 2),
                              Position(2, 0, 3), [TICKS[0], TICKS[4]], [true, false], false)

  lemma Then(ops: seq<Op>, op: Op) returns (more: seq<Op>, s: Run)
    ensures more == ops + [op] && s == After(3, more) == StepRun(3, After(3, ops), op)
  {
    more := ops + [op];
    s := After(3, more);
    assert more[..|more| - 1] == ops;
  }

  lemma ReachSynchronized() returns (ops: seq<Op>)
    ensures After(3, ops) == SYNCHRONIZED
  {
    var s: Run;
    ops, s := [], Start(3);
    assert s.ring.slots == [NO_EVENT, NO_EVENT, NO_EVENT, NO_EVENT];
    ops, s := Then(ops, Push(TICKS[0]));
    ops, s := Then(ops, Push(TICKS[1]));
    ops, s := Then(ops, Synchronize);
    ops, s := Then(ops, Pull);
    ops, s := Then(ops, Push(TICKS[2]));
    ops, s := Then(ops, Synchronize);
  }

  lemma ReachOvertaken() returns (ops: seq<Op>)
    ensures After(3, ops) == OVERTAKEN && !Timely(3, ops)
  {
    var s: Run;
    ops := ReachSynchronized();
    ops, s := Then(ops, Push(TICKS[3]));
    ops, s := Then(ops, Push(TICKS[4]));
    var late := ops;
    assert !TimelyPull(3, s);
    ops, s := Then(ops, Pull);
    assert ops[|late|].Pull? && ops[..|late|] == late;
  }

  lemma DeliverAgain(ops: seq<Op>) returns (more: seq<Op>, s: Run)
    requires After(3, ops) == OVERTAKEN
    ensures ops <= more && s == After(3, more) && s.log == TICKS
    ensures s.delivered == [TICKS[0], TICKS[4], TICKS[4]]
  {
    more, s := Then(ops, Synchronize);
    assert s.pos == Position(2, 2, 3);
    more, s := Then(more, Push(TICKS[5]));
    assert s.ring == Ring([TICKS[3], TICKS[4], TICKS[5], NO_EVENT], 1, 0);
    more, s := Then(more, Synchronize);
    assert s.pos == Position(1, 0, 5);
    more, s := Then(more, Pull);
  }

  lemma StaysLate(ops: seq<Op>, more: seq<Op>)
    requires ops <= more && !Timely(3, ops)
    ensures !Timely(3, more)
  {
    var i :| 0 <= i < |ops| && ops[i].Pull? && !TimelyPull(3, After(3, ops[..i]));
    assert more[i].Pull? && more[..i] == ops[..i];
  }

  /**
   * And when the late pull hands out the newest event the reader steps back, so that an event can be delivered
   * twice.
   */
  lemma LatePullDeliversTwice() returns (ops: seq<Op>)
    ensures !Timely(3, ops) && Ticking(After(3, ops).log)
    ensures var s := After(3, ops);
            |s.log| == 6 && |s.delivered| == 3 && s.delivered[1] == s.delivered[2] == s.log[4]
  {
    var first := ReachOvertaken();
    var s: Run;
    ops, s := DeliverAgain(first);
    StaysLate(first, ops);
  }
}
