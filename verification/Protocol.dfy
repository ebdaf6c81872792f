/** What the publication invariant gives: linearization, snapshots, safe reads, and wait-free pushes. */
module Protocol {
  import opened Traces
  import opened Rings
  import opened Publication

  /** The shared ring as its page shows it. */
  function Shown(s: State): Ring {
    Ring(s.slots, At(s, s.page).bottom, At(s, s.page).top)
  }

  /**
   * Under every schedule: the record being filled is not the published one, and after n publications
   * the published record holds top = n mod size and bottom = max(0, n - (size - 1)) mod size.
   */
  lemma PublishedEnds(size: nat, s: State, actions: seq<Action>)
    requires 0 < size && Initial(size, s)
    ensures var s' := After(size, s, actions);
            && s'.counter == |s'.log|
            && (Filling(s') ==> s'.writer.spare != s'.page)
            && At(s', s'.page).top == |s'.log| % size
            && At(s', s'.page).bottom == (if |s'.log| < size then 0 else |s'.log| - (size - 1)) % size
  {
    var s' := After(size, s, actions);
    ReachableInv(size, s, actions);
    SlotIsRemainder(size, |s'.log|);
    SlotIsRemainder(size, Oldest(size, |s'.log|));
  }

  /** Only the swap changes what the page shows. */
  lemma PageStays(size: nat, s: State)
    requires Inv(size, s) && s.writer.pc != Swap
    ensures var s' := WriterNext(size, s); s'.page == s.page && At(s', s'.page) == At(s, s.page)
  {
  }

  lemma LogStays(size: nat, s: State)
    requires s.writer.pc != Swap
    ensures WriterNext(size, s).log == s.log
  {
  }

  lemma SwapMovesEnds(size: nat, s: State)
    requires Inv(size, s) && s.writer.pc == Swap
    ensures var s', ring := WriterNext(size, s), PushRing(size, Shown(s), s.writer.event);
            s'.log == s.log + [s.writer.event]
            && At(s', s'.page).bottom == ring.bottom && At(s', s'.page).top == ring.top
  {
    OldestAdvances(size, |s.log|);
  }

  /**
   * Compare-and-swap is the linearization point: it moves the ends as a sequential push, and no other step moves
   * them.
   */
  lemma SwapIsThePush(size: nat, s: State, a: Action)
    requires Inv(size, s)
    ensures var s' := Act(size, s, a);
            if a == WriterStep && s.writer.pc == Swap then
              var ring := PushRing(size, Shown(s), s.writer.event);
              s'.log == s.log + [s.writer.event]
              && At(s', s'.page).bottom == ring.bottom && At(s', s'.page).top == ring.top
            else
              s'.log == s.log && s'.page == s.page && At(s', s'.page) == At(s, s.page)
  {
    match a
    case StartPush(_) =>
    case ReaderStep(_) =>
    case WriterStep =>
      if s.writer.pc == Swap { SwapMovesEnds(size, s); } else { PageStays(size, s); LogStays(size, s); }
  }

  /** Between pushes the shared memory is the sequential ring with the same log. */
  lemma IdleIsSequential(size: nat, s: State)
    requires Inv(size, s) && s.writer.pc != WriteSlot
    ensures Logged(size, Shown(s), s.log)
  {
  }

  /** The last log event written to the slot of event k, among the first m. */
  lemma {:induction false} LastWritten(size: nat, slots: seq<Event>, log: seq<Event>, m: int, k: nat) returns (d: nat)
    requires 0 < size && SlotsHold(size, slots, log, m) && k < m
    ensures k <= d < m <= d + size && slots[Slot(size, k)] == log[d]
    ensures d == k <==> m <= k + size
    decreases m - k
  {
    if m <= k + size {
      d := k;
    } else {
      SlotAdvances(size, k, size);
      d := LastWritten(size, slots, log, m, k + size);
    }
  }

  /**
   * A reader with the ends of publication n that stands at event k, overtaken or not, and finds more than one
   * event between its bottom and top, never reads an unwritten slot; it reads event k just when no later event has been
   * written over it.
   */
  lemma PullIsSafe(size: nat, s: State, n: nat, k: nat) returns (d: nat)
    requires Inv(size, s) && Increasing(s.log)
    requires k <= n <= |s.log| && Distance(size, Slot(size, k), Slot(size, n)) > 1
    ensures k <= d < Written(s) && s.slots[Slot(size, k)] == s.log[d]
    ensures s.slots[Slot(size, k)] == s.log[k] <==> Written(s) <= k + size
  {
    StaysBelowTop(size, k, n);
    d := LastWritten(size, s.slots, s.log, Written(s), k);
    assert k < d ==> s.log[k].time < s.log[d].time;
  }

  /** The last published event alone may be missing from its slot, and its slot is the one before top. */
  lemma OnlyTheLastIsMissing(size: nat, s: State, k: nat)
    requires Inv(size, s) && k < |s.log| <= k + size && s.slots[Slot(size, k)] != s.log[k]
    ensures s.writer.pc == WriteSlot && k == |s.log| - 1 && Next(size, Slot(size, k)) == At(s, s.page).top
  {
  }

  /** Snapshot consistency: bottom and top are those of one publication unless its record is being reused. */
  lemma SnapshotIsConsistent(size: nat, s: State, r: int)
    requires Inv(size, s) && r in s.readers && s.readers[r].GotBottom?
    requires !Reused(s, s.readers[r].count)
    ensures var n := s.readers[r].count;
            ReaderNext(s, r).readers[r] == GotBoth(RefOf(n), n, Slot(size, Oldest(size, n)), Slot(size, n))
  {
    var x := s.readers[r];
    assert SnapshotInv(size, s, x);
    EndsStay(size, s, x.count);
  }

  // ---------- wait-freedom ----------

  /** How many steps of its own a writer needs to finish its push. */
  function StepsLeft(pc: WriterPc): nat {
    match pc
    case Idle => 0
    case Load => 16
    case ReadPos => 15
    case ReadSlot => 14
    case Compare => 13
    case ReadBottom => 12
    case WriteBottom => 11
    case ReadTop => 10
    case WriteTop => 9
    case WritePos => 8
    case BumpTop => 7
    case WrapTop => 6
    case BumpBottom => 5
    case WrapBottom => 4
    case WriteEvent => 3
    case Swap => 2
    case WriteSlot => 1
  }

  /** Every step of the writer brings its push nearer its end: no wait is repeated, no swap retried. */
  lemma WriterProgresses(size: nat, s: State)
    requires Inv(size, s) && s.writer.pc != Idle
    ensures var s' := WriterNext(size, s);
            StepsLeft(s'.writer.pc) < StepsLeft(s.writer.pc)
            && s'.writer.event == s.writer.event
            && s'.log == if s.writer.pc == Swap then s.log + [s.writer.event] else s.log
  {
    if s.writer.pc == Swap {
      SwapMovesEnds(size, s);
      SwapKeepsInv(size, s);
    } else {
      LogStays(size, s);
      if s.writer.pc == Compare { WaitIsOver(size, s); }
      NearerWithoutInv(size, s);
    }
  }

  lemma NearerWithoutInv(size: nat, s: State)
    requires s.writer.pc != Idle && s.writer.pc != Swap
    requires s.writer.pc == Compare ==> At(s, s.writer.current).event == s.writer.evt
    ensures StepsLeft(WriterNext(size, s).writer.pc) < StepsLeft(s.writer.pc)
    ensures WriterNext(size, s).writer.event == s.writer.event
  {
  }

  /** How often the writer gets to run in a schedule. */
  function WriterSteps(actions: seq<Action>): nat {
    if actions == [] then 0
    else WriterSteps(actions[1..]) + if actions[0] == WriterStep then 1 else 0
  }

  lemma {:induction false} AfterFirst(size: nat, s: State, actions: seq<Action>)
    requires actions != []
    ensures After(size, s, actions) == After(size, Act(size, s, actions[0]), actions[1..])
    decreases |actions|
  {
    if |actions| > 1 {
      AfterFirst(size, s, actions[..|actions| - 1]);
      assert actions[1..][..|actions| - 2] == actions[..|actions| - 1][1..];
    }
  }

  lemma AfterTake(size: nat, s: State, actions: seq<Action>, n: nat)
    requires n < |actions|
    ensures After(size, s, actions[..n + 1]) == After(size, Act(size, s, actions[0]), actions[1..][..n])
  {
    AfterFirst(size, s, actions[..n + 1]);
    assert actions[..n + 1][1..] == actions[1..][..n];
  }

  ghost predicate Completed(size: nat, s: State, log: seq<Event>) {
    Inv(size, s) && s.writer.pc == Idle && s.log == log
  }

  /** Single-writer wait-freedom: sixteen steps of its own complete a push, whatever readers do in between. */
  lemma {:induction false} PushIsWaitFree(size: nat, s: State, actions: seq<Action>) returns (n: nat)
    requires Inv(size, s) && StepsLeft(s.writer.pc) <= WriterSteps(actions)
    ensures n <= |actions| && Completed(size, After(size, s, actions[..n]), s.log + Pending(s))
    decreases |actions|
  {
    if s.writer.pc == Idle {
      n := 0;
    } else {
      var s' := NextStep(size, s, actions[0]);
      n := PushIsWaitFree(size, s', actions[1..]);
      AfterTake(size, s, actions, n);
      n := n + 1;
    }
  }

  /** What is still to be logged by the push under way. */
  function Pending(s: State): seq<Event> {
    if s.writer.pc == Idle || s.writer.pc == WriteSlot then [] else [s.writer.event]
  }

  lemma NextStep(size: nat, s: State, a: Action) returns (s': State)
    requires Inv(size, s) && s.writer.pc != Idle
    ensures s' == Act(size, s, a)
    ensures Inv(size, s') && s'.log + Pending(s') == s.log + Pending(s)
    ensures StepsLeft(s'.writer.pc) <= StepsLeft(s.writer.pc) - if a == WriterStep then 1 else 0
  {
    s' := Act(size, s, a);
    StepKeepsInv(size, s, a);
    if a == WriterStep {
      WriterProgresses(size, s);
      NextPending(size, s);
    } else {
      assert Act(size, s, a).writer == s.writer && Act(size, s, a).log == s.log;
    }
  }

  lemma NextPending(size: nat, s: State)
    requires Inv(size, s) && s.writer.pc != Idle
    ensures var s' := WriterNext(size, s); s'.log + Pending(s') == s.log + Pending(s)
  {
    WriterProgresses(size, s);
    if s.writer.pc == Swap {
      SwapKeepsInv(size, s);
    } else {
      NeverIdleEarly(size, s);
    }
  }

  /** Only the slot write ends a push, and only the swap leads to it. */
  lemma NeverIdleEarly(size: nat, s: State)
    requires s.writer.pc != Idle && s.writer.pc != Swap
    ensures WriterNext(size, s).writer.pc == Idle <==> s.writer.pc == WriteSlot
    ensures WriterNext(size, s).writer.pc != WriteSlot
  {
  }
}
