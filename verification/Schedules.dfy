/** Schedules of the publish protocol: whole pushes, a push stopped on the way, and the loads of one reader. */
module Schedules {
  import opened Traces
  import opened Rings
  import opened Publication
  import opened Protocol

  lemma {:induction false} AfterConcat(size: nat, s: State, first: seq<Action>, second: seq<Action>)
    ensures After(size, s, first + second) == After(size, After(size, s, first), second)
    decreases |second|
  {
    var all := first + second;
    if second == [] {
      assert all == first;
    } else {
      var rest, a := second[..|second| - 1], second[|second| - 1];
      assert all[..|all| - 1] == first + rest && all[|all| - 1] == a;
      AfterConcat(size, s, first, rest);
      assert After(size, s, all) == Act(size, After(size, s, first + rest), a);
    }
  }

  lemma {:induction false} OnlyWriter(size: nat, s: State, n: nat) returns (actions: seq<Action>)
    ensures WriterSteps(actions) == |actions| == n
    ensures forall k: nat | k <= n :: After(size, s, actions[..k]).readers == s.readers
  {
    actions := seq(n, _ => WriterStep);
    CountSteps(actions);
    forall k: nat | k <= n ensures After(size, s, actions[..k]).readers == s.readers {
      ReadersRest(size, s, actions[..k]);
    }
  }

  lemma {:induction false} CountSteps(actions: seq<Action>)
    requires forall k | 0 <= k < |actions| :: actions[k] == WriterStep
    ensures WriterSteps(actions) == |actions|
  {
    if actions != [] { CountSteps(actions[1..]); }
  }

  lemma {:induction false} ReadersRest(size: nat, s: State, actions: seq<Action>)
    requires forall k | 0 <= k < |actions| :: actions[k] == WriterStep
    ensures After(size, s, actions).readers == s.readers
    decreases |actions|
  {
    if actions != [] {
      ReadersRest(size, s, actions[..|actions| - 1]);
      WriterLeavesReaders(size, After(size, s, actions[..|actions| - 1]));
    }
  }

  lemma WriterLeavesReaders(size: nat, s: State)
    ensures Act(size, s, WriterStep).readers == s.readers
  {
  }

  /** A schedule that ends between pushes, with this log and these readers. */
  ghost predicate Reaches(size: nat, s: State, actions: seq<Action>, log: seq<Event>, readers: map<int, Snapshot>) {
    Completed(size, After(size, s, actions), log) && After(size, s, actions).readers == readers
  }

  lemma PushAlone(size: nat, s: State, before: seq<Action>, log: seq<Event>, readers: map<int, Snapshot>, e: Event)
    returns (actions: seq<Action>)
    requires Reaches(size, s, before, log, readers)
    ensures Reaches(size, s, actions, log + [e], readers)
  {
    var idle := After(size, s, before);
    var started := Act(size, idle, StartPush(e));
    StepKeepsInv(size, idle, StartPush(e));
    var steps := OnlyWriter(size, started, 16);
    var n := PushIsWaitFree(size, started, steps);
    actions := [StartPush(e)] + steps[..n];
    AfterFirst(size, idle, actions);
    assert actions[1..] == steps[..n];
    AfterConcat(size, s, before, actions);
    actions := before + actions;
  }

  lemma OneEventMore(log: seq<Event>, whole: seq<Event>)
    requires log <= whole
    ensures log == whole || (|log| < |whole| && log + [whole[|log|]] <= whole)
    ensures |log| == |whole| ==> log == whole
  {
  }

  lemma {:induction false} PushMany(size: nat, s: State, before: seq<Action>, log: seq<Event>,
                                    whole: seq<Event>, readers: map<int, Snapshot>)
    returns (actions: seq<Action>)
    requires Reaches(size, s, before, log, readers) && log <= whole
    ensures Reaches(size, s, actions, whole, readers)
    decreases |whole| - |log|
  {
    OneEventMore(log, whole);
    if |log| == |whole| {
      actions := before;
    } else {
      actions := PushAlone(size, s, before, log, readers, whole[|log|]);
      actions := PushMany(size, s, actions, log + [whole[|log|]], whole, readers);
    }
  }

  lemma ReadAlone(size: nat, s: State, before: seq<Action>, log: seq<Event>, readers: map<int, Snapshot>,
                  target: map<int, Snapshot>)
    returns (actions: seq<Action>)
    requires Reaches(size, s, before, log, readers) && ReaderNext(After(size, s, before), 0).readers == target
    ensures Reaches(size, s, actions, log, target)
  {
    actions := before + [ReaderStep(0)];
    assert actions[..|before|] == before;
    StepKeepsInv(size, After(size, s, before), ReaderStep(0));
  }

  /** The three loads of reader 0, from no snapshot at all. */
  lemma PageLoad(s: State)
    requires s.readers == map[]
    ensures ReaderNext(s, 0).readers == map[0 := GotPage(s.page, s.counter)]
  {
  }

  lemma BottomLoad(s: State, ref: Ref, n: nat)
    requires s.readers == map[0 := GotPage(ref, n)]
    ensures ReaderNext(s, 0).readers == map[0 := GotBottom(ref, n, At(s, ref).bottom)]
  {
  }

  lemma TopLoad(s: State, ref: Ref, n: nat, b: nat)
    requires s.readers == map[0 := GotBottom(ref, n, b)]
    ensures ReaderNext(s, 0).readers == map[0 := GotBoth(ref, n, b, At(s, ref).top)]
  {
  }

  /** A reader that has loaded the page and its bottom after the publication of a log. */
  lemma HalfASnapshot(size: nat, s: State, log: seq<Event>) returns (actions: seq<Action>)
    requires 0 < size && Initial(size, s)
    ensures Reaches(size, s, actions, log, BottomRead(size, |log|))
  {
    InitialInv(size, s);
    actions := PushMany(size, s, [], [], log, map[]);
    actions := LoadPage(size, s, actions, log);
    actions := LoadBottom(size, s, actions, log);
  }

  lemma LoadPage(size: nat, s: State, before: seq<Action>, log: seq<Event>) returns (actions: seq<Action>)
    requires Reaches(size, s, before, log, map[])
    ensures Reaches(size, s, actions, log, map[0 := GotPage(RefOf(|log|), |log|)])
  {
    PageLoad(After(size, s, before));
    PageOf(size, After(size, s, before));
    actions := ReadAlone(size, s, before, log, map[], map[0 := GotPage(RefOf(|log|), |log|)]);
  }

  lemma LoadBottom(size: nat, s: State, before: seq<Action>, log: seq<Event>) returns (actions: seq<Action>)
    requires 0 < size && Reaches(size, s, before, log, map[0 := GotPage(RefOf(|log|), |log|)])
    ensures Reaches(size, s, actions, log, BottomRead(size, |log|))
  {
    var n := |log|;
    BottomLoad(After(size, s, before), RefOf(n), n);
    BottomOfPage(size, After(size, s, before));
    actions := ReadAlone(size, s, before, log, map[0 := GotPage(RefOf(n), n)],
                         map[0 := GotBottom(RefOf(n), n, Slot(size, Oldest(size, n)))]);
  }

  lemma PageOf(size: nat, s: State)
    requires Inv(size, s)
    ensures s.page == RefOf(|s.log|) && s.counter == |s.log|
  {
  }

  lemma BottomOfPage(size: nat, s: State)
    requires Inv(size, s)
    ensures At(s, RefOf(|s.log|)).bottom == Slot(size, Oldest(size, |s.log|))
  {
  }

  /**
   * The two records are used in turns: m publications later the one of publication n holds the last even one of
   * them.
   */
  function LastEven(m: nat): nat {
    if m < 2 then 0 else 2 + LastEven(m - 2)
  }

  lemma {:induction false} LastEvenIs(m: nat)
    ensures LastEven(m) == m - m % 2
  {
    if m >= 2 { LastEvenIs(m - 2); }
  }

  lemma SameRecord(n: nat, m: nat)
    requires m % 2 == 0
    ensures RefOf(n + m) == RefOf(n)
  {
  }

  lemma OtherRecord(n: nat, m: nat)
    requires m % 2 == 1
    ensures RefOf(n + m) == Other(RefOf(n))
  {
  }

  lemma TopOfRecord(size: nat, s: State, n: nat, m: nat)
    requires Inv(size, s) && s.writer.pc == Idle && |s.log| == n + m
    ensures At(s, RefOf(n)).top == Slot(size, n + LastEven(m))
  {
    LastEvenIs(m);
    if m % 2 == 0 { SameRecord(n, m); } else { OtherRecord(n, m); }
  }

  /** What reader 0 holds once it has read the bottom of publication n, and once it has read t for the top. */
  function BottomRead(size: nat, n: nat): map<int, Snapshot>
    requires 0 < size
  {
    map[0 := GotBottom(RefOf(n), n, Slot(size, Oldest(size, n)))]
  }

  function TopRead(size: nat, n: nat, t: nat): map<int, Snapshot>
    requires 0 < size
  {
    map[0 := GotBoth(RefOf(n), n, Slot(size, Oldest(size, n)), t)]
  }

  lemma PushedMeanwhile(size: nat, s: State, log: seq<Event>, whole: seq<Event>) returns (actions: seq<Action>)
    requires 0 < size && Initial(size, s) && log <= whole
    ensures Reaches(size, s, actions, whole, BottomRead(size, |log|))
  {
    actions := HalfASnapshot(size, s, log);
    actions := PushMany(size, s, actions, log, whole, BottomRead(size, |log|));
  }

  lemma TopBeforeRead(size: nat, s: State, log: seq<Event>, n: nat, m: nat, k: nat)
    requires 0 < size && Completed(size, s, log) && |log| == n + m && k == n + LastEven(m)
    ensures At(s, RefOf(n)).top == Slot(size, k)
  {
    TopOfRecord(size, s, n, m);
  }

  /** The reader has read the bottom, and what it will read as the top is there. */
  lemma BeforeTop(size: nat, s: State, log: seq<Event>, whole: seq<Event>, k: nat) returns (before: seq<Action>)
    requires 0 < size && Initial(size, s) && log <= whole && k == |log| + LastEven(|whole| - |log|)
    ensures var s', n := After(size, s, before), |log|;
            s'.log == whole && s'.readers == BottomRead(size, n) && At(s', RefOf(n)).top == Slot(size, k)
  {
    before := PushedMeanwhile(size, s, log, whole);
    TopBeforeRead(size, After(size, s, before), whole, |log|, |whole| - |log|, k);
  }

  lemma LoadTop(size: nat, s: State, before: seq<Action>, n: nat) returns (actions: seq<Action>)
    requires 0 < size && After(size, s, before).readers == BottomRead(size, n)
    ensures var s' := After(size, s, before);
            && After(size, s, actions).log == s'.log
            && After(size, s, actions).readers == TopRead(size, n, At(s', RefOf(n)).top)
  {
    actions := before + [ReaderStep(0)];
    assert actions[..|before|] == before;
    TopLoad(After(size, s, before), RefOf(n), n, Slot(size, Oldest(size, n)));
  }

  // ---------- a push stopped on the way ----------

  /** Where a push is after k steps, the tenth of which is taken only when the top wraps. */
  function PcAt(k: nat): WriterPc {
    if k == 0 then Load
    else if k == 1 then ReadPos
    else if k == 2 then ReadSlot
    else if k == 3 then Compare
    else if k == 4 then ReadBottom
    else if k == 5 then WriteBottom
    else if k == 6 then ReadTop
    else if k == 7 then WriteTop
    else if k == 8 then WritePos
    else if k == 9 then BumpTop
    else WrapTop
  }

  ghost predicate Midway(size: nat, s: State, log: seq<Event>, readers: map<int, Snapshot>, k: nat) {
    Inv(size, s) && s.writer.pc == PcAt(k) && s.log == log && s.readers == readers
  }

  lemma OneStepOn(size: nat, s: State, log: seq<Event>, readers: map<int, Snapshot>, k: nat)
    requires Midway(size, s, log, readers, k) && k < 10 && (k == 9 ==> Slot(size, |log|) + 1 == size)
    ensures Midway(size, Act(size, s, WriterStep), log, readers, k + 1)
  {
    StepKeepsInv(size, s, WriterStep);
    WriterLeavesReaders(size, s);
    LogStays(size, s);
    NextPc(size, s, k);
  }

  lemma NextPc(size: nat, s: State, k: nat)
    requires Inv(size, s) && s.writer.pc == PcAt(k) && k < 10 && (k == 9 ==> Slot(size, |s.log|) + 1 == size)
    ensures WriterNext(size, s).writer.pc == PcAt(k + 1)
  {
    if k == 3 { WaitIsOver(size, s); }
  }

  lemma {:induction false} MidPush(size: nat, s: State, before: seq<Action>, log: seq<Event>,
                                   readers: map<int, Snapshot>, e: Event, k: nat) returns (actions: seq<Action>)
    requires Reaches(size, s, before, log, readers) && k <= 10 && (k == 10 ==> Slot(size, |log|) + 1 == size)
    ensures Midway(size, After(size, s, actions), log, readers, k)
    decreases k
  {
    var a := if k == 0 then StartPush(e) else WriterStep;
    var most := before;
    if k > 0 { most := MidPush(size, s, before, log, readers, e, k - 1); }
    actions := most + [a];
    assert actions[..|most|] == most;
    if k == 0 {
      StepKeepsInv(size, After(size, s, before), a);
    } else {
      OneStepOn(size, After(size, s, most), log, readers, k - 1);
    }
  }
}
