/**
 * Exactly when a reader of the two ends of a record gets a pair that was never published, at whatever steps of
 * the writer it loads them; and schedules on which it does.
 */
module Tearing {
  import opened Traces
  import opened Rings
  import opened Publication
  import opened Schedules

  /** Ends b and t are those of no publication. */
  ghost predicate Torn(size: nat, b: nat, t: nat)
    requires 0 < size
  {
    forall m: nat :: !(b == Slot(size, Oldest(size, m)) && t == Slot(size, m))
  }

  lemma BottomIsAboveTop(size: nat, n: nat)
    requires 0 < size
    ensures n >= size ==> Slot(size, Oldest(size, n)) == Next(size, Slot(size, n))
    ensures n < size ==> Slot(size, Oldest(size, n)) == 0 && Slot(size, n) == n
  {
    if n >= size { SlotAdvances(size, n - size, size); } else { SmallSlot(size, n); }
  }

  /** The ends of some publication are two slots, with bottom slot 0 or the slot after top. */
  lemma TornIff(size: nat, b: nat, t: nat)
    requires 0 < size
    ensures Torn(size, b, t) <==> b >= size || t >= size || (b != 0 && b != Next(size, t))
  {
    forall m: nat ensures b == Slot(size, Oldest(size, m)) && t == Slot(size, m) ==> b == 0 || b == Next(size, t) {
      BottomIsAboveTop(size, m);
    }
    if b < size && t < size && (b == 0 || b == Next(size, t)) {
      var m := if b == 0 then t else t + size;
      BottomIsAboveTop(size, m);
      SmallSlot(size, t);
      SlotAdvances(size, t, size);
      assert b == Slot(size, Oldest(size, m)) && t == Slot(size, m);
    }
  }

  /** The bottom of publication n goes with no other top than its own, unless it is slot 0. */
  lemma TornFromBottom(size: nat, n: nat, t: nat)
    requires 0 < size
    ensures var b := Slot(size, Oldest(size, n));
            Torn(size, b, t) <==> t >= size || (b != 0 && t != Slot(size, n))
  {
    TornIff(size, Slot(size, Oldest(size, n)), t);
    BottomIsAboveTop(size, n);
  }

  // ---------- in every reachable state ----------

  /** The top that a reader with the record of publication n finds in it before this step of the writer. */
  function TopFound(size: nat, s: State, n: nat): nat
    requires 0 < size
  {
    if RefOf(n) == s.page || s.log == [] then Slot(size, |s.log|) else SpareTop(size, |s.log|, s.writer.pc)
  }

  function BottomFound(size: nat, s: State, n: nat): nat
    requires 0 < size
  {
    if RefOf(n) == s.page || s.log == [] then Slot(size, Oldest(size, |s.log|))
    else SpareBottom(size, |s.log|, s.writer.pc)
  }

  /** The record of any publication, at every step of the writer. */
  lemma EndsOfRecord(size: nat, s: State, n: nat)
    requires Inv(size, s) && n <= |s.log|
    ensures At(s, RefOf(n)).top == TopFound(size, s, n) <= size
    ensures At(s, RefOf(n)).bottom == BottomFound(size, s, n) <= size
  {
    LoadedRecord(size, s, n);
    if s.log != [] { SpareEnds(size, s); }
  }

  /** A reader may load the bottom at any step too, and gets what the record holds then. */
  lemma BottomLoaded(size: nat, s: State, r: int)
    requires Inv(size, s) && r in s.readers && s.readers[r].GotPage?
    ensures var n := s.readers[r].count;
            ReaderNext(s, r).readers[r] == GotBottom(RefOf(n), n, BottomFound(size, s, n))
  {
    var x := s.readers[r];
    assert SnapshotInv(size, s, x);
    EndsOfRecord(size, s, x.count);
  }

  /**
   * Whatever bottom a reader got and whenever it loads the top: exactly when the two are the ends of no
   * publication; and exactly when, if the bottom is still that of the publication it loaded.
   */
  lemma SnapshotTornIff(size: nat, s: State, r: int)
    requires Inv(size, s) && r in s.readers && s.readers[r].GotBottom?
    ensures var (n, b, t) := (s.readers[r].count, s.readers[r].b, TopFound(size, s, s.readers[r].count));
            && ReaderNext(s, r).readers[r] == GotBoth(RefOf(n), n, b, t) && b <= size && t <= size
            && (Torn(size, b, t) <==> b == size || t == size || (b != 0 && b != Next(size, t)))
            && (b == Slot(size, Oldest(size, n)) ==>
                  (Torn(size, b, t) <==> t == size || (b != 0 && t != Slot(size, n))))
            && (!Reused(s, n) ==> !Torn(size, b, t))
  {
    var x := s.readers[r];
    assert SnapshotInv(size, s, x);
    EndsOfRecord(size, s, x.count);
    TornIff(size, x.b, TopFound(size, s, x.count));
    TornFromBottom(size, x.count, TopFound(size, s, x.count));
    if !Reused(s, x.count) { EndsStay(size, s, x.count); }
  }

  // ---------- schedules ----------

  /** Whole rounds lead back to the same slot, and nothing else does. */
  lemma {:induction false} SameSlotIff(size: nat, n: nat, e: nat)
    requires 0 < size
    ensures Slot(size, n + e) == Slot(size, n) <==> Slot(size, e) == 0
    decreases e
  {
    if e < size {
      SlotsDiffer(size, n, n + e);
      SmallSlot(size, e);
    } else {
      SameSlotIff(size, n, e - size);
      SlotAdvances(size, n + (e - size), size);
      SlotAdvances(size, e - size, size);
    }
  }

  /** Exactly when the bottom of publication n and the top of its record m whole publications later are torn. */
  lemma TornLater(size: nat, n: nat, m: nat)
    requires 0 < size
    ensures Torn(size, Slot(size, Oldest(size, n)), Slot(size, n + LastEven(m)))
            <==> Slot(size, Oldest(size, n)) != 0 && LastEven(m) % size != 0
  {
    TornFromBottom(size, n, Slot(size, n + LastEven(m)));
    SameSlotIff(size, n, LastEven(m));
    SlotIsRemainder(size, LastEven(m));
  }

  /**
   * Of a top loaded between pushes: a reader loads the page and its bottom after one log, and the top when more
   * events have been published and no push is under way. The ends are torn exactly when the bottom is not slot 0
   * and the later publications, less one if they are odd, are not a number of whole rounds.
   */
  lemma TornBetweenPushes(size: nat, s: State, log: seq<Event>, more: seq<Event>) returns (actions: seq<Action>)
    requires 0 < size && Initial(size, s)
    ensures var s', n, m := After(size, s, actions), |log|, |more|;
            && s'.log == log + more && s'.readers == TopRead(size, n, Slot(size, n + LastEven(m)))
            && (Torn(size, Slot(size, Oldest(size, n)), Slot(size, n + LastEven(m)))
                <==> Slot(size, Oldest(size, n)) != 0 && LastEven(m) % size != 0)
  {
    var before := BeforeTop(size, s, log, log + more, |log| + LastEven(|more|));
    actions := LoadTop(size, s, before, |log|);
    TornLater(size, |log|, |more|);
  }

  /** A reader with the bottom of a log, one publication later, and k steps into the next push. */
  lemma IntoTheNextPush(size: nat, s: State, log: seq<Event>, e: Event, e': Event,
                        k: nat) returns (actions: seq<Action>)
    requires 0 < size && Initial(size, s) && k <= 10 && (k == 10 ==> Slot(size, |log| + 1) + 1 == size)
    ensures Midway(size, After(size, s, actions), log + [e], BottomRead(size, |log|), k)
  {
    var before := PushedMeanwhile(size, s, log, log + [e]);
    actions := MidPush(size, s, before, log + [e], BottomRead(size, |log|), e', k);
  }

  lemma TopMidway(size: nat, s: State, log: seq<Event>, readers: map<int, Snapshot>, n: nat, k: nat)
    requires Midway(size, s, log, readers, k) && |log| == n + 1
    ensures At(s, RefOf(n)).top == SpareTop(size, n + 1, PcAt(k))
  {
    OtherRecord(n, 1);
    SpareEnds(size, s);
  }

  lemma MidwayTop(size: nat, s: State, log: seq<Event>, e: Event, e': Event, k: nat) returns (before: seq<Action>)
    requires 0 < size && Initial(size, s) && k <= 10 && (k == 10 ==> Slot(size, |log| + 1) + 1 == size)
    ensures var s', n := After(size, s, before), |log|;
            && s'.log == log + [e] && s'.readers == BottomRead(size, n)
            && At(s', RefOf(n)).top == SpareTop(size, n + 1, PcAt(k))
  {
    before := IntoTheNextPush(size, s, log, e, e', k);
    TopMidway(size, After(size, s, before), log + [e], BottomRead(size, |log|), |log|, k);
  }

  /** In the middle of a push one later publication is enough, whenever the bottom is not slot 0. */
  lemma TornInThePush(size: nat, s: State, log: seq<Event>, e: Event, e': Event) returns (actions: seq<Action>)
    requires 0 < size && Initial(size, s)
    ensures var s', n := After(size, s, actions), |log|;
            && s'.log == log + [e] && s'.readers == TopRead(size, n, Slot(size, n + 1))
            && (Torn(size, Slot(size, Oldest(size, n)), Slot(size, n + 1)) <==> Slot(size, Oldest(size, n)) != 0)
  {
    var n := |log|;
    var before := MidwayTop(size, s, log, e, e', 8);
    actions := LoadTop(size, s, before, n);
    TornFromBottom(size, n, Slot(size, n + 1));
    SlotsDiffer(size, n, n + 1);
  }

  /** And just before the top wraps a reader gets `size` for it, which is the top of no publication. */
  lemma TornAtTheWrap(size: nat, s: State, log: seq<Event>, e: Event, e': Event) returns (actions: seq<Action>)
    requires 0 < size && Initial(size, s) && Slot(size, |log| + 1) + 1 == size
    ensures var s', n := After(size, s, actions), |log|;
            && s'.log == log + [e] && s'.readers == TopRead(size, n, size)
            && Torn(size, Slot(size, Oldest(size, n)), size)
  {
    var n := |log|;
    var before := MidwayTop(size, s, log, e, e', 10);
    actions := LoadTop(size, s, before, n);
    TornFromBottom(size, n, size);
  }

  // ---------- what `state` reads ----------

  /** Under every schedule the ends a reader has loaded index slots that exist, the one past the ring included. */
  lemma LoadedEndsAreSlots(size: nat, s: State, actions: seq<Action>, r: int)
    requires 0 < size && Initial(size, s) && r in After(size, s, actions).readers
    ensures var s', x := After(size, s, actions), After(size, s, actions).readers[r];
            && (x.GotBottom? || x.GotBoth? ==> x.b < |s'.slots|)
            && (x.GotBoth? ==> x.t < |s'.slots|)
  {
    ReachableInv(size, s, actions);
    assert SnapshotInv(size, After(size, s, actions), After(size, s, actions).readers[r]);
  }
}
