/**
 * The lock-free push as a step relation: one writer fills a spare state record, publishes it by
 * compare-and-swap on the page, and only then writes the slot; readers run at any time.
 * A step is one access to a shared field. The writer's reads of the record it is filling, which nobody
 * else writes, belong to the step that writes it next.
 */
module Publication {
  import opened Traces
  import opened Rings

  /** The fields of a state record. */
  datatype Record = Record(top: nat, bottom: nat, pos: nat, event: Event)

  /** The two records of a single-writer system: the writer's own and the buffer's state_global. */
  datatype Ref = Own | Global

  datatype WriterPc =
    | Idle
    | Load
    | ReadPos | ReadSlot | Compare
    | ReadBottom | WriteBottom | ReadTop | WriteTop | WritePos
    | BumpTop | WrapTop | BumpBottom | WrapBottom
    | WriteEvent
    | Swap
    | WriteSlot

  /** The writer's locals: the event, the loaded page, what the wait has read, and the body's variables. */
  datatype Writer = Writer(pc: WriterPc, event: Event, current: Ref, count: nat,
                           pos: nat, evt: Event, spare: Ref, copy: nat, top: nat)

  /** A reader between the three loads of a snapshot, with the page it loaded and what it has read. */
  datatype Snapshot =
    | Begin
    | GotPage(ref: Ref, count: nat)
    | GotBottom(ref: Ref, count: nat, b: nat)
    | GotBoth(ref: Ref, count: nat, b: nat, t: nat)

  /** Shared memory, the writer, the readers, and the events published so far. */
  datatype State = State(page: Ref, counter: nat, own: Record, glob: Record, slots: seq<Event>,
                         writer: Writer, readers: map<int, Snapshot>, log: seq<Event>)

  datatype Action = StartPush(event: Event) | WriterStep | ReaderStep(reader: int)

  function Other(r: Ref): Ref {
    if r == Own then Global else Own
  }

  function At(s: State, r: Ref): Record {
    if r == Own then s.own else s.glob
  }

  function Put(s: State, r: Ref, x: Record): State {
    if r == Own then s.(own := x) else s.(glob := x)
  }

  function Goto(s: State, pc: WriterPc): State {
    s.(writer := s.writer.(pc := pc))
  }

  /** One step of ATOMIC_PUSH, with the body of RTML_writer::push, or of the slot write after it. */
  function WriterNext(size: nat, s: State): State {
    var w := s.writer;
    var cur, spare := At(s, w.current), At(s, w.spare);
    match w.pc
    case Idle => s
    case Load =>
      s.(writer := w.(pc := ReadPos, current := s.page, count := s.counter))
    // complete: wait until the last push has written its slot
    case ReadPos => s.(writer := w.(pc := ReadSlot, pos := cur.pos))
    case ReadSlot =>
      s.(writer := w.(pc := Compare, evt := if w.pos < size && w.pos < |s.slots| then s.slots[w.pos] else w.evt))
    case Compare =>
      if cur.event == w.evt then s.(writer := w.(pc := ReadBottom, spare := Other(w.current)))
      else Goto(s, ReadPos)
    // copy the state
    case ReadBottom => s.(writer := w.(pc := WriteBottom, copy := cur.bottom))
    case WriteBottom => Goto(Put(s, w.spare, spare.(bottom := w.copy)), ReadTop)
    case ReadTop => s.(writer := w.(pc := WriteTop, copy := cur.top))
    case WriteTop => Goto(Put(s, w.spare, spare.(top := w.copy)), WritePos)
    case WritePos => Goto(Put(s, w.spare, spare.(pos := spare.top)), BumpTop)
    // the body
    case BumpTop =>
      var s' := Put(s, w.spare, spare.(top := spare.top + 1));
      s'.(writer := w.(pc := if spare.top + 1 >= size then WrapTop else BumpBottom, top := spare.top))
    case WrapTop => Goto(Put(s, w.spare, spare.(top := 0)), BumpBottom)
    case BumpBottom =>
      if spare.top == spare.bottom then
        Goto(Put(s, w.spare, spare.(bottom := spare.bottom + 1)),
             if spare.bottom + 1 >= size then WrapBottom else WriteEvent)
      else Goto(s, WriteEvent)
    case WrapBottom => Goto(Put(s, w.spare, spare.(bottom := 0)), WriteEvent)
    case WriteEvent => Goto(Put(s, w.spare, spare.(event := w.event)), Swap)
    case Swap =>
      if s.page == w.current && s.counter == w.count then
        Goto(s.(page := w.spare, counter := w.count + 1, log := s.log + [w.event]), WriteSlot)
      else Goto(s, Load)
    case WriteSlot =>
      Goto(if w.top < size && w.top < |s.slots| then s.(slots := s.slots[w.top := w.event]) else s, Idle)
  }

  /** ATOMIC_TRIPLE: load the page, read bottom, read top; then a new snapshot may begin. */
  function ReaderNext(s: State, r: int): State {
    var x := if r in s.readers then s.readers[r] else Begin;
    var x' := match x
              case Begin => GotPage(s.page, s.counter)
              case GotPage(ref, n) => GotBottom(ref, n, At(s, ref).bottom)
              case GotBottom(ref, n, b) => GotBoth(ref, n, b, At(s, ref).top)
              case GotBoth(_, _, _, _) => Begin;
    s.(readers := s.readers[r := x'])
  }

  function Act(size: nat, s: State, a: Action): State {
    match a
    case StartPush(e) => if s.writer.pc == Idle then s.(writer := s.writer.(pc := Load, event := e)) else s
    case WriterStep => WriterNext(size, s)
    case ReaderStep(r) => ReaderNext(s, r)
  }

  /** A fresh buffer and one writer, whose own record and locals hold anything. */
  ghost predicate Initial(size: nat, s: State) {
    && s.page == Global && s.counter == 0 && s.glob == Record(0, 0, 0, NO_EVENT)
    && |s.slots| == size + 1 && (forall p | 0 <= p < |s.slots| :: s.slots[p] == NO_EVENT)
    && s.writer.pc == Idle && s.readers == map[] && s.log == []
  }

  /** The state after any schedule of steps. */
  function After(size: nat, s: State, actions: seq<Action>): State {
    if actions == [] then s
    else Act(size, After(size, s, actions[..|actions| - 1]), actions[|actions| - 1])
  }

  // ---------- the invariant ----------

  /** Which record publication n used. */
  function RefOf(n: nat): Ref {
    if n % 2 == 0 then Global else Own
  }

  /** The record as publication n left it: the two ends of the sequential ring after n pushes. */
  ghost predicate Ends(size: nat, x: Record, n: nat)
    requires 0 < size
  {
    x.top == Slot(size, n) && x.bottom == Slot(size, Oldest(size, n))
  }

  ghost predicate Published(size: nat, x: Record, log: seq<Event>)
    requires 0 < size
  {
    Ends(size, x, |log|)
    && if log == [] then x.pos == 0 && x.event == NO_EVENT
       else x.pos == Slot(size, |log| - 1) && x.event == log[|log| - 1]
  }

  /** How many events have reached their slots: all, or all but the last published one. */
  function Written(s: State): int {
    if s.writer.pc == WriteSlot then |s.log| - 1 else |s.log|
  }

  /** The first m events of the log have reached the slots, and no others. */
  ghost predicate SlotsHold(size: nat, slots: seq<Event>, log: seq<Event>, m: int)
    requires 0 < size
  {
    && |slots| == size + 1 && 0 <= m <= |log|
    && (forall k | 0 <= k < m <= k + size :: slots[Slot(size, k)] == log[k])
    && (forall p | m <= p < size :: slots[p] == NO_EVENT)
  }

  /** The writer has begun to overwrite the record that is not published. */
  predicate Filling(s: State) {
    match s.writer.pc
    case Idle => false
    case Load => false
    case ReadPos => false
    case ReadSlot => false
    case Compare => false
    case ReadBottom => false
    case WriteBottom => false
    case WriteSlot => false
    case _ => true
  }

  /** The page is the one the writer loaded, and its spare the record that is not published. */
  ghost predicate Owns(s: State) {
    var w := s.writer;
    w.current == s.page && w.count == s.counter && w.spare == Other(s.page)
  }

  /** What holds before each step of the writer. */
  ghost predicate Outline(size: nat, s: State)
    requires 0 < size
  {
    var w, pub, spare, n := s.writer, At(s, s.page), At(s, Other(s.page)), |s.log|;
    match w.pc
    case Idle => true
    case Load => true
    case ReadPos => w.current == s.page && w.count == s.counter
    case ReadSlot => w.current == s.page && w.count == s.counter && w.pos == pub.pos
    case Compare =>
      w.current == s.page && w.count == s.counter && w.pos == pub.pos < |s.slots| && w.evt == s.slots[w.pos]
    case ReadBottom => Owns(s)
    case WriteBottom => Owns(s) && w.copy == pub.bottom
    case ReadTop => Owns(s) && spare.bottom == pub.bottom && (n > 0 ==> spare.top == Slot(size, n - 1))
    case WriteTop =>
      Owns(s) && spare.bottom == pub.bottom && w.copy == pub.top && (n > 0 ==> spare.top == Slot(size, n - 1))
    case WritePos => Owns(s) && spare.bottom == pub.bottom && spare.top == pub.top
    case BumpTop => Owns(s) && spare.bottom == pub.bottom && spare.top == spare.pos == pub.top
    case WrapTop =>
      Owns(s) && spare.bottom == pub.bottom && spare.pos == w.top == pub.top && pub.top + 1 == size == spare.top
    case BumpBottom =>
      Owns(s) && spare.bottom == pub.bottom && spare.pos == w.top == pub.top && spare.top == Slot(size, n + 1)
    case WrapBottom =>
      Owns(s) && spare.pos == w.top == pub.top && spare.top == Slot(size, n + 1) == pub.bottom
      && pub.bottom + 1 == size == spare.bottom
    case WriteEvent => Owns(s) && spare.pos == w.top == pub.top && Ends(size, spare, n + 1)
    case Swap => Owns(s) && spare.pos == w.top == pub.top && Ends(size, spare, n + 1) && spare.event == w.event
    case WriteSlot => n > 0 && w.top == Slot(size, n - 1) && w.event == s.log[n - 1]
  }

  /** The record that publication n used has been, or is being, filled again for publication n + 2. */
  predicate Reused(s: State, n: nat) {
    |s.log| >= n + 2 || (|s.log| == n + 1 && Filling(s))
  }

  ghost predicate SnapshotInv(size: nat, s: State, x: Snapshot)
    requires 0 < size
  {
    && (!x.Begin? ==> x.count <= |s.log| && x.ref == RefOf(x.count))
    && (x.GotBottom? && !Reused(s, x.count) ==> x.b == Slot(size, Oldest(size, x.count)))
    && (x.GotBottom? ==> x.b <= size)
    && (x.GotBoth? ==> x.b <= size && x.t <= size)
  }

  /** What is published, what is in the slots, and what readers have seen of it. */
  ghost predicate SharedInv(size: nat, s: State)
    requires 0 < size
  {
    && s.counter == |s.log| && s.page == RefOf(|s.log|)
    && Published(size, At(s, s.page), s.log)
    && SlotsHold(size, s.slots, s.log, Written(s))
    && (|s.log| > 0 && !Filling(s) ==> Ends(size, At(s, Other(s.page)), |s.log| - 1))
    && (forall r | r in s.readers :: SnapshotInv(size, s, s.readers[r]))
  }

  ghost predicate Inv(size: nat, s: State) {
    0 < size && SharedInv(size, s) && Outline(size, s)
  }

  lemma InitialInv(size: nat, s: State)
    requires 0 < size && Initial(size, s)
    ensures Inv(size, s)
  {
  }

  // ---------- what a reader finds in the two records ----------

  /** The top of the record that is not published, once there has been a publication. */
  function SpareTop(size: nat, n: nat, pc: WriterPc): nat
    requires 0 < size && 0 < n
  {
    match pc
    case WritePos => Slot(size, n)
    case BumpTop => Slot(size, n)
    case WrapTop => size
    case BumpBottom => Slot(size, n + 1)
    case WrapBottom => Slot(size, n + 1)
    case WriteEvent => Slot(size, n + 1)
    case Swap => Slot(size, n + 1)
    case _ => Slot(size, n - 1)
  }

  function SpareBottom(size: nat, n: nat, pc: WriterPc): nat
    requires 0 < size && 0 < n
  {
    match pc
    case ReadTop => Slot(size, Oldest(size, n))
    case WriteTop => Slot(size, Oldest(size, n))
    case WritePos => Slot(size, Oldest(size, n))
    case BumpTop => Slot(size, Oldest(size, n))
    case WrapTop => Slot(size, Oldest(size, n))
    case BumpBottom => Slot(size, Oldest(size, n))
    case WrapBottom => size
    case WriteEvent => Slot(size, Oldest(size, n + 1))
    case Swap => Slot(size, Oldest(size, n + 1))
    case _ => Slot(size, Oldest(size, n - 1))
  }

  /** Before any step of the writer: the ends in the record that is not published, old, in the making or new. */
  lemma SpareEnds(size: nat, s: State)
    requires Inv(size, s) && s.log != []
    ensures At(s, Other(s.page)).top == SpareTop(size, |s.log|, s.writer.pc) <= size
    ensures At(s, Other(s.page)).bottom == SpareBottom(size, |s.log|, s.writer.pc) <= size
  {
  }

  /** A reader has the published record or, once there has been a publication, the other one. */
  lemma LoadedRecord(size: nat, s: State, n: nat)
    requires Inv(size, s) && n <= |s.log|
    ensures RefOf(n) == s.page || (RefOf(n) == Other(s.page) && s.log != [])
    ensures At(s, RefOf(n)).bottom <= size && At(s, RefOf(n)).top <= size
  {
    if RefOf(n) != s.page {
      assert s.log != [];
      SpareEnds(size, s);
    }
  }

  // ---------- every step keeps it ----------

  lemma RecordsAlternate(n: nat)
    ensures RefOf(n + 1) == Other(RefOf(n))
  {
  }

  lemma OldestAdvances(size: nat, n: nat)
    requires 0 < size
    ensures Slot(size, Oldest(size, n + 1)) ==
            if Slot(size, n + 1) == Slot(size, Oldest(size, n)) then Next(size, Slot(size, Oldest(size, n)))
            else Slot(size, Oldest(size, n))
  {
    SlotsDiffer(size, Oldest(size, n), n + 1);
  }

  /** Snapshots are kept by any step that changes neither them nor, before a record is reused, the log. */
  lemma SnapshotsStay(size: nat, s: State, s': State)
    requires Inv(size, s) && s'.readers == s.readers && s.log <= s'.log
    requires forall n: nat | Reused(s, n) :: Reused(s', n)
    ensures forall r | r in s'.readers :: SnapshotInv(size, s', s'.readers[r])
  {
    forall r | r in s'.readers ensures SnapshotInv(size, s', s'.readers[r]) {
      assert SnapshotInv(size, s, s.readers[r]);
    }
  }

  lemma StartKeepsInv(size: nat, s: State, e: Event)
    requires Inv(size, s)
    ensures Inv(size, Act(size, s, StartPush(e)))
  {
    SnapshotsStay(size, s, Act(size, s, StartPush(e)));
  }

  /** Nothing shared changes while the writer only reads, or fills the record that is not published. */
  lemma PrivateStep(size: nat, s: State, s': State)
    requires Inv(size, s) && s.writer.pc != WriteSlot && s'.writer.pc != WriteSlot
    requires s' == s.(own := s'.own, glob := s'.glob, writer := s'.writer)
    requires At(s', s.page) == At(s, s.page)
    requires Filling(s') || (!Filling(s) && At(s', Other(s.page)) == At(s, Other(s.page)))
    ensures SharedInv(size, s')
  {
    SnapshotsStay(size, s, s');
  }

  /** The last published event has reached its slot, so the wait is over at its first test. */
  lemma WaitIsOver(size: nat, s: State)
    requires Inv(size, s) && s.writer.pc == Compare
    ensures At(s, s.page).event == s.writer.evt
  {
    var n := |s.log|;
    if n == 0 { assert s.slots[0] == NO_EVENT; } else { assert s.slots[Slot(size, n - 1)] == s.log[n - 1]; }
  }

  predicate Waits(pc: WriterPc) {
    pc.Idle? || pc.Load? || pc.ReadPos? || pc.ReadSlot? || pc.Compare? || pc.ReadBottom?
  }

  predicate Copies(pc: WriterPc) {
    pc.WriteBottom? || pc.ReadTop? || pc.WriteTop? || pc.WritePos?
  }

  lemma WaitKeepsInv(size: nat, s: State)
    requires Inv(size, s) && Waits(s.writer.pc)
    ensures Inv(size, WriterNext(size, s))
  {
    PrivateStep(size, s, WriterNext(size, s));
    if s.writer.pc == Compare { WaitIsOver(size, s); }
  }

  lemma CopyKeepsInv(size: nat, s: State)
    requires Inv(size, s) && Copies(s.writer.pc)
    ensures Inv(size, WriterNext(size, s))
  {
    if s.writer.pc == WriteBottom { BottomCopyKeepsInv(size, s); }
    else if s.writer.pc == WritePos { PosCopyKeepsInv(size, s); }
    else { TopCopyKeepsInv(size, s); }
  }

  lemma BottomCopyKeepsInv(size: nat, s: State)
    requires Inv(size, s) && s.writer.pc == WriteBottom
    ensures Inv(size, WriterNext(size, s))
  {
    SpareNotFilled(size, s);
    BottomCopied(size, s);
    PrivateStep(size, s, WriterNext(size, s));
  }

  lemma SpareNotFilled(size: nat, s: State)
    requires 0 < size && SharedInv(size, s) && !Filling(s)
    ensures s.log != [] ==> At(s, Other(s.page)).top == Slot(size, |s.log| - 1)
  {
  }

  lemma TopCopyKeepsInv(size: nat, s: State)
    requires Inv(size, s) && (s.writer.pc == ReadTop || s.writer.pc == WriteTop)
    ensures Inv(size, WriterNext(size, s))
  {
    PrivateStep(size, s, WriterNext(size, s));
    TopCopied(size, s);
  }

  lemma PosCopyKeepsInv(size: nat, s: State)
    requires Inv(size, s) && s.writer.pc == WritePos
    ensures Inv(size, WriterNext(size, s))
  {
    PrivateStep(size, s, WriterNext(size, s));
    PosCopied(size, s);
  }

  lemma BottomCopied(size: nat, s: State)
    requires 0 < size && Outline(size, s) && s.writer.pc == WriteBottom
    requires s.log != [] ==> At(s, Other(s.page)).top == Slot(size, |s.log| - 1)
    ensures Outline(size, WriterNext(size, s))
  {
  }

  lemma TopCopied(size: nat, s: State)
    requires 0 < size && Outline(size, s) && (s.writer.pc == ReadTop || s.writer.pc == WriteTop)
    ensures Outline(size, WriterNext(size, s))
  {
  }

  lemma PosCopied(size: nat, s: State)
    requires 0 < size && Outline(size, s) && s.writer.pc == WritePos
    ensures Outline(size, WriterNext(size, s))
  {
  }

  lemma BumpTopKeepsInv(size: nat, s: State)
    requires Inv(size, s) && (s.writer.pc == BumpTop || s.writer.pc == WrapTop)
    ensures Inv(size, WriterNext(size, s))
  {
    PrivateStep(size, s, WriterNext(size, s));
  }

  lemma BumpBottomKeepsInv(size: nat, s: State)
    requires Inv(size, s) && s.writer.pc == BumpBottom
    ensures Inv(size, WriterNext(size, s))
  {
    PrivateStep(size, s, WriterNext(size, s));
    BottomBumped(size, s);
  }

  lemma BottomBumped(size: nat, s: State)
    requires 0 < size && Outline(size, s) && s.writer.pc == BumpBottom
    requires Ends(size, At(s, s.page), |s.log|)
    ensures Outline(size, WriterNext(size, s))
  {
    OldestAdvances(size, |s.log|);
  }

  lemma WrapBottomKeepsInv(size: nat, s: State)
    requires Inv(size, s) && s.writer.pc == WrapBottom
    ensures Inv(size, WriterNext(size, s))
  {
    PrivateStep(size, s, WriterNext(size, s));
    BottomWrapped(size, s);
  }

  lemma BottomWrapped(size: nat, s: State)
    requires 0 < size && Outline(size, s) && s.writer.pc == WrapBottom
    requires Ends(size, At(s, s.page), |s.log|)
    ensures Outline(size, WriterNext(size, s))
  {
    OldestAdvances(size, |s.log|);
  }

  lemma WriteEventKeepsInv(size: nat, s: State)
    requires Inv(size, s) && s.writer.pc == WriteEvent
    ensures Inv(size, WriterNext(size, s))
  {
    PrivateStep(size, s, WriterNext(size, s));
    EventWritten(size, s);
  }

  lemma EventWritten(size: nat, s: State)
    requires 0 < size && Outline(size, s) && s.writer.pc == WriteEvent
    ensures Outline(size, WriterNext(size, s))
  {
    var s' := WriterNext(size, s);
    assert At(s', s.page) == At(s, s.page);
    assert At(s', Other(s.page)) == At(s, Other(s.page)).(event := s.writer.event);
  }

  /** The compare-and-swap succeeds, and publishes one more event. */
  lemma SwapKeepsInv(size: nat, s: State)
    requires Inv(size, s) && s.writer.pc == Swap
    ensures var s' := WriterNext(size, s);
            Inv(size, s') && s'.writer.pc == WriteSlot && s'.log == s.log + [s.writer.event]
  {
    var s' := WriterNext(size, s);
    RecordsAlternate(|s.log|);
    PublishedNotWritten(size, s.slots, s.log, s.writer.event);
    SwapPublishes(size, s);
    SnapshotsStay(size, s, s');
  }

  lemma SwapPublishes(size: nat, s: State)
    requires Inv(size, s) && s.writer.pc == Swap
    ensures var s' := WriterNext(size, s);
            && s' == s.(page := Other(s.page), counter := s.counter + 1, log := s.log + [s.writer.event],
                        writer := s.writer.(pc := WriteSlot))
            && Published(size, At(s', s'.page), s'.log) && Ends(size, At(s', s.page), |s.log|)
            && s.writer.top == Slot(size, |s.log|)
  {
  }

  lemma PublishedNotWritten(size: nat, slots: seq<Event>, log: seq<Event>, e: Event)
    requires 0 < size && SlotsHold(size, slots, log, |log|)
    ensures SlotsHold(size, slots, log + [e], |log|)
  {
  }

  lemma SlotKeepsInv(size: nat, s: State)
    requires Inv(size, s) && s.writer.pc == WriteSlot
    ensures Inv(size, WriterNext(size, s))
  {
    var s', n := WriterNext(size, s), |s.log|;
    SlotWritten(size, s.slots, s.log);
    assert s' == s.(slots := s.slots[Slot(size, n - 1) := s.log[n - 1]], writer := s.writer.(pc := Idle));
    SlotSharedInv(size, s, s');
  }

  lemma SlotSharedInv(size: nat, s: State, s': State)
    requires Inv(size, s) && s.writer.pc == WriteSlot && s'.writer.pc == Idle
    requires s' == s.(slots := s'.slots, writer := s'.writer) && SlotsHold(size, s'.slots, s'.log, |s'.log|)
    ensures SharedInv(size, s')
  {
    SnapshotsStay(size, s, s');
  }

  lemma SlotWritten(size: nat, slots: seq<Event>, log: seq<Event>)
    requires 0 < size && log != [] && SlotsHold(size, slots, log, |log| - 1)
    ensures SlotsHold(size, slots[Slot(size, |log| - 1) := log[|log| - 1]], log, |log|)
  {
    var n := |log|;
    var slots' := slots[Slot(size, n - 1) := log[n - 1]];
    forall k | 0 <= k < n <= k + size ensures slots'[Slot(size, k)] == log[k] {
      SlotsDiffer(size, k, n - 1);
    }
    forall p | n <= p < size ensures slots'[p] == NO_EVENT {
      SmallSlot(size, n - 1);
    }
  }

  lemma ReaderKeepsInv(size: nat, s: State, r: int)
    requires Inv(size, s)
    ensures Inv(size, ReaderNext(s, r))
  {
    var s' := ReaderNext(s, r);
    NextSnapshot(size, s, r);
    OutlineHasNoReaders(size, s, s');
    forall q | q in s'.readers ensures SnapshotInv(size, s', s'.readers[q]) {
      SnapshotDependsOnLog(size, s, s', s'.readers[q]);
      if q != r { assert SnapshotInv(size, s, s.readers[q]); }
    }
  }

  lemma OutlineHasNoReaders(size: nat, s: State, s': State)
    requires 0 < size && s' == s.(readers := s'.readers) && Outline(size, s)
    ensures Outline(size, s')
  {
  }

  lemma NextSnapshot(size: nat, s: State, r: int)
    requires Inv(size, s)
    ensures SnapshotInv(size, s, ReaderNext(s, r).readers[r])
  {
    var x := if r in s.readers then s.readers[r] else Begin;
    assert SnapshotInv(size, s, x);
    if !x.Begin? { LoadedRecord(size, s, x.count); }
    if x.GotPage? && !Reused(s, x.count) { EndsStay(size, s, x.count); }
  }

  lemma SnapshotDependsOnLog(size: nat, s: State, s': State, x: Snapshot)
    requires 0 < size && s' == s.(readers := s'.readers)
    ensures SnapshotInv(size, s', x) == SnapshotInv(size, s, x)
  {
  }

  /** Until it is reused, the record of a publication keeps the ends it was published with. */
  lemma EndsStay(size: nat, s: State, n: nat)
    requires Inv(size, s) && n <= |s.log| && !Reused(s, n)
    ensures Ends(size, At(s, RefOf(n)), n)
  {
    if n == |s.log| {
      assert RefOf(n) == s.page;
    } else {
      RecordsAlternate(n);
      assert n + 1 == |s.log| && RefOf(n) == Other(s.page);
    }
  }

  lemma StepKeepsInv(size: nat, s: State, a: Action)
    requires Inv(size, s)
    ensures Inv(size, Act(size, s, a))
  {
    match a
    case StartPush(e) => StartKeepsInv(size, s, e);
    case ReaderStep(r) => ReaderKeepsInv(size, s, r);
    case WriterStep =>
      var pc := s.writer.pc;
      if Waits(pc) { WaitKeepsInv(size, s); }
      else if Copies(pc) { CopyKeepsInv(size, s); }
      else if pc == BumpTop || pc == WrapTop { BumpTopKeepsInv(size, s); }
      else if pc == Swap { SwapKeepsInv(size, s); }
      else if pc == WriteSlot { SlotKeepsInv(size, s); }
      else if pc == BumpBottom { BumpBottomKeepsInv(size, s); }
      else if pc == WrapBottom { WrapBottomKeepsInv(size, s); }
      else { WriteEventKeepsInv(size, s); }
  }

  lemma {:induction false} ReachableInv(size: nat, s: State, actions: seq<Action>)
    requires 0 < size && Initial(size, s)
    ensures Inv(size, After(size, s, actions))
  {
    if actions == [] {
      InitialInv(size, s);
    } else {
      ReachableInv(size, s, actions[..|actions| - 1]);
      StepKeepsInv(size, After(size, s, actions[..|actions| - 1]), actions[|actions| - 1]);
    }
  }
}
