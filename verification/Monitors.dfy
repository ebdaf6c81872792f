/** A generated monitor: synchronize, seek the time it watches, evaluate, keep the verdict. */
module Monitors {
  import opened Values
  import opened Traces
  import opened Formulas
  import opened Irrevocability
  import opened Horizon
  import opened Timed
  import opened Rings
  import opened Readers
  import opened Deliveries
  import opened TraceReaders
  import opened Evaluators

  /** What a monitor carries from one run to the next. */
  datatype MonitorState = MonitorState(cursor: nat, out: ThreeValued)

  /** One run on a window: evaluate at the seek position, or leave the verdict when no pair brackets t. */
  ghost predicate RunOn(w: seq<Event>, f: Formula, t: int, s: MonitorState, s': MonitorState) {
    && (forall k | Brackets(w, k, t) ::
          s'.cursor == (if s.cursor <= k then k else k + 1) && s'.out == Eval(f, w, s'.cursor, t))
    && ((forall k :: !Brackets(w, k, t)) ==>
          s' == MonitorState(if w == [] then 0 else |w| - 1, s.out))
  }

  /** Until the ring overflows, a reader at the start of the log is synchronized with all of it. */
  lemma SynchronizesWithAll(size: nat, r: Ring, log: seq<Event>, p: Position)
    requires 1 < size && Logged(size, r, log) && |log| < size
    requires p.bottom == 0 && p.top <= |log|
    ensures var q := SyncOf(size, r, p).0; q.bottom == 0 && q.top == |log|
    ensures r.bottom == 0 && r.top == |log| && Unroll(size, r) == log
  {
    if log != [] { EndsOfLog(size, r, log); }
    WindowIsLogSuffix(size, r, log);
  }

  class Monitor {
    const trace: TraceReader
    const phi: Formula
    const tbegin: int
    var out: ThreeValued

    /** The reader still stands at the start of the log, and the cursor on an event it has synchronized with. */
    ghost predicate Valid(log: seq<Event>)
      reads this, trace, trace.reader, trace.reader.buffer, trace.reader.buffer.stateref, trace.reader.buffer.slots
    {
      var reader := trace.reader;
      trace.Placed() && reader.bottom == 0 && reader.top <= |log| < reader.buffer.size
    }

    /** The buffer holds what pushing the log gives. */
    ghost predicate Buffered(log: seq<Event>)
      requires trace.reader.Valid()
      reads trace, trace.reader, trace.reader.buffer, trace.reader.buffer.stateref, trace.reader.buffer.slots
    {
      1 < trace.reader.buffer.size && Logged(trace.reader.buffer.size, trace.reader.buffer.AsRing(), log)
    }

    ghost function State(): MonitorState
      reads this, trace
    {
      MonitorState(trace.cursor, out)
    }

    constructor (trace: TraceReader, phi: Formula, tbegin: int)
      ensures this.trace == trace && this.phi == phi && this.tbegin == tbegin && out == T_UNKNOWN
    {
      this.trace, this.phi, this.tbegin, out := trace, phi, tbegin, T_UNKNOWN;
    }

    /** The first half of run: the reader takes in the whole log, and the cursor stays. */
    method Synchronize(ghost log: seq<Event>)
      requires Valid(log) && Buffered(log)
      modifies trace.reader`bottom, trace.reader`top, trace.reader`timestamp
      ensures Valid(log) && trace.Window() == log && trace.Index() == trace.cursor && trace.Floor() == 0
    {
      SynchronizesWithAll(trace.reader.buffer.size, trace.reader.buffer.AsRing(), log, trace.reader.AsPosition());
      var _ := trace.reader.Synchronize();
      assert trace.Ring() == trace.reader.buffer.AsRing();
    }

    /** The second half: seek and evaluate. */
    method SeekAndCompute(ghost log: seq<Event>)
      requires Valid(log) && Increasing(log)
      requires trace.Window() == log && trace.Index() == trace.cursor && trace.Floor() == 0
      modifies this`out, trace`cursor
      ensures trace.Placed() && RunOn(log, phi, tbegin, old(State()), State())
    {
      var status := trace.Set(tbegin);
      ghost var end := trace.cursor;
      assert trace.Index() == end;
      if status == AVAILABLE {
        out := Evaluate(trace, phi, tbegin);
      }
      SeekAndEvaluate(log, phi, tbegin, old(State()), MonitorState(end, out), status == AVAILABLE);
    }

    /** While the ring has not overflowed, a run is RunOn on the whole log. */
    method Run(ghost log: seq<Event>)
      requires Valid(log) && Buffered(log) && Increasing(log)
      modifies this`out, trace`cursor, trace.reader`bottom, trace.reader`top, trace.reader`timestamp
      ensures Valid(log) && RunOn(log, phi, tbegin, old(State()), State())
    {
      Synchronize(log);
      SeekAndCompute(log);
    }
  }

  lemma SeekAndEvaluate(w: seq<Event>, f: Formula, t: int, s: MonitorState, s': MonitorState, found: bool)
    requires found <==> exists k :: 0 <= k && Brackets(w, k, t)
    requires forall k | 0 <= k && Brackets(w, k, t) :: s'.cursor == if s.cursor <= k then k else k + 1
    requires if found then s'.cursor < |w| && s'.out == Eval(f, w, s'.cursor, t)
             else s'.out == s.out && if w == [] then s'.cursor == 0 else s'.cursor == |w| - 1
    ensures RunOn(w, f, t, s, s')
  {
    if k :| Brackets(w, k, t) {
      assert found;
    }
  }

  // ---------- whole runs ----------

  /** Runs of a monitor on a growing log: states[i+1] is what the run on logs[i] leaves. */
  ghost predicate History(logs: seq<seq<Event>>, f: Formula, t: int, states: seq<MonitorState>) {
    && |states| == |logs| + 1 && states[0] == MonitorState(0, T_UNKNOWN)
    && forall i | 0 <= i < |logs| :: NthRun(logs, f, t, states, i)
  }

  ghost predicate NthRun(logs: seq<seq<Event>>, f: Formula, t: int, states: seq<MonitorState>, i: nat)
    requires i < |logs| && |states| == |logs| + 1
  {
    && Increasing(logs[i]) && (i > 0 ==> logs[i - 1] <= logs[i])
    && RunOn(logs[i], f, t, states[i], states[i + 1])
  }

  /** The cursor has not passed the pair that brackets t, and the verdict is the one from the first of that pair. */
  ghost predicate Settled(w: seq<Event>, f: Formula, t: int, s: MonitorState) {
    && (forall k | Brackets(w, k, t) :: s.cursor <= k && s.out == Eval(f, w, k, t))
    && (s.cursor == 0 || s.cursor < |w|)
    && (s.out != T_UNKNOWN ==> exists k :: Brackets(w, k, t))
  }

  lemma RunSettles(w: seq<Event>, w': seq<Event>, f: Formula, t: int, s: MonitorState, s': MonitorState)
    requires w <= w' && Increasing(w') && Settled(w, f, t, s) && RunOn(w', f, t, s, s')
    ensures Settled(w', f, t, s')
  {
    forall k | Brackets(w', k, t)
      ensures s.cursor <= k && s'.cursor <= k && s'.out == Eval(f, w', k, t)
    {
      assert k + 1 < |w| ==> Brackets(w, k, t);
    }
    if j :| Brackets(w, j, t) {
      assert Brackets(w', j, t);
    }
  }

  lemma {:induction false} HistorySettles(logs: seq<seq<Event>>, f: Formula, t: int, states: seq<MonitorState>, n: nat)
    requires History(logs, f, t, states) && n <= |logs|
    ensures Settled(LogBefore(logs, n), f, t, states[n])
  {
    if n > 0 {
      HistorySettles(logs, f, t, states, n - 1);
      assert NthRun(logs, f, t, states, n - 1);
      RunSettles(LogBefore(logs, n - 1), logs[n - 1], f, t, states[n - 1], states[n]);
    }
  }

  /** The log the n-th run saw. */
  ghost function LogBefore(logs: seq<seq<Event>>, n: nat): seq<Event>
    requires n <= |logs|
  {
    if n == 0 then [] else logs[n - 1]
  }

  lemma {:induction false} LogsGrow(logs: seq<seq<Event>>, f: Formula, t: int, states: seq<MonitorState>,
                                    m: nat, n: nat)
    requires History(logs, f, t, states) && m <= n <= |logs|
    ensures LogBefore(logs, m) <= LogBefore(logs, n) && Increasing(LogBefore(logs, n))
    decreases n
  {
    if n > 0 { assert NthRun(logs, f, t, states, n - 1); }
    if m < n { LogsGrow(logs, f, t, states, m, n - 1); }
  }

  /**
   * Monitor safety: once a run has produced true or false, every later run yields the same verdict; for every
   * well-nested formula, and for any other whose past operators that run had in sight.
   */
  lemma VerdictStays(logs: seq<seq<Event>>, f: Formula, t: int, states: seq<MonitorState>, m: nat, n: nat)
    requires History(logs, f, t, states) && m <= n <= |logs|
    requires Dense(f, LogBefore(logs, m))
    requires WellNested(f) || m == 0 || (logs[m - 1] != [] && InSight(f, logs[m - 1], t))
    ensures Keeps(states[m].out, states[n].out)
  {
    HistorySettles(logs, f, t, states, m);
    HistorySettles(logs, f, t, states, n);
    LogsGrow(logs, f, t, states, m, n);
    var w, s := LogBefore(logs, m), LogBefore(logs, n);
    if states[m].out != T_UNKNOWN {
      var k :| Brackets(w, k, t);
      assert Brackets(s, k, t);
      VerdictIsIrrevocable(f, w, s, k, t, t);
    }
  }

  /** And that verdict is the truth of the formula at the watched time, whatever is pushed later. */
  lemma VerdictIsRight(logs: seq<seq<Event>>, f: Formula, t: int, states: seq<MonitorState>, n: nat, s: seq<Event>)
    requires History(logs, f, t, states) && 0 < n <= |logs| && logs[n - 1] <= s && WellTimed(s)
    requires Dense(f, logs[n - 1])
    requires WellNested(f) || (logs[n - 1] != [] && InSight(f, logs[n - 1], t))
    ensures Agrees(states[n].out, Truth(f, s, t))
  {
    HistorySettles(logs, f, t, states, n);
    var w := logs[n - 1];
    if states[n].out != T_UNKNOWN {
      var k :| Brackets(w, k, t);
      if WellNested(f) { WellNestedIsInSight(f, w, t); }
      VerdictIsTruthAtTime(f, w, s, k, t);
    }
  }

  /**
   * And it comes: once a log that starts at or before the watched time holds an event past the horizon, the run
   * on it leaves exactly the truth.
   */
  lemma VerdictComes(logs: seq<seq<Event>>, f: Formula, t: int, states: seq<MonitorState>, n: nat, m: nat,
                     s: seq<Event>)
    requires History(logs, f, t, states) && 0 < n <= |logs| && logs[n - 1] <= s && WellTimed(s)
    requires Bounded(f) && Dense(f, logs[n - 1])
    requires m < |logs[n - 1]| && logs[n - 1][0].time <= t && t + HorizonOf(f) < logs[n - 1][m].time
    ensures states[n].out == if Truth(f, s, t) then T_TRUE else T_FALSE
  {
    var w := logs[n - 1];
    HistorySettles(logs, f, t, states, n);
    LogsGrow(logs, f, t, states, n, n);
    var k := CoveringEvent(w, 0, t);
    NotLast(w, k, t, m);
    assert Brackets(w, k, t);
    DecidedPastHorizon(f, w, s, k, t, m);
  }
}
