/** The evaluators of formulas.h and terms.h: loops that move the cursor of a trace and put it back. */
module Evaluators {
  import opened Values
  import opened Traces
  import opened Formulas
  import opened Readers
  import opened Integrals
  import opened TraceReaders

  /** prop: the event under the cursor must be in force at t, and the next one buffered. */
  method EvaluateProp(trace: TraceReader, p: int, t: int) returns (v: ThreeValued)
    requires trace.OnEvent()
    ensures v == Eval(Prop(p), trace.Window(), trace.Index(), t)
  {
    var status := trace.Read();
    var next := trace.ReadNext();
    if status.Success? && next.Success? && status.event.time <= t && t < next.event.time {
      return if status.event.data == p then T_TRUE else T_FALSE;
    } else {
      return T_UNKNOWN;
    }
  }

  /** A formula as generated monitors nest it: each operator by its template, connectives by their macros. */
  method Evaluate(trace: TraceReader, f: Formula, t: int) returns (v: ThreeValued)
    requires trace.OnEvent()
    modifies trace`cursor
    ensures trace.reader.Valid() && trace.Window() == old(trace.Window())
    ensures trace.cursor == old(trace.cursor)
    ensures v == Eval(f, trace.Window(), trace.Index(), t)
    decreases f, 4
  {
    match f {
      case True =>
        v := T_TRUE;
      case Prop(p) =>
        v := EvaluateProp(trace, p, t);
      case Not(g) =>
        var x := Evaluate(trace, g, t);
        v := B3Not(x);
      case Or(g, h) =>
        var x := Evaluate(trace, g, t);
        var y := Evaluate(trace, h, t);
        v := B3Or(x, y);
      case And(g, h) =>
        var x := Evaluate(trace, g, t);
        var y := Evaluate(trace, h, t);
        v := B3And(x, y);
      case Until(_, _, _) =>
        v := UntilLess(trace, f, t);
      case Since(_, _, _) =>
        v := SinceLess(trace, f, t);
      case EventuallyEqual(_, _) =>
        v := EventuallyEq(trace, f, t);
      case EventuallyUnbounded(_) =>
        v := EventuallyLessUnbounded(trace, f, t);
      case PastEventuallyEqual(_, _) =>
        v := PastEventuallyEq(trace, f, t);
      case Less(m, n) =>
        var x := EvaluateTerm(trace, m, t);
        var y := EvaluateTerm(trace, n, t);
        v := B3LessThan(x, y);
    }
  }

  /** A term, as sum_dur and mult_dur put it together from durations. */
  method EvaluateTerm(trace: TraceReader, m: Term, t: int) returns (d: Duration)
    requires trace.OnEvent()
    modifies trace`cursor
    ensures trace.reader.Valid() && trace.Window() == old(trace.Window())
    ensures trace.cursor == old(trace.cursor)
    ensures d == Value(m, trace.Window(), trace.Index(), t)
    decreases m, 9
  {
    match m {
      case Constant(n) =>
        d := Duration(n, false);
      case Integral(f, upper) =>
        d := DurationOf(trace, f, t, upper);
      case Sum(l, r) =>
        var x := EvaluateTerm(trace, l, t);
        var y := EvaluateTerm(trace, r, t);
        d := SumDur(x, y);
      case Product(l, r) =>
        var x := EvaluateTerm(trace, l, t);
        var y := EvaluateTerm(trace, r, t);
        d := MultDur(x, y);
    }
  }

  /** A subformula at the event under the cursor, with the cursor reset afterwards. */
  method EvaluateHere(trace: TraceReader, f: Formula, t: int) returns (v: ThreeValued)
    requires trace.OnEvent() && t == trace.Window()[trace.Index()].time
    modifies trace`cursor
    ensures trace.reader.Valid() && trace.Window() == old(trace.Window())
    ensures trace.cursor == old(trace.cursor)
    ensures v == EvalAt(f, trace.Window(), trace.Index())
    decreases f, 5
  {
    var c := trace.cursor;
    v := Evaluate(trace, f, t);
    var _ := trace.SetCursor(c);
  }

  /** eval_b of until_less and since_less: both subformulas, and a symbol once one of them decides. */
  method EvalB(trace: TraceReader, f: Formula, t: int, v: FourValued) returns (symbol: FourValued)
    requires f.Until? || f.Since?
    requires trace.OnEvent() && t == trace.Window()[trace.Index()].time
    modifies trace`cursor
    ensures trace.reader.Valid() && trace.Window() == old(trace.Window())
    ensures trace.cursor == old(trace.cursor)
    ensures symbol == if v != FV_SYMBOL then v
                      else EvalI(EvalAt(f.phi1, trace.Window(), trace.Index()),
                                 EvalAt(f.phi2, trace.Window(), trace.Index()))
    decreases f, 1
  {
    var phi1 := EvaluateHere(trace, f.phi1, t);
    var phi2 := EvaluateHere(trace, f.phi2, t);
    var rs := EvalI(phi1, phi2);
    if v == FV_SYMBOL {
      return rs;
    } else {
      return v;
    }
  }

  method UntilLess(trace: TraceReader, f: Formula, t: int) returns (v: ThreeValued)
    requires f.Until? && trace.OnEvent()
    modifies trace`cursor
    ensures trace.reader.Valid() && trace.Window() == old(trace.Window())
    ensures trace.cursor == old(trace.cursor)
    ensures v == UntilFrom(f, trace.Window(), trace.Index(), t)
    decreases f, 2
  {
    var start := trace.cursor;
    ghost var w, i := trace.Window(), trace.Index();
    var time, symbol := t, FV_SYMBOL;
    var event: Event;
    while true
      invariant trace.OnEvent() && trace.Window() == w && symbol == FV_SYMBOL
      invariant UntilFrom(f, w, i, t) == UntilFrom(f, w, trace.Index(), t)
      decreases |w| - trace.Index()
    {
      var current := trace.Read();
      event := current.event;
      time := event.time;
      if time >= f.b + t {
        break;
      }
      symbol := EvalB(trace, f, time, symbol);
      if symbol != FV_SYMBOL {
        break;
      }
      var status;
      status, event := trace.Pull(event);
      if status != AVAILABLE {
        break;
      }
    }
    var _ := trace.SetCursor(start);
    return if symbol == FV_SYMBOL then if time < t + f.b then T_UNKNOWN else T_FALSE else B4ToB3(symbol);
  }

  /** One turn of the loop of since_less: the time of its event, the symbol, and whether it got to an earlier event. */
  method SinceTurn(trace: TraceReader, f: Formula, t: int) returns (time: int, symbol: FourValued, more: bool)
    requires f.Since? && trace.OnEvent()
    modifies trace`cursor
    ensures trace.reader.Valid() && trace.Window() == old(trace.Window())
    ensures trace.OnEvent() && trace.Index() == old(trace.Index()) - if more then 1 else 0
    ensures SinceFrom(f, trace.Window(), old(trace.Index()), t)
            == if more then SinceFrom(f, trace.Window(), trace.Index(), t)
               else if symbol == FV_SYMBOL then if time < t - f.b then T_UNKNOWN else T_FALSE
               else B4ToB3(symbol)
    ensures more ==> symbol == FV_SYMBOL
    decreases f, 2
  {
    symbol := FV_SYMBOL;
    var current := trace.Read();
    time := current.event.time;
    if time != t {
      if t >= f.b && time <= t - f.b {
        return time, symbol, false;
      }
      symbol := EvalB(trace, f, time, symbol);
      if symbol != FV_SYMBOL {
        return time, symbol, false;
      }
    }
    var status := trace.DecrementCursor();
    return time, symbol, status == AVAILABLE;
  }

  method SinceLess(trace: TraceReader, f: Formula, t: int) returns (v: ThreeValued)
    requires f.Since? && trace.OnEvent()
    modifies trace`cursor
    ensures trace.reader.Valid() && trace.Window() == old(trace.Window())
    ensures trace.cursor == old(trace.cursor)
    ensures v == SinceFrom(f, trace.Window(), trace.Index(), t)
    decreases f, 3
  {
    var start := trace.cursor;
    ghost var w, i := trace.Window(), trace.Index();
    var time, symbol := t, FV_SYMBOL;
    while true
      invariant trace.OnEvent() && trace.Window() == w && symbol == FV_SYMBOL
      invariant SinceFrom(f, w, i, t) == SinceFrom(f, w, trace.Index(), t)
      decreases trace.Index()
    {
      var more;
      time, symbol, more := SinceTurn(trace, f, t);
      if !more {
        break;
      }
    }
    var _ := trace.SetCursor(start);
    return if symbol == FV_SYMBOL then if time < t - f.b then T_UNKNOWN else T_FALSE else B4ToB3(symbol);
  }

  /** always_less: until_less over the constant true and the negated formula, negated. */
  method AlwaysLess(trace: TraceReader, phi: Formula, b: int, t: int) returns (v: ThreeValued)
    requires trace.OnEvent()
    modifies trace`cursor
    ensures trace.reader.Valid() && trace.Window() == old(trace.Window())
    ensures trace.cursor == old(trace.cursor)
    ensures v == Eval(Always(phi, b), trace.Window(), trace.Index(), t)
  {
    var c := trace.cursor;
    var sf := UntilLess(trace, Until(True, Not(phi), b), t);
    var _ := trace.SetCursor(c);
    return B3Not(sf);
  }

  method HistoricallyLess(trace: TraceReader, phi: Formula, b: int, t: int) returns (v: ThreeValued)
    requires trace.OnEvent()
    modifies trace`cursor
    ensures trace.reader.Valid() && trace.Window() == old(trace.Window())
    ensures trace.cursor == old(trace.cursor)
    ensures v == Eval(Historically(phi, b), trace.Window(), trace.Index(), t)
  {
    var c := trace.cursor;
    var sf := SinceLess(trace, Since(True, Not(phi), b), t);
    var _ := trace.SetCursor(c);
    return B3Not(sf);
  }

  method EventuallyEq(trace: TraceReader, f: Formula, t: int) returns (v: ThreeValued)
    requires f.EventuallyEqual? && trace.OnEvent()
    modifies trace`cursor
    ensures trace.reader.Valid() && trace.Window() == old(trace.Window())
    ensures trace.cursor == old(trace.cursor)
    ensures v == EventuallyEqualFrom(f, trace.Window(), trace.Index(), t, T_UNKNOWN)
    decreases f, 2
  {
    var start := trace.cursor;
    ghost var w, i := trace.Window(), trace.Index();
    var event: Event;
    v := T_UNKNOWN;
    while true
      invariant trace.OnEvent() && trace.Window() == w
      invariant EventuallyEqualFrom(f, w, i, t, T_UNKNOWN) == EventuallyEqualFrom(f, w, trace.Index(), t, v)
      decreases |w| - trace.Index()
    {
      var current := trace.Read();
      event := current.event;
      var time := event.time;
      if time > f.b + t {
        break;
      }
      v := EvaluateHere(trace, f.phi, time);
      var status;
      status, event := trace.Pull(event);
      if status != AVAILABLE {
        break;
      }
    }
    var _ := trace.SetCursor(start);
  }

  method EventuallyLessUnbounded(trace: TraceReader, f: Formula, t: int) returns (v: ThreeValued)
    requires f.EventuallyUnbounded? && trace.OnEvent()
    modifies trace`cursor
    ensures trace.reader.Valid() && trace.Window() == old(trace.Window())
    ensures trace.cursor == old(trace.cursor)
    ensures v == EventuallyFrom(f, trace.Window(), trace.Index())
    decreases f, 2
  {
    var start := trace.cursor;
    ghost var w, i := trace.Window(), trace.Index();
    var event: Event;
    v := T_FALSE;
    while true
      invariant trace.OnEvent() && trace.Window() == w
      invariant EventuallyFrom(f, w, i) == EventuallyFrom(f, w, trace.Index())
      decreases |w| - trace.Index()
    {
      var current := trace.Read();
      event := current.event;
      v := EvaluateHere(trace, f.phi, event.time);
      if v != T_FALSE {
        break;
      }
      var status;
      status, event := trace.Pull(event);
      if status != AVAILABLE {
        break;
      }
    }
    var _ := trace.SetCursor(start);
  }

  /** One turn of the loop of pasteventually_equal, and whether it got to an earlier event. */
  method PastTurn(trace: TraceReader, f: Formula, t: int, symbol: ThreeValued) returns (v: ThreeValued, more: bool)
    requires f.PastEventuallyEqual? && trace.OnEvent()
    modifies trace`cursor
    ensures trace.reader.Valid() && trace.Window() == old(trace.Window())
    ensures trace.OnEvent() && trace.Index() == old(trace.Index()) - if more then 1 else 0
    ensures PastEventuallyFrom(f, trace.Window(), old(trace.Index()), t, symbol)
            == if more then PastEventuallyFrom(f, trace.Window(), trace.Index(), t, v) else v
    decreases f, 1
  {
    v := symbol;
    var current := trace.Read();
    var time := current.event.time;
    if time != t {
      if t >= f.b && time <= t - f.b {
        return v, false;
      }
      v := EvaluateHere(trace, f.phi, time);
    }
    var status := trace.DecrementCursor();
    return v, status == AVAILABLE;
  }

  method PastEventuallyEq(trace: TraceReader, f: Formula, t: int) returns (v: ThreeValued)
    requires f.PastEventuallyEqual? && trace.OnEvent()
    modifies trace`cursor
    ensures trace.reader.Valid() && trace.Window() == old(trace.Window())
    ensures trace.cursor == old(trace.cursor)
    ensures v == PastEventuallyFrom(f, trace.Window(), trace.Index(), t, T_UNKNOWN)
    decreases f, 2
  {
    var start := trace.cursor;
    ghost var w, i := trace.Window(), trace.Index();
    v := T_UNKNOWN;
    while true
      invariant trace.OnEvent() && trace.Window() == w
      invariant PastEventuallyFrom(f, w, i, t, T_UNKNOWN) == PastEventuallyFrom(f, w, trace.Index(), t, v)
      decreases trace.Index()
    {
      var more;
      v, more := PastTurn(trace, f, t, v);
      if !more {
        break;
      }
    }
    var _ := trace.SetCursor(start);
  }

  /** The indicator of duration_term, at the event under the cursor. */
  method IndicatorHere(trace: TraceReader, f: Formula, t: int) returns (d: Duration)
    requires trace.OnEvent() && t == trace.Window()[trace.Index()].time
    modifies trace`cursor
    ensures trace.reader.Valid() && trace.Window() == old(trace.Window())
    ensures trace.cursor == old(trace.cursor)
    ensures d == Indicators(f, trace.Window())[trace.Index()]
    decreases f, 6
  {
    assert Indicators(f, trace.Window())[trace.Index()] == Indicator(f, trace.Window(), trace.Index());
    var formula := EvaluateHere(trace, f, t);
    return if formula == T_TRUE then Duration(1, false)
           else if formula == T_FALSE then Duration(0, false) else Duration(0, true);
  }

  /** The three branches of the loop: the lower end, the upper end, and a whole interval in between. */
  method Accumulate(from: int, to: int, t: int, upper: int, symbol: Duration, sum: Duration)
    returns (acc: Duration, last: bool)
    requires 0 <= symbol.ticks <= 1
    ensures (acc, last) == Accumulated(from, to, t, upper, symbol, sum)
  {
    acc, last := sum, false;
    if from <= t && t < to {
      acc := Duration((to - t) * symbol.ticks, symbol.unknown);
    } else if from <= t + upper && t + upper < to {
      acc := Duration(acc.ticks + (t + upper - from) * symbol.ticks, acc.unknown || symbol.unknown);
      last := true;
    } else {
      acc := Duration(acc.ticks + (to - from) * symbol.ticks, acc.unknown || symbol.unknown);
    }
  }

  /** One turn of the loop up to its accumulation: pull, read the event after, and account for the interval. */
  method NextInterval(trace: TraceReader, ghost marks: seq<Duration>, event: Event, t: int, upper: int,
                      symbol: Duration, sum: Duration)
    returns (status: ReaderError, e: Event, acc: Duration, last: bool)
    requires trace.OnEvent() && Marked(marks, trace.Window()) && symbol == marks[trace.Index()]
    modifies trace`cursor
    ensures trace.reader.Valid() && trace.Window() == old(trace.Window())
    ensures trace.Valid() && trace.Index() == old(trace.Index()) + 1
    ensures (status == AVAILABLE) == (trace.Index() < |trace.Window()|)
    ensures var rest := DurationFrom(marks, trace.Window(), old(trace.Index()), t, upper, sum);
            if status == AVAILABLE
            then e == trace.Window()[trace.Index()] && (last ==> t + upper < e.time)
                 && rest == if last then acc else DurationFrom(marks, trace.Window(), trace.Index(), t, upper, acc)
            else acc == sum && rest == acc.(unknown := acc.unknown || e.time <= t + upper)
  {
    ghost var w, j := trace.Window(), trace.Index();
    acc, last := sum, false;
    status, e := trace.Pull(event);
    if status == AVAILABLE {
      DurationTurn(marks, w, j, t, upper, sum);
      var timePrev := e.time;
      var current := trace.Read();
      e := current.event;
      acc, last := Accumulate(timePrev, e.time, t, upper, symbol, acc);
    } else {
      DurationEnds(marks, w, t, upper, sum);
    }
  }

  /** The loop of duration_term: the accumulator, and the last event it has seen. */
  method DurationLoop(trace: TraceReader, f: Formula, t: int, upper: int) returns (acc: Duration, event: Event)
    requires trace.OnEvent()
    modifies trace`cursor
    ensures trace.reader.Valid() && trace.Window() == old(trace.Window())
    ensures trace.Valid()
    ensures DurationTerm(f, trace.Window(), old(trace.Index()), t, upper)
            == acc.(unknown := acc.unknown || event.time <= t + upper)
    decreases f, 7
  {
    ghost var w := trace.Window();
    ghost var marks, result := Indicators(f, w), DurationTerm(f, w, trace.Index(), t, upper);
    acc := Duration(0, false);
    var current := trace.Read();
    event := current.event;
    var symbol := IndicatorHere(trace, f, event.time);
    while true
      invariant trace.OnEvent() && trace.Window() == w && symbol == marks[trace.Index()]
      invariant result == DurationFrom(marks, w, trace.Index(), t, upper, acc)
      decreases |w| - trace.Index()
    {
      var status, last;
      status, event, acc, last := NextInterval(trace, marks, event, t, upper, symbol, acc);
      if status != AVAILABLE || last {
        break;
      }
      symbol := IndicatorHere(trace, f, event.time);
    }
  }

  /** duration_term. */
  method DurationOf(trace: TraceReader, f: Formula, t: int, upper: int) returns (acc: Duration)
    requires trace.OnEvent()
    modifies trace`cursor
    ensures trace.reader.Valid() && trace.Window() == old(trace.Window())
    ensures trace.cursor == old(trace.cursor)
    ensures acc == DurationTerm(f, trace.Window(), trace.Index(), t, upper)
    decreases f, 8
  {
    var start := trace.cursor;
    var event;
    acc, event := DurationLoop(trace, f, t, upper);
    // more symbols may follow: no conclusion
    if event.time <= t + upper {
      acc := acc.(unknown := true);
    }
    var _ := trace.SetCursor(start);
  }
}
