/** RMTLD3_reader: a reader with a cursor that evaluators move about and put back. */
module TraceReaders {
  import opened Traces
  import opened Rings
  import opened Buffers
  import opened Readers

  /** The steps of a cursor that is inside the window. */
  lemma CursorMoves(size: nat, r: Ring, c: nat)
    requires ValidRing(size, r) && c < size
    requires Distance(size, r.bottom, c) <= |Unroll(size, r)|
    ensures var w, i := Unroll(size, r), Distance(size, r.bottom, c);
            && Distance(size, c, r.top) == |w| - i
            && (c == r.top <==> i == |w|)
            && (c == r.bottom <==> i == 0)
            && (i < |w| ==> r.slots[c] == w[i] && Distance(size, r.bottom, Next(size, c)) == i + 1)
            && (i + 1 < |w| ==> r.slots[Next(size, c)] == w[i + 1])
            && (0 < i ==> r.slots[Previous(size, c)] == w[i - 1]
                          && Distance(size, r.bottom, Previous(size, c)) == i - 1)
  {
    var w, i := Unroll(size, r), Distance(size, r.bottom, c);
    assert Advance(size, r.bottom, i) == c;
    assert i + 1 < |w| ==> Advance(size, r.bottom, i + 1) == Next(size, c);
    assert 0 < i ==> Advance(size, r.bottom, i - 1) == Previous(size, c);
  }

  class TraceReader {
    /** The RTML_reader part of the object. */
    const reader: Reader
    var cursor: nat

    ghost predicate Valid()
      reads this, reader, reader.buffer, reader.buffer.stateref, reader.buffer.slots
    {
      reader.Valid() && cursor < reader.buffer.size && Index() <= |Window()|
    }

    ghost function Ring(): (r: Ring)
      requires reader.Valid()
      reads reader, reader.buffer, reader.buffer.stateref, reader.buffer.slots
      ensures ValidRing(reader.buffer.size, r)
    {
      Rings.Ring(reader.buffer.slots[..], reader.bottom, reader.top)
    }

    /** The events between the reader's bottom and top, oldest first. */
    ghost function Window(): seq<Event>
      requires reader.Valid()
      reads reader, reader.buffer, reader.buffer.stateref, reader.buffer.slots
    {
      Unroll(reader.buffer.size, Ring())
    }

    /** The place of the cursor in the window. */
    ghost function Index(): nat
      requires reader.Valid() && cursor < reader.buffer.size
      reads this, reader, reader.buffer, reader.buffer.stateref
    {
      Distance(reader.buffer.size, reader.bottom, cursor)
    }

    /** The cursor is on an event of the window. */
    ghost predicate OnEvent()
      reads this, reader, reader.buffer, reader.buffer.stateref, reader.buffer.slots
    {
      Valid() && Index() < |Window()|
    }

    /** The cursor is on an event of the window, or there is none. */
    ghost predicate Placed()
      reads this, reader, reader.buffer, reader.buffer.stateref, reader.buffer.slots
    {
      OnEvent() || (Valid() && Window() == [])
    }

    ghost predicate AtLastEvent()
      requires Valid()
      reads this, reader, reader.buffer, reader.buffer.stateref, reader.buffer.slots
    {
      Window() == [] || Index() == |Window()| - 1
    }

    constructor (reader: Reader)
      requires reader.Valid() && reader.bottom == 0
      ensures Valid() && this.reader == reader && cursor == 0
    {
      this.reader := reader;
      cursor := 0;
    }

    // ---------- cursor ----------

    function Length(): nat
      requires Valid()
      reads this, reader, reader.buffer, reader.buffer.stateref, reader.buffer.slots
    {
      Distance(reader.buffer.size, cursor, reader.top)
    }

    function Consumed(): int
      requires Valid()
      reads this, reader, reader.buffer, reader.buffer.stateref, reader.buffer.slots
    {
      reader.Length() - Length()
    }

    /** What length and consumed say in terms of the window. */
    lemma CursorFacts()
      requires Valid()
      ensures Length() == |Window()| - Index() && Consumed() == Index()
    {
      CursorMoves(reader.buffer.size, Ring(), cursor);
    }

    method SetCursor(c: nat) returns (r: ReaderError)
      requires Valid()
      modifies this`cursor
      ensures reader.Valid() && Window() == old(Window())
      ensures c < reader.buffer.size ==> r == AVAILABLE && cursor == c
      ensures c >= reader.buffer.size ==> r == UNAVAILABLE && cursor == old(cursor)
    {
      if reader.buffer.Read(c).Success? {
        cursor := c;
        return AVAILABLE;
      } else {
        return UNAVAILABLE;
      }
    }

    method IncrementCursor() returns (r: ReaderError)
      requires Valid()
      modifies this`cursor
      ensures reader.Valid() && Window() == old(Window())
      ensures Valid()
      ensures if old(Index()) < |Window()| then r == AVAILABLE && Index() == old(Index()) + 1
              else r == UNAVAILABLE && cursor == old(cursor)
    {
      CursorMoves(reader.buffer.size, Ring(), cursor);
      if reader.top == cursor {
        return UNAVAILABLE;
      }
      cursor := cursor + 1;
      if cursor >= reader.buffer.size {
        cursor := 0;
      }
      return AVAILABLE;
    }

    method DecrementCursor() returns (r: ReaderError)
      requires Valid()
      modifies this`cursor
      ensures reader.Valid() && Window() == old(Window())
      ensures Valid()
      ensures if old(Index()) > 0 then r == AVAILABLE && Index() == old(Index()) - 1
              else r == UNAVAILABLE && cursor == old(cursor)
      ensures old(Floor()) < old(Index()) ==> Floor() == old(Floor())
    {
      CursorMoves(reader.buffer.size, Ring(), cursor);
      if reader.bottom == cursor {
        return UNAVAILABLE;
      }
      if cursor == 0 {
        cursor := reader.buffer.size - 1;
      } else {
        cursor := cursor - 1;
      }
      return AVAILABLE;
    }

    /** Steps over the event under the cursor; available when the cursor is then on another one. */
    method Pull(event: Event) returns (r: ReaderError, e: Event)
      requires Valid()
      modifies this`cursor
      ensures reader.Valid() && Window() == old(Window())
      ensures Valid()
      ensures if old(Index()) < |Window()|
              then e == Window()[old(Index())] && Index() == old(Index()) + 1
              else e == event && cursor == old(cursor)
      ensures (r == AVAILABLE) == (Index() < |Window()|) && r in {AVAILABLE, UNAVAILABLE}
    {
      CursorMoves(reader.buffer.size, Ring(), cursor);
      e := event;
      if Length() > 0 {
        e := reader.buffer.Read(cursor).event;
        var _ := IncrementCursor();
      }
      CursorFacts();
      r := if Length() > 0 then AVAILABLE else UNAVAILABLE;
    }

    method Read() returns (r: ReadResult)
      requires Valid()
      ensures Index() < |Window()| ==> r == Success(Window()[Index()])
    {
      CursorMoves(reader.buffer.size, Ring(), cursor);
      r := reader.buffer.Read(cursor);
    }

    method ReadNext() returns (r: ReadResult)
      requires Valid()
      ensures r == if Index() + 1 < |Window()| then Success(Window()[Index() + 1]) else Failure
    {
      CursorMoves(reader.buffer.size, Ring(), cursor);
      if Length() > 1 && cursor != reader.top {
        r := reader.buffer.Read(if cursor + 1 >= reader.buffer.size then 0 else cursor + 1);
      } else {
        r := Failure;
      }
    }

    /** At raw index 0 the index below is the largest unsigned number, which no slot has. */
    method ReadPrevious() returns (r: ReadResult)
      requires Valid()
      ensures r == if Floor() < Index() then Success(Window()[Index() - 1]) else Failure
    {
      CursorMoves(reader.buffer.size, Ring(), cursor);
      if Consumed() > 0 && cursor != reader.bottom {
        r := reader.buffer.Read(if cursor == 0 then SIZE_MAX else cursor - 1);
      } else {
        r := Failure;
      }
    }

    // ---------- seek ----------

    /** The lowest place the backward search reaches. */
    ghost function Floor(): nat
      requires Valid()
      reads this, reader, reader.buffer, reader.buffer.stateref, reader.buffer.slots
    {
      FloorAt(reader.buffer.size - reader.bottom, Index())
    }

    /** The first loop of set: down to the floor, looking at each event and the one before it. */
    method SeekBackward(t: int) returns (found: bool)
      requires Placed()
      modifies this`cursor
      ensures reader.Valid() && Window() == old(Window())
      ensures Placed() && Index() <= old(Index())
      ensures found ==> Brackets(Window(), Index() - 1, t) && old(Floor()) < Index()
      ensures !found ==> Index() == old(Floor()) && Unbracketed(Window(), Index(), old(Index()), t)
    {
      ghost var w, start, floor := Window(), Index(), Floor();
      while true
        invariant Placed() && floor <= Index() <= start && Floor() == floor
        invariant Unbracketed(w, Index(), start, t)
        decreases Index()
      {
        var previous := ReadPrevious();
        var current := Read();
        if previous.Failure? || current.Failure? {
          return false;
        }
        if previous.event.time <= t && t < current.event.time {
          return true;
        }
        UnbracketedFalls(w, Index(), start, t);
        var _ := DecrementCursor();
      }
    }

    /** The second loop of set: up to the last event, looking at each event and the one after it. */
    method SeekForward(t: int) returns (found: bool)
      requires Placed()
      modifies this`cursor
      ensures reader.Valid() && Window() == old(Window())
      ensures Placed() && old(Index()) <= Index()
      ensures Unbracketed(Window(), old(Index()), Index(), t)
      ensures if found then Brackets(Window(), Index(), t) else AtLastEvent()
    {
      ghost var w, start := Window(), Index();
      while true
        invariant Placed() && start <= Index()
        invariant Unbracketed(w, start, Index(), t)
        decreases |w| - Index()
      {
        var current := Read();
        var next := ReadNext();
        if current.Failure? || next.Failure? {
          return false;
        }
        if current.event.time <= t && t < next.event.time {
          return true;
        }
        UnbracketedGrows(w, start, Index(), t);
        var _ := IncrementCursor();
      }
    }

    /**
     * Seeks time t. It succeeds just when a pair of adjacent events from the floor up brackets t; it then
     * ends on the first of the pair if that is at or after the start, and on the second otherwise.
     */
    method Set(t: int) returns (r: ReaderError)
      requires Placed() && Increasing(Window())
      modifies this`cursor
      ensures reader.Valid() && Window() == old(Window())
      ensures Placed()
      ensures r == AVAILABLE <==> exists k :: old(Floor()) <= k && Brackets(Window(), k, t)
      ensures forall k | old(Floor()) <= k && Brackets(Window(), k, t) ::
                Index() == if old(Index()) <= k then k else k + 1
      ensures r != AVAILABLE ==> r == UNAVAILABLE && AtLastEvent()
    {
      ghost var w, start, floor := Window(), Index(), Floor();
      var found := SeekBackward(t);
      if found {
        OnlyBracket(w, Index() - 1, t);
        return AVAILABLE;
      }
      found := SeekForward(t);
      if found {
        OnlyBracket(w, Index(), t);
        return AVAILABLE;
      }
      return UNAVAILABLE;
    }
  }

  /** The bottom of the window, or raw index 0 for a cursor past it; `wrap` is the place raw index 0 has. */
  ghost function FloorAt(wrap: nat, i: nat): nat {
    if i < wrap then 0 else wrap
  }

  /** A seek that succeeded succeeds again and leaves the cursor where it is. */
  lemma SeekIsStable(w: seq<Event>, wrap: nat, start: nat, t: int, k: nat)
    requires Brackets(w, k, t) && FloorAt(wrap, start) <= k
    ensures var end := if start <= k then k else k + 1;
            FloorAt(wrap, end) <= k && end == if end <= k then k else k + 1
  {
  }

  ghost predicate Unbracketed(w: seq<Event>, lo: int, hi: int, t: int) {
    forall k | lo <= k < hi :: !Brackets(w, k, t)
  }

  lemma OnlyBracket(w: seq<Event>, i: int, t: int)
    requires Increasing(w) && Brackets(w, i, t)
    ensures forall k | Brackets(w, k, t) :: k == i
  {
    assert forall k | Brackets(w, k, t) && k < i :: w[k + 1].time <= w[i].time;
    assert forall k | Brackets(w, k, t) && i < k :: w[i + 1].time <= w[k].time;
  }

  lemma UnbracketedGrows(w: seq<Event>, lo: int, hi: int, t: int)
    requires Unbracketed(w, lo, hi, t) && !Brackets(w, hi, t)
    ensures Unbracketed(w, lo, hi + 1, t)
  {
  }

  lemma UnbracketedFalls(w: seq<Event>, lo: int, hi: int, t: int)
    requires Unbracketed(w, lo, hi, t) && !Brackets(w, lo - 1, t)
    ensures Unbracketed(w, lo - 1, hi, t)
  {
  }
}
