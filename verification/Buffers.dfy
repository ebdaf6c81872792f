/** RTML_buffer: the shared circular buffer, with its state records and its array of slots. */
module Buffers {
  import opened Traces
  import opened Rings

  /** The largest size_t. Decrementing an unsigned index 0 gives this one. */
  const SIZE_MAX: nat := 0xFFFF_FFFF_FFFF_FFFF

  datatype BufferError = OK | EMPTY | BUFFER_OVERFLOW | OUT_OF_BOUND | UNSAFE

  datatype ReadResult = Success(event: Event) | Failure

  /** The record a page points to. */
  class StateRecord {
    var top: nat
    var bottom: nat
    var pos: nat
    var event: Event

    constructor ()
      ensures top == 0 && bottom == 0 && pos == 0 && event == NO_EVENT
    {
      top, bottom, pos, event := 0, 0, 0, NO_EVENT;
    }
  }

  class Buffer {
    const size: nat
    const slots: array<Event>
    const stateGlobal: StateRecord
    /** The page: the published state record and the number of publications. */
    var stateref: StateRecord
    var counter: nat
    /** How many writers are attached, in eight bits. */
    var writer: nat

    ghost predicate Valid()
      reads this, stateref
    {
      && 0 < size < SIZE_MAX && slots.Length == size + 1
      && stateref.top < size && stateref.bottom < size && writer < 256
    }

    ghost function AsRing(): (r: Ring)
      requires Valid()
      reads this, stateref, slots
      ensures ValidRing(size, r)
    {
      Ring(slots[..], stateref.bottom, stateref.top)
    }

    /** The buffered events, oldest first. */
    ghost function Contents(): seq<Event>
      requires Valid()
      reads this, stateref, slots
    {
      Unroll(size, AsRing())
    }

    constructor (n: nat)
      requires n + 1 < SIZE_MAX
      ensures Valid() && size == n + 1 && counter == 0 && writer == 0
      ensures fresh(slots) && fresh(stateGlobal) && stateref == stateGlobal
      ensures stateref.top == stateref.bottom == stateref.pos == 0 && stateref.event == NO_EVENT
      ensures Logged(size, AsRing(), [])
    {
      size := n + 1;
      slots := new Event[n + 2](_ => NO_EVENT);
      var record := new StateRecord();
      stateGlobal, stateref, counter, writer := record, record, 0, 0;
    }

    method IncrementTop()
      requires Valid()
      modifies stateref`top
      ensures stateref.top == Next(size, old(stateref.top))
    {
      stateref.top := stateref.top + 1;
      if stateref.top >= size {
        stateref.top := 0;
      }
    }

    method DecrementTop()
      requires Valid()
      modifies stateref`top
      ensures stateref.top == Previous(size, old(stateref.top))
    {
      if stateref.top == 0 {
        stateref.top := size - 1;
      } else {
        stateref.top := stateref.top - 1;
      }
    }

    method IncrementBottom()
      requires Valid()
      modifies stateref`bottom
      ensures stateref.bottom == Next(size, old(stateref.bottom))
    {
      stateref.bottom := stateref.bottom + 1;
      if stateref.bottom >= size {
        stateref.bottom := 0;
      }
    }

    /** Appends; when size - 1 events are held already the oldest is dropped and the overflow reported. */
    method Push(node: Event) returns (r: BufferError)
      requires Valid()
      modifies stateref`top, stateref`bottom, slots
      ensures Valid()
      ensures AsRing() == PushRing(size, old(AsRing()), node)
      ensures var w := old(Contents()) + [node]; Contents() == if |w| == size then w[1..] else w
      ensures (r == BUFFER_OVERFLOW) == (|old(Contents())| == size - 1)
      ensures r != BUFFER_OVERFLOW ==> r == if writer > 1 then UNSAFE else OK
    {
      PushAppends(size, AsRing(), node);
      slots[stateref.top] := node;
      IncrementTop();
      var p := stateref.top == stateref.bottom;
      if p {
        IncrementBottom();
      }
      r := if p then BUFFER_OVERFLOW else if writer > 1 then UNSAFE else OK;
    }

    /** Takes the oldest event. */
    method Pull(event: Event) returns (r: BufferError, e: Event)
      requires Valid()
      modifies stateref`bottom
      ensures Valid()
      ensures if old(Contents()) == [] then r == EMPTY && e == event && Contents() == []
              else r == (if writer > 1 then UNSAFE else OK)
                   && [e] + Contents() == old(Contents())
    {
      e := event;
      var c := Length() > 0;
      if c {
        BottomTakes(size, AsRing());
        e := slots[stateref.bottom];
        IncrementBottom();
      }
      r := if c then if writer > 1 then UNSAFE else OK else EMPTY;
    }

    /** Takes the newest event. */
    method Pop(event: Event) returns (r: BufferError, e: Event)
      requires Valid()
      modifies stateref`top
      ensures Valid()
      ensures if old(Contents()) == [] then r == EMPTY && e == event && Contents() == []
              else r == (if writer > 1 then UNSAFE else OK)
                   && Contents() + [e] == old(Contents())
    {
      e := event;
      var c := Length() > 0;
      if c {
        TopTakes(size, AsRing());
        DecrementTop();
        e := slots[stateref.top];
      }
      r := if c then if writer > 1 then UNSAFE else OK else EMPTY;
    }

    function Read(index: nat): (r: ReadResult)
      requires Valid()
      reads this, stateref, slots
      ensures r.Success? <==> index < size
    {
      if index < size then Success(slots[index]) else Failure
    }

    method Write(event: Event, index: nat) returns (r: BufferError)
      requires Valid()
      modifies slots
      ensures r == (if index < size then OK else OUT_OF_BOUND)
      ensures slots[..] == if index < size then old(slots[..])[index := event] else old(slots[..])
    {
      if index < size {
        slots[index] := event;
      }
      r := if index < size then OK else OUT_OF_BOUND;
    }

    /** Bottom, top, and the times in their slots. */
    method State() returns (b: nat, t: nat, ts: int, tsTop: int)
      requires Valid()
      ensures b == stateref.bottom && t == stateref.top
      ensures ts == slots[b].time && tsTop == slots[t].time
    {
      var s := stateref;
      b := s.bottom;
      t := s.top;
      ts, tsTop := slots[b].time, slots[t].time;
    }

    function Length(): (n: nat)
      requires Valid()
      reads this, stateref, slots
      ensures n == |Contents()|
    {
      Distance(size, stateref.bottom, stateref.top)
    }
  }
}
