/** RTML_reader: a private position in a shared buffer, with loss detected from timestamps. */
module Readers {
  import opened Traces
  import opened Rings
  import opened Buffers

  datatype ReaderError = AVAILABLE | UNAVAILABLE | READER_OVERFLOW | READ_ERROR

  datatype GapError = NO_GAP | GAP | UNKNOWN_GAP

  datatype Position = Position(bottom: nat, top: nat, timestamp: int)

  ghost predicate ValidPosition(size: nat, p: Position) {
    p.bottom < size && p.top < size
  }

  /** gap: the slot at the reader's bottom holds an event later than the reader's timestamp. */
  ghost function GapOf(size: nat, r: Ring, p: Position): GapError
    requires ValidRing(size, r) && ValidPosition(size, p)
  {
    if p.timestamp < r.slots[p.bottom].time then GAP else NO_GAP
  }

  /** synchronize: the new position, and what it reports. */
  ghost function SyncOf(size: nat, r: Ring, p: Position): (Position, GapError)
    requires ValidRing(size, r) && ValidPosition(size, p)
  {
    var ts, tsTop := r.slots[r.bottom].time, r.slots[r.top].time;
    if r.top < r.bottom then
      if GapOf(size, r, p) == GAP then (Position(r.bottom, r.top, ts), GAP)
      else (p.(top := r.top), NO_GAP)
    else if r.bottom < r.top then
      if ts < p.timestamp < tsTop then (p.(top := r.top), NO_GAP)
      else if r.bottom < p.bottom then (p.(top := r.top), GAP)
      else (Position(r.bottom, r.top, ts), GAP)
    else if p.top == 0 && p.bottom == 0 then (Position(r.bottom, r.top, ts), GAP)
    else (p, UNKNOWN_GAP)
  }

  /** pull hands out the event at bottom when at least one more lies between it and top. */
  ghost predicate CanPull(size: nat, p: Position)
    requires ValidPosition(size, p)
  {
    Distance(size, p.bottom, p.top) > 1
  }

  ghost function AfterPull(size: nat, r: Ring, p: Position): Position
    requires ValidRing(size, r) && ValidPosition(size, p)
  {
    if CanPull(size, p) then
      p.(bottom := Next(size, p.bottom), timestamp := r.slots[Next(size, p.bottom)].time)
    else p
  }

  class Reader {
    const buffer: Buffer
    var top: nat
    var bottom: nat
    var timestamp: int

    ghost predicate Valid()
      reads this, buffer, buffer.stateref
    {
      buffer.Valid() && bottom < buffer.size && top < buffer.size
    }

    ghost function AsPosition(): (p: Position)
      reads this
    {
      Position(bottom, top, timestamp)
    }

    constructor (buffer: Buffer)
      requires buffer.Valid()
      ensures Valid() && this.buffer == buffer && AsPosition() == Position(0, 0, 0)
    {
      this.buffer := buffer;
      top, bottom, timestamp := 0, 0, 0;
    }

    method IncrementBottom()
      requires Valid()
      modifies this`bottom
      ensures bottom == Next(buffer.size, old(bottom))
    {
      bottom := bottom + 1;
      if bottom >= buffer.size {
        bottom := 0;
      }
    }

    function Length(): nat
      requires Valid()
      reads this, buffer, buffer.stateref
    {
      Distance(buffer.size, bottom, top)
    }

    method Gap() returns (g: GapError)
      requires Valid()
      ensures g == GapOf(buffer.size, buffer.AsRing(), AsPosition())
    {
      var read := buffer.Read(bottom);
      if read.Success? {
        g := if timestamp < read.event.time then GAP else NO_GAP;
      } else {
        assert false;  // bottom stays below size, so UNKNOWN_GAP is never returned
      }
    }

    method Pull(event: Event) returns (r: ReaderError, e: Event)
      requires Valid()
      modifies this`bottom, this`timestamp
      ensures Valid() && AsPosition() == AfterPull(buffer.size, buffer.AsRing(), old(AsPosition()))
      ensures if old(CanPull(buffer.size, AsPosition()))
              then r == AVAILABLE && e == buffer.slots[old(bottom)]
              else r == UNAVAILABLE && e == event
    {
      e := event;
      var delta := 1;
      if Length() > delta {
        var first := buffer.Read(bottom);
        if first.Failure? {
          assert false;  // bottom is below size, so the read cannot fail
        }
        e := first.event;
        IncrementBottom();
        var next := buffer.Read(bottom);
        if next.Success? {
          timestamp := next.event.time;
          var g := Gap();
          return if g != NO_GAP then READER_OVERFLOW else AVAILABLE, e;
        } else {
          assert false;  // bottom stays below size, so the read cannot fail
        }
      }
      return UNAVAILABLE, e;
    }

    method Synchronize() returns (g: GapError)
      requires Valid()
      modifies this`bottom, this`top, this`timestamp
      ensures Valid() && (AsPosition(), g) == SyncOf(buffer.size, buffer.AsRing(), old(AsPosition()))
    {
      var b, t, ts, tsTop := buffer.State();
      if t < b {
        var g' := Gap();
        if g' == GAP {
          top := t;
          bottom := b;
          timestamp := ts;
          return GAP;
        }
        top := t;
        return NO_GAP;
      } else if b < t {
        if ts < timestamp && timestamp < tsTop {
          top := t;
          return NO_GAP;
        } else {
          top := t;
          var keep := b < bottom && b < t;
          bottom := if keep then bottom else b;
          timestamp := if keep then timestamp else ts;
          return GAP;
        }
      } else {
        if top == 0 && bottom == 0 {
          top := t;
          bottom := b;
          timestamp := ts;
          return GAP;
        } else {
          return UNKNOWN_GAP;
        }
      }
    }
  }
}
