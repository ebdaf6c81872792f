/** RTML_writer: a push that nobody interrupts, on the real records and slots. */
module Writers {
  import opened Traces
  import opened Rings
  import opened Buffers

  class Writer {
    const buffer: Buffer
    /** The writer's own state record. */
    const state: StateRecord

    ghost predicate Valid()
      reads this, buffer, buffer.stateref
    {
      buffer.Valid() && state != buffer.stateGlobal
    }

    /** The last published event has reached its slot: the push before this one is complete. */
    ghost predicate Ready()
      requires Valid()
      reads this, buffer, buffer.stateref, buffer.slots
    {
      buffer.stateref.pos < buffer.size && buffer.slots[buffer.stateref.pos] == buffer.stateref.event
    }

    /** The page has moved from record `before` to one that shows the ends after a push, and says where it goes. */
    ghost predicate Swapped(before: StateRecord, event: Event, top: nat)
      reads this, buffer, buffer.stateref, before
    {
      var after, size := buffer.stateref, buffer.size;
      && after in {state, buffer.stateGlobal} && after != before
      && top == after.pos == before.top && after.event == event
      && after.top == Next(size, before.top)
      && after.bottom == if after.top == before.bottom then Next(size, before.bottom) else before.bottom
    }

    constructor (buffer: Buffer)
      requires buffer.Valid()
      modifies buffer`writer
      ensures Valid() && this.buffer == buffer && fresh(state)
      ensures buffer.writer == (old(buffer.writer) + 1) % 256
    {
      this.buffer := buffer;
      state := new StateRecord();
      new;
      buffer.writer := (buffer.writer + 1) % 256;
    }

    /** increment_writer_top and increment_writer_bottom. */
    function Increment(t: nat): (t': nat)
      requires buffer.Valid()
      reads buffer, buffer.stateref
      ensures t' == Next(buffer.size, t)
    {
      if t + 1 >= buffer.size then 0 else t + 1
    }

    /**
     * ATOMIC_PUSH and the slot write after it. Uninterrupted, the wait ends at its first test and the first
     * compare-and-swap wins, and the effect is that of a sequential push through another record.
     */
    method PushAll(event: Event) returns (err: BufferError)
      requires Valid() && Ready()
      modifies buffer`stateref, buffer`counter, buffer.slots, state, buffer.stateGlobal
      ensures Valid() && Ready() && buffer.stateref in {state, buffer.stateGlobal}
      ensures buffer.AsRing() == PushRing(buffer.size, old(buffer.AsRing()), event)
      ensures err == if |old(buffer.Contents())| == buffer.size - 1 then BUFFER_OVERFLOW else OK
      ensures buffer.stateref != old(buffer.stateref) && buffer.counter == old(buffer.counter) + 1
      ensures buffer.stateref.pos == old(buffer.stateref.top) && buffer.stateref.event == event
      ensures unchanged(old(buffer.stateref))
    {
      PushAppends(buffer.size, buffer.AsRing(), event);
      var fail, again := false, true;
      var top := 0;
      err := OK;
      while again
        invariant !fail && unchanged(buffer.slots) && unchanged(old(buffer.stateref))
        invariant again ==> buffer.stateref == old(buffer.stateref) && buffer.counter == old(buffer.counter)
        invariant !again ==> Swapped(old(buffer.stateref), event, top)
        invariant !again ==> buffer.counter == old(buffer.counter) + 1
        invariant !again ==> err == if |old(buffer.Contents())| == buffer.size - 1 then BUFFER_OVERFLOW else OK
        decreases again
      {
        var current, count := buffer.stateref, buffer.counter;
        // complete: give the last push a chance to finish
        var evt := buffer.slots[current.pos];
        assert evt == current.event;
        var stateref := if state == current then buffer.stateGlobal else state;
        // copy state
        stateref.bottom := current.bottom;
        stateref.top := current.top;
        stateref.pos := stateref.top;
        // body
        top := stateref.top;
        stateref.top := Increment(stateref.top);
        var p := stateref.top == stateref.bottom;
        if p {
          stateref.bottom := Increment(stateref.bottom);
        }
        err := if p then BUFFER_OVERFLOW else OK;
        // copy remaining state
        stateref.event := event;
        fail := !(buffer.stateref == current && buffer.counter == count);
        if !fail {
          buffer.stateref := stateref;
          buffer.counter := count + 1;
        }
        again := fail;
      }
      var _ := buffer.Write(event, top);
    }

    /** push: the event takes the time of the clock. */
    method Push(event: Event, now: int) returns (err: BufferError)
      requires Valid() && Ready()
      modifies buffer`stateref, buffer`counter, buffer.slots, state, buffer.stateGlobal
      ensures Valid() && Ready()
      ensures buffer.AsRing() == PushRing(buffer.size, old(buffer.AsRing()), event.(time := now))
      ensures err == if |old(buffer.Contents())| == buffer.size - 1 then BUFFER_OVERFLOW else OK
      ensures buffer.counter == old(buffer.counter) + 1
    {
      err := PushAll(event.(time := now));
    }
  }
}
