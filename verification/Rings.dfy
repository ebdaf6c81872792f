/** The circular buffer as a value: its slots, its two ends, and the sequence between them. */
module Rings {
  import opened Traces

  /** What a buffer of `size` usable slots holds: events from bottom up to, not including, top. */
  datatype Ring = Ring(slots: seq<Event>, bottom: nat, top: nat)

  /** A slot that was never written holds the default event. */
  const NO_EVENT := Event(0, 0)

  /** The index one further, as increment_top and its siblings compute it. */
  function Next(size: nat, p: nat): nat {
    if p + 1 >= size then 0 else p + 1
  }

  function Previous(size: nat, p: nat): nat
    requires 0 < size
  {
    if p == 0 then size - 1 else p - 1
  }

  /** The slot d places after p. */
  function Advance(size: nat, p: nat, d: nat): nat
    requires p < size
  {
    if p + d < size then p + d else p + d - size
  }

  /** How far apart two indices are, going up: the length computations of buffer and readers. */
  function Distance(size: nat, from: nat, to: nat): nat
    requires from < size
  {
    if to >= from then to - from else size - (from - to)
  }

  ghost predicate ValidRing(size: nat, r: Ring) {
    r.bottom < size && r.top < size && size <= |r.slots|
  }

  /** The events between two indices, in order. */
  ghost function Unroll(size: nat, r: Ring): (w: seq<Event>)
    requires ValidRing(size, r)
    ensures |w| == Distance(size, r.bottom, r.top) < size
    ensures forall k | 0 <= k < |w| :: w[k] == r.slots[Advance(size, r.bottom, k)]
  {
    seq(Distance(size, r.bottom, r.top), (k: nat) requires k < size => r.slots[Advance(size, r.bottom, k)])
  }

  /** The ring after a push: the slot at top is written, and the oldest event given up if the ends meet. */
  function PushRing(size: nat, r: Ring, e: Event): Ring
    requires r.top < |r.slots|
  {
    var top := Next(size, r.top);
    Ring(r.slots[r.top := e], if top == r.bottom then Next(size, r.bottom) else r.bottom, top)
  }

  /** A push appends, and drops the oldest event exactly when size - 1 events were held. */
  lemma PushAppends(size: nat, r: Ring, e: Event)
    requires ValidRing(size, r)
    ensures ValidRing(size, PushRing(size, r, e))
    ensures var w := Unroll(size, r) + [e];
            Unroll(size, PushRing(size, r, e)) == if |w| == size then w[1..] else w
  {
    var w := Unroll(size, r) + [e];
    var q := PushRing(size, r, e);
    var u := Unroll(size, q);
    var d := if |w| == size then 1 else 0;
    forall k | 0 <= k < |u| ensures u[k] == w[k + d] {
      assert Advance(size, q.bottom, k) == Advance(size, r.bottom, k + d);
      assert k + d < |w| - 1 ==> w[k + d] == r.slots[Advance(size, r.bottom, k + d)];
    }
  }

  /** Moving bottom up takes from the front. */
  lemma BottomTakes(size: nat, r: Ring)
    requires ValidRing(size, r) && r.bottom != r.top
    ensures var w := Unroll(size, r);
            |w| > 0 && w[0] == r.slots[r.bottom] && Unroll(size, r.(bottom := Next(size, r.bottom))) == w[1..]
  {
    var w := Unroll(size, r);
    var u := Unroll(size, r.(bottom := Next(size, r.bottom)));
    forall k | 0 <= k < |u| ensures u[k] == w[k + 1] {
      assert Advance(size, Next(size, r.bottom), k) == Advance(size, r.bottom, k + 1);
    }
  }

  /** Moving top down takes from the back. */
  lemma TopTakes(size: nat, r: Ring)
    requires ValidRing(size, r) && r.bottom != r.top
    ensures var w := Unroll(size, r);
            |w| > 0 && w[|w| - 1] == r.slots[Previous(size, r.top)]
            && Unroll(size, r.(top := Previous(size, r.top))) == w[..|w| - 1]
  {
    var w := Unroll(size, r);
    assert Advance(size, r.bottom, |w| - 1) == Previous(size, r.top);
  }

  // ---------- the log of everything pushed ----------

  /** The slot of log event k: k steps of Next from slot 0. */
  function Slot(size: nat, k: nat): (p: nat)
    requires 0 < size
    ensures p < size
  {
    if k == 0 then 0 else Next(size, Slot(size, k - 1))
  }

  lemma SlotIsRemainder(size: nat, k: nat)
    requires 0 < size
    ensures Slot(size, k) == k % size
  {
    var q := RoundsTo(size, k);
    RemainderIsUnique(size, k, q, Slot(size, k));
  }

  /** How often the k steps have wrapped around. */
  lemma {:induction false} RoundsTo(size: nat, k: nat) returns (q: nat)
    requires 0 < size
    ensures k == q * size + Slot(size, k)
  {
    if k == 0 {
      q := 0;
    } else {
      q := RoundsTo(size, k - 1);
      if Slot(size, k) == 0 {
        OneRoundMore(q, size);
        q := q + 1;
      }
    }
  }

  lemma OneRoundMore(q: nat, size: nat)
    ensures (q + 1) * size == q * size + size
  {
  }

  lemma RemainderIsUnique(size: nat, k: nat, q: nat, r: nat)
    requires r < size && k == q * size + r
    ensures k % size == r
  {
    var d: int := (k as int) / (size as int) - q;
    assert k == (k / size) * size + k % size;
    assert d * size == r - k % size;
    ProductIsFarFromZero(d, size);
  }

  lemma ProductIsFarFromZero(d: int, n: int)
    requires 0 <= n
    ensures d == 0 || d * n >= n || d * n <= -n
  {
  }

  lemma {:induction false} SlotAdvances(size: nat, k: nat, d: nat)
    requires 0 < size && d <= size
    ensures Slot(size, k + d) == Advance(size, Slot(size, k), d)
  {
    if d > 0 { SlotAdvances(size, k, d - 1); }
  }

  /** Log events fewer than `size` apart lie in different slots. */
  lemma SlotsDiffer(size: nat, j: nat, k: nat)
    requires 0 < size && j <= k <= j + size
    ensures Slot(size, j) == Slot(size, k) <==> j == k || k == j + size
  {
    SlotAdvances(size, j, k - j);
  }

  /** More than one place between two slots means more than one log event between them. */
  lemma StaysBelowTop(size: nat, k: nat, n: nat)
    requires 0 < size && k <= n && Distance(size, Slot(size, k), Slot(size, n)) > 1
    ensures k + 1 < n
  {
    if n == k + 1 { SlotAdvances(size, k, 1); }
  }

  lemma {:induction false} SmallSlot(size: nat, k: nat)
    requires k < size
    ensures Slot(size, k) == k
  {
    if k > 0 { SmallSlot(size, k - 1); }
  }

  /** The log index of the oldest event still in the ring after n pushes. */
  function Oldest(size: nat, n: nat): nat {
    if n < size then 0 else n - size + 1
  }

  /** The ring is what pushing the whole log into an empty one gives. */
  ghost predicate Logged(size: nat, r: Ring, log: seq<Event>) {
    && 0 < size && ValidRing(size, r)
    && r.top == Slot(size, |log|)
    && r.bottom == Slot(size, Oldest(size, |log|))
    && (forall k | 0 <= k < |log| <= k + size :: r.slots[Slot(size, k)] == log[k])
    && (forall p | |log| <= p < size :: r.slots[p] == NO_EVENT)
  }

  /** After n pushes top is n mod (N+1), bottom is max(0, n-N) mod (N+1), and slot k mod (N+1) holds event k. */
  lemma PushKeepsLogged(size: nat, r: Ring, log: seq<Event>, e: Event)
    requires Logged(size, r, log)
    ensures Logged(size, PushRing(size, r, e), log + [e])
  {
    var q := PushRing(size, r, e);
    var n := |log|;
    var o := Oldest(size, n);
    SlotsDiffer(size, o, n + 1);
    forall k | 0 <= k < n + 1 <= k + size ensures q.slots[Slot(size, k)] == (log + [e])[k] {
      SlotsDiffer(size, k, n);
    }
    forall p | n + 1 <= p < size ensures q.slots[p] == NO_EVENT {
      SmallSlot(size, n);
    }
  }

  /** The window of the ring is the last size - 1 events of the log, or all of it. */
  lemma WindowIsLogSuffix(size: nat, r: Ring, log: seq<Event>)
    requires Logged(size, r, log)
    ensures Unroll(size, r) == log[Oldest(size, |log|)..]
  {
    var o := Oldest(size, |log|);
    var w := Unroll(size, r);
    SlotAdvances(size, o, |log| - o);
    forall k | 0 <= k < |w| ensures w[k] == log[o + k] {
      SlotAdvances(size, o, k);
    }
  }
}
