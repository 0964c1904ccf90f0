/**
  The fixed-size event ring both trace implementations use: 1024 slots written
  through an ever-increasing cursor (`Interlocked.Increment(ref _index) % Capacity`)
  and read back from one past the cursor round to the cursor's own slot.
 */
module RingBuffer {

  const Capacity: nat := 1024

  /** `Interlocked.Increment(ref _index) % Capacity`: the slot the next event goes to. */
  function NextSlot(cursor: nat): (slot: nat)
    ensures slot < Capacity
  {
    (cursor + 1) % Capacity
  }

  /** Stores `e` in the slot after the cursor; the caller advances the cursor. */
  function Push<E>(events: seq<E>, cursor: nat, e: E): (r: seq<E>)
    requires |events| == Capacity
    ensures |r| == Capacity
  {
    events[NextSlot(cursor) := e]
  }

  /** The slots a reader visits: from one past the cursor round to the cursor's own slot. */
  function VisitOrder(cursor: nat): (order: seq<nat>)
    ensures |order| == Capacity
    ensures forall i :: 0 <= i < Capacity ==> order[i] < Capacity
  {
    seq(Capacity, i => (cursor + 1 + i) % Capacity)
  }

  /** The ring's entries in the order a reader visits them. */
  function Listing<E>(events: seq<E>, cursor: nat): (l: seq<E>)
    requires |events| == Capacity
    ensures |l| == Capacity
  {
    seq(Capacity, i requires 0 <= i < Capacity => events[VisitOrder(cursor)[i]])
  }

  lemma ModSucc(a: int)
    ensures (a % Capacity + 1) % Capacity == (a + 1) % Capacity
  {
  }

  /** A reader's wrapping index steps through the visit order. */
  lemma NextVisitedSlot(cursor: nat, i: nat, index: int)
    requires i < Capacity
    requires index == if i == 0 then cursor else VisitOrder(cursor)[i - 1]
    ensures (index + 1) % Capacity == VisitOrder(cursor)[i]
  {
    ModSucc(cursor + i);
  }

  /** Positions less than a full turn apart land on different slots. */
  lemma ModDistinct(a: int, d: int)
    requires 0 < d < Capacity
    ensures a % Capacity != (a + d) % Capacity
  {
    var q := a / Capacity;
    var r := a % Capacity;
    assert a == q * Capacity + r;
    if r + d < Capacity {
      assert (a + d) % Capacity == r + d;
    } else {
      assert a + d == (q + 1) * Capacity + (r + d - Capacity);
      assert (a + d) % Capacity == r + d - Capacity;
    }
  }

  /** A full turn lands on the same slot. */
  lemma ModPeriod(a: int)
    ensures (a + Capacity) % Capacity == a % Capacity
  {
    var q := a / Capacity;
    var r := a % Capacity;
    assert a == q * Capacity + r;
    assert a + Capacity == (q + 1) * Capacity + r;
  }

  /** Every slot is on the visit order. */
  lemma VisitOrderReaches(cursor: nat, s: nat)
    requires s < Capacity
    ensures s in VisitOrder(cursor)
  {
    var i := (s - cursor - 1) % Capacity;
    var q := (s - cursor - 1) / Capacity;
    assert s - cursor - 1 == q * Capacity + i;
    assert cursor + 1 + i == s + (-q) * Capacity;
    assert (cursor + 1 + i) % Capacity == s;
    assert VisitOrder(cursor)[i] == s;
  }

  /** Every slot is visited exactly once, the next slot to be written first and the cursor's slot last. */
  lemma VisitOrderCoversEachSlotOnce(cursor: nat)
    ensures VisitOrder(cursor)[0] == NextSlot(cursor)
    ensures VisitOrder(cursor)[Capacity - 1] == cursor % Capacity
    ensures forall i, j :: 0 <= i < j < Capacity ==> VisitOrder(cursor)[i] != VisitOrder(cursor)[j]
    ensures forall s: nat :: s < Capacity ==> s in VisitOrder(cursor)
  {
    var order := VisitOrder(cursor);
    assert order[Capacity - 1] == (cursor + Capacity) % Capacity;
    ModPeriod(cursor);
    forall i, j | 0 <= i < j < Capacity
      ensures order[i] != order[j]
    {
      ModDistinct(cursor + 1 + i, j - i);
    }
    forall s: nat | s < Capacity
      ensures s in order
    {
      VisitOrderReaches(cursor, s);
    }
  }

  /**
    One write followed by the cursor's advance drops the oldest entry from the
    listing and appends the new one: the ring always reads oldest first.
   */
  lemma PushListing<E>(events: seq<E>, cursor: nat, e: E)
    requires |events| == Capacity
    ensures Listing(Push(events, cursor, e), cursor + 1) == Listing(events, cursor)[1..] + [e]
  {
    var after := Listing(Push(events, cursor, e), cursor + 1);
    var expected := Listing(events, cursor)[1..] + [e];
    forall i | 0 <= i < Capacity
      ensures after[i] == expected[i]
    {
      if i < Capacity - 1 {
        var slot := (cursor + 2 + i) % Capacity;
        assert VisitOrder(cursor + 1)[i] == slot;
        assert VisitOrder(cursor)[i + 1] == slot;
        ModDistinct(cursor + 1, i + 1);
        assert slot != NextSlot(cursor);
        assert after[i] == Push(events, cursor, e)[slot] == events[slot];
      } else {
        assert cursor + 1 + 1 + i == (cursor + 1) + Capacity;
        assert VisitOrder(cursor + 1)[i] == NextSlot(cursor);
        assert after[i] == Push(events, cursor, e)[NextSlot(cursor)] == e;
      }
    }
  }

  /** Dropping the oldest of `|init|` entries and then one more, as one slice of the whole history. */
  lemma ShiftAppend<E>(l: seq<E>, init: seq<E>, e: E)
    requires |l| > 0
    ensures (l + init)[|init|..][1..] + [e] == (l + (init + [e]))[|init| + 1..]
  {
    var es := init + [e];
    assert (l + init)[|init|..][1..] == (l + init)[|init| + 1..];
    assert l + es == (l + init) + [e];
  }
}
