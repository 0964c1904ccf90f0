/**
  The current telemetry core: composite keys packing (id, value, mapped flag)
  into one `int`, a 1024-slot ring buffer of (ticks, key) events written
  through a wrapping cursor, and a key -> count table. The process-wide static
  state is an explicit `Trace` value; each operation returns the next state.
 */
module LightweightTrace {
  import opened CSharpInt
  import opened RingBuffer

  /** `key = id + value * CompositeValueShift`: 1024 ids per value bucket. */
  const CompositeValueShift: int := 1024
  /** Bit 28: the value should be shown through the name table. */
  const MapValueFlag: int := 0x1000_0000

  // ---------------------------------------------------------------------------
  // Bit 28 of a two's-complement `int`. With Dafny's floor division by a
  // positive divisor, bit n of k is (k / 2^n) % 2 for negative k as well, so
  // `k & MapValueFlag`, `k | MapValueFlag` and `k & ~MapValueFlag` are exact.
  // ---------------------------------------------------------------------------

  /** `(key & MapValueFlag) != 0` */
  predicate HasMapFlag(key: int) {
    (key / MapValueFlag) % 2 == 1
  }

  /** `key | MapValueFlag` */
  function WithMapFlag(key: int): (r: int)
    ensures HasMapFlag(r)
    ensures r == key || r == key + MapValueFlag
    ensures IsInt32(key) ==> IsInt32(r)
    ensures Rem(r, CompositeValueShift) == Rem(key, CompositeValueShift) || key < 0 <= r
  {
    if HasMapFlag(key) then key
    else
      assert (key + MapValueFlag) / MapValueFlag == key / MapValueFlag + 1;
      SetFlagRem(key);
      key + MapValueFlag
  }

  /** Adding bit 28 keeps the C# remainder by 1024 unless it moves the key from negative to non-negative. */
  lemma SetFlagRem(key: int)
    ensures Rem(key + MapValueFlag, CompositeValueShift) == Rem(key, CompositeValueShift) || key < 0 <= key + MapValueFlag
  {
    if key >= 0 || key + MapValueFlag < 0 {
      RemShift(key, 0x4_0000);
    }
  }

  /** `key & ~MapValueFlag` */
  function WithoutMapFlag(key: int): (r: int)
    ensures !HasMapFlag(r)
    ensures r == key || r == key - MapValueFlag
    ensures IsInt32(key) ==> IsInt32(r)
    ensures (key >= 0 <==> r >= 0)
  {
    if HasMapFlag(key) then
      assert (key - MapValueFlag) / MapValueFlag == key / MapValueFlag - 1;
      key - MapValueFlag
    else key
  }

  /** Adding a multiple of 1024 to a value of the same sign keeps its C# remainder. */
  lemma RemShift(a: int, k: int)
    requires (a >= 0 && a + k * CompositeValueShift >= 0) || (a < 0 && a + k * CompositeValueShift < 0)
    ensures Rem(a + k * CompositeValueShift, CompositeValueShift) == Rem(a, CompositeValueShift)
    ensures Div(a + k * CompositeValueShift, CompositeValueShift) == Div(a, CompositeValueShift) + k
  {
    var b := a + k * CompositeValueShift;
    if a >= 0 {
      assert b / CompositeValueShift == a / CompositeValueShift + k;
    } else {
      assert (-b) / CompositeValueShift == (-a) / CompositeValueShift - k;
    }
  }

  // ---------------------------------------------------------------------------
  // Composite keys
  // ---------------------------------------------------------------------------

  datatype DecodedKey = DecodedKey(id: int, value: int, isMappedValue: bool)

  /** `EncodeKey(id, value, mapValue)`, with the wrap-around of unchecked `int` arithmetic. */
  function EncodeKey(id: Int32, value: Int32, mapValue: bool): (key: Int32)
    ensures InKeyDomain(id, value) ==>
      && key == id + value * CompositeValueShift + (if mapValue then MapValueFlag else 0)
      && 0 <= key
      && (HasMapFlag(key) <==> mapValue)
  {
    var packed := id + value * CompositeValueShift + (if mapValue then MapValueFlag else 0);
    assert InKeyDomain(id, value) ==> IsInt32(packed) && packed / MapValueFlag == (if mapValue then 1 else 0);
    Wrap32(packed)
  }

  /** `DecodeKey(key, out id, out value, out isMappedValue)` */
  function DecodeKey(key: Int32): (d: DecodedKey)
    ensures d.isMappedValue == HasMapFlag(key)
    ensures d.id + d.value * CompositeValueShift == WithoutMapFlag(key)
    ensures -CompositeValueShift < d.id < CompositeValueShift
  {
    var unflagged := WithoutMapFlag(key);
    DecodedKey(Rem(unflagged, CompositeValueShift), Div(unflagged, CompositeValueShift), HasMapFlag(key))
  }

  /** The domain in which a key packs an (id, value) pair without loss. */
  predicate InKeyDomain(id: int, value: int) {
    0 <= id < CompositeValueShift && 0 <= value && value * CompositeValueShift < MapValueFlag
  }

  /** Decoding an encoded key gives back the id, the value and the flag. */
  lemma DecodeEncodeKey(id: Int32, value: Int32, mapValue: bool)
    requires InKeyDomain(id, value)
    ensures DecodeKey(EncodeKey(id, value, mapValue)) == DecodedKey(id, value, mapValue)
  {
    var plain := id + value * CompositeValueShift;
    assert 0 <= plain < MapValueFlag;
    assert plain / MapValueFlag == 0;
    var key := EncodeKey(id, value, mapValue);
    if mapValue {
      assert key == plain + MapValueFlag;
      assert key / MapValueFlag == 1;
    } else {
      assert key == plain;
    }
    assert WithoutMapFlag(key) == plain;
    RemShift(id, value);
    assert Rem(id, CompositeValueShift) == id && Div(id, CompositeValueShift) == 0;
  }

  /** Every `int` key is the encoding of its decoded parts, negative keys included. */
  lemma EncodeDecodeKey(key: Int32)
    ensures var d := DecodeKey(key);
      IsInt32(d.id) && IsInt32(d.value) && EncodeKey(d.id, d.value, d.isMappedValue) == key
  {
    var d := DecodeKey(key);
    var unflagged := WithoutMapFlag(key);
    assert d.id + d.value * CompositeValueShift == unflagged;
    assert unflagged + (if d.isMappedValue then MapValueFlag else 0) == key;
  }

  // ---------------------------------------------------------------------------
  // Counters: ConcurrentDictionary<int, long>, create-if-absent updates
  // ---------------------------------------------------------------------------

  type Counters = map<Int32, int>

  /** The running count of a key; an untouched key counts 0. */
  function Count(counters: Counters, key: Int32): int {
    if key in counters then counters[key] else 0
  }

  /** `IncrementCount(int counterId)`: `AddOrUpdate(key, 1, (_, c) => c + 1)`. */
  function IncrementCount(counters: Counters, key: Int32): (r: Counters)
    ensures r.Keys == counters.Keys + {key}
    ensures r[key] == Count(counters, key) + 1
    ensures forall k :: k in counters && k != key ==> r[k] == counters[k]
  {
    counters[key := if key in counters then counters[key] + 1 else 1]
  }

  /** `DecrementCount(int counterId)`: `AddOrUpdate(key, -1, (_, c) => c - 1)`. */
  function DecrementCount(counters: Counters, key: Int32): (r: Counters)
    ensures r.Keys == counters.Keys + {key}
    ensures r[key] == Count(counters, key) - 1
    ensures forall k :: k in counters && k != key ==> r[k] == counters[k]
  {
    counters[key := if key in counters then counters[key] - 1 else -1]
  }

  /** `IncrementCount(counterId, value, mapValue)`: counts under the composite key. */
  function IncrementValueCount(counters: Counters, counterId: Int32, value: Int32, mapValue: bool): (r: Counters)
    ensures InKeyDomain(counterId, value) ==>
      forall key: Int32 :: DecodeKey(key) == DecodedKey(counterId, value, mapValue) ==>
        Count(r, key) == Count(counters, key) + 1
    ensures var key := EncodeKey(counterId, value, mapValue);
      && Count(r, key) == Count(counters, key) + 1
      && forall k: Int32 :: k != key ==> Count(r, k) == Count(counters, k)
  {
    var r := IncrementCount(counters, EncodeKey(counterId, value, mapValue));
    assert forall key: Int32 :: DecodeKey(key) == DecodedKey(counterId, value, mapValue) ==>
      key == EncodeKey(counterId, value, mapValue) by {
      forall key: Int32 | DecodeKey(key) == DecodedKey(counterId, value, mapValue) {
        EncodeDecodeKey(key);
      }
    }
    r
  }

  /** `DecrementCount(counterId, value, mapValue)`: counts down under the composite key. */
  function DecrementValueCount(counters: Counters, counterId: Int32, value: Int32, mapValue: bool): (r: Counters)
    ensures InKeyDomain(counterId, value) ==>
      forall key: Int32 :: DecodeKey(key) == DecodedKey(counterId, value, mapValue) ==>
        Count(r, key) == Count(counters, key) - 1
    ensures var key := EncodeKey(counterId, value, mapValue);
      && Count(r, key) == Count(counters, key) - 1
      && forall k: Int32 :: k != key ==> Count(r, k) == Count(counters, k)
  {
    var r := DecrementCount(counters, EncodeKey(counterId, value, mapValue));
    assert forall key: Int32 :: DecodeKey(key) == DecodedKey(counterId, value, mapValue) ==>
      key == EncodeKey(counterId, value, mapValue) by {
      forall key: Int32 | DecodeKey(key) == DecodedKey(counterId, value, mapValue) {
        EncodeDecodeKey(key);
      }
    }
    r
  }

  /** An increment followed by a decrement leaves every count as it was. */
  lemma IncrementThenDecrement(counters: Counters, key: Int32, other: Int32)
    ensures Count(DecrementCount(IncrementCount(counters, key), key), other) == Count(counters, other)
  {
  }

  /** `n` sequential increments of one key. */
  function IncrementTimes(counters: Counters, key: Int32, n: nat): Counters
  {
    if n == 0 then counters else IncrementCount(IncrementTimes(counters, key, n - 1), key)
  }

  /** No update is lost: after `n` increments the count has grown by exactly `n`. */
  lemma {:induction false} IncrementTimesCounts(counters: Counters, key: Int32, n: nat)
    ensures Count(IncrementTimes(counters, key, n), key) == Count(counters, key) + n
    ensures forall k: Int32 :: k != key ==> Count(IncrementTimes(counters, key, n), k) == Count(counters, k)
  {
    if n > 0 {
      IncrementTimesCounts(counters, key, n - 1);
    }
  }

  // ---------------------------------------------------------------------------
  // The ring buffer and Add
  // ---------------------------------------------------------------------------

  /** The process-wide state: `Events`, `_index` and `Counters`. */
  datatype Trace = Trace(events: seq<(int, Int32)>, cursor: nat, counters: Counters)

  predicate Valid(t: Trace) {
    |t.events| == Capacity
  }

  /** The ordinals of the `GeneratorStage` members the trace refers to. */
  datatype StageOrdinals = StageOrdinals(methodEntry: Int32, methodCall: Int32, methodExit: Int32)

  /** The counter `Add` bumps for an event: `MethodCall[eventId % 1024]`, mapped. */
  function MethodCallKey(stages: StageOrdinals, eventId: Int32): Int32 {
    EncodeKey(stages.methodCall, Rem(eventId, CompositeValueShift), true)
  }

  /**
    `Add(int eventId, bool mapValue)`: stores (ticks, eventId | flag) in the next
    slot and, unless `eventId / 1024` is MethodExit's ordinal, counts a call of
    `eventId % 1024`. The stopwatch reading `ticks` is an input.
   */
  function Add(t: Trace, eventId: Int32, mapValue: bool, ticks: int, stages: StageOrdinals): (r: Trace)
    requires Valid(t)
    ensures Valid(r)
    ensures r.cursor == t.cursor + 1
    ensures r.events[NextSlot(t.cursor)] == (ticks, if mapValue then WithMapFlag(eventId) else eventId)
    ensures forall i :: 0 <= i < Capacity && i != NextSlot(t.cursor) ==> r.events[i] == t.events[i]
    ensures Listing(r.events, r.cursor)
      == Listing(t.events, t.cursor)[1..] + [(ticks, if mapValue then WithMapFlag(eventId) else eventId)]
    ensures Div(eventId, CompositeValueShift) == stages.methodExit ==> r.counters == t.counters
    ensures Div(eventId, CompositeValueShift) != stages.methodExit ==>
      && Count(r.counters, MethodCallKey(stages, eventId)) == Count(t.counters, MethodCallKey(stages, eventId)) + 1
      && forall k: Int32 :: k != MethodCallKey(stages, eventId) ==> Count(r.counters, k) == Count(t.counters, k)
  {
    var logged := if mapValue then WithMapFlag(eventId) else eventId;
    var counters :=
      if Div(eventId, CompositeValueShift) != stages.methodExit
      then IncrementCount(t.counters, MethodCallKey(stages, eventId))
      else t.counters;
    PushListing(t.events, t.cursor, (ticks, logged));
    Trace(Push(t.events, t.cursor, (ticks, logged)), t.cursor + 1, counters)
  }

  /** `Add(int eventId, int value, bool mapValue)`: logs the composite key, unflagged. */
  function AddValue(t: Trace, eventId: Int32, value: Int32, mapValue: bool, ticks: int, stages: StageOrdinals): (r: Trace)
    requires Valid(t)
    ensures Valid(r) && r.cursor == t.cursor + 1
    ensures InKeyDomain(eventId, value) ==>
      DecodeKey(r.events[NextSlot(t.cursor)].1) == DecodedKey(eventId, value, mapValue)
  {
    assert InKeyDomain(eventId, value) ==>
      DecodeKey(EncodeKey(eventId, value, mapValue)) == DecodedKey(eventId, value, mapValue) by {
      if InKeyDomain(eventId, value) {
        DecodeEncodeKey(eventId, value, mapValue);
      }
    }
    Add(t, EncodeKey(eventId, value, mapValue), false, ticks, stages)
  }

  /**
    A flagged key in the packing domain: `eventId / 1024` carries the flag as
    2^18 above the value, and `eventId % 1024` is the id.
   */
  lemma MappedKeyParts(id: Int32, value: Int32)
    requires InKeyDomain(id, value)
    ensures var key := EncodeKey(id, value, true);
      Div(key, CompositeValueShift) == value + 0x4_0000 && Rem(key, CompositeValueShift) == id
  {
    var key := EncodeKey(id, value, true);
    assert key == id + value * CompositeValueShift + MapValueFlag;
    RemShift(id, value + 0x4_0000);
  }

  /**
    `MethodEntry(eventId)`: the event tagged with MethodEntry's ordinal,
    mapped. It is logged in the next slot and counts one call of `eventId`.
   */
  function MethodEntry(t: Trace, eventId: Int32, ticks: int, stages: StageOrdinals): (r: Trace)
    requires Valid(t)
    ensures Valid(r) && r.cursor == t.cursor + 1
    ensures InKeyDomain(eventId, stages.methodEntry) ==>
      DecodeKey(r.events[NextSlot(t.cursor)].1) == DecodedKey(eventId, stages.methodEntry, true)
    ensures InKeyDomain(eventId, stages.methodEntry) && stages.methodExit != stages.methodEntry + 0x4_0000 ==>
      var key := EncodeKey(stages.methodCall, eventId, true);
      && Count(r.counters, key) == Count(t.counters, key) + 1
      && forall k: Int32 :: k != key ==> Count(r.counters, k) == Count(t.counters, k)
  {
    assert InKeyDomain(eventId, stages.methodEntry) ==>
      var key := EncodeKey(eventId, stages.methodEntry, true);
      Div(key, CompositeValueShift) == stages.methodEntry + 0x4_0000 && Rem(key, CompositeValueShift) == eventId by {
      if InKeyDomain(eventId, stages.methodEntry) {
        MappedKeyParts(eventId, stages.methodEntry);
      }
    }
    AddValue(t, eventId, stages.methodEntry, true, ticks, stages)
  }

  /**
    `MethodExit(eventId)`: the event tagged with MethodExit's ordinal, mapped,
    logged in the next slot.
   */
  function MethodExit(t: Trace, eventId: Int32, ticks: int, stages: StageOrdinals): (r: Trace)
    requires Valid(t)
    ensures Valid(r) && r.cursor == t.cursor + 1
    ensures InKeyDomain(eventId, stages.methodExit) ==>
      DecodeKey(r.events[NextSlot(t.cursor)].1) == DecodedKey(eventId, stages.methodExit, true)
  {
    AddValue(t, eventId, stages.methodExit, true, ticks, stages)
  }

  /**
    As written, the MethodExit exclusion in `Add` never fires for `MethodExit`
    itself: the mapped flag puts 2^18 into `eventId / 1024`, so the exit is
    counted as a method call like any other event.
   */
  lemma MethodExitIsCountedAsCall(t: Trace, eventId: Int32, ticks: int, stages: StageOrdinals)
    requires Valid(t)
    requires InKeyDomain(eventId, stages.methodExit)
    ensures var key := EncodeKey(stages.methodCall, eventId, true);
      Count(MethodExit(t, eventId, ticks, stages).counters, key) == Count(t.counters, key) + 1
  {
    MappedKeyParts(eventId, stages.methodExit);
  }

  /** The exclusion does fire for an unmapped (id, MethodExit) event: no counter moves. */
  lemma UnmappedExitIsNotCounted(t: Trace, eventId: Int32, ticks: int, stages: StageOrdinals)
    requires Valid(t)
    requires InKeyDomain(eventId, stages.methodExit)
    ensures AddValue(t, eventId, stages.methodExit, false, ticks, stages).counters == t.counters
  {
    var key := EncodeKey(eventId, stages.methodExit, false);
    assert key == eventId + stages.methodExit * CompositeValueShift;
    RemShift(eventId, stages.methodExit);
  }

  /** The state before any event: every slot zero, cursor 0, no counters. */
  function Initial(): (t: Trace)
    ensures Valid(t)
  {
    Trace(seq(Capacity, _ => (0, 0)), 0, map[])
  }
}
