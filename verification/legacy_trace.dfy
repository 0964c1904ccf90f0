/**
  The first telemetry core: a 1024-slot ring of (ticks, eventId) pairs and
  `GetTrace`, which lists the ring oldest first and splits each event id in
  decimal, `eventId % 1000` as the id and `eventId / 1000` as its value. The
  ring itself is the shared `RingBuffer`; the rendering is this module's own.
 */
module LegacyTrace {
  import opened Wrappers
  import opened CSharpInt
  import opened Text
  import opened RingBuffer

  /** The process-wide state: `Events` and `_index`. */
  datatype Legacy = Legacy(events: seq<(int, Int32)>, cursor: nat)

  predicate Valid(t: Legacy) {
    |t.events| == Capacity
  }

  /** The state before any event: every slot has timestamp 0 and the cursor is 0. */
  function Initial(): (t: Legacy)
    ensures Valid(t)
    ensures t.cursor == 0 && forall i :: 0 <= i < Capacity ==> t.events[i].0 == 0
  {
    Legacy(seq(Capacity, _ => (0, 0)), 0)
  }

  /**
    `Add(int eventId)`: stores (ticks, eventId) in the slot after the cursor
    and advances it; the stopwatch reading `ticks` is an input.
   */
  function Add(t: Legacy, eventId: Int32, ticks: int): (r: Legacy)
    requires Valid(t)
    ensures Valid(r)
    ensures r.cursor == t.cursor + 1
    ensures r.events[NextSlot(t.cursor)] == (ticks, eventId)
    ensures forall i :: 0 <= i < Capacity && i != NextSlot(t.cursor) ==> r.events[i] == t.events[i]
    ensures Listing(r.events, r.cursor) == Listing(t.events, t.cursor)[1..] + [(ticks, eventId)]
  {
    PushListing(t.events, t.cursor, (ticks, eventId));
    Legacy(Push(t.events, t.cursor, (ticks, eventId)), t.cursor + 1)
  }

  /** A run of `Add` calls, each event given as (ticks, eventId). */
  function AddAll(t: Legacy, added: seq<(int, Int32)>): (r: Legacy)
    requires Valid(t)
    ensures Valid(r)
    ensures r.cursor == t.cursor + |added|
  {
    if |added| == 0 then t
    else
      var last := added[|added| - 1];
      Add(AddAll(t, added[..|added| - 1]), last.1, last.0)
  }

  /** After any run of adds the ring reads as the old contents then the new events, less the oldest. */
  lemma {:induction false} AddAllListing(t: Legacy, added: seq<(int, Int32)>)
    requires Valid(t)
    ensures var r := AddAll(t, added);
      Listing(r.events, r.cursor) == (Listing(t.events, t.cursor) + added)[|added|..]
    decreases |added|
  {
    if |added| > 0 {
      var init := added[..|added| - 1];
      var last := added[|added| - 1];
      AddAllListing(t, init);
      ShiftAppend(Listing(t.events, t.cursor), init, last);
      assert init + [last] == added;
    }
  }

  // ---------------------------------------------------------------------------
  // GetTrace
  // ---------------------------------------------------------------------------

  /** `Dictionary<int, string> eventNameMap`. */
  type NameMap = map<int, string>

  /** The name of an id, or "" when the table has none. */
  function NameOf(names: NameMap, id: int): string {
    if id in names then names[id] else ""
  }

  /** `" ({eventId / 1000})"` for ids above 1000, otherwise empty. */
  function ItemSuffix(eventId: Int32): string {
    if eventId > 1000 then " (" + IntToString(Div(eventId, 1000)) + ")" else ""
  }

  /**
    The line for one slot, `"{0:o} [{1:000}] {2} {3}"` and a newline, or
    nothing when the timestamp is not positive. `formatTime` stands for the
    clock and its "o" formatting.
   */
  function EventLine(names: NameMap, formatTime: int -> string, event: (int, Int32)): (r: string)
    ensures event.0 <= 0 ==> r == ""
  {
    if event.0 > 0 then
      formatTime(event.0) + " [" + Format000(Rem(event.1, 1000)) + "] " + NameOf(names, Rem(event.1, 1000))
        + " " + ItemSuffix(event.1) + NewLine
    else ""
  }

  /** The whole trace: one line per occupied slot, in the order the ring is read. */
  function TraceText(names: NameMap, formatTime: int -> string, t: Legacy): string
    requires Valid(t)
  {
    Lines((e: (int, Int32)) => EventLine(names, formatTime, e), Listing(t.events, t.cursor))
  }

  /** Whether some slot holds an event (a positive timestamp). */
  predicate Occupied(t: Legacy)
    requires Valid(t)
  {
    exists s :: 0 <= s < Capacity && t.events[s].0 > 0
  }

  /** If the slots listed so far include an occupied one, the ring is occupied. */
  lemma OccupiedAt(t: Legacy, i: nat)
    requires Valid(t) && i < Capacity && Listing(t.events, t.cursor)[i].0 > 0
    ensures Occupied(t)
  {
    assert t.events[VisitOrder(t.cursor)[i]].0 > 0;
  }

  /** If no listed slot is occupied, no slot is: the listing covers the ring. */
  lemma UnoccupiedListing(t: Legacy)
    requires Valid(t)
    requires forall j :: 0 <= j < Capacity ==> Listing(t.events, t.cursor)[j].0 <= 0
    ensures !Occupied(t)
  {
    forall s | 0 <= s < Capacity
      ensures t.events[s].0 <= 0
    {
      VisitOrderReaches(t.cursor, s);
      var j :| 0 <= j < Capacity && VisitOrder(t.cursor)[j] == s;
      assert Listing(t.events, t.cursor)[j] == t.events[s];
    }
  }

  /** How `GetTrace` ends: normally, with the builder's text, or with a `NullReferenceException`. */
  datatype TraceOutcome = Completed(text: Option<string>) | NullReference

  /**
    The loop of `GetTrace` with a builder and a name table: one line per
    slot, in reading order.
   */
  method AppendSlotLines(sb: string, names: NameMap, formatTime: int -> string, t: Legacy) returns (r: string)
    requires Valid(t)
    ensures r == sb + TraceText(names, formatTime, t)
  {
    var out := sb;
    var index := t.cursor;
    ghost var order := VisitOrder(t.cursor);
    ghost var listing := Listing(t.events, t.cursor);
    ghost var line := (e: (int, Int32)) => EventLine(names, formatTime, e);
    for i := 0 to Capacity
      invariant index == if i == 0 then t.cursor else order[i - 1]
      invariant out == sb + Lines(line, listing[..i])
    {
      NextVisitedSlot(t.cursor, i, index);
      index := (index + 1) % Capacity;
      var next := EventLine(names, formatTime, t.events[index]);
      assert next == line(listing[i]);
      LinesStep(line, listing, i);
      Assoc(sb, Lines(line, listing[..i]), next);
      out := out + next;
    }
    assert listing[..Capacity] == listing;
    r := out;
  }

  /**
    The same loop with a null builder or name table: it runs without effect
    until the first occupied slot, where the dereference throws.
   */
  method FindOccupied(t: Legacy) returns (found: bool)
    requires Valid(t)
    ensures found <==> Occupied(t)
  {
    var index := t.cursor;
    ghost var order := VisitOrder(t.cursor);
    ghost var listing := Listing(t.events, t.cursor);
    for i := 0 to Capacity
      invariant index == if i == 0 then t.cursor else order[i - 1]
      invariant forall j :: 0 <= j < i ==> listing[j].0 <= 0
    {
      NextVisitedSlot(t.cursor, i, index);
      index := (index + 1) % Capacity;
      assert t.events[index] == listing[i];
      if t.events[index].0 > 0 {
        OccupiedAt(t, i);
        return true;
      }
    }
    UnoccupiedListing(t);
    found := false;
  }

  /**
    `GetTrace(stringBuilder, eventNameMap)`. A null builder or name table
    (`None`) is first dereferenced at the first occupied slot, which throws
    before anything is appended; with no occupied slot the call returns.
   */
  method GetTrace(sb: Option<string>, names: Option<NameMap>, formatTime: int -> string, t: Legacy)
    returns (r: TraceOutcome)
    requires Valid(t)
    ensures sb.Some? && names.Some? ==> r == Completed(Some(sb.value + TraceText(names.value, formatTime, t)))
    ensures sb.None? || names.None? ==> (r == NullReference <==> Occupied(t))
    ensures r.Completed? && (sb.None? || names.None?) ==> r.text == sb
  {
    if sb.None? || names.None? {
      var occupied := FindOccupied(t);
      r := if occupied then NullReference else Completed(sb);
    } else {
      var text := AppendSlotLines(sb.value, names.value, formatTime, t);
      r := Completed(Some(text));
    }
  }

  /**
    From a ring with no occupied slot (the zeroed ring of `Initial` among
    them), with positive timestamps, the trace lists the last 1024 events
    added (all of them when there are at most 1024), in the order they were
    added.
   */
  lemma FreshTraceListsRecentEvents(names: NameMap, formatTime: int -> string, t: Legacy, added: seq<(int, Int32)>)
    requires Valid(t) && forall i :: 0 <= i < Capacity ==> t.events[i].0 <= 0
    requires forall i :: 0 <= i < |added| ==> added[i].0 > 0
    ensures var recent := if |added| <= Capacity then added else added[|added| - Capacity..];
      TraceText(names, formatTime, AddAll(t, added))
        == Lines((e: (int, Int32)) => EventLine(names, formatTime, e), recent)
  {
    var line := (e: (int, Int32)) => EventLine(names, formatTime, e);
    var after := AddAll(t, added);
    var before := Listing(t.events, t.cursor);
    AddAllListing(t, added);
    var now := Listing(after.events, after.cursor);
    assert TraceText(names, formatTime, after) == Lines(line, now);
    if |added| <= Capacity {
      var unused := before[|added|..];
      ShiftInShort(before, added);
      LinesAppend(line, unused, added);
      EmptySlotsShowNothing(names, formatTime, t, |added|);
      assert "" + Lines(line, added) == Lines(line, added);
    } else {
      ShiftInLong(before, added);
    }
  }

  /** Shifting in no more entries than a window holds keeps its newest part, then the new entries. */
  lemma ShiftInShort<T>(window: seq<T>, added: seq<T>)
    requires |added| <= |window|
    ensures (window + added)[|added|..] == window[|added|..] + added
  {
  }

  /** Shifting in at least a window's worth of entries leaves only the newest of them. */
  lemma ShiftInLong<T>(window: seq<T>, added: seq<T>)
    requires |window| <= |added|
    ensures (window + added)[|added|..] == added[|added| - |window|..]
  {
  }

  /** Slots that were never written produce no lines. */
  lemma EmptySlotsShowNothing(names: NameMap, formatTime: int -> string, t: Legacy, k: nat)
    requires Valid(t) && forall i :: 0 <= i < Capacity ==> t.events[i].0 <= 0
    requires k <= Capacity
    ensures Lines((e: (int, Int32)) => EventLine(names, formatTime, e), Listing(t.events, t.cursor)[k..]) == ""
  {
    var line := (e: (int, Int32)) => EventLine(names, formatTime, e);
    var unused := Listing(t.events, t.cursor)[k..];
    forall i | 0 <= i < |unused|
      ensures line(unused[i]) == ""
    {
      assert unused[i] == t.events[VisitOrder(t.cursor)[k + i]];
    }
    LinesAllEmpty(line, unused);
  }

  /** Exactly 1024 adds to the zeroed ring occupy every slot and list them in insertion order. */
  lemma FullRingListsInInsertionOrder(t: Legacy, added: seq<(int, Int32)>)
    requires Valid(t) && |added| == Capacity
    ensures Listing(AddAll(t, added).events, AddAll(t, added).cursor) == added
  {
    AddAllListing(t, added);
    assert (Listing(t.events, t.cursor) + added)[|added|..] == added;
  }

  /**
    How an event id is split: for an id below 1000 and a value of at least 1,
    the line shows the id padded to three digits and the value in parentheses,
    except for id 0 with value 1, which `> 1000` lets through without a value.
   */
  lemma SplitEventId(id: int, value: int)
    requires 0 <= id < 1000 && 0 <= value && IsInt32(value * 1000 + id)
    ensures var eventId: Int32 := value * 1000 + id;
      && Rem(eventId, 1000) == id
      && Div(eventId, 1000) == value
      && (ItemSuffix(eventId) == "" <==> value == 0 || (value == 1 && id == 0))
  {
    var eventId := value * 1000 + id;
    assert eventId / 1000 == value;
    if value > 0 && !(value == 1 && id == 0) {
      assert eventId > 1000;
      assert ItemSuffix(eventId) != "";
    }
  }

  /** Event 1000 is shown exactly as event 0: id `000` and no value. */
  lemma ThousandShowsAsZero(names: NameMap, formatTime: int -> string, ticks: int)
    ensures EventLine(names, formatTime, (ticks, 1000)) == EventLine(names, formatTime, (ticks, 0))
  {
  }
}
