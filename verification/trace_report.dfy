/**
  Text rendering of the current telemetry core: `GetTextAndValue`,
  `AppendCounts`, `AppendTrace` and `AppendDiagnosticsComment`. A null
  `StringBuilder` is `None`; the "o" timestamp formatting is the parameter
  `formatTime`, since the clock and its formatting are outside the model.
 */
module TraceReport {
  import opened Wrappers
  import opened CSharpInt
  import opened Text
  import opened RingBuffer
  import opened LightweightTrace

  /** `Dictionary<int, string> eventNameMap`; `None` stands for null. */
  type NameMap = map<int, string>

  /** The name for an id or value, or "" when the table is null or has no entry. */
  function NameOf(names: Option<NameMap>, id: int): string {
    if names.Some? && id in names.value then names.value[id] else ""
  }

  /** `GetTextAndValue(eventNameMap, key)`: the id's name, then " (value)" for keys >= 1024. */
  function GetTextAndValue(names: Option<NameMap>, key: Int32): (r: string)
    ensures key < CompositeValueShift ==> r == NameOf(names, Rem(key, CompositeValueShift))
    ensures key >= CompositeValueShift ==>
      && |r| > |NameOf(names, Rem(key, CompositeValueShift))| + 2
      && r[..|NameOf(names, Rem(key, CompositeValueShift))|] == NameOf(names, Rem(key, CompositeValueShift))
      && r[|r| - 1] == ')'
  {
    var id := Rem(key, CompositeValueShift);
    var value :=
      if HasMapFlag(key) then Div(WithoutMapFlag(key), CompositeValueShift)
      else Div(key, CompositeValueShift);
    var text := NameOf(names, id);
    if key >= CompositeValueShift then
      var valueText :=
        if names.Some? && HasMapFlag(key) && value in names.value then names.value[value]
        else IntToString(value);
      text + " (" + valueText + ")"
    else text
  }

  /** How a decoded value is shown: its name when mapped and named, else its digits. */
  function ValueText(names: Option<NameMap>, d: DecodedKey): string {
    if d.isMappedValue && names.Some? && d.value in names.value then names.value[d.value]
    else IntToString(d.value)
  }

  /** Reference rendering in terms of the decoded key. */
  function DescribeKey(names: Option<NameMap>, d: DecodedKey, withValue: bool): string {
    NameOf(names, d.id) + (if withValue then " (" + ValueText(names, d) + ")" else "")
  }

  /**
    `GetTextAndValue` shows exactly the decoded id and value: the id is the
    decoded id even for a flagged key, the value is always taken from the
    unflagged key, it is looked up by name only when the key is flagged, and
    the suffix is present exactly when `key >= 1024`.
   */
  lemma TextAndValueDescribesDecodedKey(names: Option<NameMap>, key: Int32)
    ensures GetTextAndValue(names, key) == DescribeKey(names, DecodeKey(key), key >= CompositeValueShift)
  {
    var unflagged := WithoutMapFlag(key);
    var d := DecodeKey(key);
    if HasMapFlag(key) {
      assert key == unflagged + 0x4_0000 * CompositeValueShift;
      RemShift(unflagged, 0x4_0000);
    } else {
      assert unflagged == key;
    }
    assert Rem(key, CompositeValueShift) == d.id;
    assert (if HasMapFlag(key) then Div(unflagged, CompositeValueShift) else Div(key, CompositeValueShift)) == d.value;
  }

  /**
    The rule for an encoded event: the id's name, then a value suffix exactly
    when the value is positive or the key is flagged. The value is shown by its
    name when the key is flagged and the table names it, and in decimal
    otherwise.
   */
  lemma ValueSuffixRule(names: Option<NameMap>, id: Int32, value: Int32, mapValue: bool)
    requires InKeyDomain(id, value)
    ensures var shown :=
        if mapValue && names.Some? && value in names.value then names.value[value] else IntToString(value);
      GetTextAndValue(names, EncodeKey(id, value, mapValue))
        == NameOf(names, id) + (if value > 0 || mapValue then " (" + shown + ")" else "")
  {
    var key := EncodeKey(id, value, mapValue);
    DecodeEncodeKey(id, value, mapValue);
    TextAndValueDescribesDecodedKey(names, key);
    if mapValue {
      assert key == id + value * CompositeValueShift + MapValueFlag;
    } else {
      assert key == id + value * CompositeValueShift;
    }
  }

  /** An example: an event with value 2 is shown as " (2)", or " (Foo)" when mapped and named. */
  lemma ValueSuffixScenario()
    ensures GetTextAndValue(Some(map[2 := "Foo"]), EncodeKey(5, 2, false)) == " (2)"
    ensures GetTextAndValue(Some(map[2 := "Foo"]), EncodeKey(5, 2, true)) == " (Foo)"
  {
    var names := Some(map[2 := "Foo"]);
    assert InKeyDomain(5, 2);
    ValueSuffixRule(names, 5, 2, false);
    ValueSuffixRule(names, 5, 2, true);
    assert NameOf(names, 5) == "";
    assert names.value[2] == "Foo";
    assert IntToString(2) == "2";
  }

  // ---------------------------------------------------------------------------
  // AppendCounts
  // ---------------------------------------------------------------------------

  /** `OrderBy(k => k % 1024).ThenBy(k => k)`: a total order on keys. */
  predicate KeyBefore(a: int, b: int) {
    var ra := Rem(a, CompositeValueShift);
    var rb := Rem(b, CompositeValueShift);
    ra < rb || (ra == rb && a <= b)
  }

  predicate SortedKeys(s: seq<Int32>) {
    forall i, j :: 0 <= i < j < |s| ==> KeyBefore(s[i], s[j])
  }

  /** A head that precedes a sorted tail and a new key precedes their merge too. */
  lemma HeadBeforeInserted(head: Int32, x: Int32, tail: seq<Int32>, rest: seq<Int32>)
    requires SortedKeys([head] + tail) && KeyBefore(head, x)
    requires SortedKeys(rest) && multiset(rest) == multiset(tail) + multiset{x}
    ensures SortedKeys([head] + rest)
  {
    forall j | 0 <= j < |rest|
      ensures KeyBefore(head, rest[j])
    {
      assert rest[j] in multiset(rest);
      if rest[j] != x {
        assert rest[j] in multiset(tail);
        var k :| 0 <= k < |tail| && tail[k] == rest[j];
        assert ([head] + tail)[k + 1] == rest[j];
        assert KeyBefore(([head] + tail)[0], ([head] + tail)[k + 1]);
      }
    }
  }

  function InsertKey(x: Int32, s: seq<Int32>): (r: seq<Int32>)
    requires SortedKeys(s)
    ensures SortedKeys(r)
    ensures multiset(r) == multiset(s) + multiset{x}
  {
    if |s| == 0 then [x]
    else if KeyBefore(x, s[0]) then [x] + s
    else
      var rest := InsertKey(x, s[1..]);
      assert s == [s[0]] + s[1..];
      HeadBeforeInserted(s[0], x, s[1..], rest);
      [s[0]] + rest
  }

  /** The keys in report order: sorted, and a permutation of the input. */
  function SortKeys(s: seq<Int32>): (r: seq<Int32>)
    ensures SortedKeys(r)
    ensures multiset(r) == multiset(s)
  {
    if |s| == 0 then []
    else
      assert s == s[..|s| - 1] + [s[|s| - 1]];
      InsertKey(s[|s| - 1], SortKeys(s[..|s| - 1]))
  }

  lemma KeyBeforeAntisymmetric(a: int, b: int)
    requires KeyBefore(a, b) && KeyBefore(b, a)
    ensures a == b
  {
  }

  /** The head of a sorted sequence comes before every element of it. */
  lemma SortedHeadFirst(s: seq<Int32>, x: Int32)
    requires SortedKeys(s) && x in multiset(s)
    ensures KeyBefore(s[0], x)
  {
    assert x in s;
    var i :| 0 <= i < |s| && s[i] == x;
    if i > 0 {
      assert KeyBefore(s[0], s[i]);
    }
  }

  /** The report order is total: two sorted arrangements of the same keys coincide. */
  lemma {:induction false} SortedKeysUnique(a: seq<Int32>, b: seq<Int32>)
    requires SortedKeys(a) && SortedKeys(b)
    requires multiset(a) == multiset(b)
    ensures a == b
    decreases |a|
  {
    assert |a| == |multiset(a)| == |multiset(b)| == |b|;
    if |a| > 0 {
      SortedHeadFirst(b, a[0]);
      SortedHeadFirst(a, b[0]);
      KeyBeforeAntisymmetric(a[0], b[0]);
      SortedTail(a);
      SortedTail(b);
      SortedKeysUnique(a[1..], b[1..]);
      assert a == [a[0]] + a[1..] && b == [b[0]] + b[1..];
    }
  }

  /** The tail of a sorted sequence is sorted and holds everything but the head. */
  lemma SortedTail(s: seq<Int32>)
    requires SortedKeys(s) && |s| > 0
    ensures SortedKeys(s[1..])
    ensures multiset(s[1..]) == multiset(s) - multiset{s[0]}
  {
    assert s == [s[0]] + s[1..];
    forall i, j | 0 <= i < j < |s| - 1
      ensures KeyBefore(s[1..][i], s[1..][j])
    {
      assert KeyBefore(s[i + 1], s[j + 1]);
    }
  }

  /** `enumeration` lists each key of `counters` exactly once, in the dictionary's order. */
  predicate EnumeratesKeys(enumeration: seq<Int32>, counters: Counters) {
    && (forall i :: 0 <= i < |enumeration| ==> enumeration[i] in counters)
    && (forall k :: k in counters ==> k in enumeration)
    && (forall i, j :: 0 <= i < j < |enumeration| ==> enumeration[i] != enumeration[j])
  }

  /** `"[{0:000}] {1}: {2}"` followed by a newline. */
  function CounterLine(names: Option<NameMap>, key: Int32, count: int): string {
    "[" + Format000(Rem(key, CompositeValueShift)) + "] " + GetTextAndValue(names, key)
      + ": " + IntToString(count) + NewLine
  }

  function CounterLines(names: Option<NameMap>, counters: Counters, keys: seq<Int32>): string
    requires forall i :: 0 <= i < |keys| ==> keys[i] in counters
  {
    if |keys| == 0 then ""
    else
      CounterLines(names, counters, keys[..|keys| - 1])
      + CounterLine(names, keys[|keys| - 1], counters[keys[|keys| - 1]])
  }

  /** The counters section: one line per key, in report order. */
  function CountsText(names: Option<NameMap>, counters: Counters, enumeration: seq<Int32>): string
    requires EnumeratesKeys(enumeration, counters)
  {
    var sorted := SortKeys(enumeration);
    assert forall i :: 0 <= i < |sorted| ==> sorted[i] in multiset(enumeration);
    CounterLines(names, counters, sorted)
  }

  /**
    The counters section lists the keys in report order: it is the lines of
    any duplicate-free listing of the keys that is sorted by (key % 1024, key).
   */
  lemma CountsTextInReportOrder(names: Option<NameMap>, counters: Counters, enumeration: seq<Int32>, sorted: seq<Int32>)
    requires EnumeratesKeys(enumeration, counters)
    requires EnumeratesKeys(sorted, counters) && SortedKeys(sorted)
    ensures CountsText(names, counters, enumeration) == CounterLines(names, counters, sorted)
  {
    SameKeysSameMultiset(enumeration, sorted, counters);
    SortedKeysUnique(SortKeys(enumeration), sorted);
  }

  /** The report does not depend on the order in which the dictionary enumerates its keys. */
  lemma CountsTextIgnoresEnumerationOrder(names: Option<NameMap>, counters: Counters, e1: seq<Int32>, e2: seq<Int32>)
    requires EnumeratesKeys(e1, counters) && EnumeratesKeys(e2, counters)
    ensures CountsText(names, counters, e1) == CountsText(names, counters, e2)
  {
    SameKeysSameMultiset(e1, e2, counters);
    SortedKeysUnique(SortKeys(e1), SortKeys(e2));
  }

  lemma SameKeysSameMultiset(e1: seq<Int32>, e2: seq<Int32>, counters: Counters)
    requires EnumeratesKeys(e1, counters) && EnumeratesKeys(e2, counters)
    ensures multiset(e1) == multiset(e2)
  {
    forall k | true
      ensures multiset(e1)[k] == multiset(e2)[k]
    {
      DistinctMultiplicity(e1, k);
      DistinctMultiplicity(e2, k);
    }
  }

  /** In a duplicate-free sequence every element occurs once. */
  lemma {:induction false} DistinctMultiplicity(s: seq<Int32>, k: Int32)
    requires forall i, j :: 0 <= i < j < |s| ==> s[i] != s[j]
    ensures multiset(s)[k] == if k in s then 1 else 0
  {
    if |s| > 0 {
      var init := s[..|s| - 1];
      assert s == init + [s[|s| - 1]];
      DistinctMultiplicity(init, k);
      assert s[|s| - 1] !in init;
    }
  }

  /** `AppendCounts(stringBuilder, eventNameMap)`. */
  function AppendCounts(sb: Option<string>, names: Option<NameMap>, counters: Counters, enumeration: seq<Int32>): (r: Option<string>)
    requires EnumeratesKeys(enumeration, counters)
    ensures sb.None? <==> r.None?
    ensures sb.Some? ==> |r.value| >= |sb.value| && r.value[..|sb.value|] == sb.value
    ensures sb.Some? ==> r == Some(sb.value + CountsText(names, counters, enumeration))
  {
    if sb.None? then None else Some(sb.value + CountsText(names, counters, enumeration))
  }

  /**
    `AppendCounts` appends the counter lines in report order: for any
    duplicate-free listing of the keys sorted by (key % 1024, key), the
    builder gains exactly those keys' lines, whatever the dictionary's
    enumeration order.
   */
  lemma AppendCountsInReportOrder(sb: string, names: Option<NameMap>, counters: Counters,
                                  enumeration: seq<Int32>, sorted: seq<Int32>)
    requires EnumeratesKeys(enumeration, counters)
    requires EnumeratesKeys(sorted, counters) && SortedKeys(sorted)
    ensures AppendCounts(Some(sb), names, counters, enumeration) == Some(sb + CounterLines(names, counters, sorted))
  {
    CountsTextInReportOrder(names, counters, enumeration, sorted);
  }

  // ---------------------------------------------------------------------------
  // AppendTrace
  // ---------------------------------------------------------------------------

  /** The line for one slot: `"{0:o} [{1:000}] {2}"` and a newline, or nothing when the timestamp is not positive. */
  function SlotLine(names: Option<NameMap>, formatTime: int -> string, event: (int, Int32)): string {
    if event.0 > 0 then
      formatTime(event.0) + " [" + Format000(Rem(event.1, CompositeValueShift)) + "] "
        + GetTextAndValue(names, event.1) + NewLine
    else ""
  }

  /** The lines of a run of slots, in order. */
  function SlotLines(names: Option<NameMap>, formatTime: int -> string, entries: seq<(int, Int32)>): string {
    Lines((e: (int, Int32)) => SlotLine(names, formatTime, e), entries)
  }

  /** The trace section: the slot lines in the order the ring is read, oldest first. */
  function TraceText(names: Option<NameMap>, formatTime: int -> string, t: Trace): string
    requires Valid(t)
  {
    SlotLines(names, formatTime, Listing(t.events, t.cursor))
  }

  /**
    Adding an event appends its line to the trace section, less the line of
    the entry it overwrites: the section always reads oldest first.
   */
  lemma AddExtendsTraceText(names: Option<NameMap>, formatTime: int -> string, t: Trace,
                            eventId: Int32, mapValue: bool, ticks: int, stages: StageOrdinals)
    requires Valid(t)
    ensures var logged := if mapValue then WithMapFlag(eventId) else eventId;
      SlotLine(names, formatTime, Listing(t.events, t.cursor)[0])
        + TraceText(names, formatTime, Add(t, eventId, mapValue, ticks, stages))
      == TraceText(names, formatTime, t) + SlotLine(names, formatTime, (ticks, logged))
  {
    var logged := if mapValue then WithMapFlag(eventId) else eventId;
    var r := Add(t, eventId, mapValue, ticks, stages);
    assert Listing(r.events, r.cursor) == Listing(t.events, t.cursor)[1..] + [(ticks, logged)];
    LinesShift<(int, Int32)>((e: (int, Int32)) => SlotLine(names, formatTime, e), Listing(t.events, t.cursor), (ticks, logged));
  }

  /** `AppendTrace(stringBuilder, eventNameMap)`: the source's loop over the ring. */
  method AppendTrace(sb: Option<string>, names: Option<NameMap>, formatTime: int -> string, t: Trace)
    returns (r: Option<string>)
    requires Valid(t)
    ensures sb.None? ==> r.None?
    ensures sb.Some? ==> r == Some(sb.value + TraceText(names, formatTime, t))
  {
    if sb.None? {
      return None;
    }
    var out := sb.value;
    var index := t.cursor;
    ghost var order := VisitOrder(t.cursor);
    ghost var listing := Listing(t.events, t.cursor);
    for i := 0 to Capacity
      invariant index == if i == 0 then t.cursor else order[i - 1]
      invariant out == sb.value + SlotLines(names, formatTime, listing[..i])
    {
      NextVisitedSlot(t.cursor, i, index);
      index := (index + 1) % Capacity;
      var line := SlotLine(names, formatTime, t.events[index]);
      LinesStep((e: (int, Int32)) => SlotLine(names, formatTime, e), listing, i);
      Assoc(sb.value, SlotLines(names, formatTime, listing[..i]), line);
      out := out + line;
    }
    assert listing[..Capacity] == listing;
    r := Some(out);
  }

  // ---------------------------------------------------------------------------
  // AppendDiagnosticsComment
  // ---------------------------------------------------------------------------

  /** The opening line of the comment, then `Counters:`. */
  const DiagnosticsHeader: string := "/* Diagnostics" + NewLine + "Counters:" + NewLine
  /** The blank line and `Trace Log:` between the two sections. */
  const TraceLogHeader: string := NewLine + "Trace Log:" + NewLine
  /** The line that closes the comment. */
  const DiagnosticsFooter: string := "*/" + NewLine

  /** The comment layout: header, counters, a blank line, the trace log, the closing line. */
  function DiagnosticsText(names: Option<NameMap>, formatTime: int -> string, t: Trace, enumeration: seq<Int32>): string
    requires Valid(t) && EnumeratesKeys(enumeration, t.counters)
  {
    DiagnosticsHeader + CountsText(names, t.counters, enumeration) + TraceLogHeader
      + TraceText(names, formatTime, t) + DiagnosticsFooter
  }

  lemma Regroup(s: string, a: string, b: string, c: string, d: string, e: string)
    ensures ((((s + a) + b) + c) + d) + e == s + ((((a + b) + c) + d) + e)
  {
  }

  /** `AppendDiagnosticsComment(stringBuilder, eventNameMap)`. */
  method AppendDiagnosticsComment(sb: Option<string>, names: Option<NameMap>, formatTime: int -> string,
                                  t: Trace, enumeration: seq<Int32>)
    returns (r: Option<string>)
    requires Valid(t) && EnumeratesKeys(enumeration, t.counters)
    ensures sb.None? ==> r.None?
    ensures sb.Some? ==> r == Some(sb.value + DiagnosticsText(names, formatTime, t, enumeration))
  {
    if sb.None? {
      return None;
    }
    var counted := AppendCounts(Some(sb.value + DiagnosticsHeader), names, t.counters, enumeration);
    var traced := AppendTrace(Some(counted.value + TraceLogHeader), names, formatTime, t);
    r := Some(traced.value + DiagnosticsFooter);
    Regroup(sb.value, DiagnosticsHeader, CountsText(names, t.counters, enumeration), TraceLogHeader,
      TraceText(names, formatTime, t), DiagnosticsFooter);
  }
}
