# IncrementalGeneratorExtensions in Dafny

A Dafny model of the runtime core of `Datacute.IncrementalGeneratorExtensions`.
It is a set of helpers that C# incremental source generators embed in themselves.
The model covers:

- **Diagnostics tracing** (`LightweightTrace`, `RingBuffer`, `TraceReport`):
  - A 1024-slot event ring written through an ever-increasing cursor.
  - The packing of an event id, a value and a "mapped value" flag (bit 28) into one `int` key.
  - The counters dictionary.
  - The text renderings: the trace log, the counters sorted by `(key % 1024, key)`, and the diagnostics comment.
- **The legacy trace** (`LegacyTrace`). This is the older root-project `LightweightTrace`. It shares the ring mechanics and renders with its own `/ 1000` split of event ids.
- **Value-equal arrays** (`HashCombine`, `EquatableArrays`, `InstanceCache`):
  - The `HashHelpers_Combine` hash.
  - The fold of element hashes.
  - The `Equals` ladder: reference, null, hash, length, then elements.
  - The root project's weak-reference instance cache. Its `Create` returns an existing instance for values it has seen, prunes dead references, and honours cancellation.
- **The indenting line appender** (`LineAppender`):
  - The indentation level and its cached indentation strings.
  - Block start/end.
  - `AppendLines` over `StringReader.ReadLine`.
  - The exceptions a negative `new string` length raises.
- **Attribute contexts and the source generator base** (`AttributeContext`, `SourceTextGenerator`):
  - Value equality and hashing of `AttributeContextAndData<T>`.
  - `CreateHintName`.
  - The default `AppendSource` sequence. Every block it opens is closed again.

Support modules:

- `Wrappers`: `Option`.
- `CSharpInt`: the `int` range, wrap-around, and truncating `/` and `%`.
- `Text`:
  - The abstract `NewLine`.
  - `new string(c, n)`.
  - Decimal rendering and `{0:000}` padding.
  - Concatenating rendered lines.

### How C# is represented

- **Exceptions.** An operation that can throw returns a value that says so, with the one exception listed under "Left out" (a default `ImmutableArray<T>` passed to `Create`). `Option` is used where the exception is the only outcome, such as a null argument or a negative length. `Step = Done | Threw` carries the appender state at the moment of the throw.
- **State.** Mutable state is passed in and returned: the ring, the counters, the cache and the appender.
- **Environment inputs.** These are parameters:
  - The stopwatch reading.
  - The `"o"` date formatting.
  - The cancellation token.
  - The element hash `EqualityComparer<T>.Default.GetHashCode`.
  - The set of instances still alive (garbage collection).
  - The dictionary enumeration order.
- **Integer types.** `int` values are the `Int32` subset type. The bit operations on bit 28 are stated arithmetically. Hashes are `bv32`.

Where the code and its documentation differ, the model follows the code:

- `LightweightTrace.Add` counts method exits as method calls. See `MethodExitIsCountedAsCall`.
- The legacy trace prints event 1000 as event 0. Its guard is `eventId > 1000`. See `ThousandShowsAsZero`.

## Model

| member | source | states |
|---|---|---|
| CSharpInt.Wrap32 | IncrementalGeneratorExtensions.Content/Datacute/IncrementalGeneratorExtensions/LightweightTrace.cs:227 | unchecked `int` arithmetic: the result is in range, congruent to the exact value modulo 2^32, and equal to it when it already fits |
| CSharpInt.Div | IncrementalGeneratorExtensions.Content/Datacute/IncrementalGeneratorExtensions/LightweightTrace.cs:241 | C# `/` truncates toward zero: the quotient's bounds for non-negative and for negative dividends |
| CSharpInt.Rem | IncrementalGeneratorExtensions.Content/Datacute/IncrementalGeneratorExtensions/LightweightTrace.cs:240 | C# `%` satisfies `a == (a / b) * b + a % b` and takes the dividend's sign |
| CSharpInt.IncrementDecrement | IncrementalGeneratorExtensions.Content/Datacute/IncrementalGeneratorExtensions/IndentingLineAppender.cs:201-227 | `++` then `--` on an `int` gives back the original value, across the wrap at `int.MaxValue` too |
| Text.Repeat | IncrementalGeneratorExtensions.Content/Datacute/IncrementalGeneratorExtensions/IndentingLineAppender.cs:117 | `new string(c, n)` has length `n` and every character is `c` |
| Text.NatToString | IncrementalGeneratorExtensions.Content/Datacute/IncrementalGeneratorExtensions/LightweightTrace.cs:273 | `$"{value}"` of a non-negative value is a non-empty digit string without a leading zero |
| Text.ParseNatToString | IncrementalGeneratorExtensions.Content/Datacute/IncrementalGeneratorExtensions/LightweightTrace.cs:273 | reading the rendered decimal back gives the number (round trip) |
| Text.Format000 | IncrementalGeneratorExtensions.Content/Datacute/IncrementalGeneratorExtensions/LightweightTrace.cs:120-122 | `{0:000}` gives at least three digits that read back as the number; a negative number gets a leading `-` before its padded magnitude (the negative sign of a culture that uses ASCII `-`) |
| RingBuffer.NextSlot | IncrementalGeneratorExtensions.Content/Datacute/IncrementalGeneratorExtensions/LightweightTrace.cs:73 | `Interlocked.Increment(ref _index) % Capacity` is always a valid slot |
| RingBuffer.VisitOrderCoversEachSlotOnce | IncrementalGeneratorExtensions.Content/Datacute/IncrementalGeneratorExtensions/LightweightTrace.cs:112-116 | the reader visits every one of the 1024 slots exactly once, starting with the slot the next write goes to and ending with the cursor's own slot |
| RingBuffer.PushListing | IncrementalGeneratorExtensions.Content/Datacute/IncrementalGeneratorExtensions/LightweightTrace.cs:73-74 | a write followed by the cursor's advance drops the oldest entry from the reading order and appends the new one, so the ring always reads oldest first |
| LightweightTrace.WithMapFlag | IncrementalGeneratorExtensions.Content/Datacute/IncrementalGeneratorExtensions/LightweightTrace.cs:74 | `key \| MapValueFlag` sets bit 28, adds 2^28 only when the bit was clear, stays an `int`, and keeps `key % 1024` for non-negative keys |
| LightweightTrace.WithoutMapFlag | IncrementalGeneratorExtensions.Content/Datacute/IncrementalGeneratorExtensions/LightweightTrace.cs:239 | `key & ~MapValueFlag` clears bit 28, subtracts 2^28 only when it was set, and keeps the sign |
| LightweightTrace.EncodeKey | IncrementalGeneratorExtensions.Content/Datacute/IncrementalGeneratorExtensions/LightweightTrace.cs:227 | `id + value * 1024 + flag` with unchecked wrap-around; in the packing domain it does not wrap, is non-negative and carries bit 28 exactly when `mapValue` |
| LightweightTrace.DecodeKey | IncrementalGeneratorExtensions.Content/Datacute/IncrementalGeneratorExtensions/LightweightTrace.cs:236-242 | the flag is bit 28, `id + value * 1024` rebuilds the unflagged key, and the id lies strictly between -1024 and 1024 |
| LightweightTrace.DecodeEncodeKey | IncrementalGeneratorExtensions.Content/Datacute/IncrementalGeneratorExtensions/LightweightTrace.cs:227-242 | decoding an encoded key gives back id, value and flag, for ids 0..1023 and non-negative values whose packed key stays below bit 28 |
| LightweightTrace.EncodeDecodeKey | IncrementalGeneratorExtensions.Content/Datacute/IncrementalGeneratorExtensions/LightweightTrace.cs:227-242 | every `int` key is the encoding of its own decoding (the other round trip) |
| LightweightTrace.IncrementCount | IncrementalGeneratorExtensions.Content/Datacute/IncrementalGeneratorExtensions/LightweightTrace.cs:171 | `AddOrUpdate(id, 1, +1)`: the key is present afterwards with one more than before (absent counts as 0) and every other count is unchanged |
| LightweightTrace.DecrementCount | IncrementalGeneratorExtensions.Content/Datacute/IncrementalGeneratorExtensions/LightweightTrace.cs:184 | `AddOrUpdate(id, -1, -1)`: the key's count drops by one and every other count is unchanged |
| LightweightTrace.IncrementValueCount | IncrementalGeneratorExtensions.Content/Datacute/IncrementalGeneratorExtensions/LightweightTrace.cs:178 | the counter under `EncodeKey(id, value, mapValue)` grows by one (for every argument, wrapped key included) and no other counter changes; in the packing domain that key is the unique key decoding to (id, value, mapValue) |
| LightweightTrace.DecrementValueCount | IncrementalGeneratorExtensions.Content/Datacute/IncrementalGeneratorExtensions/LightweightTrace.cs:191 | the counter under `EncodeKey(id, value, mapValue)` drops by one (for every argument) and no other counter changes; in the packing domain that key is the unique key decoding to (id, value, mapValue) |
| LightweightTrace.IncrementThenDecrement | IncrementalGeneratorExtensions.Content/Datacute/IncrementalGeneratorExtensions/LightweightTrace.cs:171-184 | an increment followed by a decrement of the same key leaves every count as it was |
| LightweightTrace.IncrementTimesCounts | IncrementalGeneratorExtensions.Content/Datacute/IncrementalGeneratorExtensions/LightweightTrace.cs:171 | `n` increments add `n` to that key's count and change no other count |
| LightweightTrace.Add | IncrementalGeneratorExtensions.Content/Datacute/IncrementalGeneratorExtensions/LightweightTrace.cs:71-83 | the event (flagged when asked) goes to the next slot and nothing else in the ring changes; the reading order shifts by one; an event whose `id / 1024` is the method-exit stage leaves the counters alone, and any other event adds one to the method-call counter for `id % 1024` and to no other |
| LightweightTrace.AddValue | IncrementalGeneratorExtensions.Content/Datacute/IncrementalGeneratorExtensions/LightweightTrace.cs:65 | the logged key decodes to the event id, value and flag that were passed |
| LightweightTrace.MethodEntry | IncrementalGeneratorExtensions.Content/Datacute/IncrementalGeneratorExtensions/LightweightTrace.cs:91 | logs the event in the next slot as a key decoding to (eventId, MethodEntry, mapped), and counts exactly one method call of `eventId`, no other counter moving, unless MethodExit's ordinal happens to equal MethodEntry's plus 2^18 |
| LightweightTrace.MethodExit | IncrementalGeneratorExtensions.Content/Datacute/IncrementalGeneratorExtensions/LightweightTrace.cs:97 | logs the event in the next slot as a key decoding to (eventId, MethodExit, mapped) |
| LightweightTrace.MethodExitIsCountedAsCall | IncrementalGeneratorExtensions.Content/Datacute/IncrementalGeneratorExtensions/LightweightTrace.cs:76-97 | `MethodExit` passes `mapValue: true`, so the flag makes `id / 1024` differ from the exit stage and the exit is counted as a method call |
| LightweightTrace.UnmappedExitIsNotCounted | IncrementalGeneratorExtensions.Content/Datacute/IncrementalGeneratorExtensions/LightweightTrace.cs:76-79 | an exit-stage key without the flag skips the counter, as the guard intends |
| TraceReport.GetTextAndValue | IncrementalGeneratorExtensions.Content/Datacute/IncrementalGeneratorExtensions/LightweightTrace.cs:244-278 | a key below 1024 shows only the id's name; a larger key shows the name, then a value in parentheses |
| TraceReport.TextAndValueDescribesDecodedKey | IncrementalGeneratorExtensions.Content/Datacute/IncrementalGeneratorExtensions/LightweightTrace.cs:244-278 | the text is the description of `DecodeKey(key)`: the id's name, and the value named through the map when flagged, or else in decimal |
| TraceReport.ValueSuffixRule | IncrementalGeneratorExtensions.Content/Datacute/IncrementalGeneratorExtensions/LightweightTrace.cs:244-278 | for every encoded event in the packing domain: the id's name, then a value suffix exactly when the value is positive or the key is flagged, showing the value's name when flagged and named, and its decimal digits otherwise |
| TraceReport.ValueSuffixScenario | IncrementalGeneratorExtensions.Content/Datacute/IncrementalGeneratorExtensions/LightweightTrace.cs:264-277 | an example of the rule: with the table {2: "Foo"}, the event (5, 2) is shown with " (2)" unflagged and " (Foo)" flagged |
| TraceReport.InsertKey | IncrementalGeneratorExtensions.Content/Datacute/IncrementalGeneratorExtensions/LightweightTrace.cs:207 | insertion keeps the `(key % 1024, key)` order and adds exactly the one key |
| TraceReport.SortKeys | IncrementalGeneratorExtensions.Content/Datacute/IncrementalGeneratorExtensions/LightweightTrace.cs:207 | `OrderBy(key % 1024).ThenBy(key)` gives a sorted permutation of the keys |
| TraceReport.SortedKeysUnique | IncrementalGeneratorExtensions.Content/Datacute/IncrementalGeneratorExtensions/LightweightTrace.cs:207 | the order is total: two sorted permutations of the same keys are equal |
| TraceReport.CountsTextInReportOrder | IncrementalGeneratorExtensions.Content/Datacute/IncrementalGeneratorExtensions/LightweightTrace.cs:199-218 | the counters section lists the counters in the sorted key order, whatever order the dictionary enumerates them in |
| TraceReport.CountsTextIgnoresEnumerationOrder | IncrementalGeneratorExtensions.Content/Datacute/IncrementalGeneratorExtensions/LightweightTrace.cs:207 | two enumerations of the same counters give the same text |
| TraceReport.AppendCounts | IncrementalGeneratorExtensions.Content/Datacute/IncrementalGeneratorExtensions/LightweightTrace.cs:199-218 | a null builder stays null; otherwise the builder's content is kept and exactly the counters section is appended |
| TraceReport.AppendCountsInReportOrder | IncrementalGeneratorExtensions.Content/Datacute/IncrementalGeneratorExtensions/LightweightTrace.cs:199-218 | the appended text is the counter lines of the keys sorted by `(key % 1024, key)`, whatever order the dictionary enumerates them in |
| TraceReport.AddExtendsTraceText | IncrementalGeneratorExtensions.Content/Datacute/IncrementalGeneratorExtensions/LightweightTrace.cs:105-127 | after `Add`, the trace log loses the oldest slot's line and gains the new event's line at the end |
| TraceReport.AppendTrace | IncrementalGeneratorExtensions.Content/Datacute/IncrementalGeneratorExtensions/LightweightTrace.cs:105-127 | the loop appends, for every slot in reading order with a positive timestamp, its line; nothing for a null builder |
| TraceReport.AppendDiagnosticsComment | IncrementalGeneratorExtensions.Content/Datacute/IncrementalGeneratorExtensions/LightweightTrace.cs:290-304 | the comment is the header, the counters, a blank line, the trace-log heading, the trace and the closing `*/`; nothing for a null builder |
| LegacyTrace.Initial | IncrementalGeneratorExtensions/LightweightTrace.cs:17-18 | a fresh ring: cursor 0 and every timestamp 0 |
| LegacyTrace.Add | IncrementalGeneratorExtensions/LightweightTrace.cs:22-26 | the event goes to the next slot, nothing else changes, and the reading order shifts by one |
| LegacyTrace.AddAll | IncrementalGeneratorExtensions/LightweightTrace.cs:22-26 | a run of adds advances the cursor by its length |
| LegacyTrace.AddAllListing | IncrementalGeneratorExtensions/LightweightTrace.cs:22-26 | after a run of adds the ring reads as the last 1024 entries of the old reading order followed by the run |
| LegacyTrace.FullRingListsInInsertionOrder | IncrementalGeneratorExtensions/LightweightTrace.cs:22-33 | after exactly 1024 adds the ring reads back exactly those events, in the order they were added |
| LegacyTrace.EventLine | IncrementalGeneratorExtensions/LightweightTrace.cs:34-49 | a slot whose timestamp is not positive writes nothing |
| LegacyTrace.AppendSlotLines | IncrementalGeneratorExtensions/LightweightTrace.cs:30-50 | walking the 1024 slots from the one after the cursor appends, to the existing text, exactly the lines of the occupied slots in reading order (oldest first) |
| LegacyTrace.FindOccupied | IncrementalGeneratorExtensions/LightweightTrace.cs:30-35 | the same walk reaches a slot with a positive timestamp exactly when the ring has one, which is when the first dereference of a null argument happens |
| LegacyTrace.GetTrace | IncrementalGeneratorExtensions/LightweightTrace.cs:28-51 | with a builder and a name table, the loop appends the lines of the slots in reading order; a null builder or table throws `NullReferenceException` exactly when some slot is occupied, and otherwise returns with the builder untouched |
| LegacyTrace.FreshTraceListsRecentEvents | IncrementalGeneratorExtensions/LightweightTrace.cs:22-51 | starting from an empty ring, the trace lists exactly the most recent (at most 1024) events, oldest first |
| LegacyTrace.EmptySlotsShowNothing | IncrementalGeneratorExtensions/LightweightTrace.cs:35 | slots never written contribute no text |
| LegacyTrace.SplitEventId | IncrementalGeneratorExtensions/LightweightTrace.cs:38-45 | `value * 1000 + id` splits back into id and value, and the value suffix is empty exactly when the value is 0 or the event id is exactly 1000 |
| LegacyTrace.ThousandShowsAsZero | IncrementalGeneratorExtensions/LightweightTrace.cs:38-45 | event id 1000 is printed exactly as event id 0 |
| HashCombine.RotateLeft5IsRotation | IncrementalGeneratorExtensions/EquatableImmutableArray.cs:167 | `(h << 5) \| (h >> 27)` on `uint` is a rotation left by 5 |
| HashCombine.Combine | IncrementalGeneratorExtensions/EquatableImmutableArray.cs:163-169 | `(rol5(h1) + h1) ^ h2`: the element hash `h2` is recovered from the result by xor-ing the same mix of `h1` again |
| HashCombine.CombineInjective | IncrementalGeneratorExtensions/EquatableImmutableArray.cs:163-169 | for a fixed running hash, different element hashes give different combined hashes |
| EquatableArrays.Empty | IncrementalGeneratorExtensions.Content/Datacute/IncrementalGeneratorExtensions/EquatableImmutableArray.cs:20 | the shared empty instance holds no values |
| EquatableArrays.HashFoldAppend | IncrementalGeneratorExtensions.Content/Datacute/IncrementalGeneratorExtensions/EquatableImmutableArray.cs:126-135 | hashing a concatenation is hashing the second part starting from the first part's hash |
| EquatableArrays.HashResumable | IncrementalGeneratorExtensions.Content/Datacute/IncrementalGeneratorExtensions/EquatableImmutableArray.cs:126-135 | resuming the hash at any index from the prefix's hash gives the hash of the whole array |
| EquatableArrays.CalculateHashCode | IncrementalGeneratorExtensions.Content/Datacute/IncrementalGeneratorExtensions/EquatableImmutableArray.cs:126-135 | the loop folds `Combine` over the element hashes (0 for null) from `startIndex` on, starting at `currentHash`; a start past the end returns `currentHash` |
| EquatableArrays.Create | IncrementalGeneratorExtensions.Content/Datacute/IncrementalGeneratorExtensions/EquatableImmutableArray.cs:29-41 | with the cache excluded: `Empty` for no values, otherwise a new instance over the values whose hash is the fold from 0 |
| EquatableArrays.SizeViewsAgree | IncrementalGeneratorExtensions.Content/Datacute/IncrementalGeneratorExtensions/EquatableImmutableArray.cs:54-65 | `Count` and `Length` agree, and `IsEmpty` holds exactly for count 0 |
| EquatableArrays.Count | IncrementalGeneratorExtensions.Content/Datacute/IncrementalGeneratorExtensions/EquatableImmutableArray.cs:54 | `Count` agrees with `Length` |
| EquatableArrays.Length | IncrementalGeneratorExtensions.Content/Datacute/IncrementalGeneratorExtensions/EquatableImmutableArray.cs:61 | `Length` is 0 exactly for an array with no values |
| EquatableArrays.IsEmpty | IncrementalGeneratorExtensions.Content/Datacute/IncrementalGeneratorExtensions/EquatableImmutableArray.cs:65 | true exactly when there are no values, so in particular for `Empty` |
| EquatableArrays.ValueEquals | IncrementalGeneratorExtensions.Content/Datacute/IncrementalGeneratorExtensions/EquatableImmutableArray.cs:86-115 | whatever the ladder accepts, the same instance included, has the same hash and the same elements |
| EquatableArrays.Equals | IncrementalGeneratorExtensions.Content/Datacute/IncrementalGeneratorExtensions/EquatableImmutableArray.cs:86-115 | the ladder returns true exactly for the same instance, or for a non-null instance with the same hash and the same elements |
| EquatableArrays.EqualsIsElementEquality | IncrementalGeneratorExtensions.Content/Datacute/IncrementalGeneratorExtensions/EquatableImmutableArray.cs:86-115 | for instances whose hash is the fold of their elements, `Equals` holds exactly when the elements are equal |
| EquatableArrays.EqualsSymmetric | IncrementalGeneratorExtensions.Content/Datacute/IncrementalGeneratorExtensions/EquatableImmutableArray.cs:86-121 | `Equals` is symmetric, and equal instances report equal hash codes |
| EquatableArrays.EqualsObject | IncrementalGeneratorExtensions.Content/Datacute/IncrementalGeneratorExtensions/EquatableImmutableArray.cs:118 | `Equals(object)` is true only for another array that `Equals` accepts |
| InstanceCache.InitialValid | IncrementalGeneratorExtensions/EquatableImmutableArray.cs:28 | the empty cache satisfies the cache invariant |
| InstanceCache.Live | IncrementalGeneratorExtensions/EquatableImmutableArray.cs:50-60 | pruning dead references keeps only entries that were in the list and are still alive |
| InstanceCache.LiveMember | IncrementalGeneratorExtensions/EquatableImmutableArray.cs:50-60 | pruning never drops an entry that is alive |
| InstanceCache.LiveAppend | IncrementalGeneratorExtensions/EquatableImmutableArray.cs:50-60 | pruning keeps the surviving entries in order: pruning a concatenation is the concatenation of the pruned parts |
| InstanceCache.LiveOne | IncrementalGeneratorExtensions/EquatableImmutableArray.cs:50-60 | a single entry survives pruning exactly when its target is alive |
| InstanceCache.Kept | IncrementalGeneratorExtensions/EquatableImmutableArray.cs:46-61 | the part of the list the backwards scan did not reach is kept as it was, and nothing new enters the list |
| InstanceCache.Scan | IncrementalGeneratorExtensions/EquatableImmutableArray.cs:46-61 | the backwards scan returns the latest alive entry with equal values, with no later alive match; or it reports that no alive entry matches, having checked cancellation once per entry; or it reports the cancellation check that threw |
| InstanceCache.Create | IncrementalGeneratorExtensions/EquatableImmutableArray.cs:31-81 | `Empty` for no values; without cancellation it always returns an instance over the values; only this hash's list changes; the list holds only its old entries and the new instance; the result is that new instance or an old entry; a cancelled call allocates nothing and leaves the hash's list as the entries checked before the throw followed by the still-live entries after them (the whole list unchanged when the throw comes before the first check) |
| InstanceCache.CancelledKeepsLiveEntries | IncrementalGeneratorExtensions/EquatableImmutableArray.cs:40-72 | a cancelled call keeps every entry of the hash's list whose target is still alive, and allocates no identity |
| InstanceCache.CreatePreservesValid | IncrementalGeneratorExtensions/EquatableImmutableArray.cs:31-81 | the cache invariant is kept, and the returned instance's hash is the fold of its values |
| InstanceCache.MissAppendsNewInstance | IncrementalGeneratorExtensions/EquatableImmutableArray.cs:65-78 | when no alive entry matches, a new instance is appended after the pruned list and identities advance by one |
| InstanceCache.HitReturnsLastMatch | IncrementalGeneratorExtensions/EquatableImmutableArray.cs:46-60 | when the bucket has a live entry with equal values, an uncancelled call returns the latest such entry, allocates nothing (identities do not advance), and keeps the bucket up to it plus the live entries after it |
| InstanceCache.ScanFindsLastMatch | IncrementalGeneratorExtensions/EquatableImmutableArray.cs:46-54 | without cancellation the scan stops exactly at the last alive entry with equal values |
| InstanceCache.CreatedIsLastMatch | IncrementalGeneratorExtensions/EquatableImmutableArray.cs:31-81 | after `Create`, the result is in its hash's list and no later entry has the same values |
| InstanceCache.CreateTwiceSameInstance | IncrementalGeneratorExtensions/EquatableImmutableArray.cs:31-81 | creating equal values again returns the very same instance while that instance is alive |
| InstanceCache.CalculateHashCode | IncrementalGeneratorExtensions/EquatableImmutableArray.cs:101-111 | the loop computes the fold of `Combine` from 0 |
| InstanceCache.ValuesEqual | IncrementalGeneratorExtensions/EquatableImmutableArray.cs:83-99 | the length check and element loop return true exactly when the arrays are equal |
| LineAppender.NewString | IncrementalGeneratorExtensions.Content/Datacute/IncrementalGeneratorExtensions/IndentingLineAppender.cs:117 | `new string(c, n)` throws exactly for negative `n` and otherwise has `n` copies of `c` |
| LineAppender.New | IncrementalGeneratorExtensions.Content/Datacute/IncrementalGeneratorExtensions/IndentingLineAppender.cs:84-98 | a null builder or a negative repetition throws; otherwise the appender keeps the builder's text, starts at level 0 with no indentation and an empty cache, keeps the caller's configuration (indentation character, repetition, block start and end), and `SingleIndent` is the repeated character |
| LineAppender.NewDefault | IncrementalGeneratorExtensions.Content/Datacute/IncrementalGeneratorExtensions/IndentingLineAppender.cs:55-57 | the parameterless constructor never throws and gives a valid, empty appender with the default configuration at level 0 |
| LineAppender.StringForIndent | IncrementalGeneratorExtensions.Content/Datacute/IncrementalGeneratorExtensions/IndentingLineAppender.cs:113-122 | only the cache changes; the lookup succeeds exactly when `new string(c, n * rep)` does, gives that string, and caches it |
| LineAppender.SetIndentLevel | IncrementalGeneratorExtensions.Content/Datacute/IncrementalGeneratorExtensions/IndentingLineAppender.cs:42-50 | the level is stored even when the indentation string then throws; on success the current indentation is that level's string |
| LineAppender.Clear | IncrementalGeneratorExtensions.Content/Datacute/IncrementalGeneratorExtensions/IndentingLineAppender.cs:128-134 | empties the buffer, returns to level 0 with no indentation, and keeps configuration and cache |
| LineAppender.AppendIndent | IncrementalGeneratorExtensions.Content/Datacute/IncrementalGeneratorExtensions/IndentingLineAppender.cs:140-144 | appends exactly the current indentation; the old text stays a prefix, nothing else changes, and the appender stays valid |
| LineAppender.AppendNewLine | IncrementalGeneratorExtensions.Content/Datacute/IncrementalGeneratorExtensions/IndentingLineAppender.cs:150-154 | appends exactly a newline; the old text stays a prefix, nothing else changes, and the appender stays valid |
| LineAppender.AppendLine | IncrementalGeneratorExtensions.Content/Datacute/IncrementalGeneratorExtensions/IndentingLineAppender.cs:161-165 | appends exactly the current indentation, the line and a newline; nothing else changes, and the appender stays valid |
| LineAppender.Append | IncrementalGeneratorExtensions.Content/Datacute/IncrementalGeneratorExtensions/IndentingLineAppender.cs:172-176 | appends exactly the text, without indentation; nothing else changes, and the appender stays valid |
| LineAppender.AppendChar | IncrementalGeneratorExtensions.Content/Datacute/IncrementalGeneratorExtensions/IndentingLineAppender.cs:183-187 | appends exactly the character; nothing else changes, and the appender stays valid |
| LineAppender.AppendsOnlyExtendTheBuffer | IncrementalGeneratorExtensions.Content/Datacute/IncrementalGeneratorExtensions/IndentingLineAppender.cs:140-187 | each append keeps the existing text and adds exactly its own piece (indentation and line and newline, text, or character), changing nothing else |
| LineAppender.AppendStartBlock | IncrementalGeneratorExtensions.Content/Datacute/IncrementalGeneratorExtensions/IndentingLineAppender.cs:201-207 | the block start is written at the old indentation whether or not the level change then throws; the level rises with wrap-around, and the call succeeds exactly when the new indentation can be built, leaving a valid appender |
| LineAppender.AppendEndBlock | IncrementalGeneratorExtensions.Content/Datacute/IncrementalGeneratorExtensions/IndentingLineAppender.cs:221-227 | the level drops first; the call succeeds exactly when the new indentation can be built and then writes the block end at it; when it throws nothing is written |
| LineAppender.StartBlockWritesAtOldIndent | IncrementalGeneratorExtensions.Content/Datacute/IncrementalGeneratorExtensions/IndentingLineAppender.cs:201-207 | the block start is written at the old indentation, then the level rises (wrapping at `int.MaxValue`) and succeeds exactly when the new indentation can be built |
| LineAppender.EndBlockWritesAtNewIndent | IncrementalGeneratorExtensions.Content/Datacute/IncrementalGeneratorExtensions/IndentingLineAppender.cs:221-227 | the level drops first and the block end is written at the new indentation; when that indentation throws, nothing is written |
| LineAppender.StartThenEndRestores | IncrementalGeneratorExtensions.Content/Datacute/IncrementalGeneratorExtensions/IndentingLineAppender.cs:201-227 | a block start followed by a block end returns to the same level and indentation, with both brace lines at the outer indentation |
| LineAppender.EndBlockAtLevelZero | IncrementalGeneratorExtensions.Content/Datacute/IncrementalGeneratorExtensions/IndentingLineAppender.cs:221-227 | ending a block at level 0 moves to level -1 and throws exactly when the repetition is positive, writing nothing |
| LineAppender.DefaultIndentAt | IncrementalGeneratorExtensions.Content/Datacute/IncrementalGeneratorExtensions/IndentingLineAppender.cs:14-17 | with the defaults the indentation of a level is four spaces per level |
| LineAppender.DefaultStartBlock | IncrementalGeneratorExtensions.Content/Datacute/IncrementalGeneratorExtensions/IndentingLineAppender.cs:201-207 | with the defaults a block start never throws, writes `{` at the old indentation and goes one level deeper |
| LineAppender.DefaultEndBlock | IncrementalGeneratorExtensions.Content/Datacute/IncrementalGeneratorExtensions/IndentingLineAppender.cs:221-227 | with the defaults, above level 0, a block end never throws and writes `}` at the level it returns to |
| LineAppender.LineEnd | IncrementalGeneratorExtensions.Content/Datacute/IncrementalGeneratorExtensions/IndentingLineAppender.cs:250 | finds the first `\r` or `\n` at or after the position, or the end |
| LineAppender.ReadLine | IncrementalGeneratorExtensions.Content/Datacute/IncrementalGeneratorExtensions/IndentingLineAppender.cs:250 | `StringReader.ReadLine` returns a line without line breaks and consumes at least one character |
| LineAppender.ReadLinesHaveNoBreaks | IncrementalGeneratorExtensions.Content/Datacute/IncrementalGeneratorExtensions/IndentingLineAppender.cs:250 | no line read contains a line break |
| LineAppender.ReadLinesTerminated | IncrementalGeneratorExtensions.Content/Datacute/IncrementalGeneratorExtensions/IndentingLineAppender.cs:247-261 | reading back lines that were each followed by `\n`, `\r` or `\r\n` gives exactly those lines |
| LineAppender.ReadLinesTrailingBreak | IncrementalGeneratorExtensions.Content/Datacute/IncrementalGeneratorExtensions/IndentingLineAppender.cs:250 | a final `\n` adds no empty line |
| LineAppender.AppendLines | IncrementalGeneratorExtensions.Content/Datacute/IncrementalGeneratorExtensions/IndentingLineAppender.cs:240-264 | null or empty content changes nothing; otherwise every line read is appended at the current indentation, and empty lines get only a newline |
| AttributeContext.HasContainingTypes | IncrementalGeneratorExtensions.Content/Datacute/IncrementalGeneratorExtensions/AttributeContextAndData.cs:58 | throws on a null array; otherwise true exactly when there is at least one containing type |
| AttributeContext.ContainingNamespaceIsGlobalNamespace | IncrementalGeneratorExtensions.Content/Datacute/IncrementalGeneratorExtensions/AttributeContextAndData.cs:50 | a null or empty namespace, which is exactly when the hint name gets no namespace prefix |
| AttributeContext.GetHashCode | IncrementalGeneratorExtensions.Content/Datacute/IncrementalGeneratorExtensions/AttributeContextAndData.cs:94-104 | throws exactly when the containing-types array is null |
| AttributeContext.Equals | IncrementalGeneratorExtensions.Content/Datacute/IncrementalGeneratorExtensions/AttributeContextAndData.cs:83-87 | equal values generate the same hint name for every generator name |
| AttributeContext.EqualsIsEquivalence | IncrementalGeneratorExtensions.Content/Datacute/IncrementalGeneratorExtensions/AttributeContextAndData.cs:83-87 | `Equals` is reflexive, symmetric and transitive |
| AttributeContext.EqualImpliesSameHash | IncrementalGeneratorExtensions.Content/Datacute/IncrementalGeneratorExtensions/AttributeContextAndData.cs:83-104 | equal values have equal hash codes |
| AttributeContext.NullableFlagIgnored | IncrementalGeneratorExtensions.Content/Datacute/IncrementalGeneratorExtensions/AttributeContextAndData.cs:83-104 | the nullable-context flag takes part in neither equality nor hashing |
| AttributeContext.EqualsNeedsEachField | IncrementalGeneratorExtensions.Content/Datacute/IncrementalGeneratorExtensions/AttributeContextAndData.cs:83-87 | equal values agree on context, containing types' elements, attribute data and the file-scoped flag |
| AttributeContext.CreateHintName | IncrementalGeneratorExtensions.Content/Datacute/IncrementalGeneratorExtensions/AttributeContextAndData.cs:111-130 | the builder loop gives the namespace and a dot (unless global), each containing type's hint name and a dot, then the type's hint name, the generator name and `.g.cs`; it throws on a null array or element |
| AttributeContext.HintNameShape | IncrementalGeneratorExtensions.Content/Datacute/IncrementalGeneratorExtensions/AttributeContextAndData.cs:111-130 | the hint name always ends with the type's part and `.g.cs`, and starts with the namespace and a dot when it is not global |
| AttributeContext.TopLevelHintName | IncrementalGeneratorExtensions.Content/Datacute/IncrementalGeneratorExtensions/AttributeContextAndData.cs:111-130 | a top-level type in the global namespace gets just its hint name, the generator name and `.g.cs` |
| AttributeContext.HintNameListsContainingTypes | IncrementalGeneratorExtensions.Content/Datacute/IncrementalGeneratorExtensions/AttributeContextAndData.cs:120-123 | the outermost containing type's hint name follows the namespace prefix |
| SourceTextGenerator.FromAttributeContext | IncrementalGeneratorExtensions.Content/Datacute/IncrementalGeneratorExtensions/SourceTextGeneratorBase.cs:26-39 | the constructor copies the flags and throws on a null containing-types array; it has containing types exactly when `HasContainingTypes` says so, and it holds the context's `Context`, its containing types and its namespace display string (empty for a null namespace; with the dot, the hint-name prefix whenever the namespace is not global) |
| SourceTextGenerator.FreshBufferCanComplete | IncrementalGeneratorExtensions.Content/Datacute/IncrementalGeneratorExtensions/SourceTextGeneratorBase.cs:26-39 | the buffer the constructor creates meets `AppendSource`'s buffer conditions, so with no null containing type and nesting below 2^28 an uncancelled call cannot throw |
| SourceTextGenerator.PrepareForGeneration | IncrementalGeneratorExtensions.Content/Datacute/IncrementalGeneratorExtensions/SourceTextGeneratorBase.cs:130-134 | throws exactly when cancelled, leaving the buffer alone; otherwise empties it at level 0 |
| SourceTextGenerator.AppendAutoGeneratedComment | IncrementalGeneratorExtensions.Content/Datacute/IncrementalGeneratorExtensions/SourceTextGeneratorBase.cs:139-143 | appends the comment as an indented line, then an empty line |
| SourceTextGenerator.AppendNullableEnable | IncrementalGeneratorExtensions.Content/Datacute/IncrementalGeneratorExtensions/SourceTextGeneratorBase.cs:148-155 | appends `#nullable enable` and an empty line exactly when nullable is enabled |
| SourceTextGenerator.AppendStartNamespace | IncrementalGeneratorExtensions.Content/Datacute/IncrementalGeneratorExtensions/SourceTextGeneratorBase.cs:160-175 | at level 0: nothing for the global namespace, `namespace N;` and an empty line when file-scoped, otherwise `namespace N{` opening one level |
| SourceTextGenerator.AppendContainingTypes | IncrementalGeneratorExtensions.Content/Datacute/IncrementalGeneratorExtensions/SourceTextGeneratorBase.cs:191-200 | each containing type's declaration line and a block start, one level deeper per type |
| SourceTextGenerator.AppendTypeBlock | IncrementalGeneratorExtensions.Content/Datacute/IncrementalGeneratorExtensions/SourceTextGeneratorBase.cs:205-241 | the declaration line and an empty block, ending at the starting level |
| SourceTextGenerator.AppendContainingTypesEndBlock | IncrementalGeneratorExtensions.Content/Datacute/IncrementalGeneratorExtensions/SourceTextGeneratorBase.cs:246-255 | one block end per containing type, each one level shallower |
| SourceTextGenerator.AppendEndNamespace | IncrementalGeneratorExtensions.Content/Datacute/IncrementalGeneratorExtensions/SourceTextGeneratorBase.cs:260-267 | closes the namespace block only for a block-scoped namespace, returning to level 0 |
| SourceTextGenerator.AppendSource | IncrementalGeneratorExtensions.Content/Datacute/IncrementalGeneratorExtensions/SourceTextGeneratorBase.cs:101-120 | a cancelled call throws before writing. Otherwise, for a valid default-configured buffer, no null containing type and nesting below 2^28 levels, it never throws, produces exactly the expected file, and ends at level 0 with no indentation, whatever text the buffer held |
| SourceTextGenerator.SourceStartsWithComment | IncrementalGeneratorExtensions.Content/Datacute/IncrementalGeneratorExtensions/SourceTextGeneratorBase.cs:101-143 | every generated file starts with the auto-generated comment and an empty line |
| SourceTextGenerator.TopLevelSource | IncrementalGeneratorExtensions.Content/Datacute/IncrementalGeneratorExtensions/SourceTextGeneratorBase.cs:101-120 | for a top-level type in the global namespace without nullable: the comment, an empty line, then the declaration, `{` and `}`, unindented |
| SourceTextGenerator.BlockNamespaceSource | IncrementalGeneratorExtensions.Content/Datacute/IncrementalGeneratorExtensions/SourceTextGeneratorBase.cs:160-175 | in a block-scoped namespace the `{` shares the namespace line and the type's lines are one level in, closed by a final `}` |
| SourceTextGenerator.ClosesLastAtBase | IncrementalGeneratorExtensions.Content/Datacute/IncrementalGeneratorExtensions/SourceTextGeneratorBase.cs:246-255 | closing the containing types ends with a `}` line at the level outside them |

## Left out

- `EquatableImmutableArrayInstanceCache<T>.GetOrCreate` is called by the Content project's `Create` when the cache is enabled. Its file is not part of this model. The Content `Create` is modelled with the cache excluded, and the root project's inline cache (`InstanceCache`) stands for the caching behaviour.
- Concurrency: `Interlocked`, `lock`, `ConcurrentDictionary` atomicity. Every operation runs alone.
- Garbage collection is the `alive` set, an input. `WeakReference` liveness is not modelled beyond it.
- The clock and `"o"` date formatting (`StartTime.AddTicks`) are a `formatTime` parameter. Stopwatch ticks are an input.
- The ring cursor is an unbounded `nat`. The wrap of `_index` after 2^31 increments is not modelled.
- Counters are unbounded integers. The 64-bit overflow of `long` counts is not modelled.
- `Add` is modelled with the generator-stage telemetry compiled in. Under `DATACUTE_EXCLUDE_GENERATORSTAGE` it counts `eventId % 1024` on every call instead, and `MethodEntry`/`MethodExit` do not exist; that variant is not modelled.
- The enum-generic overloads (`Add<TEnum>`, `IncrementCount<TEnum>`, …) only convert their enum with `Convert.ToInt32`. The model takes the `int`.
- `AppendFormatLines` is left out: `string.Format` is outside the model.
- `Predicate`, `Transform`, `CreateTypeContext` and the other Roslyn-facing members of `AttributeContextAndData` are left out. They read compiler symbols.
- `TypeContext`'s internals are inputs, taken as given: its declaration text, hint name, `Equals` and `GetHashCode`.
- The empty hooks `AppendDocComments`, `AppendCustomMembers` and `AppendDiagnosticLogs` are left out, and so is `GetSourceText` (`SourceText.From`).
- `NewLine` (`Environment.NewLine`) is left abstract. The `AutoGeneratedComment` literal is taken with LF line breaks, as the source file has them.
- EquatableArrays.CalculateHashCode: `startIndex` is a `nat`. A negative start index, which throws `IndexOutOfRangeException`, is not modelled.
- Text.IntToString and Text.Format000: number formatting assumes a culture whose `NumberFormatInfo.NegativeSign` is the ASCII `-`. `$"{value}"`, `{0:000}` and the count written by `AppendFormat` use the current culture's negative sign, which under ICU can be U+2212 (for example `sv-SE`). Negative values do occur: `DecrementCount` on an absent key stores -1, and negative keys give a negative `key % 1024`.
- EquatableArrays.Create and InstanceCache.Create: `values` is a `seq`, so a default `ImmutableArray<T>` cannot be passed. In C# it is a legal argument distinct from an empty array, and `values.IsEmpty` throws `NullReferenceException` on it before anything else runs. That throw is not modelled; both members are stated for initialised arrays only.
- InstanceCache.ValuesEqual: the `a == b` reference shortcut is not modelled separately. Element equality already gives the same answer.
- HashCombine.Combine: stated over `bv32` with a rotation and an xor. The `int`/`uint` casts are the identity on the bits.
- Element equality (`EqualityComparer<T>.Default.Equals`) is Dafny equality on `T`. Element hashing is the `hashOf` input.
- InstanceCache.Create: the dictionary is keyed by `Key(hash)`, a wrapper around the 32-bit hash.
- LineAppender.DefaultStartBlock, LineAppender.DefaultEndBlock and SourceTextGenerator.AppendSource state their default-configuration results only below level 2^28. Above that level `level * 4` wraps; the general block lemmas cover that case.
- AttributeContext.GetHashCode: its contract only says when it throws. Its agreement with `Equals` is stated by `EqualImpliesSameHash` and `NullableFlagIgnored`.
