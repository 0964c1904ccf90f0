/**
  The root `EquatableImmutableArray<T>.Create`: an interning cache from hash
  to the weak references of the instances with that hash, in insertion order.
  Whether a weak reference still has its target is the input `alive` (the
  identities the collector has not reclaimed); the caller's cancellation
  token is a `Token` that says from which `ThrowIfCancellationRequested`
  call on it reports cancellation. Sequential semantics only.
 */
module InstanceCache {
  import opened HashCombine
  import opened EquatableArrays

  /** The dictionary key: the hash of the values. */
  datatype Key = Key(hash: bv32)

  /** The key `Create` files `values` under. */
  function KeyOf<T>(hashOf: T -> bv32, values: seq<Nullable<T>>): Key {
    Key(HashFold(hashOf, 0, values))
  }

  /** `InstanceCache`: per hash, the weakly referenced instances; `nextId` is the next unused identity. */
  datatype Cache<T> = Cache(buckets: map<Key, seq<EquatableArray<T>>>, nextId: nat)

  /** An entry of bucket `h`: hash `h`, consistent, non-empty, and allocated before `nextId`. */
  predicate EntryValid<T>(hashOf: T -> bv32, nextId: nat, h: Key, e: EquatableArray<T>) {
    && e.hashCode == h.hash
    && HashConsistent(hashOf, e)
    && e.values != []
    && 1 <= e.identity < nextId
  }

  ghost predicate Valid<T>(hashOf: T -> bv32, c: Cache<T>) {
    && c.nextId >= 1
    && forall h, e :: h in c.buckets && e in c.buckets[h] ==> EntryValid(hashOf, c.nextId, h, e)
  }

  /** The empty cache: no buckets, identities from 1 on. */
  function Initial<T>(): Cache<T> {
    Cache(map[], 1)
  }

  lemma InitialValid<T>(hashOf: T -> bv32)
    ensures Valid(hashOf, Initial())
  {
  }

  /** The cancellation token: never cancelled, or cancelled from its `check`-th check (counting from 0) on. */
  datatype Token = NotCancelled | CancelledFrom(check: nat)

  /** Whether the check with ordinal `checks` throws `OperationCanceledException`. */
  predicate Throws(token: Token, checks: nat) {
    token.CancelledFrom? && checks >= token.check
  }

  // ---------------------------------------------------------------------------
  // Weak references
  // ---------------------------------------------------------------------------

  /** The entries whose target is still alive, in order. */
  function Live<T>(s: seq<EquatableArray<T>>, alive: set<nat>): (r: seq<EquatableArray<T>>)
    ensures |r| <= |s|
    ensures forall e :: e in r ==> e in s && e.identity in alive
  {
    if |s| == 0 then []
    else Live(s[..|s| - 1], alive) + (if s[|s| - 1].identity in alive then [s[|s| - 1]] else [])
  }

  /** A live entry survives the filter. */
  lemma {:induction false} LiveMember<T>(s: seq<EquatableArray<T>>, k: nat, alive: set<nat>)
    requires k < |s| && s[k].identity in alive
    ensures s[k] in Live(s, alive)
  {
    if k < |s| - 1 {
      LiveMember(s[..|s| - 1], k, alive);
    }
  }

  /**
    The filter keeps the surviving entries in their order: filtering a
    concatenation filters each part and keeps the parts in order.
   */
  lemma {:induction false} LiveAppend<T>(s1: seq<EquatableArray<T>>, s2: seq<EquatableArray<T>>, alive: set<nat>)
    ensures Live(s1 + s2, alive) == Live(s1, alive) + Live(s2, alive)
    decreases |s2|
  {
    if |s2| == 0 {
      assert s1 + s2 == s1;
    } else {
      var init := s2[..|s2| - 1];
      var last := s2[|s2| - 1];
      assert (s1 + s2)[..|s1 + s2| - 1] == s1 + init;
      LiveAppend(s1, init, alive);
    }
  }

  /** A single entry survives exactly when it is alive. */
  lemma LiveOne<T>(e: EquatableArray<T>, alive: set<nat>)
    ensures Live([e], alive) == if e.identity in alive then [e] else []
  {
    assert [e][..0] == [];
  }

  /**
    The bucket after a scan that stopped at index `k`: the entries below `k`
    were not reached and stay; of the scanned ones from `k` up, those whose
    weak reference has lost its target are removed (`list.RemoveAt(i)`).
   */
  function Kept<T>(bucket: seq<EquatableArray<T>>, k: nat, alive: set<nat>): (r: seq<EquatableArray<T>>)
    requires k <= |bucket|
    ensures k <= |r| <= |bucket|
    ensures forall e :: e in r ==> e in bucket
    ensures forall q :: 0 <= q < k ==> r[q] == bucket[q]
  {
    bucket[..k] + Live(bucket[k..], alive)
  }

  // ---------------------------------------------------------------------------
  // The scan of one bucket
  // ---------------------------------------------------------------------------

  /** Where the scan stopped: at a live match, at the bottom of the bucket, or at a cancelled check. */
  datatype ScanResult<T> = Hit(found: EquatableArray<T>, stop: nat) | Miss(checks: nat) | Aborted(stop: nat)

  /**
    The `for (i = list.Count - 1; i >= 0; i--)` loop over `pending` (the
    entries not yet scanned), with `checks` checks of the token already made:
    each iteration checks the token, then returns a live entry with equal
    values. Removing a dead entry does not move the entries below it, so the
    search itself never sees the removals; `Kept` applies them.
   */
  function Scan<T(==)>(pending: seq<EquatableArray<T>>, values: seq<Nullable<T>>, alive: set<nat>,
                       token: Token, checks: nat): (r: ScanResult<T>)
    ensures r.Hit? ==>
      && r.stop < |pending| && r.found == pending[r.stop]
      && r.found.identity in alive && r.found.values == values
      && !Throws(token, checks + (|pending| - 1 - r.stop))
      && forall q :: r.stop < q < |pending| && pending[q].identity in alive ==> pending[q].values != values
    ensures r.Miss? ==>
      && r.checks == checks + |pending|
      && forall q :: 0 <= q < |pending| && pending[q].identity in alive ==> pending[q].values != values
    ensures r.Aborted? ==>
      && r.stop <= |pending| && Throws(token, checks + (|pending| - r.stop))
      && forall q :: r.stop <= q < |pending| && pending[q].identity in alive ==> pending[q].values != values
    decreases |pending|
  {
    if |pending| == 0 then Miss(checks)
    else if Throws(token, checks) then Aborted(|pending|)
    else
      var e := pending[|pending| - 1];
      if e.identity in alive && e.values == values then Hit(e, |pending| - 1)
      else Scan(pending[..|pending| - 1], values, alive, token, checks + 1)
  }

  /** The index the scan stopped at: every entry from it up has been scanned. */
  function StopIndex<T>(r: ScanResult<T>): nat {
    match r
    case Hit(_, stop) => stop + 1
    case Miss(_) => 0
    case Aborted(stop) => stop
  }

  // ---------------------------------------------------------------------------
  // Create
  // ---------------------------------------------------------------------------

  datatype Outcome<T> = Created(cache: Cache<T>, result: EquatableArray<T>) | Cancelled(cache: Cache<T>)

  /**
    `Create(values, cancellationToken)`: `Empty` for no values; otherwise the
    most recently cached live instance with equal values, or a new instance
    appended to its hash's bucket. The token is checked once after the bucket
    is found, once per scanned entry, and once more when appending to an
    existing bucket; an absent bucket is created without a check.
   */
  function Create<T(==)>(hashOf: T -> bv32, c: Cache<T>, values: seq<Nullable<T>>, alive: set<nat>, token: Token)
    : (o: Outcome<T>)
    ensures values == [] ==> o == Created(c, Empty())
    ensures token.NotCancelled? ==> o.Created?
    ensures values != [] && KeyOf(hashOf, values) !in c.buckets ==> o.Created?
    ensures o.Created? ==> o.result.values == values
    ensures o.cache.nextId == c.nextId || o.cache.nextId == c.nextId + 1
    ensures forall h :: h != KeyOf(hashOf, values) ==>
      && (h in o.cache.buckets <==> h in c.buckets)
      && (h in c.buckets ==> o.cache.buckets[h] == c.buckets[h])
    ensures values != [] ==>
      var key := KeyOf(hashOf, values);
      var made := EquatableArray(c.nextId, values, key.hash);
      && key in o.cache.buckets
      && (forall e :: e in o.cache.buckets[key] ==> (key in c.buckets && e in c.buckets[key]) || e == made)
      && (o.Created? ==> o.result == made || (key in c.buckets && o.result in c.buckets[key]))
    ensures o.Cancelled? ==>
      && o.cache.nextId == c.nextId
      && o.cache.buckets.Keys == c.buckets.Keys
      && forall h :: h in c.buckets ==> |o.cache.buckets[h]| <= |c.buckets[h]|
    ensures o.Cancelled? ==>
      var key := KeyOf(hashOf, values);
      && key in c.buckets
      && exists k :: 0 <= k <= |c.buckets[key]| && o.cache.buckets[key] == Kept(c.buckets[key], k, alive)
  {
    if values == [] then Created(c, Empty())
    else
      var key := KeyOf(hashOf, values);
      var made := EquatableArray(c.nextId, values, key.hash);
      if key in c.buckets then
        if Throws(token, 0) then
          KeptAll(c.buckets[key], alive);
          assert c.buckets[key := c.buckets[key]] == c.buckets;
          Cancelled(c)
        else
          var bucket := c.buckets[key];
          var r := Scan(bucket, values, alive, token, 1);
          var pruned := Kept(bucket, StopIndex(r), alive);
          if r.Hit? then Created(c.(buckets := c.buckets[key := pruned]), r.found)
          else if r.Aborted? || Throws(token, r.checks) then Cancelled(c.(buckets := c.buckets[key := pruned]))
          else Created(Cache(c.buckets[key := pruned + [made]], c.nextId + 1), made)
      else Created(Cache(c.buckets[key := [made]], c.nextId + 1), made)
  }

  /** A scan that stopped at the end of the bucket removes nothing. */
  lemma KeptAll<T>(bucket: seq<EquatableArray<T>>, alive: set<nat>)
    ensures Kept(bucket, |bucket|, alive) == bucket
  {
    assert bucket[|bucket|..] == [];
    assert bucket[..|bucket|] + [] == bucket;
  }

  /**
    A cancelled call only prunes: every live entry of the bucket is still
    there, in the same order relative to the others that remain, and nothing
    is allocated.
   */
  lemma CancelledKeepsLiveEntries<T>(hashOf: T -> bv32, c: Cache<T>, values: seq<Nullable<T>>, alive: set<nat>, token: Token)
    requires Create(hashOf, c, values, alive, token).Cancelled?
    ensures var o := Create(hashOf, c, values, alive, token);
      var key := KeyOf(hashOf, values);
      && key in c.buckets && o.cache.nextId == c.nextId
      && forall q :: 0 <= q < |c.buckets[key]| && c.buckets[key][q].identity in alive ==> c.buckets[key][q] in o.cache.buckets[key]
  {
    var o := Create(hashOf, c, values, alive, token);
    var key := KeyOf(hashOf, values);
    var bucket := c.buckets[key];
    var k :| 0 <= k <= |bucket| && o.cache.buckets[key] == Kept(bucket, k, alive);
    forall q | 0 <= q < |bucket| && bucket[q].identity in alive
      ensures bucket[q] in o.cache.buckets[key]
    {
      if q < k {
        assert o.cache.buckets[key][q] == bucket[q];
      } else {
        var tail := bucket[k..];
        assert tail[q - k] == bucket[q];
        LiveMember(tail, q - k, alive);
        assert bucket[q] in Live(tail, alive);
      }
    }
  }

  /**
    Every call keeps the cache well formed, and whatever instance it returns
    carries the hash of its values.
   */
  lemma CreatePreservesValid<T>(hashOf: T -> bv32, c: Cache<T>, values: seq<Nullable<T>>, alive: set<nat>, token: Token)
    requires Valid(hashOf, c)
    ensures Valid(hashOf, Create(hashOf, c, values, alive, token).cache)
    ensures var o := Create(hashOf, c, values, alive, token);
      o.Created? ==> HashConsistent(hashOf, o.result) && (values != [] ==> o.result.hashCode == HashFold(hashOf, 0, values))
  {
    var o := Create(hashOf, c, values, alive, token);
    if values != [] {
      var key := KeyOf(hashOf, values);
      var made := EquatableArray(c.nextId, values, key.hash);
      forall h, e | h in o.cache.buckets && e in o.cache.buckets[h]
        ensures EntryValid(hashOf, o.cache.nextId, h, e)
      {
        if e != made {
          assert h in c.buckets && e in c.buckets[h];
          assert EntryValid(hashOf, c.nextId, h, e);
        }
      }
      if o.Created? && o.result != made {
        assert EntryValid(hashOf, c.nextId, key, o.result);
      }
    }
  }

  /**
    On a miss (no live cached instance with equal values) an uncancelled call
    returns a new instance with the next identity and the hash of its values,
    and the bucket becomes its live entries followed by that instance.
   */
  lemma MissAppendsNewInstance<T>(hashOf: T -> bv32, c: Cache<T>, values: seq<Nullable<T>>, alive: set<nat>)
    requires values != []
    requires var key := KeyOf(hashOf, values);
      key in c.buckets ==> forall e :: e in c.buckets[key] && e.identity in alive ==> e.values != values
    ensures var key := KeyOf(hashOf, values);
      var o := Create(hashOf, c, values, alive, NotCancelled);
      var prior := if key in c.buckets then c.buckets[key] else [];
      && o.result == EquatableArray(c.nextId, values, key.hash)
      && o.cache.nextId == c.nextId + 1
      && o.cache.buckets[key] == Live(prior, alive) + [o.result]
  {
    var key := KeyOf(hashOf, values);
    if key in c.buckets {
      var bucket := c.buckets[key];
      var r := Scan(bucket, values, alive, NotCancelled, 1);
      assert bucket[..0] == [] && bucket[0..] == bucket;
    } else {
      assert Live<T>([], alive) == [];
    }
  }

  /**
    On a hit, an uncancelled call returns the most recent live cached instance
    with equal values and allocates nothing: the identities do not advance, and
    the bucket keeps everything up to that instance and the live entries after
    it.
   */
  lemma HitReturnsLastMatch<T>(hashOf: T -> bv32, c: Cache<T>, values: seq<Nullable<T>>, alive: set<nat>, p: nat)
    requires values != [] && KeyOf(hashOf, values) in c.buckets
    requires var bucket := c.buckets[KeyOf(hashOf, values)];
      && p < |bucket| && bucket[p].identity in alive && bucket[p].values == values
      && forall q :: p < q < |bucket| && bucket[q].identity in alive ==> bucket[q].values != values
    ensures var key := KeyOf(hashOf, values);
      var bucket := c.buckets[key];
      var o := Create(hashOf, c, values, alive, NotCancelled);
      && o == Created(o.cache, bucket[p])
      && o.cache.nextId == c.nextId
      && o.cache.buckets[key] == bucket[..p + 1] + Live(bucket[p + 1..], alive)
  {
    var bucket := c.buckets[KeyOf(hashOf, values)];
    var r := Scan(bucket, values, alive, NotCancelled, 1);
    assert !r.Miss? && !r.Aborted?;
    assert r.stop == p;
  }

  /**
    Scanning down the bucket finds the entry at `p` when it is live with equal
    values and nothing above it has equal values.
   */
  lemma {:induction false} ScanFindsLastMatch<T>(pending: seq<EquatableArray<T>>, values: seq<Nullable<T>>,
                                                 alive: set<nat>, checks: nat, p: nat)
    requires p < |pending|
    requires pending[p].identity in alive && pending[p].values == values
    requires forall q :: p < q < |pending| ==> pending[q].values != values
    ensures Scan(pending, values, alive, NotCancelled, checks) == Hit(pending[p], p)
    decreases |pending|
  {
    if p != |pending| - 1 {
      ScanFindsLastMatch(pending[..|pending| - 1], values, alive, checks + 1, p);
    }
  }

  /** Pruning the entries above a last live match leaves none with equal values. */
  lemma NoLaterMatch<T>(bucket: seq<EquatableArray<T>>, p: nat, values: seq<Nullable<T>>, alive: set<nat>)
    requires p < |bucket|
    requires forall q :: p < q < |bucket| && bucket[q].identity in alive ==> bucket[q].values != values
    ensures forall e :: e in Live(bucket[p + 1..], alive) ==> e.values != values
  {
    var tail := bucket[p + 1..];
    forall e | e in Live(tail, alive)
      ensures e.values != values
    {
      var j :| 0 <= j < |tail| && tail[j] == e;
      assert bucket[p + 1 + j] == e;
    }
  }

  /** A last live match stays last once the entries above it are pruned. */
  lemma LastMatchAfterPruning<T>(bucket: seq<EquatableArray<T>>, p: nat, values: seq<Nullable<T>>, alive: set<nat>)
    requires p < |bucket|
    requires forall q :: p < q < |bucket| && bucket[q].identity in alive ==> bucket[q].values != values
    ensures var b := bucket[..p + 1] + Live(bucket[p + 1..], alive);
      && p < |b| && b[p] == bucket[p]
      && forall q :: p < q < |b| ==> b[q].values != values
  {
    var kept := Live(bucket[p + 1..], alive);
    var b := bucket[..p + 1] + kept;
    NoLaterMatch(bucket, p, values, alive);
    forall q | p < q < |b|
      ensures b[q].values != values
    {
      assert b[q] == kept[q - (p + 1)];
    }
  }

  /** `CreatedIsLastMatch` when the scan hits: the match it found, with nothing equal pruned back in above it. */
  lemma HitIsLastMatch<T>(hashOf: T -> bv32, c: Cache<T>, values: seq<Nullable<T>>, alive: set<nat>, p: nat)
    requires values != [] && KeyOf(hashOf, values) in c.buckets
    requires Scan(c.buckets[KeyOf(hashOf, values)], values, alive, NotCancelled, 1).Hit?
    requires p == Scan(c.buckets[KeyOf(hashOf, values)], values, alive, NotCancelled, 1).stop
    ensures var o := Create(hashOf, c, values, alive, NotCancelled);
      var b := o.cache.buckets[KeyOf(hashOf, values)];
      && p < |b| && b[p] == o.result
      && forall q :: p < q < |b| ==> b[q].values != values
  {
    var bucket := c.buckets[KeyOf(hashOf, values)];
    HitReturnsLastMatch(hashOf, c, values, alive, p);
    LastMatchAfterPruning(bucket, p, values, alive);
  }

  /**
    After an uncancelled call, the returned instance sits in its bucket with
    no entry after it holding equal values: it is what the next scan finds
    first.
   */
  lemma CreatedIsLastMatch<T>(hashOf: T -> bv32, c: Cache<T>, values: seq<Nullable<T>>, alive: set<nat>) returns (p: nat)
    requires values != []
    ensures var o := Create(hashOf, c, values, alive, NotCancelled);
      var b := o.cache.buckets[KeyOf(hashOf, values)];
      && p < |b| && b[p] == o.result
      && forall q :: p < q < |b| ==> b[q].values != values
  {
    var key := KeyOf(hashOf, values);
    if key in c.buckets && Scan(c.buckets[key], values, alive, NotCancelled, 1).Hit? {
      p := Scan(c.buckets[key], values, alive, NotCancelled, 1).stop;
      HitIsLastMatch(hashOf, c, values, alive, p);
    } else if key in c.buckets {
      var o := Create(hashOf, c, values, alive, NotCancelled);
      var pruned := Kept(c.buckets[key], 0, alive);
      assert o.cache.buckets[key] == pruned + [o.result];
      p := |pruned|;
    } else {
      p := 0;
    }
  }

  /**
    Creating from equal values twice in a row, without cancellation, returns
    the same instance the second time, as long as the first result is still
    alive.
   */
  lemma CreateTwiceSameInstance<T>(hashOf: T -> bv32, c: Cache<T>, a: seq<Nullable<T>>, b: seq<Nullable<T>>,
                                   alive1: set<nat>, alive2: set<nat>)
    requires a == b
    requires a != [] ==> Create(hashOf, c, a, alive1, NotCancelled).result.identity in alive2
    ensures var first := Create(hashOf, c, a, alive1, NotCancelled);
      var second := Create(hashOf, first.cache, b, alive2, NotCancelled);
      second.result == first.result
  {
    if a != [] {
      var first := Create(hashOf, c, a, alive1, NotCancelled);
      var p := CreatedIsLastMatch(hashOf, c, a, alive1);
      ScanFindsLastMatch(first.cache.buckets[KeyOf(hashOf, a)], b, alive2, 1, p);
    }
  }

  // ---------------------------------------------------------------------------
  // The loops Create relies on
  // ---------------------------------------------------------------------------

  /** `CalculateHashCode(values)`: the fold of the element hashes from 0. */
  method CalculateHashCode<T>(values: seq<Nullable<T>>, hashOf: T -> bv32) returns (hash: bv32)
    ensures hash == HashFold(hashOf, 0, values)
  {
    hash := 0;
    for index := 0 to |values|
      invariant hash == HashFold(hashOf, 0, values[..index])
    {
      assert values[..index + 1][..index] == values[..index];
      hash := Combine(hash, if values[index].Null? then 0 else hashOf(values[index].value));
    }
    assert values[..|values|] == values;
  }

  /**
    `ValuesEqual(a, b)`: equal lengths and equal elements. The source's first
    test, that both are the same underlying array, is subsumed by the element
    comparison, so it has no separate branch here.
   */
  method ValuesEqual<T(==)>(a: seq<Nullable<T>>, b: seq<Nullable<T>>) returns (r: bool)
    ensures r <==> a == b
  {
    if |a| != |b| {
      return false;
    }
    for i := 0 to |a|
      invariant a[..i] == b[..i]
    {
      if a[i] != b[i] {
        return false;
      }
      assert a[..i + 1] == a[..i] + [a[i]] && b[..i + 1] == b[..i] + [b[i]];
    }
    assert a == a[..|a|] && b == b[..|b|];
    r := true;
  }
}
