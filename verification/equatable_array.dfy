/**
  `EquatableImmutableArray<T>`: an immutable array with value equality and a
  precomputed hash. Element equality is the element type's own equality;
  `hashOf` stands for `EqualityComparer<T>.Default.GetHashCode` on non-null
  elements. Object identity (`ReferenceEquals`) is the instance's `identity`
  field, with 0 reserved for the shared `Empty` instance.
 */
module EquatableArrays {
  import opened Wrappers
  import opened HashCombine

  /** An element slot of a reference-typed `T`: null or a value. */
  datatype Nullable<T> = Null | NonNull(value: T)

  datatype EquatableArray<T> = EquatableArray(identity: nat, values: seq<Nullable<T>>, hashCode: bv32)

  /** `Empty`: the shared instance over no values, with hash 0. */
  function Empty<T>(): (e: EquatableArray<T>)
    ensures e.identity == 0 && e.values == []
  {
    EquatableArray(0, [], 0)
  }

  // ---------------------------------------------------------------------------
  // Hashing
  // ---------------------------------------------------------------------------

  /** The contribution of one element: 0 for null, the comparer's hash otherwise. */
  function ElementHash<T>(hashOf: T -> bv32, e: Nullable<T>): bv32 {
    if e.Null? then 0 else hashOf(e.value)
  }

  /** The left fold of `Combine` over the element hashes, starting from `seed`. */
  function HashFold<T>(hashOf: T -> bv32, seed: bv32, values: seq<Nullable<T>>): bv32 {
    if |values| == 0 then seed
    else Combine(HashFold(hashOf, seed, values[..|values| - 1]), ElementHash(hashOf, values[|values| - 1]))
  }

  /** Folding over a concatenation is folding over the second part from the first part's hash. */
  lemma {:induction false} HashFoldAppend<T>(hashOf: T -> bv32, seed: bv32, a: seq<Nullable<T>>, b: seq<Nullable<T>>)
    ensures HashFold(hashOf, seed, a + b) == HashFold(hashOf, HashFold(hashOf, seed, a), b)
    decreases |b|
  {
    if |b| == 0 {
      assert a + b == a;
    } else {
      assert (a + b)[..|a + b| - 1] == a + b[..|b| - 1];
      HashFoldAppend(hashOf, seed, a, b[..|b| - 1]);
    }
  }

  /** The hash of a prefix can be resumed: continuing from index `k` gives the hash of the whole. */
  lemma HashResumable<T>(hashOf: T -> bv32, values: seq<Nullable<T>>, k: nat)
    requires k <= |values|
    ensures HashFold(hashOf, HashFold(hashOf, 0, values[..k]), values[k..]) == HashFold(hashOf, 0, values)
  {
    HashFoldAppend(hashOf, 0, values[..k], values[k..]);
    assert values[..k] + values[k..] == values;
  }

  /**
    `CalculateHashCode(values, comparer, currentHash, startIndex)`: continues
    the fold from `currentHash` over the elements from `startIndex` on.
   */
  method CalculateHashCode<T>(values: seq<Nullable<T>>, hashOf: T -> bv32, currentHash: bv32, startIndex: nat)
    returns (hash: bv32)
    ensures startIndex <= |values| ==> hash == HashFold(hashOf, currentHash, values[startIndex..])
    ensures startIndex > |values| ==> hash == currentHash
  {
    hash := currentHash;
    if startIndex > |values| {
      return;
    }
    var index := startIndex;
    while index < |values|
      invariant startIndex <= index <= |values|
      invariant hash == HashFold(hashOf, currentHash, values[startIndex..index])
    {
      assert values[startIndex..index + 1][..index - startIndex] == values[startIndex..index];
      hash := Combine(hash, if values[index].Null? then 0 else hashOf(values[index].value));
      index := index + 1;
    }
    assert values[startIndex..index] == values[startIndex..];
  }

  /** The instance's stored hash is the fold of its elements from 0. */
  predicate HashConsistent<T>(hashOf: T -> bv32, a: EquatableArray<T>) {
    a.hashCode == HashFold(hashOf, 0, a.values)
  }

  /**
    `Create(values)` with the instance cache switched off: `Empty` for no
    values, otherwise a new instance (identity `freshId`) whose hash is the
    fold from 0.
   */
  method Create<T>(values: seq<Nullable<T>>, hashOf: T -> bv32, freshId: nat) returns (r: EquatableArray<T>)
    requires freshId != 0
    ensures values == [] ==> r == Empty()
    ensures values != [] ==> r.identity == freshId
    ensures r.values == values && HashConsistent(hashOf, r)
  {
    if values == [] {
      return Empty();
    }
    var hash := CalculateHashCode(values, hashOf, 0, 0);
    assert values[0..] == values;
    r := EquatableArray(freshId, values, hash);
  }

  // ---------------------------------------------------------------------------
  // Size views
  // ---------------------------------------------------------------------------

  /** `Count`: the number of values; it agrees with `Length`. */
  function Count<T>(a: EquatableArray<T>): (n: nat)
    ensures n == Length(a)
  {
    |a.values|
  }

  /** `Length`: the number of values; 0 exactly for an empty array. */
  function Length<T>(a: EquatableArray<T>): (n: nat)
    ensures n == 0 <==> a.values == []
  {
    |a.values|
  }

  /** `IsEmpty`: no values, as for the shared `Empty` instance. */
  predicate IsEmpty<T>(a: EquatableArray<T>): (r: bool)
    ensures r <==> a.values == []
    ensures a == Empty<T>() ==> r
  {
    |a.values| == 0
  }

  /** `Count` and `Length` agree, and `IsEmpty` holds exactly for a count of 0, as for `Empty`. */
  lemma SizeViewsAgree<T>(a: EquatableArray<T>)
    ensures Count(a) == Length(a) == |a.values|
    ensures IsEmpty(a) <==> Count(a) == 0
    ensures IsEmpty(Empty<T>())
  {
  }

  // ---------------------------------------------------------------------------
  // Equality
  // ---------------------------------------------------------------------------

  /**
    What `Equals(other)` decides: the same instance, or a non-null instance
    with the same stored hash and the same elements.
   */
  predicate ValueEquals<T(==)>(a: EquatableArray<T>, other: Option<EquatableArray<T>>): (r: bool)
    ensures r ==> other.Some? && a.hashCode == other.value.hashCode && a.values == other.value.values
  {
    other.Some? && (a == other.value || (a.hashCode == other.value.hashCode && a.values == other.value.values))
  }

  /**
    `Equals(EquatableImmutableArray<T> other)`: reference check, null check,
    hash check, length check, then element by element.
   */
  method Equals<T(==)>(a: EquatableArray<T>, other: Option<EquatableArray<T>>) returns (r: bool)
    ensures r == ValueEquals(a, other)
  {
    if other.Some? && a == other.value {
      return true;
    }
    if other.None? {
      return false;
    }
    var b := other.value;
    if a.hashCode != b.hashCode {
      return false;
    }
    if |a.values| != |b.values| {
      return false;
    }
    if |a.values| == 0 {
      return true;
    }
    for i := 0 to |a.values|
      invariant a.values[..i] == b.values[..i]
    {
      if a.values[i] != b.values[i] {
        return false;
      }
      assert a.values[..i + 1] == a.values[..i] + [a.values[i]];
      assert b.values[..i + 1] == b.values[..i] + [b.values[i]];
    }
    assert a.values == a.values[..|a.values|];
    assert b.values == b.values[..|b.values|];
    r := true;
  }

  /** For instances whose stored hash is the fold of their elements, `Equals` is exactly element equality. */
  lemma EqualsIsElementEquality<T>(hashOf: T -> bv32, a: EquatableArray<T>, b: EquatableArray<T>)
    requires HashConsistent(hashOf, a) && HashConsistent(hashOf, b)
    ensures ValueEquals(a, Some(b)) <==> a.values == b.values
  {
  }

  /** `Equals` is symmetric on non-null instances, and equal instances hash equal. */
  lemma EqualsSymmetric<T>(a: EquatableArray<T>, b: EquatableArray<T>)
    ensures ValueEquals(a, Some(b)) <==> ValueEquals(b, Some(a))
    ensures ValueEquals(a, Some(b)) ==> a.hashCode == b.hashCode
  {
  }

  /** The runtime type of the argument of `Equals(object)`. */
  datatype Obj<T> = NullObj | ArrayObj(target: EquatableArray<T>) | OtherObj

  /** `Equals(object obj)`: only another `EquatableImmutableArray<T>` can be equal. */
  method EqualsObject<T(==)>(a: EquatableArray<T>, obj: Obj<T>) returns (r: bool)
    ensures r <==> obj.ArrayObj? && ValueEquals(a, Some(obj.target))
  {
    if obj.ArrayObj? {
      r := Equals(a, Some(obj.target));
    } else {
      r := false;
    }
  }
}
