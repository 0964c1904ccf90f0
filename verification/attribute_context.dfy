/**
  The value-level parts of `AttributeContextAndData<T>`: equality, hashing
  and the hint name of the generated file. `TypeContext` is opaque: its
  namespace, its declaration text and its hint name are given, its equality
  is the datatype's and its hash is the input `contextHash`.
 */
module AttributeContext {
  import opened Wrappers
  import opened HashCombine
  import opened EquatableArrays
  import opened Text

  /** The parts of a type's context the modelled code reads. */
  datatype TypeContext = TypeContext(ns: Option<string>, declaration: string, hintName: string)

  datatype AttributeContextAndData<T> = AttributeContextAndData(
    context: TypeContext,
    containingTypes: Option<EquatableArray<TypeContext>>,
    attributeData: T,
    isInFileScopedNamespace: bool,
    isNullableContextEnabled: bool)

  /** `ContainingNamespaceIsGlobalNamespace`: `string.IsNullOrEmpty(Context.Namespace)`. */
  predicate ContainingNamespaceIsGlobalNamespace<T>(a: AttributeContextAndData<T>): (r: bool)
    ensures r <==> NamespacePrefix(a.context.ns) == ""
  {
    a.context.ns.None? || a.context.ns.value == ""
  }

  /** `HasContainingTypes`: `ContainingTypes.Length > 0`; `None` where a null array throws. */
  function HasContainingTypes<T>(a: AttributeContextAndData<T>): (r: Option<bool>)
    ensures r.Some? <==> a.containingTypes.Some?
    ensures r == Some(true) <==> a.containingTypes.Some? && Length(a.containingTypes.value) > 0
  {
    if a.containingTypes.None? then None else Some(Length(a.containingTypes.value) > 0)
  }

  // ---------------------------------------------------------------------------
  // Equality and hashing
  // ---------------------------------------------------------------------------

  /** `object.Equals(a, b)` on two arrays: both null, or `a.Equals(b)`. */
  predicate ArraysEqual<E(==)>(a: Option<EquatableArray<E>>, b: Option<EquatableArray<E>>) {
    if a.None? || b.None? then a == b else ValueEquals(a.value, b)
  }

  /**
    `Equals(other)`: context, containing types, attribute data and the
    file-scoped flag; the nullable-context flag takes no part.
   */
  predicate Equals<T(==)>(a: AttributeContextAndData<T>, b: AttributeContextAndData<T>): (r: bool)
    ensures r ==> forall generatorName :: HintName(a, generatorName) == HintName(b, generatorName)
  {
    && a.context == b.context
    && ArraysEqual(a.containingTypes, b.containingTypes)
    && a.attributeData == b.attributeData
    && a.isInFileScopedNamespace == b.isInFileScopedNamespace
  }

  /** One step of the hash: `(hashCode * 397) ^ next`, unchecked. */
  function Mix(h: bv32, next: bv32): bv32 {
    (h * 397) ^ next
  }

  /**
    `GetHashCode()`: the context's hash mixed with the containing types',
    the attribute data's and the file-scoped flag's; `None` where a null
    `ContainingTypes` throws.
   */
  function GetHashCode<T>(contextHash: TypeContext -> bv32, dataHash: T -> bv32, a: AttributeContextAndData<T>)
    : (r: Option<bv32>)
    ensures r.Some? <==> a.containingTypes.Some?
  {
    if a.containingTypes.None? then None
    else
      var h := contextHash(a.context);
      var h := Mix(h, a.containingTypes.value.hashCode);
      var h := Mix(h, dataHash(a.attributeData));
      Some(Mix(h, if a.isInFileScopedNamespace then 1 else 0))
  }

  /** `Equals` is an equivalence: reflexive, symmetric and transitive. */
  lemma EqualsIsEquivalence<T>(hashOf: TypeContext -> bv32, a: AttributeContextAndData<T>, b: AttributeContextAndData<T>,
                               c: AttributeContextAndData<T>)
    requires a.containingTypes.Some? ==> HashConsistent(hashOf, a.containingTypes.value)
    requires b.containingTypes.Some? ==> HashConsistent(hashOf, b.containingTypes.value)
    requires c.containingTypes.Some? ==> HashConsistent(hashOf, c.containingTypes.value)
    ensures Equals(a, a)
    ensures Equals(a, b) <==> Equals(b, a)
    ensures Equals(a, b) && Equals(b, c) ==> Equals(a, c)
  {
    if a.containingTypes.Some? && b.containingTypes.Some? {
      EqualsIsElementEquality(hashOf, a.containingTypes.value, b.containingTypes.value);
      EqualsIsElementEquality(hashOf, b.containingTypes.value, a.containingTypes.value);
    }
    if a.containingTypes.Some? && c.containingTypes.Some? {
      EqualsIsElementEquality(hashOf, a.containingTypes.value, c.containingTypes.value);
    }
    if b.containingTypes.Some? && c.containingTypes.Some? {
      EqualsIsElementEquality(hashOf, b.containingTypes.value, c.containingTypes.value);
    }
  }

  /** Equal values hash equal, whatever the component hashes are. */
  lemma EqualImpliesSameHash<T>(contextHash: TypeContext -> bv32, dataHash: T -> bv32,
                                a: AttributeContextAndData<T>, b: AttributeContextAndData<T>)
    requires Equals(a, b)
    ensures GetHashCode(contextHash, dataHash, a) == GetHashCode(contextHash, dataHash, b)
  {
    if a.containingTypes.Some? {
      EqualsSymmetric(a.containingTypes.value, b.containingTypes.value);
    }
  }

  /** The nullable-context flag changes neither equality nor the hash. */
  lemma NullableFlagIgnored<T>(contextHash: TypeContext -> bv32, dataHash: T -> bv32, a: AttributeContextAndData<T>, flag: bool)
    ensures var b := a.(isNullableContextEnabled := flag);
      && (a.containingTypes.Some? ==> Equals(a, b))
      && GetHashCode(contextHash, dataHash, a) == GetHashCode(contextHash, dataHash, b)
  {
  }

  /** Every other field does take part in equality. */
  lemma EqualsNeedsEachField<T>(a: AttributeContextAndData<T>, b: AttributeContextAndData<T>)
    requires Equals(a, b)
    ensures a.context == b.context && a.attributeData == b.attributeData
    ensures a.isInFileScopedNamespace == b.isInFileScopedNamespace
    ensures a.containingTypes.None? <==> b.containingTypes.None?
    ensures a.containingTypes.Some? ==> a.containingTypes.value.values == b.containingTypes.value.values
  {
  }

  // ---------------------------------------------------------------------------
  // Hint names
  // ---------------------------------------------------------------------------

  /** The namespace and its dot, or nothing for the global namespace. */
  function NamespacePrefix(ns: Option<string>): string {
    if ns.None? || ns.value == "" then "" else ns.value + "."
  }

  /** A containing type's part of the hint name: its hint name and a dot. */
  function ContainingPart(t: Nullable<TypeContext>): string {
    if t.Null? then "" else t.value.hintName + "."
  }

  predicate NoNullElement<E>(values: seq<Nullable<E>>) {
    forall i :: 0 <= i < |values| ==> values[i].NonNull?
  }

  /**
    The hint name `CreateHintName` builds: the namespace prefix, each
    containing type's hint name with a dot, the type's own hint name, a dot,
    the generator name and ".g.cs". `None` where a null containing-type
    array or element throws.
   */
  function HintName<T>(a: AttributeContextAndData<T>, generatorName: string): Option<string> {
    if a.containingTypes.None? || !NoNullElement(a.containingTypes.value.values) then None
    else Some(NamespacePrefix(a.context.ns) + Lines(ContainingPart, a.containingTypes.value.values)
              + a.context.hintName + "." + generatorName + ".g.cs")
  }

  /** `CreateHintName(generatorName)`: the string builder loop over the containing types. */
  method CreateHintName<T>(a: AttributeContextAndData<T>, generatorName: string) returns (r: Option<string>)
    ensures r == HintName(a, generatorName)
  {
    var sb := "";
    if !(a.context.ns.None? || a.context.ns.value == "") {
      sb := sb + a.context.ns.value + ".";
    }
    if a.containingTypes.None? {
      return None;
    }
    var types := a.containingTypes.value.values;
    for i := 0 to |types|
      invariant sb == NamespacePrefix(a.context.ns) + Lines(ContainingPart, types[..i])
      invariant NoNullElement(types[..i])
    {
      if types[i].Null? {
        return None;
      }
      LinesStep(ContainingPart, types, i);
      Assoc(NamespacePrefix(a.context.ns), Lines(ContainingPart, types[..i]), ContainingPart(types[i]));
      Assoc(sb, types[i].value.hintName, ".");
      sb := sb + types[i].value.hintName + ".";
      assert types[..i + 1] == types[..i] + [types[i]];
    }
    assert types[..|types|] == types;
    sb := sb + a.context.hintName;
    sb := sb + "." + generatorName + ".g.cs";
    r := Some(sb);
  }

  /**
    The hint name starts with the namespace and a dot exactly when the
    namespace is not the global one, and always ends with the type's own
    hint name, the generator name and ".g.cs".
   */
  lemma HintNameShape<T>(a: AttributeContextAndData<T>, generatorName: string)
    requires HintName(a, generatorName).Some?
    ensures var r := HintName(a, generatorName).value;
      var suffix := a.context.hintName + "." + generatorName + ".g.cs";
      && |r| >= |suffix| && r[|r| - |suffix|..] == suffix
      && (!ContainingNamespaceIsGlobalNamespace(a) ==>
            var p := a.context.ns.value + "."; |r| >= |p| && r[..|p|] == p)
  {
    var r := HintName(a, generatorName).value;
    var suffix := a.context.hintName + "." + generatorName + ".g.cs";
    var middle := NamespacePrefix(a.context.ns) + Lines(ContainingPart, a.containingTypes.value.values);
    assert r == middle + suffix;
    if !ContainingNamespaceIsGlobalNamespace(a) {
      var p := a.context.ns.value + ".";
      assert r == p + (Lines(ContainingPart, a.containingTypes.value.values) + suffix);
    }
  }

  /** Without namespace or containing types the hint name is the type's own name, the generator name and ".g.cs". */
  lemma TopLevelHintName<T>(a: AttributeContextAndData<T>, generatorName: string)
    requires ContainingNamespaceIsGlobalNamespace(a) && HasContainingTypes(a) == Some(false)
    ensures HintName(a, generatorName) == Some(a.context.hintName + "." + generatorName + ".g.cs")
  {
    assert a.containingTypes.value.values == [];
    assert Lines(ContainingPart, a.containingTypes.value.values) == "";
    assert NamespacePrefix(a.context.ns) == "";
    assert NoNullElement(a.containingTypes.value.values);
    var own := a.context.hintName + "." + generatorName + ".g.cs";
    assert "" + "" + a.context.hintName + "." + generatorName + ".g.cs" == own;
  }

  /** The containing types' hint names appear in order, each followed by a dot, right after the namespace prefix. */
  lemma HintNameListsContainingTypes<T>(a: AttributeContextAndData<T>, generatorName: string, outer: TypeContext,
                                        inner: seq<Nullable<TypeContext>>)
    requires a.containingTypes.Some? && a.containingTypes.value.values == [NonNull(outer)] + inner
    requires NoNullElement(inner)
    ensures HintName(a, generatorName).Some?
    ensures var r := HintName(a, generatorName).value;
      var p := NamespacePrefix(a.context.ns) + outer.hintName + ".";
      |r| >= |p| && r[..|p|] == p
  {
    var values := a.containingTypes.value.values;
    LinesFirst(ContainingPart, values);
    assert values[1..] == inner;
    var p := NamespacePrefix(a.context.ns) + outer.hintName + ".";
    var r := HintName(a, generatorName).value;
    assert r == p + (Lines(ContainingPart, inner) + a.context.hintName + "." + generatorName + ".g.cs");
  }
}
