/**
  `SourceTextGeneratorBase<T>`'s default `AppendSource`: a fixed sequence of
  appender operations that writes the generated file's header, namespace,
  containing types and the type's own (empty) block, then closes every block
  it opened. The overridable hooks (`AppendDocComments`, `AppendCustomMembers`,
  `AppendDiagnosticLogs`) do nothing in the base class and are left out.
 */
module SourceTextGenerator {
  import opened Wrappers
  import opened Text
  import opened EquatableArrays
  import opened AttributeContext
  import opened LineAppender

  /** What the generator reads from the attribute context when it is constructed. */
  datatype Generator = Generator(
    globalNamespace: bool,
    namespaceDisplay: string,
    context: TypeContext,
    containingTypes: seq<Nullable<TypeContext>>,
    nullableEnabled: bool,
    fileScopedNamespace: bool)

  /**
    The constructor: it reads `HasContainingTypes`, which throws on a null
    containing-types array (`None` here).
   */
  function FromAttributeContext<T>(a: AttributeContextAndData<T>): (r: Option<Generator>)
    ensures r.Some? <==> a.containingTypes.Some?
    ensures r.Some? ==> && (r.value.globalNamespace <==> ContainingNamespaceIsGlobalNamespace(a))
                        && r.value.nullableEnabled == a.isNullableContextEnabled
                        && r.value.fileScopedNamespace == a.isInFileScopedNamespace
                        && (r.value.containingTypes != [] <==> HasContainingTypes(a) == Some(true))
                        && r.value.context == a.context
                        && r.value.containingTypes == a.containingTypes.value.values
                        && (a.context.ns.Some? ==> r.value.namespaceDisplay == a.context.ns.value)
                        && (a.context.ns.None? ==> r.value.namespaceDisplay == "")
                        && (!r.value.globalNamespace ==> NamespacePrefix(a.context.ns) == r.value.namespaceDisplay + ".")
  {
    if a.containingTypes.None? then None
    else Some(Generator(
      ContainingNamespaceIsGlobalNamespace(a),
      if a.context.ns.Some? then a.context.ns.value else "",
      a.context,
      a.containingTypes.value.values,
      a.isNullableContextEnabled,
      a.isInFileScopedNamespace))
  }

  /** `AutoGeneratedComment` (a verbatim string; its line breaks are line feeds). */
  const AutoGeneratedComment: string :=
    "//------------------------------------------------------------------------------\n// <auto-generated>\n//     This code was generated by a source code generator.\n// </auto-generated>\n//------------------------------------------------------------------------------"

  // ---------------------------------------------------------------------------
  // The expected text
  // ---------------------------------------------------------------------------

  /** `p` is a prefix of `s`: appending to `p` can give `s`. */
  predicate IsPrefix(p: string, s: string) {
    |p| <= |s| && s[..|p|] == p
  }

  lemma PrefixTrans(a: string, b: string, c: string)
    requires IsPrefix(a, b) && IsPrefix(b, c)
    ensures IsPrefix(a, c)
  {
    assert c[..|b|][..|a|] == c[..|a|];
  }

  /** The comment and a blank line, then `#nullable enable` and a blank line when nullable is enabled. */
  function Header(g: Generator): (r: string)
    ensures IsPrefix(AutoGeneratedComment + NewLine + NewLine, r)
  {
    var h := AutoGeneratedComment + NewLine + NewLine;
    if g.nullableEnabled then
      PrefixExtend(h, h, "#nullable enable");
      PrefixExtend(h, h + "#nullable enable", NewLine);
      PrefixExtend(h, h + "#nullable enable" + NewLine, NewLine);
      h + "#nullable enable" + NewLine + NewLine
    else h
  }

  /** 1 for a block-scoped namespace, whose block encloses everything else. */
  function NamespaceDepth(g: Generator): nat {
    if g.globalNamespace || g.fileScopedNamespace then 0 else 1
  }

  /*
    Each writer below appends one part of the file to `buf`, in the order the
    appender writes it, and keeps `buf` as a prefix of its result.
   */

  /**
    Nothing for the global namespace; "namespace N;" and a blank line for a
    file-scoped one; otherwise "namespace N" with the block start on the
    same line (written at level 0, whose indentation is empty).
   */
  function WriteNamespaceOpening(buf: string, g: Generator): (r: string)
    ensures IsPrefix(buf, r)
  {
    if g.globalNamespace then buf
    else if g.fileScopedNamespace then buf + "namespace " + g.namespaceDisplay + ";" + NewLine + NewLine
    else buf + "namespace " + g.namespaceDisplay + "{" + NewLine
  }

  /** The closing "}" of a block-scoped namespace. */
  function WriteNamespaceClosing(buf: string, g: Generator): (r: string)
    ensures IsPrefix(buf, r)
  {
    if NamespaceDepth(g) == 1 then buf + "}" + NewLine else buf
  }

  function Declaration(t: Nullable<TypeContext>): string {
    if t.Null? then "" else t.value.declaration
  }

  /** Each containing type's declaration line and block start, one level deeper each time, from level `base`. */
  function WriteOpens(buf: string, types: seq<Nullable<TypeContext>>, base: nat): (r: string)
    ensures IsPrefix(buf, r)
  {
    if types == [] then buf
    else
      var level := base + |types| - 1;
      var before := WriteOpens(buf, types[..|types| - 1], base);
      var r := before + Indent(level) + Declaration(types[|types| - 1]) + NewLine + Indent(level) + "{" + NewLine;
      PrefixExtend(before, before, Indent(level) + Declaration(types[|types| - 1]) + NewLine + Indent(level) + "{" + NewLine);
      PrefixTrans(buf, before, r);
      r
  }

  /** The first `i` block ends written while closing from level `top` down. */
  function WriteCloses(buf: string, top: nat, i: nat): (r: string)
    requires i <= top
    ensures IsPrefix(buf, r)
  {
    if i == 0 then buf
    else
      var before := WriteCloses(buf, top, i - 1);
      var r := before + Indent(top - i) + "}" + NewLine;
      PrefixExtend(before, before, Indent(top - i) + "}" + NewLine);
      PrefixTrans(buf, before, r);
      r
  }

  /** The type's declaration line and its empty block, at level `level`. */
  function WriteTypeBlock(buf: string, g: Generator, level: nat): (r: string)
    ensures IsPrefix(buf, r)
  {
    buf + Indent(level) + g.context.declaration + NewLine + Indent(level) + "{" + NewLine + Indent(level) + "}" + NewLine
  }

  /** The complete text the default `AppendSource` produces. */
  function ExpectedSource(g: Generator): string {
    var base := NamespaceDepth(g);
    var depth := base + |g.containingTypes|;
    var inner := WriteOpens(WriteNamespaceOpening(Header(g), g), g.containingTypes, base);
    WriteNamespaceClosing(WriteCloses(WriteTypeBlock(inner, g, depth), depth, |g.containingTypes|), g)
  }

  // ---------------------------------------------------------------------------
  // The steps of AppendSource
  // ---------------------------------------------------------------------------

  /** The appender state every step below starts from and keeps: valid, default configuration, level in range. */
  ghost predicate Ready(a: Appender, level: int) {
    Valid(a) && a.config == DefaultConfig() && a.level == level && 0 <= level < MaxLevel
  }

  /** `PrepareForGeneration`: the cancellation check, then `Clear`. */
  method PrepareForGeneration(buffer: Appender, cancelled: bool) returns (r: Step)
    ensures cancelled <==> r.Threw?
    ensures cancelled ==> r.app == buffer
    ensures r.Done? ==> r.app.buffer == "" && r.app.level == 0 && r.app.currentIndent == "" && r.app.config == buffer.config
    ensures r.Done? && Valid(buffer) ==> Valid(r.app)
  {
    if cancelled {
      return Threw(buffer);
    }
    r := Done(Clear(buffer));
  }

  /** `AppendAutoGeneratedComment`: the comment as a line, then a blank line. */
  method AppendAutoGeneratedComment(a: Appender) returns (r: Appender)
    ensures r == a.(buffer := a.buffer + a.currentIndent + AutoGeneratedComment + NewLine + NewLine)
  {
    r := AppendLine(a, AutoGeneratedComment);
    r := AppendNewLine(r);
  }

  /** `AppendNullableEnable`: the directive and a blank line, only when nullable is enabled. */
  method AppendNullableEnable(g: Generator, a: Appender) returns (r: Appender)
    ensures g.nullableEnabled ==> r == a.(buffer := a.buffer + a.currentIndent + "#nullable enable" + NewLine + NewLine)
    ensures !g.nullableEnabled ==> r == a
  {
    r := a;
    if g.nullableEnabled {
      r := AppendLine(r, "#nullable enable");
      r := AppendNewLine(r);
    }
  }

  /** At level 0 the two header steps write `Header(g)`. */
  lemma HeaderText(g: Generator, a: Appender, r: Appender)
    requires a.currentIndent == "" && a.buffer == ""
    requires r.buffer == if g.nullableEnabled
      then a.buffer + a.currentIndent + AutoGeneratedComment + NewLine + NewLine + a.currentIndent + "#nullable enable" + NewLine + NewLine
      else a.buffer + a.currentIndent + AutoGeneratedComment + NewLine + NewLine
    ensures r.buffer == Header(g)
  {
    var h := AutoGeneratedComment + NewLine + NewLine;
    assert a.buffer + a.currentIndent + AutoGeneratedComment == AutoGeneratedComment;
    if g.nullableEnabled {
      assert h + a.currentIndent == h;
    } else {
      assert h + "" == h;
    }
  }

  /**
    `AppendStartNamespace`: nothing for the global namespace; otherwise
    "namespace " and the name, then either ";" and a blank line (file-scoped)
    or a block start on the same line.
   */
  method AppendStartNamespace(g: Generator, a: Appender) returns (r: Step)
    ensures Ready(a, 0) ==> && r.Done? && Ready(r.app, NamespaceDepth(g))
                            && r.app.buffer == WriteNamespaceOpening(a.buffer, g)
  {
    if g.globalNamespace {
      return Done(a);
    }
    var app := Append(a, "namespace ");
    app := Append(app, g.namespaceDisplay);
    if g.fileScopedNamespace {
      app := AppendChar(app, ';');
      app := AppendNewLine(app);
      app := AppendNewLine(app);
      r := Done(app);
    } else {
      if Ready(a, 0) {
        DefaultStartBlock(app);
        assert Indent(0) == "";
      }
      r := AppendStartBlock(app);
    }
  }

  /** `AppendContainingTypes`: each containing type's declaration line, then a block start. */
  method AppendContainingTypes(g: Generator, a: Appender) returns (r: Step)
    ensures Ready(a, a.level) && a.level + |g.containingTypes| < MaxLevel && NoNullElement(g.containingTypes) ==>
      && r.Done? && Ready(r.app, a.level + |g.containingTypes|)
      && r.app.buffer == WriteOpens(a.buffer, g.containingTypes, a.level)
  {
    ghost var good := Ready(a, a.level) && a.level + |g.containingTypes| < MaxLevel
                      && NoNullElement(g.containingTypes);
    var types := g.containingTypes;
    var app := a;
    for i := 0 to |types|
      invariant good ==> && Ready(app, a.level + i)
                         && app.buffer == WriteOpens(a.buffer, types[..i], a.level)
    {
      if types[i].Null? {
        return Threw(app);
      }
      if good {
        OpenContainingType(a.buffer, types, a.level, i, app);
      }
      app := AppendLine(app, types[i].value.declaration);
      var s := AppendStartBlock(app);
      if s.Threw? {
        return s;
      }
      app := s.app;
    }
    assert types[..|types|] == types;
    r := Done(app);
  }

  /** One turn of `AppendContainingTypes`: the declaration line and a block start, one level deeper. */
  lemma OpenContainingType(buf: string, types: seq<Nullable<TypeContext>>, base: nat, i: nat, app: Appender)
    requires i < |types| && types[i].NonNull? && base + i + 1 < MaxLevel
    requires Ready(app, base + i) && app.buffer == WriteOpens(buf, types[..i], base)
    ensures var s := AppendStartBlock(AppendLine(app, types[i].value.declaration));
      && s.Done? && Ready(s.app, base + i + 1)
      && s.app.buffer == WriteOpens(buf, types[..i + 1], base)
  {
    var decl := types[i].value.declaration;
    var line := AppendLine(app, decl);
    DefaultIndentAt(app);
    assert line.buffer == app.buffer + Indent(base + i) + decl + NewLine;
    DefaultStartBlock(line);
    var started := AppendStartBlock(line);
    assert started.app.buffer == line.buffer + Indent(base + i) + "{" + NewLine;
    OpensStep(buf, types, base, i);
  }

  /** The text of one more containing type's opening. */
  lemma OpensStep(buf: string, types: seq<Nullable<TypeContext>>, base: nat, i: nat)
    requires i < |types| && types[i].NonNull?
    ensures WriteOpens(buf, types[..i + 1], base)
      == WriteOpens(buf, types[..i], base) + Indent(base + i) + types[i].value.declaration + NewLine
         + Indent(base + i) + "{" + NewLine
  {
    var prefix := types[..i + 1];
    assert prefix[..i] == types[..i];
  }

  /**
    `AppendTypeDeclaration`, `AppendStartBlock`, the empty `AppendCustomMembers`
    and `AppendEndBlock`: the declaration line and an empty block, back at
    the starting level.
   */
  method AppendTypeBlock(g: Generator, a: Appender) returns (r: Step)
    ensures Ready(a, a.level) && a.level + 1 < MaxLevel ==>
      && r.Done? && Ready(r.app, a.level)
      && r.app.buffer == WriteTypeBlock(a.buffer, g, a.level)
  {
    var app := AppendLine(a, g.context.declaration);
    ghost var good := Ready(a, a.level) && a.level + 1 < MaxLevel;
    if good {
      DefaultIndentAt(app);
      DefaultStartBlock(app);
    }
    r := AppendStartBlock(app);
    if r.Threw? {
      return;
    }
    if good {
      DefaultEndBlock(r.app);
    }
    r := AppendEndBlock(r.app);
  }

  /** `AppendContainingTypesEndBlock`: one block end per containing type. */
  method AppendContainingTypesEndBlock(g: Generator, a: Appender) returns (r: Step)
    ensures Ready(a, a.level) && |g.containingTypes| <= a.level ==>
      && r.Done? && Ready(r.app, a.level - |g.containingTypes|)
      && r.app.buffer == WriteCloses(a.buffer, a.level, |g.containingTypes|)
  {
    ghost var good := Ready(a, a.level) && |g.containingTypes| <= a.level;
    var app := a;
    for i := 0 to |g.containingTypes|
      invariant good ==> Ready(app, a.level - i) && app.buffer == WriteCloses(a.buffer, a.level, i)
    {
      if good {
        CloseContainingType(a.buffer, a.level, i, app);
      }
      var s := AppendEndBlock(app);
      if s.Threw? {
        return s;
      }
      app := s.app;
    }
    r := Done(app);
  }

  /** One turn of `AppendContainingTypesEndBlock`: a block end, one level shallower. */
  lemma CloseContainingType(buf: string, top: nat, i: nat, app: Appender)
    requires i < top && Ready(app, top - i) && app.buffer == WriteCloses(buf, top, i)
    ensures var s := AppendEndBlock(app);
      && s.Done? && Ready(s.app, top - i - 1)
      && s.app.buffer == WriteCloses(buf, top, i + 1)
  {
    DefaultEndBlock(app);
    var ended := AppendEndBlock(app);
    assert ended.app.buffer == app.buffer + Indent(top - (i + 1)) + "}" + NewLine;
  }

  /** `AppendEndNamespace`: a block end only for a block-scoped namespace. */
  method AppendEndNamespace(g: Generator, a: Appender) returns (r: Step)
    ensures Ready(a, NamespaceDepth(g)) ==>
      && r.Done? && Ready(r.app, 0)
      && r.app.buffer == WriteNamespaceClosing(a.buffer, g)
  {
    if g.globalNamespace || g.fileScopedNamespace {
      return Done(a);
    }
    if Ready(a, NamespaceDepth(g)) {
      DefaultEndBlock(a);
      assert Indent(0) == "";
    }
    r := AppendEndBlock(a);
  }

  // ---------------------------------------------------------------------------
  // AppendSource
  // ---------------------------------------------------------------------------

  /** The conditions under which nothing in `AppendSource` can throw. */
  ghost predicate CanComplete(g: Generator, buffer: Appender, cancelled: bool) {
    && !cancelled
    && Valid(buffer) && buffer.config == DefaultConfig()
    && NoNullElement(g.containingTypes)
    && |g.containingTypes| + 2 < MaxLevel
  }

  /**
    The buffer the constructor creates, `new IndentingLineAppender()`, meets
    the buffer conditions of `CanComplete`: with no null containing type and
    a nesting depth below the bound, an uncancelled `AppendSource` on a
    freshly constructed generator cannot throw.
   */
  lemma FreshBufferCanComplete(g: Generator)
    requires NoNullElement(g.containingTypes) && |g.containingTypes| + 2 < MaxLevel
    ensures CanComplete(g, NewDefault(), false)
  {
  }

  /**
    `AppendSource()` on the generator's buffer, `cancelled` being whether
    the token reports cancellation. Every block it opens it closes: when
    nothing throws, it ends at level 0 with an empty indentation, whatever
    the buffer held before.
   */
  method AppendSource(g: Generator, buffer: Appender, cancelled: bool) returns (r: Step)
    ensures cancelled ==> r == Threw(buffer)
    ensures CanComplete(g, buffer, cancelled) ==>
      && r.Done? && Valid(r.app)
      && r.app.level == 0 && r.app.currentIndent == ""
      && r.app.buffer == ExpectedSource(g)
  {
    ghost var good := CanComplete(g, buffer, cancelled);
    r := PrepareForGeneration(buffer, cancelled);
    if r.Threw? {
      return;
    }
    ghost var cleared := r.app;
    var app := AppendAutoGeneratedComment(r.app);
    app := AppendNullableEnable(g, app);
    if good {
      HeaderText(g, cleared, app);
    }
    r := AppendBody(g, app);
    if good {
      DefaultIndentAt(r.app);
    }
  }

  /**
    The part of `AppendSource` after the header: the namespace opening, the
    containing types, the type's own block and the closing of every block,
    starting and ending at level 0.
   */
  method AppendBody(g: Generator, a: Appender) returns (r: Step)
    ensures Ready(a, 0) && NoNullElement(g.containingTypes) && |g.containingTypes| + 2 < MaxLevel ==>
      var base := NamespaceDepth(g);
      var depth := base + |g.containingTypes|;
      var inner := WriteOpens(WriteNamespaceOpening(a.buffer, g), g.containingTypes, base);
      && r.Done? && Ready(r.app, 0)
      && r.app.buffer == WriteNamespaceClosing(WriteCloses(WriteTypeBlock(inner, g, depth), depth, |g.containingTypes|), g)
  {
    r := AppendOpenings(g, a);
    if r.Threw? {
      return;
    }
    r := AppendClosings(g, r.app);
  }

  /** The namespace opening and the containing types' openings, from level 0 down to the type's level. */
  method AppendOpenings(g: Generator, a: Appender) returns (r: Step)
    ensures Ready(a, 0) && NoNullElement(g.containingTypes) && |g.containingTypes| + 2 < MaxLevel ==>
      && r.Done? && Ready(r.app, NamespaceDepth(g) + |g.containingTypes|)
      && r.app.buffer == WriteOpens(WriteNamespaceOpening(a.buffer, g), g.containingTypes, NamespaceDepth(g))
  {
    r := AppendStartNamespace(g, a);
    if r.Threw? {
      return;
    }
    r := AppendContainingTypes(g, r.app);
  }

  /** The type's own block and the closing of every enclosing block, from the type's level back to level 0. */
  method AppendClosings(g: Generator, a: Appender) returns (r: Step)
    ensures var depth := NamespaceDepth(g) + |g.containingTypes|;
      Ready(a, depth) && depth + 1 < MaxLevel ==>
      && r.Done? && Ready(r.app, 0)
      && r.app.buffer == WriteNamespaceClosing(WriteCloses(WriteTypeBlock(a.buffer, g, depth), depth, |g.containingTypes|), g)
  {
    r := AppendTypeBlock(g, a);
    if r.Threw? {
      return;
    }
    r := AppendContainingTypesEndBlock(g, r.app);
    if r.Threw? {
      return;
    }
    r := AppendEndNamespace(g, r.app);
  }

  // ---------------------------------------------------------------------------
  // Properties of the expected text
  // ---------------------------------------------------------------------------

  /** The file starts with the auto-generated comment and a blank line. */
  lemma SourceStartsWithComment(g: Generator)
    ensures IsPrefix(AutoGeneratedComment + NewLine + NewLine, ExpectedSource(g))
  {
    var h := AutoGeneratedComment + NewLine + NewLine;
    var base := NamespaceDepth(g);
    var depth := base + |g.containingTypes|;
    var x0 := Header(g);
    var x1 := WriteNamespaceOpening(x0, g);
    var x2 := WriteOpens(x1, g.containingTypes, base);
    var x3 := WriteTypeBlock(x2, g, depth);
    var x4 := WriteCloses(x3, depth, |g.containingTypes|);
    var x5 := WriteNamespaceClosing(x4, g);
    PrefixTrans(h, x0, x1);
    PrefixTrans(h, x1, x2);
    PrefixTrans(h, x2, x3);
    PrefixTrans(h, x3, x4);
    PrefixTrans(h, x4, x5);
  }

  /**
    A top-level type in the global namespace, without nullable: the header,
    then the declaration line and "{" and "}" lines, all unindented.
   */
  lemma TopLevelSource(g: Generator)
    requires g.globalNamespace && g.containingTypes == [] && !g.nullableEnabled
    ensures Header(g) == AutoGeneratedComment + NewLine + NewLine
    ensures ExpectedSource(g) == Header(g) + g.context.declaration + NewLine + "{" + NewLine + "}" + NewLine
  {
    var h := Header(g);
    assert WriteOpens(WriteNamespaceOpening(h, g), g.containingTypes, 0) == h;
    var tb := WriteTypeBlock(h, g, 0);
    assert WriteNamespaceClosing(WriteCloses(tb, 0, 0), g) == tb;
    TypeBlockAtZero(h, g);
  }

  /** At level 0 the type's block carries no indentation. */
  lemma TypeBlockAtZero(buf: string, g: Generator)
    ensures WriteTypeBlock(buf, g, 0) == buf + g.context.declaration + NewLine + "{" + NewLine + "}" + NewLine
  {
    var d := g.context.declaration;
    assert Indent(0) == "";
    assert buf + "" == buf;
    assert buf + d + NewLine + "" == buf + d + NewLine;
    assert buf + d + NewLine + "{" + NewLine + "" == buf + d + NewLine + "{" + NewLine;
  }

  /**
    In a block-scoped namespace the namespace line carries the block start
    and everything after it, up to the final "}", is one level deeper.
   */
  lemma BlockNamespaceSource(g: Generator)
    requires !g.globalNamespace && !g.fileScopedNamespace && g.containingTypes == []
    ensures ExpectedSource(g) == Header(g) + "namespace " + g.namespaceDisplay + "{" + NewLine
                                 + Indent(1) + g.context.declaration + NewLine + Indent(1) + "{" + NewLine
                                 + Indent(1) + "}" + NewLine + "}" + NewLine
  {
  }

  /** Closing `n` levels from `top` ends with a "}" line at level `top - n`. */
  lemma ClosesLastAtBase(buf: string, top: nat, n: nat)
    requires 0 < n <= top
    ensures var r := WriteCloses(buf, top, n); var t := Indent(top - n) + "}" + NewLine;
      |r| >= |t| && r[|r| - |t|..] == t
  {
    var before := WriteCloses(buf, top, n - 1);
    var t := Indent(top - n) + "}" + NewLine;
    var r := WriteCloses(buf, top, n);
    assert r == before + t;
    assert r[|before|..] == t;
  }
}
