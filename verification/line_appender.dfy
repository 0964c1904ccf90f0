/**
  `IndentingLineAppender`: a text buffer with an indentation level, the
  indentation string for that level, and a per-level cache of indentation
  strings. Operations that can throw (`new string(c, n)` with a negative
  count) return the appender's state at the point of the exception.
 */
module LineAppender {
  import opened Wrappers
  import opened CSharpInt
  import opened Text

  /** The constructor's arguments: indentation character and repetition, block start and end. */
  datatype Config = Config(indentChar: char, repetition: Int32, blockStart: string, blockEnd: string)

  /** The defaults: four spaces per level, blocks in braces. */
  function DefaultConfig(): Config {
    Config(' ', 4, "{", "}")
  }

  datatype Appender = Appender(
    config: Config,
    singleIndent: string,
    level: Int32,
    currentIndent: string,
    buffer: string,
    cache: map<Int32, string>)

  /** `new string(c, count)`: `None` where it throws `ArgumentOutOfRangeException`. */
  function NewString(c: char, count: Int32): (r: Option<string>)
    ensures r.Some? <==> count >= 0
    ensures r.Some? ==> |r.value| == count && forall i :: 0 <= i < count ==> r.value[i] == c
  {
    if count < 0 then None else Some(Repeat(c, count))
  }

  /** The indentation of level `n`: `n * rep` (an unchecked product) indentation characters. */
  function IndentFor(config: Config, n: Int32): Option<string> {
    NewString(config.indentChar, Wrap32(n * config.repetition))
  }

  /** Every cached string is the indentation of its level. */
  ghost predicate CacheValid(a: Appender) {
    forall n :: n in a.cache ==> IndentFor(a.config, n) == Some(a.cache[n])
  }

  /** The state every constructed appender keeps between calls that do not throw. */
  ghost predicate Valid(a: Appender) {
    && a.config.repetition >= 0
    && a.singleIndent == Repeat(a.config.indentChar, a.config.repetition)
    && CacheValid(a)
    && IndentFor(a.config, a.level) == Some(a.currentIndent)
  }

  /**
    The constructor over an existing builder: a null builder throws
    `ArgumentNullException`, a negative repetition makes `SingleIndent`'s
    `new string` throw; otherwise level 0 with an empty indentation.
   */
  function New(existing: Option<string>, config: Config): (r: Option<Appender>)
    ensures r.Some? <==> existing.Some? && config.repetition >= 0
    ensures r.Some? ==> && Valid(r.value) && r.value.buffer == existing.value
                        && r.value.level == 0 && r.value.currentIndent == ""
                        && r.value.singleIndent == Repeat(config.indentChar, config.repetition)
                        && r.value.config == config && r.value.cache == map[]
  {
    if existing.None? then None
    else match NewString(config.indentChar, config.repetition)
      case None => None
      case Some(single) => Some(Appender(config, single, 0, "", existing.value, map[]))
  }

  /**
    `new IndentingLineAppender()`: a fresh builder and the default
    configuration, which cannot throw.
   */
  function NewDefault(): (r: Appender)
    ensures Valid(r) && r.config == DefaultConfig()
    ensures r.buffer == "" && r.level == 0 && r.currentIndent == "" && r.cache == map[]
  {
    New(Some(""), DefaultConfig()).value
  }

  // ---------------------------------------------------------------------------
  // Indentation
  // ---------------------------------------------------------------------------

  datatype Lookup = Found(app: Appender, indent: string) | LookupThrew(app: Appender)

  /**
    `StringForIndent(indent)`: the cached string for the level, or a new one
    that is then cached. With a valid cache the result is always the level's
    indentation, so caching never changes what is returned.
   */
  function StringForIndent(a: Appender, n: Int32): (r: Lookup)
    ensures r.app == a.(cache := r.app.cache)
    ensures r.LookupThrew? ==> r.app == a
    ensures CacheValid(a) ==>
      && CacheValid(r.app)
      && (r.Found? <==> IndentFor(a.config, n).Some?)
      && (r.Found? ==> IndentFor(a.config, n) == Some(r.indent) && n in r.app.cache)
  {
    if n in a.cache then Found(a, a.cache[n])
    else match NewString(a.config.indentChar, Wrap32(n * a.config.repetition))
      case None => LookupThrew(a)
      case Some(s) => Found(a.(cache := a.cache[n := s]), s)
  }

  datatype Step = Done(app: Appender) | Threw(app: Appender)

  /** `UpdateCurrentIndent`: the current indentation becomes the string for the current level. */
  function UpdateCurrentIndent(a: Appender): Step {
    match StringForIndent(a, a.level)
    case Found(a1, s) => Done(a1.(currentIndent := s))
    case LookupThrew(a1) => Threw(a1)
  }

  /** The `IndentLevel` setter: the level is stored before the indentation is looked up. */
  function SetIndentLevel(a: Appender, value: Int32): (r: Step)
    ensures r.app.level == value && r.app.buffer == a.buffer
    ensures r.Threw? ==> r.app == a.(level := value)
    ensures Valid(a) ==> && (r.Done? <==> IndentFor(a.config, value).Some?)
                         && (r.Done? ==> Valid(r.app) && IndentFor(a.config, value) == Some(r.app.currentIndent))
  {
    UpdateCurrentIndent(a.(level := value))
  }

  /** `Clear`: empties the buffer and resets the level and indentation; the cache stays. */
  function Clear(a: Appender): (r: Appender)
    ensures Valid(a) ==> Valid(r)
    ensures r.buffer == "" && r.level == 0 && r.currentIndent == ""
    ensures r.config == a.config && r.cache == a.cache
  {
    a.(buffer := "", level := 0, currentIndent := "")
  }

  // ---------------------------------------------------------------------------
  // Appending
  // ---------------------------------------------------------------------------

  /**
    `r` is `a` with `piece` appended: the old text stays as a prefix, exactly
    `piece` follows it, and the level, indentation, cache and configuration
    are unchanged.
   */
  predicate Extends(a: Appender, r: Appender, piece: string) {
    && r == a.(buffer := r.buffer)
    && |r.buffer| == |a.buffer| + |piece|
    && r.buffer[..|a.buffer|] == a.buffer
    && r.buffer[|a.buffer|..] == piece
  }

  /** `AppendIndent()`: the current indentation, nothing else. */
  function AppendIndent(a: Appender): (r: Appender)
    ensures Extends(a, r, a.currentIndent)
    ensures Valid(a) ==> Valid(r)
  {
    a.(buffer := a.buffer + a.currentIndent)
  }

  /** `AppendLine()`: a bare newline. */
  function AppendNewLine(a: Appender): (r: Appender)
    ensures Extends(a, r, NewLine)
    ensures Valid(a) ==> Valid(r)
  {
    a.(buffer := a.buffer + NewLine)
  }

  /** `AppendLine(line)`: the current indentation, the line, a newline. */
  function AppendLine(a: Appender, line: string): (r: Appender)
    ensures Extends(a, r, a.currentIndent + line + NewLine)
    ensures Valid(a) ==> Valid(r)
  {
    assert a.buffer + a.currentIndent + line + NewLine == a.buffer + (a.currentIndent + line + NewLine);
    a.(buffer := a.buffer + a.currentIndent + line + NewLine)
  }

  /** `Append(string)`: the text as is, without indentation. */
  function Append(a: Appender, text: string): (r: Appender)
    ensures Extends(a, r, text)
    ensures Valid(a) ==> Valid(r)
  {
    a.(buffer := a.buffer + text)
  }

  /** `Append(char)`. */
  function AppendChar(a: Appender, c: char): (r: Appender)
    ensures Extends(a, r, [c])
    ensures Valid(a) ==> Valid(r)
  {
    a.(buffer := a.buffer + [c])
  }

  /**
    The appending operations only ever extend the buffer: what was there
    stays a prefix, and the level, indentation and cache are untouched. Only
    `AppendIndent` and `AppendLine(line)` write indentation.
   */
  lemma AppendsOnlyExtendTheBuffer(a: Appender, line: string, text: string, c: char)
    ensures forall r :: r in [AppendIndent(a), AppendNewLine(a), AppendLine(a, line), Append(a, text), AppendChar(a, c)] ==>
      && r.buffer[..|a.buffer|] == a.buffer
      && r == a.(buffer := r.buffer)
    ensures Valid(a) ==> Valid(AppendLine(a, line)) && Valid(Append(a, text)) && Valid(AppendChar(a, c))
    ensures AppendLine(a, line).buffer[|a.buffer|..] == a.currentIndent + line + NewLine
    ensures Append(a, text).buffer[|a.buffer|..] == text
    ensures AppendChar(a, c).buffer[|a.buffer|..] == [c]
  {
    assert (a.buffer + a.currentIndent + line + NewLine)[|a.buffer|..] == a.currentIndent + line + NewLine;
  }

  // ---------------------------------------------------------------------------
  // Blocks
  // ---------------------------------------------------------------------------

  /** `AppendStartBlock`: the block start at the old indentation, then one level deeper. */
  function AppendStartBlock(a: Appender): (r: Step)
    ensures r.app.buffer == a.buffer + a.currentIndent + a.config.blockStart + NewLine
    ensures r.app.level == Wrap32(a.level + 1)
    ensures Valid(a) ==> (r.Done? <==> IndentFor(a.config, Wrap32(a.level + 1)).Some?)
    ensures Valid(a) && r.Done? ==> Valid(r.app) && IndentFor(a.config, r.app.level) == Some(r.app.currentIndent)
  {
    var a1 := AppendLine(a, a.config.blockStart);
    UpdateCurrentIndent(a1.(level := Wrap32(a.level + 1)))
  }

  /** `AppendEndBlock`: one level shallower first, then the block end at the new indentation. */
  function AppendEndBlock(a: Appender): (r: Step)
    ensures r.app.level == Wrap32(a.level - 1)
    ensures r.Threw? ==> r.app.buffer == a.buffer
    ensures Valid(a) ==> (r.Done? <==> IndentFor(a.config, Wrap32(a.level - 1)).Some?)
    ensures Valid(a) && r.Done? ==>
      && Valid(r.app) && IndentFor(a.config, r.app.level) == Some(r.app.currentIndent)
      && r.app.buffer == a.buffer + r.app.currentIndent + a.config.blockEnd + NewLine
  {
    match UpdateCurrentIndent(a.(level := Wrap32(a.level - 1)))
    case Done(a1) => Done(AppendLine(a1, a.config.blockEnd))
    case Threw(a1) => Threw(a1)
  }

  /** The start line is written whether or not the level change then throws. */
  lemma StartBlockWritesAtOldIndent(a: Appender)
    requires Valid(a)
    ensures var r := AppendStartBlock(a);
      && r.app.buffer == a.buffer + a.currentIndent + a.config.blockStart + NewLine
      && r.app.level == Wrap32(a.level + 1)
      && (r.Done? <==> IndentFor(a.config, Wrap32(a.level + 1)).Some?)
      && (r.Done? ==> Valid(r.app))
  {
  }

  /** The end line is written at the lowered level's indentation, and not at all if that throws. */
  lemma EndBlockWritesAtNewIndent(a: Appender)
    requires Valid(a)
    ensures var r := AppendEndBlock(a);
      && r.app.level == Wrap32(a.level - 1)
      && (r.Done? <==> IndentFor(a.config, Wrap32(a.level - 1)).Some?)
      && (r.Done? ==> Valid(r.app) && r.app.buffer == a.buffer + r.app.currentIndent + a.config.blockEnd + NewLine)
      && (r.Threw? ==> r.app.buffer == a.buffer)
  {
  }

  /**
    A block start followed by a block end restores the level and the
    indentation, and both brace lines carry the indentation the start had,
    whenever the deeper indentation exists (the start does not throw).
   */
  lemma StartThenEndRestores(a: Appender)
    requires Valid(a)
    requires IndentFor(a.config, Wrap32(a.level + 1)).Some?
    ensures var e := AppendEndBlock(AppendStartBlock(a).app);
      && e.Done?
      && e.app.level == a.level
      && e.app.currentIndent == a.currentIndent
      && e.app.buffer == a.buffer + a.currentIndent + a.config.blockStart + NewLine
                                  + a.currentIndent + a.config.blockEnd + NewLine
      && Valid(e.app)
  {
    var s := AppendStartBlock(a).app;
    IncrementDecrement(a.level);
    assert Wrap32(s.level - 1) == a.level;
  }

  /**
    Closing a block at level 0 leaves the level at -1, and then throws
    exactly when the repetition is positive (a negative count for
    `new string`); the buffer is untouched when it throws.
   */
  lemma EndBlockAtLevelZero(a: Appender)
    requires Valid(a) && a.level == 0
    ensures var r := AppendEndBlock(a);
      && r.app.level == -1
      && (r.Threw? <==> a.config.repetition > 0)
      && (r.Threw? ==> r.app.buffer == a.buffer)
  {
    assert Wrap32(-1 * a.config.repetition) == -a.config.repetition;
  }

  // ---------------------------------------------------------------------------
  // The default configuration
  // ---------------------------------------------------------------------------

  /** Levels below 2^28 have an indentation width (four per level) that fits in an `int`. */
  const MaxLevel: nat := 0x1000_0000

  /** The default indentation of a level: four spaces per level. */
  function Indent(level: nat): string {
    Repeat(' ', 4 * level)
  }

  /** With the default configuration the current indentation is four spaces per level. */
  lemma DefaultIndentAt(a: Appender)
    requires Valid(a) && a.config == DefaultConfig() && 0 <= a.level < MaxLevel
    ensures a.currentIndent == Indent(a.level)
  {
    assert IsInt32(a.level * 4);
  }

  /** A default block start writes "{" at the current level's indentation and goes one level deeper. */
  lemma DefaultStartBlock(a: Appender)
    requires Valid(a) && a.config == DefaultConfig() && 0 <= a.level && a.level + 1 < MaxLevel
    ensures var r := AppendStartBlock(a);
      && r.Done? && Valid(r.app) && r.app.config == a.config
      && r.app.level == a.level + 1 && r.app.currentIndent == Indent(a.level + 1)
      && r.app.buffer == a.buffer + Indent(a.level) + "{" + NewLine
  {
    DefaultIndentAt(a);
    assert IsInt32(a.level + 1) && IsInt32((a.level + 1) * 4);
    var r := AppendStartBlock(a);
    DefaultIndentAt(r.app);
  }

  /** A default block end goes one level up and writes "}" at that level's indentation. */
  lemma DefaultEndBlock(a: Appender)
    requires Valid(a) && a.config == DefaultConfig() && 1 <= a.level < MaxLevel
    ensures var r := AppendEndBlock(a);
      && r.Done? && Valid(r.app) && r.app.config == a.config
      && r.app.level == a.level - 1 && r.app.currentIndent == Indent(a.level - 1)
      && r.app.buffer == a.buffer + Indent(a.level - 1) + "}" + NewLine
  {
    assert IsInt32(a.level - 1) && IsInt32((a.level - 1) * 4);
    var r := AppendEndBlock(a);
    DefaultIndentAt(r.app);
  }

  // ---------------------------------------------------------------------------
  // Multi-line content
  // ---------------------------------------------------------------------------

  predicate IsLineBreak(c: char) {
    c == '\r' || c == '\n'
  }

  predicate NoLineBreak(s: string) {
    forall k :: 0 <= k < |s| ==> !IsLineBreak(s[k])
  }

  /** The index of the first line break at or after `i`, or the end of `s`. */
  function LineEnd(s: string, i: nat): (j: nat)
    requires i <= |s|
    ensures i <= j <= |s|
    ensures j < |s| ==> IsLineBreak(s[j])
    ensures forall k :: i <= k < j ==> !IsLineBreak(s[k])
    decreases |s| - i
  {
    if i == |s| || IsLineBreak(s[i]) then i else LineEnd(s, i + 1)
  }

  /**
    `StringReader.ReadLine` on a non-empty remainder: the text before the
    first line break, and what follows that break, with "\r\n" counting as
    one break.
   */
  function ReadLine(s: string): (r: (string, string))
    requires s != []
    ensures NoLineBreak(r.0)
    ensures |r.1| < |s|
  {
    var j := LineEnd(s, 0);
    if j == |s| then (s, [])
    else if s[j] == '\r' && j + 1 < |s| && s[j + 1] == '\n' then (s[..j], s[j + 2..])
    else (s[..j], s[j + 1..])
  }

  /** The lines `ReadLine` returns until it returns null. */
  function ReadLines(s: string): seq<string>
    decreases |s|
  {
    if s == [] then [] else [ReadLine(s).0] + ReadLines(ReadLine(s).1)
  }

  /** No line read contains a line break, and there are no more lines than characters. */
  lemma {:induction false} ReadLinesHaveNoBreaks(s: string)
    ensures forall i :: 0 <= i < |ReadLines(s)| ==> NoLineBreak(ReadLines(s)[i])
    ensures |ReadLines(s)| <= |s|
    decreases |s|
  {
    if s != [] {
      ReadLinesHaveNoBreaks(ReadLine(s).1);
    }
  }

  /** A line followed by its terminator. */
  function Terminate(sep: string): string -> string {
    line => line + sep
  }

  predicate IsTerminator(sep: string) {
    sep == "\n" || sep == "\r" || sep == "\r\n"
  }

  lemma {:induction false} LineEndAt(p: string, q: string, i: nat)
    requires i <= |p| && NoLineBreak(p)
    requires q != [] && IsLineBreak(q[0])
    ensures LineEnd(p + q, i) == |p|
    decreases |p| - i
  {
    if i < |p| {
      LineEndAt(p, q, i + 1);
    }
  }

  /** `ReadLines` on a line, its terminator and more: that line, then the lines of the rest. */
  lemma ReadLinesTerminatedStep(p: string, sep: string, tail: string)
    requires IsTerminator(sep) && NoLineBreak(p)
    requires sep == "\r" && tail != [] ==> tail[0] != '\n'
    ensures ReadLines(p + sep + tail) == [p] + ReadLines(tail)
  {
    var s := p + (sep + tail);
    Assoc(p, sep, tail);
    LineEndAt(p, sep + tail, 0);
    assert s[..|p|] == p;
    if sep == "\r\n" {
      assert s[|p| + 2..] == tail;
    } else {
      assert s[|p| + 1..] == tail;
    }
    assert ReadLine(s) == (p, tail);
  }

  /** Terminated lines start with the first line's first character, or the terminator's. */
  lemma TerminatedStart(lines: seq<string>, sep: string)
    requires IsTerminator(sep) && |lines| > 0 && NoLineBreak(lines[0])
    ensures var text := Lines(Terminate(sep), lines);
      text != [] && (text[0] == '\n' ==> sep[0] == '\n')
  {
    LinesFirst(Terminate(sep), lines);
  }

  /**
    Reading back lines that each end in a terminator gives exactly those
    lines: no line is lost, split or added, and the last terminator adds no
    empty line.
   */
  lemma {:induction false} ReadLinesTerminated(lines: seq<string>, sep: string)
    requires IsTerminator(sep)
    requires forall i :: 0 <= i < |lines| ==> NoLineBreak(lines[i])
    ensures ReadLines(Lines(Terminate(sep), lines)) == lines
    decreases |lines|
  {
    if |lines| > 0 {
      var p := lines[0];
      var tail := Lines(Terminate(sep), lines[1..]);
      LinesFirst(Terminate(sep), lines);
      assert Lines(Terminate(sep), lines) == p + sep + tail;
      if |lines| > 1 {
        TerminatedStart(lines[1..], sep);
      } else {
        assert tail == [];
      }
      ReadLinesTerminatedStep(p, sep, tail);
      ReadLinesTerminated(lines[1..], sep);
      assert lines == [p] + lines[1..];
    }
  }

  /** One more line feed after content that does not end in a line break adds no line. */
  lemma {:induction false} ReadLinesTrailingBreak(s: string)
    requires s != [] && !IsLineBreak(s[|s| - 1])
    ensures ReadLines(s + "\n") == ReadLines(s)
    decreases |s|
  {
    var j := LineEnd(s, 0);
    var p := ReadLine(s).0;
    if j == |s| {
      assert p == s && s + "\n" + [] == s + "\n";
      ReadLinesTerminatedStep(p, "\n", []);
    } else {
      var sep := if s[j] == '\r' && s[j + 1] == '\n' then "\r\n" else [s[j]];
      assert p == s[..j] && j + |sep| < |s|;
      var rest := s[j + |sep|..];
      assert rest[|rest| - 1] == s[|s| - 1];
      assert s == p + sep + rest;
      assert s + "\n" == p + sep + (rest + "\n");
      ReadLinesTerminatedStep(p, sep, rest);
      ReadLinesTerminatedStep(p, sep, rest + "\n");
      ReadLinesTrailingBreak(rest);
    }
  }

  /** What `AppendLines` writes for one line read from the content. */
  function IndentedLine(indent: string): string -> string {
    line => if line == "" then NewLine else indent + line + NewLine
  }

  /** One `ReadLine` of the loop: the line read moves from the unread part to the lines written. */
  lemma AppendLinesStep(content: string, done: seq<string>, rest: string, added: string, indent: string)
    requires rest != []
    requires ReadLines(content) == done + ReadLines(rest)
    requires added == Lines(IndentedLine(indent), done)
    ensures ReadLines(content) == (done + [ReadLine(rest).0]) + ReadLines(ReadLine(rest).1)
    ensures added + IndentedLine(indent)(ReadLine(rest).0) == Lines(IndentedLine(indent), done + [ReadLine(rest).0])
  {
    var read := ReadLine(rest);
    ReadLinesUnfold(rest);
    ConsumeLine(done, read.0, ReadLines(read.1));
    LinesSnoc(IndentedLine(indent), done, read.0);
  }

  /** `ReadLines` of non-empty text starts with the line `ReadLine` reads. */
  lemma ReadLinesUnfold(rest: string)
    requires rest != []
    ensures ReadLines(rest) == [ReadLine(rest).0] + ReadLines(ReadLine(rest).1)
  {
  }

  /** Moving the line read from the unread part to the lines written keeps the whole. */
  lemma ConsumeLine(done: seq<string>, line: string, later: seq<string>)
    ensures done + ([line] + later) == (done + [line]) + later
  {
  }

  /**
    `AppendLines(content)`: null or empty content changes nothing; otherwise
    each line read from it is appended, an empty one as a bare newline and
    any other through `AppendLine(line)` at the current indentation.
   */
  method AppendLines(a: Appender, content: Option<string>) returns (r: Appender)
    ensures content.None? || content == Some("") ==> r == a
    ensures content.Some? ==> r == a.(buffer := a.buffer + Lines(IndentedLine(a.currentIndent), ReadLines(content.value)))
  {
    if content.None? || content.value == "" {
      if content.Some? {
        assert a.buffer + Lines(IndentedLine(a.currentIndent), ReadLines(content.value)) == a.buffer;
      }
      return a;
    }
    var rest := content.value;
    ghost var done: seq<string> := [];
    var added := "";
    while rest != []
      invariant ReadLines(content.value) == done + ReadLines(rest)
      invariant added == Lines(IndentedLine(a.currentIndent), done)
      decreases |rest|
    {
      var read := ReadLine(rest);
      AppendLinesStep(content.value, done, rest, added, a.currentIndent);
      if read.0 == "" {
        added := added + NewLine;
      } else {
        added := added + a.currentIndent + read.0 + NewLine;
      }
      done := done + [read.0];
      rest := read.1;
    }
    assert done + ReadLines(rest) == done;
    var buffer := a.buffer + added;
    r := a.(buffer := buffer);
  }
}
