/**
  Strings as the modelled code builds them: the platform newline, repeated
  characters (`new string(c, n)`), decimal rendering (`$"{n}"`) and the
  zero-padded custom format `{0:000}`.
 */
module Text {

  /** `Environment.NewLine`: platform dependent, so left uninterpreted. */
  const NewLine: string

  /** `new string(c, n)` for `n >= 0`. */
  function Repeat(c: char, n: nat): (r: string)
    ensures |r| == n
    ensures forall i :: 0 <= i < n ==> r[i] == c
  {
    if n == 0 then "" else Repeat(c, n - 1) + [c]
  }

  /** A prefix of a string stays a prefix when more is appended. */
  lemma PrefixExtend(h: string, x: string, y: string)
    requires |h| <= |x| && x[..|h|] == h
    ensures |h| <= |x + y| && (x + y)[..|h|] == h
  {
    assert (x + y)[..|h|] == x[..|h|];
  }

  lemma Assoc(a: string, b: string, c: string)
    ensures a + (b + c) == a + b + c
  {
  }

  /** The text of each item, concatenated in order. */
  function Lines<E>(line: E -> string, items: seq<E>): string {
    if |items| == 0 then "" else Lines(line, items[..|items| - 1]) + line(items[|items| - 1])
  }

  lemma LinesStep<E>(line: E -> string, items: seq<E>, i: nat)
    requires i < |items|
    ensures Lines(line, items[..i + 1]) == Lines(line, items[..i]) + line(items[i])
  {
    assert items[..i + 1][..i] == items[..i];
  }

  lemma {:induction false} LinesAppend<E>(line: E -> string, a: seq<E>, b: seq<E>)
    ensures Lines(line, a + b) == Lines(line, a) + Lines(line, b)
    decreases |b|
  {
    if |b| == 0 {
      assert a + b == a;
    } else {
      assert (a + b)[..|a + b| - 1] == a + b[..|b| - 1];
      LinesAppend(line, a, b[..|b| - 1]);
    }
  }

  /** Items that render as nothing contribute nothing. */
  lemma {:induction false} LinesAllEmpty<E>(line: E -> string, items: seq<E>)
    requires forall i :: 0 <= i < |items| ==> line(items[i]) == ""
    ensures Lines(line, items) == ""
  {
    if |items| > 0 {
      LinesAllEmpty(line, items[..|items| - 1]);
    }
  }

  lemma LinesOne<E>(line: E -> string, item: E)
    ensures Lines(line, [item]) == line(item)
  {
    assert [item][..0] == [];
  }

  /** The text of a non-empty run is its first item's text followed by the rest's. */
  lemma LinesFirst<E>(line: E -> string, items: seq<E>)
    requires |items| > 0
    ensures Lines(line, items) == line(items[0]) + Lines(line, items[1..])
  {
    var first := [items[0]];
    var rest := items[1..];
    calc {
      Lines(line, items);
      { assert items == first + rest; }
      Lines(line, first + rest);
      { LinesAppend(line, first, rest); }
      Lines(line, first) + Lines(line, rest);
      { LinesOne(line, items[0]); }
      line(items[0]) + Lines(line, rest);
    }
  }

  lemma LinesSnoc<E>(line: E -> string, items: seq<E>, last: E)
    ensures Lines(line, items + [last]) == Lines(line, items) + line(last)
  {
    assert (items + [last])[..|items|] == items;
  }

  /** Dropping the first item and appending another moves the text along by one item. */
  lemma LinesShift<E>(line: E -> string, items: seq<E>, last: E)
    requires |items| > 0
    ensures line(items[0]) + Lines(line, items[1..] + [last]) == Lines(line, items) + line(last)
  {
    var rest := items[1..];
    calc {
      line(items[0]) + Lines(line, rest + [last]);
      { LinesSnoc(line, rest, last); }
      line(items[0]) + (Lines(line, rest) + line(last));
      { Assoc(line(items[0]), Lines(line, rest), line(last)); }
      (line(items[0]) + Lines(line, rest)) + line(last);
      { LinesFirst(line, items); }
      Lines(line, items) + line(last);
    }
  }

  predicate IsDigit(c: char) {
    '0' <= c <= '9'
  }

  predicate AllDigits(s: string) {
    forall i :: 0 <= i < |s| ==> IsDigit(s[i])
  }

  function DigitChar(d: nat): (c: char)
    requires d < 10
    ensures IsDigit(c) && (c as int) - ('0' as int) == d
  {
    ['0', '1', '2', '3', '4', '5', '6', '7', '8', '9'][d]
  }

  /** Decimal digits of `n`, most significant first, without leading zeros. */
  function NatToString(n: nat): (r: string)
    ensures |r| >= 1 && AllDigits(r)
    ensures n >= 10 ==> r[0] != '0'
  {
    if n < 10 then [DigitChar(n)] else NatToString(n / 10) + [DigitChar(n % 10)]
  }

  /**
    `$"{n}"` for a C# integer: a minus sign, then the digits of the magnitude
    (a culture whose negative sign is the ASCII `-`).
   */
  function IntToString(n: int): (r: string)
  {
    if n < 0 then "-" + NatToString(-n) else NatToString(n)
  }

  /** The value of a string of decimal digits; the inverse of `NatToString`. */
  function ParseNat(s: string): nat
    requires AllDigits(s)
  {
    if |s| == 0 then 0
    else ParseNat(s[..|s| - 1]) * 10 + ((s[|s| - 1] as int) - ('0' as int))
  }

  lemma {:induction false} ParseNatToString(n: nat)
    ensures ParseNat(NatToString(n)) == n
  {
    if n >= 10 {
      var s := NatToString(n);
      assert s[..|s| - 1] == NatToString(n / 10);
      ParseNatToString(n / 10);
    }
  }

  /** Leading zeros do not change the value of a digit string. */
  lemma {:induction false} ParseNatLeadingZeros(k: nat, s: string)
    requires AllDigits(s)
    ensures AllDigits(Repeat('0', k) + s)
    ensures ParseNat(Repeat('0', k) + s) == ParseNat(s)
    decreases |s|, k
  {
    var z := Repeat('0', k) + s;
    if |s| == 0 {
      assert z == Repeat('0', k);
      if k > 0 {
        assert z[..|z| - 1] == Repeat('0', k - 1) + "";
        ParseNatLeadingZeros(k - 1, "");
      }
    } else {
      assert z[..|z| - 1] == Repeat('0', k) + s[..|s| - 1];
      ParseNatLeadingZeros(k, s[..|s| - 1]);
    }
  }

  /** Left-pads a digit string with zeros up to `width` characters. */
  function PadZeros(digits: string, width: nat): (r: string)
  {
    if |digits| < width then Repeat('0', width - |digits|) + digits else digits
  }

  /**
    The custom numeric format `{0:000}`: at least three digits with leading
    zeros, and a minus sign (ASCII `-`) in front of the padded magnitude of a
    negative value.
   */
  function Format000(n: int): (r: string)
    ensures n >= 0 ==> |r| >= 3 && AllDigits(r) && ParseNat(r) == n
    ensures n < 0 ==> |r| >= 4 && r[0] == '-' && AllDigits(r[1..]) && ParseNat(r[1..]) == -n
  {
    var m: nat := if n < 0 then -n else n;
    var digits := NatToString(m);
    ParseNatToString(m);
    var padded :=
      if |digits| < 3 then ParseNatLeadingZeros(3 - |digits|, digits); PadZeros(digits, 3)
      else PadZeros(digits, 3);
    if n < 0 then
      assert ("-" + padded)[1..] == padded;
      "-" + padded
    else padded
  }
}
