/**
 * String helpers shared by the model: the .NET notions of white space, `Trim`,
 * `IsNullOrEmpty` / `IsNullOrWhiteSpace`, prefix tests, `string.Join`, splitting at a
 * character, decimal and hexadecimal formatting, `PadLeft`, and ordinal string order.
 */
module Text {
  import opened Wrappers

  /** `char.IsWhiteSpace`: the Unicode space, line and paragraph separators, U+0009..U+000D and U+0085. */
  predicate IsWhiteSpace(c: char) {
    || c == ' '
    || ('\t' <= c <= '\r')
    || c == '\U{0085}' || c == '\U{00A0}' || c == '\U{1680}'
    || ('\U{2000}' <= c <= '\U{200A}')
    || c == '\U{2028}' || c == '\U{2029}' || c == '\U{202F}' || c == '\U{205F}' || c == '\U{3000}'
  }

  predicate AllWhiteSpace(s: string) {
    forall i :: 0 <= i < |s| ==> IsWhiteSpace(s[i])
  }

  /** `string.IsNullOrEmpty`. */
  predicate IsNullOrEmpty(s: Option<string>) {
    s.None? || s.value == ""
  }

  /** `string.IsNullOrWhiteSpace`. */
  predicate IsNullOrWhiteSpace(s: Option<string>) {
    s.None? || AllWhiteSpace(s.value)
  }

  predicate StartsWith(s: string, prefix: string) {
    |prefix| <= |s| && s[..|prefix|] == prefix
  }

  predicate EndsWith(s: string, suffix: string) {
    |suffix| <= |s| && s[|s| - |suffix|..] == suffix
  }

  /** `TrimStart()`: drops the leading white space and nothing else. */
  function TrimStart(s: string): (r: string)
    ensures |r| <= |s| && r == s[|s| - |r|..]
    ensures AllWhiteSpace(s[..|s| - |r|])
    ensures r == [] || !IsWhiteSpace(r[0])
  {
    if s != [] && IsWhiteSpace(s[0]) then
      var r := TrimStart(s[1..]);
      assert s[..|s| - |r|] == [s[0]] + s[1..][..|s| - 1 - |r|];
      r
    else s
  }

  /** `TrimEnd()`: drops the trailing white space and nothing else. */
  function TrimEnd(s: string): (r: string)
    ensures |r| <= |s| && r == s[..|r|]
    ensures AllWhiteSpace(s[|r|..])
    ensures r == [] || !IsWhiteSpace(r[|r| - 1])
  {
    if s != [] && IsWhiteSpace(s[|s| - 1]) then
      var r := TrimEnd(s[..|s| - 1]);
      assert s[|r|..] == s[..|s| - 1][|r|..] + [s[|s| - 1]];
      r
    else s
  }

  /** `Trim()`: the input without its leading and trailing white space. */
  function Trim(s: string): (r: string)
  {
    TrimEnd(TrimStart(s))
  }

  /** What `Trim` keeps neither starts nor ends with white space. */
  lemma TrimEdges(s: string)
    ensures Trim(s) == [] || (!IsWhiteSpace(Trim(s)[0]) && !IsWhiteSpace(Trim(s)[|Trim(s)| - 1]))
  {
    var t := TrimStart(s);
    var r := TrimEnd(t);
    if r != [] { assert r[0] == t[0]; }
  }

  /** A string trims to nothing exactly when it is all white space. */
  lemma TrimEmptyIffBlank(s: string)
    ensures Trim(s) == [] <==> AllWhiteSpace(s)
  {
    var t := TrimStart(s);
    if t != [] {
      assert t[0] == s[|s| - |t|];
    }
  }

  /** `string.Join(sep, parts)`. */
  function Join(sep: string, parts: seq<string>): string
  {
    if |parts| == 0 then ""
    else if |parts| == 1 then parts[0]
    else parts[0] + sep + Join(sep, parts[1..])
  }

  lemma JoinPrependToHead(sep: string, a: string, parts: seq<string>)
    requires |parts| >= 1
    ensures Join(sep, [a + parts[0]] + parts[1..]) == a + Join(sep, parts)
  {
    var ps := [a + parts[0]] + parts[1..];
    assert ps[1..] == parts[1..];
  }

  lemma JoinCons(sep: string, p: string, parts: seq<string>)
    requires |parts| >= 1
    ensures Join(sep, [p] + parts) == p + sep + Join(sep, parts)
  {
    assert ([p] + parts)[1..] == parts;
  }

  /** Joining one more part appends the separator and the part. */
  lemma {:induction false} JoinSnoc(sep: string, parts: seq<string>, p: string)
    requires |parts| >= 1
    ensures Join(sep, parts + [p]) == Join(sep, parts) + sep + p
    decreases |parts|
  {
    if |parts| == 1 {
      assert (parts + [p])[1..] == [p];
    } else {
      assert (parts + [p])[1..] == parts[1..] + [p];
      JoinSnoc(sep, parts[1..], p);
    }
  }

  /** Splits at every occurrence of `c`; the pieces between (possibly empty) are kept. */
  function Split(s: string, c: char): (r: seq<string>)
    ensures |r| >= 1
    ensures forall i :: 0 <= i < |r| ==> c !in r[i]
    ensures Join([c], r) == s
  {
    if s == [] then [""]
    else
      var rest := Split(s[1..], c);
      if s[0] == c then
        JoinCons([c], "", rest);
        [""] + rest
      else
        JoinPrependToHead([c], [s[0]], rest);
        assert s == [s[0]] + s[1..];
        [[s[0]] + rest[0]] + rest[1..]
  }

  lemma SplitAfterPiece(a: string, c: char, t: string)
    requires c !in a
    ensures Split(a + [c] + t, c) == [a] + Split(t, c)
  {
    if a == [] {
      assert ([c] + t)[1..] == t;
    } else {
      assert (a + [c] + t)[1..] == a[1..] + [c] + t;
      SplitAfterPiece(a[1..], c, t);
      assert [a[0]] + a[1..] == a;
    }
  }

  lemma SplitWithout(a: string, c: char)
    requires c !in a
    ensures Split(a, c) == [a]
  {
    if a != [] {
      SplitWithout(a[1..], c);
      assert [a[0]] + a[1..] == a;
    }
  }

  /** Splitting a join of pieces free of the separator gives the pieces back. */
  lemma {:induction false} SplitJoin(parts: seq<string>, c: char)
    requires |parts| >= 1
    requires forall i :: 0 <= i < |parts| ==> c !in parts[i]
    ensures Split(Join([c], parts), c) == parts
  {
    if |parts| == 1 {
      SplitWithout(parts[0], c);
    } else {
      SplitJoin(parts[1..], c);
      SplitAfterPiece(parts[0], c, Join([c], parts[1..]));
      assert parts == [parts[0]] + parts[1..];
    }
  }

  /** Number of occurrences of `c` in `s`. */
  function Count(s: string, c: char): nat
  {
    if s == [] then 0 else (if s[0] == c then 1 else 0) + Count(s[1..], c)
  }

  // ---------------------------------------------------------------- numbers

  predicate IsDecimalDigit(ch: char) { '0' <= ch <= '9' }

  predicate IsUpperHexDigit(ch: char) { IsDecimalDigit(ch) || 'A' <= ch <= 'F' }

  /** The digit for `d` in base 16 (uppercase), which is also the decimal digit when `d < 10`. */
  function DigitChar(d: nat): (ch: char)
    requires d < 16
    ensures IsUpperHexDigit(ch) && (d < 10 <==> IsDecimalDigit(ch))
  {
    if d < 10 then (48 + d) as char else (55 + d) as char
  }

  function DigitValue(ch: char): nat
  {
    if IsDecimalDigit(ch) then ch as nat - 48
    else if 'A' <= ch <= 'F' then ch as nat - 55
    else 0
  }

  /** `n.ToString()` for a non-negative integer: its decimal digits, without leading zeros. */
  function NatToString(n: nat): (r: string)
    ensures |r| >= 1
    ensures forall i :: 0 <= i < |r| ==> IsDecimalDigit(r[i])
    ensures r[0] == '0' ==> n == 0 && r == "0"
  {
    if n < 10 then [DigitChar(n)] else NatToString(n / 10) + [DigitChar(n % 10)]
  }

  /** The value of a string of digits in base `b`. */
  function ParseBase(s: string, b: nat): nat
  {
    if s == [] then 0 else ParseBase(s[..|s| - 1], b) * b + DigitValue(s[|s| - 1])
  }

  function ParseDecimal(s: string): nat { ParseBase(s, 10) }

  /** Decimal formatting is undone by parsing. */
  lemma {:induction false} ParseNatToString(n: nat)
    ensures ParseDecimal(NatToString(n)) == n
  {
    var s := NatToString(n);
    if n >= 10 {
      ParseNatToString(n / 10);
      assert s[..|s| - 1] == NatToString(n / 10);
      assert DigitValue(s[|s| - 1]) == n % 10;
    } else {
      assert s[..|s| - 1] == [];
    }
    assert ParseDecimal(s) == ParseBase(s[..|s| - 1], 10) * 10 + DigitValue(s[|s| - 1]);
  }

  /** Decimal formatting is injective. */
  lemma NatToStringInjective(m: nat, n: nat)
    ensures NatToString(m) == NatToString(n) ==> m == n
  {
    ParseNatToString(m);
    ParseNatToString(n);
  }

  /** The number of decimal digits of `n`. */
  function DigitCount(n: nat): (k: nat)
    ensures k >= 1
  {
    if n < 10 then 1 else DigitCount(n / 10) + 1
  }

  lemma {:induction false} NatToStringLength(n: nat)
    ensures |NatToString(n)| == DigitCount(n)
  {
    if n >= 10 { NatToStringLength(n / 10); }
  }

  /** `c` repeated `n` times. */
  function Repeat(c: char, n: nat): (r: string)
    ensures |r| == n && forall i :: 0 <= i < n ==> r[i] == c
  {
    if n == 0 then "" else [c] + Repeat(c, n - 1)
  }

  /** `s.PadLeft(width, c)`: left-padded with `c` to `width` characters, never truncated. */
  function PadLeft(s: string, width: nat, c: char): (r: string)
    ensures |r| == if |s| >= width then |s| else width
    ensures EndsWith(r, s)
    ensures forall i :: 0 <= i < |r| - |s| ==> r[i] == c
  {
    if |s| >= width then s else Repeat(c, width - |s|) + s
  }

  /** Leading zeros do not change the value of a digit string. */
  lemma {:induction false} ParseLeadingZeros(z: string, s: string, b: nat)
    requires forall i :: 0 <= i < |z| ==> z[i] == '0'
    ensures ParseBase(z + s, b) == ParseBase(s, b)
  {
    if s == [] {
      assert z + s == z;
      ZerosParseToZero(z, b);
    } else {
      assert (z + s)[..|z + s| - 1] == z + s[..|s| - 1];
      ParseLeadingZeros(z, s[..|s| - 1], b);
    }
  }

  lemma {:induction false} ZerosParseToZero(z: string, b: nat)
    requires forall i :: 0 <= i < |z| ==> z[i] == '0'
    ensures ParseBase(z, b) == 0
  {
    if z != [] { ZerosParseToZero(z[..|z| - 1], b); }
  }

  /** Uppercase hexadecimal digits of `n`, without leading zeros (`{0:X}` on a non-negative value). */
  function HexString(n: nat): (r: string)
    ensures |r| >= 1
    ensures forall i :: 0 <= i < |r| ==> IsUpperHexDigit(r[i])
    ensures r[0] == '0' ==> n == 0 && r == "0"
  {
    if n < 16 then [DigitChar(n)] else HexString(n / 16) + [DigitChar(n % 16)]
  }

  lemma {:induction false} ParseHexString(n: nat)
    ensures ParseBase(HexString(n), 16) == n
  {
    var s := HexString(n);
    if n >= 16 {
      ParseHexString(n / 16);
      assert s[..|s| - 1] == HexString(n / 16);
      assert DigitValue(s[|s| - 1]) == n % 16;
    } else {
      assert s[..|s| - 1] == [];
    }
  }

  // ---------------------------------------------------------------- ordinal order

  /** Ordinal (character code) lexicographic order on strings. */
  predicate LessEq(a: string, b: string)
  {
    if a == [] then true
    else if b == [] then false
    else if a[0] != b[0] then a[0] < b[0]
    else LessEq(a[1..], b[1..])
  }

  lemma LessEqReflexive(a: string)
    ensures LessEq(a, a)
  {
  }

  lemma LessEqTotal(a: string, b: string)
    ensures LessEq(a, b) || LessEq(b, a)
  {
  }

  lemma LessEqAntisymmetric(a: string, b: string)
    requires LessEq(a, b) && LessEq(b, a)
    ensures a == b
  {
    if a != [] && b != [] {
      LessEqAntisymmetric(a[1..], b[1..]);
      assert a == [a[0]] + a[1..] && b == [b[0]] + b[1..];
    }
  }

  lemma LessEqTransitive(a: string, b: string, c: string)
    requires LessEq(a, b) && LessEq(b, c)
    ensures LessEq(a, c)
  {
    if a != [] && b != [] && c != [] && a[0] == b[0] && b[0] == c[0] {
      LessEqTransitive(a[1..], b[1..], c[1..]);
    }
  }
}
