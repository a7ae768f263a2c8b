/**
 * The parts of java.lang that the hyphenation core leans on, with their Java
 * semantics written out: 32-bit `int` arithmetic, `String.trim`,
 * `String.split` with a one-character separator, `Integer.parseInt`,
 * `String.equalsIgnoreCase` against an ASCII literal and `String.compareTo`.
 */
module JavaStrings {
  import opened Results

  // ---------------------------------------------------------------------------
  // 32-bit int
  // ---------------------------------------------------------------------------

  const INT_MIN: int := -0x8000_0000
  const INT_MAX: int := 0x7fff_ffff

  predicate IsInt32(x: int) {
    INT_MIN <= x <= INT_MAX
  }

  /** The range of a sum or difference of two Java `int`s, before wrap-around. */
  predicate IsInt32Sum(x: int) {
    -0x1_0000_0000 <= x < 0x1_0000_0000
  }

  /**
   * Two's-complement wrap-around of the exact sum or difference of two Java
   * `int`s: the value in the `int` range that differs from `x` by 2^32 or 0.
   */
  function Wrap32(x: int): (r: int)
    requires IsInt32Sum(x)
    ensures IsInt32(r)
    ensures (r - x) % 0x1_0000_0000 == 0
  {
    if x > INT_MAX then x - 0x1_0000_0000
    else if x < INT_MIN then x + 0x1_0000_0000
    else x
  }

  // ---------------------------------------------------------------------------
  // Searching and prefixes
  // ---------------------------------------------------------------------------

  predicate StartsWith(s: string, prefix: string) {
    |prefix| <= |s| && s[..|prefix|] == prefix
  }

  /** `s.indexOf(c)` for a character that occurs in `s`. */
  function IndexOf(s: string, c: char): (k: nat)
    requires c in s
    ensures k < |s| && s[k] == c
    ensures c !in s[..k]
  {
    if s[0] == c then 0 else 1 + IndexOf(s[1..], c)
  }

  /** `s.replace(a, b)` for one-character strings: every occurrence is replaced. */
  function ReplaceAll(s: string, a: char, b: char): (r: string)
    ensures |r| == |s|
    ensures a != b ==> a !in r
    ensures forall i :: 0 <= i < |s| && s[i] != a ==> r[i] == s[i]
    ensures forall i :: 0 <= i < |s| && s[i] == a ==> r[i] == b
  {
    seq(|s|, i requires 0 <= i < |s| => if s[i] == a then b else s[i])
  }

  // ---------------------------------------------------------------------------
  // String.trim: drops leading and trailing characters <= U+0020
  // ---------------------------------------------------------------------------

  function TrimLeft(s: string): (r: string)
    ensures |r| <= |s| && r == s[|s| - |r|..]
    ensures forall i :: 0 <= i < |s| - |r| ==> s[i] <= ' '
    ensures r == [] || r[0] > ' '
  {
    if s != [] && s[0] <= ' ' then TrimLeft(s[1..]) else s
  }

  function TrimRight(s: string): (r: string)
    ensures |r| <= |s| && r == s[..|r|]
    ensures forall i :: |r| <= i < |s| ==> s[i] <= ' '
    ensures r == [] || r[|r| - 1] > ' '
  {
    if s != [] && s[|s| - 1] <= ' ' then TrimRight(s[..|s| - 1]) else s
  }

  function Trim(s: string): (r: string)
    ensures |r| <= |s|
    ensures r == [] <==> forall i :: 0 <= i < |s| ==> s[i] <= ' '
    ensures r != [] ==> r[0] > ' ' && r[|r| - 1] > ' '
    ensures exists i, j :: 0 <= i <= j <= |s| && r == s[i..j] && IsBlank(s[..i]) && IsBlank(s[j..])
  {
    var l := TrimLeft(s);
    var r := TrimRight(l);
    assert r == [] ==> l == [];
    TrimmedMiddle(s, l, r);
    r
  }

  /** What the two trims leave is the part of `s` between its blank ends. */
  lemma TrimmedMiddle(s: string, l: string, r: string)
    requires |l| <= |s| && l == s[|s| - |l|..] && IsBlank(s[..|s| - |l|])
    requires |r| <= |l| && r == l[..|r|] && IsBlank(l[|r|..])
    ensures exists i, j :: 0 <= i <= j <= |s| && r == s[i..j] && IsBlank(s[..i]) && IsBlank(s[j..])
  {
    var i, j := |s| - |l|, |s| - |l| + |r|;
    assert s[j..] == l[|r|..];
    assert r == s[i..j];
  }

  /** `s.trim().isEmpty()`: every character is at most U+0020. */
  predicate IsBlank(s: string) {
    forall i :: 0 <= i < |s| ==> s[i] <= ' '
  }

  /** The blank strings are exactly those that trim to nothing. */
  lemma BlankIsTrimmedEmpty(s: string)
    ensures IsBlank(s) <==> Trim(s) == []
  {
  }

  // ---------------------------------------------------------------------------
  // String.split with a one-character, non-meta separator
  // ---------------------------------------------------------------------------

  /** All the pieces between separators, the empty ones included. */
  function Fields(s: string, sep: char): (r: seq<string>)
    ensures |r| >= 1
    ensures forall i :: 0 <= i < |r| ==> sep !in r[i]
    ensures sep !in s ==> r == [s]
    decreases |s|
  {
    if sep in s then
      var k := IndexOf(s, sep);
      [s[..k]] + Fields(s[k + 1..], sep)
    else
      [s]
  }

  /** The first field ends at the first separator. */
  lemma FieldsAt(s: string, sep: char, k: nat)
    requires k < |s| && s[k] == sep && sep !in s[..k]
    ensures Fields(s, sep) == [s[..k]] + Fields(s[k + 1..], sep)
  {
  }

  /** A one-character first field. */
  lemma FieldsOneChar(x: char, sep: char, rest: string)
    requires x != sep
    ensures Fields([x, sep] + rest, sep) == [[x]] + Fields(rest, sep)
  {
    var s := [x, sep] + rest;
    FieldsAt(s, sep, 1);
    assert s[..1] == [x] && s[2..] == rest;
  }

  /** Glues pieces back together with the separator between them. */
  function Join(fs: seq<string>, sep: char): string {
    if fs == [] then ""
    else if |fs| == 1 then fs[0]
    else fs[0] + [sep] + Join(fs[1..], sep)
  }

  /** Splitting into fields and joining them again gives back the string. */
  lemma {:induction false} JoinFields(s: string, sep: char)
    ensures Join(Fields(s, sep), sep) == s
    decreases |s|
  {
    if sep in s {
      var k := IndexOf(s, sep);
      JoinFields(s[k + 1..], sep);
      assert s == s[..k] + [sep] + s[k + 1..];
    }
  }

  /** Removes the trailing empty strings, as `split` does. */
  function DropTrailingEmpty(fs: seq<string>): (r: seq<string>)
    ensures r <= fs
    ensures r == [] || r[|r| - 1] != ""
    ensures forall i :: |r| <= i < |fs| ==> fs[i] == ""
  {
    if fs != [] && fs[|fs| - 1] == "" then DropTrailingEmpty(fs[..|fs| - 1]) else fs
  }

  /**
   * `s.split(sep)`: a string without the separator is returned whole (so ""
   * gives [""]); otherwise the fields are returned with trailing empty ones
   * removed (so "," gives [] and "a,b," gives ["a", "b"]).
   */
  function Split(s: string, sep: char): (r: seq<string>)
    ensures sep !in s ==> r == [s]
    ensures sep in s ==> r == [] || r[|r| - 1] != ""
    ensures forall i :: 0 <= i < |r| ==> sep !in r[i]
  {
    if sep in s then DropTrailingEmpty(Fields(s, sep)) else [s]
  }

  /** `split` keeps the fields in order and drops only empty ones at the end. */
  lemma SplitDropsTrailingEmpty(s: string, sep: char)
    ensures Split(s, sep) <= Fields(s, sep)
    ensures sep in s ==> forall i :: |Split(s, sep)| <= i < |Fields(s, sep)| ==> Fields(s, sep)[i] == ""
  {
  }

  // ---------------------------------------------------------------------------
  // Integer.parseInt (radix 10), digits restricted to '0'..'9'
  // ---------------------------------------------------------------------------

  predicate IsDigit(c: char) {
    '0' <= c <= '9'
  }

  function DigitValue(c: char): (v: nat)
    requires IsDigit(c)
    ensures v <= 9
  {
    c as int - '0' as int
  }

  predicate AllDigits(s: string) {
    forall i :: 0 <= i < |s| ==> IsDigit(s[i])
  }

  /** The value of a string of decimal digits read most significant first. */
  function DigitsValue(s: string): nat
    requires AllDigits(s)
  {
    if s == [] then 0 else DigitsValue(s[..|s| - 1]) * 10 + DigitValue(s[|s| - 1])
  }

  /**
   * `Integer.parseInt(s)`: an optional sign, then at least one digit, and a
   * value that fits an `int`; anything else is a NumberFormatException (None).
   */
  function ParseInt(s: string): (r: Option<int>)
    ensures r.Some? ==> IsInt32(r.value)
    ensures r.Some? ==> s != [] && (IsDigit(s[0]) || s[0] == '-' || s[0] == '+')
    ensures r.Some? ==> forall i :: 1 <= i < |s| ==> IsDigit(s[i])
  {
    if s == [] then None
    else
      var body := if s[0] == '-' || s[0] == '+' then s[1..] else s;
      if body == [] || !AllDigits(body) then None
      else
        var v: int := if s[0] == '-' then 0 - DigitsValue(body) as int else DigitsValue(body);
        if IsInt32(v) then Some(v) else None
  }

  /**
   * What `Integer.parseInt` accepts and returns: a sign (none, `+` or `-`)
   * followed by digits is accepted exactly when there is at least one digit
   * and the signed value fits an `int`, and then that value is the result;
   * leading zeros and `-0` are allowed. With the shape ParseInt ensures of
   * any accepted string, this fixes the result of every input.
   */
  lemma ParseIntSignedDigits(sign: string, digits: string)
    requires sign == "" || sign == "+" || sign == "-"
    requires AllDigits(digits)
    ensures var v := if sign == "-" then -(DigitsValue(digits) as int) else DigitsValue(digits) as int;
      ParseInt(sign + digits) == if digits != [] && IsInt32(v) then Some(v) else None
  {
    var s := sign + digits;
    if sign != "" {
      assert s[0] == sign[0];
      assert s[1..] == digits;
    } else {
      assert s == digits;
    }
  }

  function DigitChar(d: nat): (c: char)
    requires d <= 9
    ensures IsDigit(c) && DigitValue(c) == d
  {
    ('0' as int + d) as char
  }

  /** The decimal digits of a natural number, as `Integer.toString` writes them. */
  function Decimal(n: nat): (s: string)
    ensures s != [] && AllDigits(s)
  {
    if n < 10 then [DigitChar(n)] else Decimal(n / 10) + [DigitChar(n % 10)]
  }

  function IntToString(n: int): string {
    if n < 0 then "-" + Decimal(-n) else Decimal(n)
  }

  lemma {:induction false} DigitsValueOfDecimal(n: nat)
    ensures DigitsValue(Decimal(n)) == n
  {
    if n >= 10 {
      DigitsValueOfDecimal(n / 10);
      var s := Decimal(n);
      assert s[..|s| - 1] == Decimal(n / 10);
    }
  }

  /** `Integer.parseInt` reads back every `int` that `Integer.toString` writes. */
  lemma ParseIntOfToString(n: int)
    requires IsInt32(n)
    ensures ParseInt(IntToString(n)) == Some(n)
  {
    var s := IntToString(n);
    if n < 0 {
      DigitsValueOfDecimal(-n);
      assert s[1..] == Decimal(-n);
    } else {
      DigitsValueOfDecimal(n);
    }
  }

  // ---------------------------------------------------------------------------
  // equalsIgnoreCase against an ASCII literal, compareTo
  // ---------------------------------------------------------------------------

  function UpperAscii(c: char): char {
    if 'a' <= c <= 'z' then (c as int - 32) as char else c
  }

  /** `a.equalsIgnoreCase(b)` where case mapping is ASCII-only. */
  predicate EqualsIgnoreCaseAscii(a: string, b: string) {
    |a| == |b| && forall i :: 0 <= i < |a| ==> UpperAscii(a[i]) == UpperAscii(b[i])
  }

  /** `a.compareTo(b) <= 0`: lexicographic order on characters, a prefix first. */
  predicate LessEq(a: string, b: string) {
    if a == [] then true
    else if b == [] then false
    else if a[0] != b[0] then a[0] < b[0]
    else LessEq(a[1..], b[1..])
  }

  lemma {:induction false} LessEqTotal(a: string, b: string)
    ensures LessEq(a, b) || LessEq(b, a)
  {
    if a != [] && b != [] && a[0] == b[0] {
      LessEqTotal(a[1..], b[1..]);
    }
  }

  lemma {:induction false} LessEqTransitive(a: string, b: string, c: string)
    requires LessEq(a, b) && LessEq(b, c)
    ensures LessEq(a, c)
  {
    if a != [] && b != [] && c != [] && a[0] == b[0] && b[0] == c[0] {
      LessEqTransitive(a[1..], b[1..], c[1..]);
    }
  }
}
