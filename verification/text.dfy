/** The string primitives of JavaScript that the modelled code relies on:
    `String(n)` for integers, `Number.parseInt`, `startsWith`, `endsWith`,
    `includes`, `padStart` and ASCII `toLowerCase`.

    Strings are sequences of `char`; JavaScript's UTF-16 code units are
    identified with Dafny characters. */
module Text {
  import opened Wrappers

  predicate IsDigit(c: char) {
    '0' <= c <= '9'
  }

  predicate AllDigits(s: string) {
    forall i :: 0 <= i < |s| ==> IsDigit(s[i])
  }

  function DigitChar(d: nat): (c: char)
    requires d < 10
    ensures IsDigit(c) && (c as int) - ('0' as int) == d
  {
    (('0' as int) + d) as char
  }

  function DigitValue(c: char): (d: nat)
    requires IsDigit(c)
    ensures d < 10
  {
    (c as int) - ('0' as int)
  }

  /** Number of decimal digits of `n`; zero is written with one digit. */
  function NumDigits(n: nat): (r: nat)
    ensures r >= 1
  {
    if n < 10 then 1 else 1 + NumDigits(n / 10)
  }

  function Pow10(k: nat): (r: nat)
    ensures r >= 1
  {
    if k == 0 then 1 else 10 * Pow10(k - 1)
  }

  /** A number below 10^j has at most j digits, and conversely. */
  lemma {:induction false} NumDigitsBound(n: nat, j: nat)
    requires j >= 1
    ensures NumDigits(n) <= j <==> n < Pow10(j)
  {
    if n >= 10 && j > 1 {
      NumDigitsBound(n / 10, j - 1);
    }
  }

  /** `String(n)` for a non-negative integer: its decimal digits, no leading zero. */
  function NatToString(n: nat): (s: string)
    ensures |s| == NumDigits(n)
    ensures AllDigits(s)
    ensures s[0] == '0' ==> n == 0
  {
    if n < 10 then [DigitChar(n)] else NatToString(n / 10) + [DigitChar(n % 10)]
  }

  /** `String(i)` for an integer: a minus sign for negative values. */
  function IntToString(i: int): (s: string)
    ensures |s| > 0
    ensures s[0] == '-' <==> i < 0
    ensures i >= 0 ==> AllDigits(s)
  {
    if i < 0 then "-" + NatToString(-i) else NatToString(i)
  }

  /** The value of a string of decimal digits (leading zeros allowed). */
  function ParseDigits(s: string): nat
    requires AllDigits(s)
  {
    if |s| == 0 then 0 else 10 * ParseDigits(s[..|s| - 1]) + DigitValue(s[|s| - 1])
  }

  lemma {:induction false} Pow10Add(i: nat, j: nat)
    ensures Pow10(i + j) == Pow10(i) * Pow10(j)
  {
    if i > 0 {
      Pow10Add(i - 1, j);
      assert Pow10(i + j) == 10 * Pow10(i - 1 + j);
    }
  }

  /** Reading a concatenation: the left part is shifted by the right part's length. */
  lemma {:induction false} ParseDigitsAppend(x: string, y: string)
    requires AllDigits(x) && AllDigits(y)
    ensures AllDigits(x + y)
    ensures ParseDigits(x + y) == ParseDigits(x) * Pow10(|y|) + ParseDigits(y)
  {
    var xy := x + y;
    assert forall i :: 0 <= i < |xy| ==> xy[i] == if i < |x| then x[i] else y[i - |x|];
    if |y| > 0 {
      var y' := y[..|y| - 1];
      assert xy[..|xy| - 1] == x + y';
      assert xy[|xy| - 1] == y[|y| - 1];
      ParseDigitsAppend(x, y');
      var u := ParseDigits(x);
      var w := Pow10(|y'|);
      var d := DigitValue(y[|y| - 1]);
      assert ParseDigits(xy) == 10 * (u * w + ParseDigits(y')) + d;
      assert ParseDigits(y) == 10 * ParseDigits(y') + d;
      assert Pow10(|y|) == 10 * w;
      ShiftByTen(u, w);
    } else {
      assert xy == x;
    }
  }

  lemma ShiftByTen(u: int, w: int)
    ensures u * (10 * w) == 10 * (u * w)
  {
  }

  lemma {:induction false} ParseZeros(z: string)
    requires forall i :: 0 <= i < |z| ==> z[i] == '0'
    ensures AllDigits(z) && ParseDigits(z) == 0
  {
    if |z| > 0 {
      ParseZeros(z[..|z| - 1]);
    }
  }

  lemma {:induction false} ParseNatToString(n: nat)
    ensures ParseDigits(NatToString(n)) == n
  {
    var s := NatToString(n);
    if n >= 10 {
      assert s[..|s| - 1] == NatToString(n / 10);
      ParseNatToString(n / 10);
    }
  }

  /** Distinct integers are written differently. */
  lemma IntToStringInjective(i: int, j: int)
    requires IntToString(i) == IntToString(j)
    ensures i == j
  {
    if i < 0 {
      NegativeDigits(i);
      NegativeDigits(j);
      NatToStringInjective(-i, -j);
    } else {
      NatToStringInjective(i, j);
    }
  }

  lemma NatToStringInjective(m: nat, n: nat)
    requires NatToString(m) == NatToString(n)
    ensures m == n
  {
    ParseNatToString(m);
    ParseNatToString(n);
  }

  /** After the minus sign come the digits of the magnitude. */
  lemma NegativeDigits(i: int)
    requires i < 0
    ensures IntToString(i)[1..] == NatToString(-i)
  {
    assert ("-" + NatToString(-i))[1..] == NatToString(-i);
  }

  predicate StartsWith(s: string, prefix: string) {
    |prefix| <= |s| && s[..|prefix|] == prefix
  }

  predicate EndsWith(s: string, suffix: string) {
    |suffix| <= |s| && s[|s| - |suffix|..] == suffix
  }

  lemma ConcatParts(a: string, b: string)
    ensures StartsWith(a + b, a) && EndsWith(a + b, b)
  {
    assert (a + b)[..|a|] == a;
    assert (a + b)[|a|..] == b;
  }

  lemma StartsWithExtend(s: string, prefix: string, t: string)
    requires StartsWith(s, prefix)
    ensures StartsWith(s + t, prefix)
  {
    assert (s + t)[..|prefix|] == s[..|prefix|];
  }

  /** `s.includes(t)`. */
  predicate Includes(s: string, t: string) {
    StartsWith(s, t) || (|s| > 0 && Includes(s[1..], t))
  }

  /** Whatever a suffix includes, the whole string includes. */
  lemma {:induction false} IncludesSuffix(s: string, t: string, n: nat)
    requires n <= |s|
    ensures Includes(s[n..], t) ==> Includes(s, t)
  {
    if n > 0 {
      assert s[1..][n - 1..] == s[n..];
      IncludesSuffix(s[1..], t, n - 1);
    }
  }

  /** `s.padStart(n, fill)` with a one-character fill string. */
  function PadStart(s: string, n: int, fill: char): (r: string)
    ensures |r| == if |s| >= n then |s| else n
    ensures r[|r| - |s|..] == s
    ensures forall i :: 0 <= i < |r| - |s| ==> r[i] == fill
  {
    if |s| >= n then s else seq(n - |s|, _ => fill) + s
  }

  /** A number padded with leading zeros reads back as the number. */
  lemma PadStartValue(n: nat, width: int)
    ensures var p := PadStart(NatToString(n), width, '0');
      AllDigits(p) && ParseDigits(p) == n
  {
    var s := NatToString(n);
    var p := PadStart(s, width, '0');
    var zeros := p[..|p| - |s|];
    assert p == zeros + s;
    ParseZeros(zeros);
    ParseDigitsAppend(zeros, s);
    ParseNatToString(n);
  }

  /** `toLowerCase` restricted to ASCII letters; every other character is kept. */
  function ToLowerAscii(c: char): (r: char)
    ensures 'A' <= c <= 'Z' ==> (r as int) == (c as int) + 32
    ensures !('A' <= c <= 'Z') ==> r == c
  {
    if 'A' <= c <= 'Z' then ((c as int) + 32) as char else c
  }

  // ---------------------------------------------------------------------------
  // Number.parseInt(s) with no radix argument (ECMAScript section 19.2.5)
  // ---------------------------------------------------------------------------

  /** The white-space and line-terminator characters that parseInt skips. */
  predicate IsJsWhitespace(c: char) {
    c == ' ' || c == '\t' || c == '\n' || c == '\r' || c == '\U{000B}' || c == '\U{000C}'
    || c == '\U{00A0}' || c == '\U{1680}' || ('\U{2000}' <= c <= '\U{200A}')
    || c == '\U{2028}' || c == '\U{2029}' || c == '\U{202F}' || c == '\U{205F}'
    || c == '\U{3000}' || c == '\U{FEFF}'
  }

  function TrimStart(s: string): (r: string)
    ensures |r| <= |s|
    ensures |r| > 0 ==> !IsJsWhitespace(r[0])
  {
    if |s| > 0 && IsJsWhitespace(s[0]) then TrimStart(s[1..]) else s
  }

  /** The value of `c` as a digit in base `radix` (10 or 16). */
  function RadixDigit(c: char, radix: nat): Option<nat> {
    if '0' <= c <= '9' then Some((c as int) - ('0' as int))
    else if radix == 16 && 'a' <= c <= 'f' then Some((c as int) - ('a' as int) + 10)
    else if radix == 16 && 'A' <= c <= 'F' then Some((c as int) - ('A' as int) + 10)
    else None
  }

  /** Length of the longest prefix of `s` made of base-`radix` digits. */
  function DigitPrefixLength(s: string, radix: nat): (n: nat)
    ensures n <= |s|
    ensures forall i :: 0 <= i < n ==> RadixDigit(s[i], radix).Some?
    ensures n < |s| ==> RadixDigit(s[n], radix).None?
  {
    if |s| > 0 && RadixDigit(s[0], radix).Some? then 1 + DigitPrefixLength(s[1..], radix) else 0
  }

  function RadixValue(s: string, radix: nat): nat
    requires forall i :: 0 <= i < |s| ==> RadixDigit(s[i], radix).Some?
  {
    if |s| == 0 then 0
    else radix * RadixValue(s[..|s| - 1], radix) + RadixDigit(s[|s| - 1], radix).value
  }

  /** `Number.parseInt(s)`: `None` stands for NaN. Leading white space is
      skipped, then an optional sign, then the digit run is read. */
  function JsParseInt(s: string): (r: Option<int>)
    ensures var u := Unsigned(TrimStart(s));
      r.None? <==> DigitPrefixLength(MagnitudeText(u), RadixOf(u)) == 0
  {
    var t := TrimStart(s);
    match ParseMagnitude(Unsigned(t))
    case None => None
    case Some(m) => var v: int := m; Some(if |t| > 0 && t[0] == '-' then -v else v)
  }

  /** The text after an optional sign. */
  function Unsigned(t: string): string {
    if |t| > 0 && (t[0] == '-' || t[0] == '+') then t[1..] else t
  }

  predicate HasHexPrefix(u: string) {
    |u| >= 2 && u[0] == '0' && (u[1] == 'x' || u[1] == 'X')
  }

  function RadixOf(u: string): nat {
    if HasHexPrefix(u) then 16 else 10
  }

  /** The digits to read: after the `0x` prefix, if any. */
  function MagnitudeText(u: string): string {
    if HasHexPrefix(u) then u[2..] else u
  }

  /** The value of the longest run of digits in the radix, if the run is
      not empty. */
  function ParseMagnitude(u: string): (r: Option<nat>)
    ensures r.None? <==> DigitPrefixLength(MagnitudeText(u), RadixOf(u)) == 0
  {
    var body := MagnitudeText(u);
    var radix := RadixOf(u);
    var z := DigitPrefixLength(body, radix);
    if z == 0 then None else Some(RadixValue(body[..z], radix))
  }

  lemma {:induction false} DecimalRadixValue(s: string)
    requires AllDigits(s)
    ensures forall i :: 0 <= i < |s| ==> RadixDigit(s[i], 10).Some?
    ensures RadixValue(s, 10) == ParseDigits(s)
  {
    if |s| > 0 {
      DecimalRadixValue(s[..|s| - 1]);
    }
  }

  lemma {:induction false} DigitPrefixOfDigits(s: string)
    requires AllDigits(s)
    ensures DigitPrefixLength(s, 10) == |s|
  {
    if |s| > 0 {
      DigitPrefixOfDigits(s[1..]);
    }
  }

  /** parseInt reads back what String wrote. */
  lemma ParseIntOfIntToString(i: int)
    ensures JsParseInt(IntToString(i)) == Some(i)
  {
    var n: nat := if i < 0 then -i else i;
    var digits := NatToString(n);
    ParseNatToString(n);
    if i < 0 {
      MagnitudeOfDigits(digits);
      NegativeOf(digits, n);
    } else {
      ParsePlainDigits(digits);
    }
  }

  /** parseInt of decimal digits with no sign. */
  lemma ParsePlainDigits(digits: string)
    requires AllDigits(digits) && |digits| > 0
    ensures JsParseInt(digits) == Some(ParseDigits(digits))
  {
    MagnitudeOfDigits(digits);
    NoWhitespaceToTrim(digits);
  }

  /** parseInt of a minus sign followed by a magnitude it reads as `m`. */
  lemma NegativeOf(digits: string, m: nat)
    requires ParseMagnitude(digits) == Some(m)
    ensures var v: int := m; JsParseInt("-" + digits) == Some(-v)
  {
    var s := "-" + digits;
    assert s[0] == '-' && s[1..] == digits;
    NoWhitespaceToTrim(s);
    NegativeRead(s);
  }

  /** After a minus sign, parseInt negates the magnitude it reads. */
  lemma NegativeRead(s: string)
    requires |s| > 0 && s[0] == '-' && TrimStart(s) == s
    ensures match ParseMagnitude(s[1..])
      case None => JsParseInt(s).None?
      case Some(m) => var v: int := m; JsParseInt(s) == Some(-v)
  {
  }

  /** A string that starts with a digit or a sign has nothing to trim. */
  lemma NoWhitespaceToTrim(s: string)
    requires |s| > 0 && (IsDigit(s[0]) || s[0] == '-')
    ensures TrimStart(s) == s
  {
  }

  /** Decimal digits are read whole, in base 10, to their value. */
  lemma MagnitudeOfDigits(digits: string)
    requires AllDigits(digits) && |digits| > 0
    ensures ParseMagnitude(digits) == Some(ParseDigits(digits))
  {
    assert !HasHexPrefix(digits) by {
      if |digits| >= 2 {
        assert IsDigit(digits[1]);
      }
    }
    DigitPrefixOfDigits(digits);
    assert digits[..|digits|] == digits;
    DecimalRadixValue(digits);
  }
}
