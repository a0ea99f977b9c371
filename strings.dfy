/**
 * The string operations of JavaScript and Kotlin that the model relies on,
 * with the exact semantics of the runtime methods the source calls:
 * `indexOf`/`includes`, `replace(string, string)` (first occurrence only),
 * `split(string)`, `startsWith`, Kotlin's `substringBefore`, number-to-string
 * rendering and JavaScript's `parseInt` with no radix.
 */
module Strings {
  import opened Options

  /** `pat` occurs in `s` starting at index `i`. */
  predicate OccursAt(s: string, pat: string, i: nat)
  {
    i + |pat| <= |s| && s[i..i + |pat|] == pat
  }

  /** The first index at or after `from` where `pat` occurs (JavaScript `indexOf`). */
  function IndexOfFrom(s: string, pat: string, from: nat): (r: Option<nat>)
    ensures r.Some? ==> from <= r.value && OccursAt(s, pat, r.value)
    ensures r.Some? ==> forall j :: from <= j < r.value ==> !OccursAt(s, pat, j)
    ensures r.None? ==> forall j :: from <= j ==> !OccursAt(s, pat, j)
    decreases |s| - from
  {
    if from + |pat| > |s| then None
    else if s[from..from + |pat|] == pat then Some(from)
    else IndexOfFrom(s, pat, from + 1)
  }

  function IndexOf(s: string, pat: string): Option<nat>
  {
    IndexOfFrom(s, pat, 0)
  }

  /** JavaScript `s.includes(pat)`. */
  predicate Contains(s: string, pat: string)
  {
    IndexOf(s, pat).Some?
  }

  /** `includes` of a one-character string is membership of that character. */
  lemma ContainsChar(s: string, c: char)
    ensures Contains(s, [c]) <==> c in s
  {
    if c in s {
      var i :| 0 <= i < |s| && s[i] == c;
      assert s[i..i + 1] == [c];
      assert OccursAt(s, [c], i);
    }
    if Contains(s, [c]) {
      var i := IndexOf(s, [c]).value;
      assert s[i..i + 1][0] == s[i];
    }
  }

  /** A pattern whose first character is missing from `s` occurs nowhere in it. */
  lemma AbsentFirstChar(s: string, pat: string)
    requires |pat| > 0 && pat[0] !in s
    ensures !Contains(s, pat)
  {
    forall j: nat ensures !OccursAt(s, pat, j) {
      if j + |pat| <= |s| {
        assert s[j..j + |pat|][0] == s[j];
      }
    }
  }

  /** An occurrence found by `Contains` lies at some index, and every index with an occurrence makes `Contains` true. */
  lemma ContainsAt(s: string, pat: string, i: nat)
    requires OccursAt(s, pat, i)
    ensures Contains(s, pat) && IndexOf(s, pat).value <= i
  {
  }

  /** `IndexOf` finds the leftmost occurrence. */
  lemma IndexOfIs(s: string, pat: string, k: nat)
    requires OccursAt(s, pat, k)
    requires forall j :: 0 <= j < k ==> !OccursAt(s, pat, j)
    ensures IndexOf(s, pat) == Some(k)
  {
    ContainsAt(s, pat, k);
  }

  /** JavaScript `s.replace(pat, rep)` with a string pattern: only the first occurrence is replaced. */
  function ReplaceFirst(s: string, pat: string, rep: string): string
  {
    match IndexOf(s, pat)
    case None => s
    case Some(i) => s[..i] + rep + s[i + |pat|..]
  }

  /** JavaScript `s.split(sep)` for a non-empty separator: the pieces between non-overlapping occurrences, left to right. */
  function Split(s: string, sep: string): (r: seq<string>)
    requires |sep| > 0
    ensures |r| >= 1
    decreases |s|
  {
    match IndexOf(s, sep)
    case None => [s]
    case Some(i) => [s[..i]] + Split(s[i + |sep|..], sep)
  }

  /** `s.split(sep)[n]`: `None` stands for JavaScript's `undefined` past the last piece. */
  function SplitField(s: string, sep: string, n: nat): Option<string>
    requires |sep| > 0
  {
    var parts := Split(s, sep);
    if n < |parts| then Some(parts[n]) else None
  }

  /** Kotlin `s.substringBefore(d)`: the part before the first occurrence of `d`, or all of `s` when `d` is missing. */
  function SubstringBefore(s: string, d: string): string
  {
    match IndexOf(s, d)
    case None => s
    case Some(i) => s[..i]
  }

  /** When `d` starts with a character `pre` lacks, `substringBefore` cuts `pre + d + post` back to `pre`. */
  lemma SubstringBeforeFirst(pre: string, d: string, post: string)
    requires |d| > 0 && d[0] !in pre
    ensures SubstringBefore(pre + d + post, d) == pre
  {
    var s := pre + d + post;
    var k := |pre|;
    assert s[k..k + |d|] == d;
    forall j | 0 <= j < k ensures !OccursAt(s, d, j) {
      assert s[j..j + |d|][0] == pre[j];
    }
    IndexOfIs(s, d, k);
    assert s[..k] == pre;
  }

  /** JavaScript `s.length`: UTF-16 code units, two for each character above U+FFFF. */
  function Utf16Length(s: string): (r: nat)
    ensures |s| <= r <= 2 * |s|
  {
    if s == [] then 0 else (if s[0] as int > 0xFFFF then 2 else 1) + Utf16Length(s[1..])
  }

  /** Without characters above U+FFFF, `length` counts characters. */
  lemma {:induction false} Utf16LengthBmp(s: string)
    requires forall i :: 0 <= i < |s| ==> s[i] as int <= 0xFFFF
    ensures Utf16Length(s) == |s|
  {
    if s != [] {
      assert forall i :: 0 <= i < |s[1..]| ==> s[1..][i] == s[i + 1];
      Utf16LengthBmp(s[1..]);
    }
  }

  /** JavaScript `s.startsWith(p)`. */
  predicate StartsWith(s: string, p: string)
  {
    |p| <= |s| && s[..|p|] == p
  }

  // ---------------------------------------------------------------------------
  // Decimal numbers

  predicate IsDigit(c: char)
  {
    '0' <= c <= '9'
  }

  predicate AllDigits(s: string)
  {
    forall i :: 0 <= i < |s| ==> IsDigit(s[i])
  }

  function DigitChar(d: nat): char
    requires d < 10
  {
    (48 + d) as char
  }

  /**
   * The decimal rendering of a non-negative integer.  JavaScript's `String(n)`
   * gives this for every safe integer (at most 2^53 - 1), which covers every
   * `Date.now()` value; larger numbers are not exact in JavaScript.
   */
  function NatToDecimal(n: nat): (r: string)
    ensures |r| >= 1 && AllDigits(r)
    ensures |r| > 1 ==> r[0] != '0'
    decreases n
  {
    if n < 10 then [DigitChar(n)] else NatToDecimal(n / 10) + [DigitChar(n % 10)]
  }

  /** The decimal rendering of an integer, with a leading '-' when negative. */
  function IntToDecimal(n: int): string
  {
    if n < 0 then "-" + NatToDecimal(-n) else NatToDecimal(n)
  }

  /** The number a string of decimal digits denotes. */
  function DigitsValue(s: string): nat
    requires AllDigits(s)
  {
    if s == [] then 0 else DigitsValue(s[..|s| - 1]) * 10 + (s[|s| - 1] as int - 48)
  }

  /** Reading back a rendered number gives the number. */
  lemma {:induction false} DecimalRoundTrip(n: nat)
    ensures DigitsValue(NatToDecimal(n)) == n
  {
    if n >= 10 {
      var p := NatToDecimal(n / 10);
      var r := p + [DigitChar(n % 10)];
      assert r[..|r| - 1] == p;
      DecimalRoundTrip(n / 10);
    }
  }

  /** A leading zero does not change the value of a digit string. */
  lemma {:induction false} LeadingZeroValue(s: string)
    requires AllDigits(s)
    ensures AllDigits("0" + s) && DigitsValue("0" + s) == DigitsValue(s)
  {
    var z := "0" + s;
    if s != [] {
      assert z[..|z| - 1] == "0" + s[..|s| - 1];
      LeadingZeroValue(s[..|s| - 1]);
    }
  }

  // ---------------------------------------------------------------------------
  // JavaScript parseInt(string) with no radix

  /** The white space and line terminators that `parseInt` skips (ECMAScript's StrWhiteSpaceChar). */
  predicate IsJsSpace(c: char)
  {
    var k := c as int;
    k == 9 || k == 10 || k == 11 || k == 12 || k == 13 || k == 32 || k == 0xA0 || k == 0x1680
    || (0x2000 <= k <= 0x200A) || k == 0x2028 || k == 0x2029 || k == 0x202F || k == 0x205F
    || k == 0x3000 || k == 0xFEFF
  }

  function TrimStart(s: string): (r: string)
    ensures |r| <= |s|
  {
    if s != [] && IsJsSpace(s[0]) then TrimStart(s[1..]) else s
  }

  predicate IsHexDigit(c: char)
  {
    IsDigit(c) || 'a' <= c <= 'f' || 'A' <= c <= 'F'
  }

  function HexDigitValue(c: char): nat
    requires IsHexDigit(c)
  {
    if IsDigit(c) then c as int - 48
    else if 'a' <= c <= 'f' then c as int - 'a' as int + 10
    else c as int - 'A' as int + 10
  }

  function HexValue(s: string): nat
    requires forall i :: 0 <= i < |s| ==> IsHexDigit(s[i])
  {
    if s == [] then 0 else HexValue(s[..|s| - 1]) * 16 + HexDigitValue(s[|s| - 1])
  }

  /** The longest prefix of decimal digits. */
  function LeadingDigits(s: string): (r: string)
    ensures AllDigits(r) && |r| <= |s| && r == s[..|r|]
  {
    if s != [] && IsDigit(s[0]) then [s[0]] + LeadingDigits(s[1..]) else []
  }

  /** The longest prefix of hexadecimal digits. */
  function LeadingHexDigits(s: string): (r: string)
    ensures (forall i :: 0 <= i < |r| ==> IsHexDigit(r[i])) && |r| <= |s| && r == s[..|r|]
  {
    if s != [] && IsHexDigit(s[0]) then [s[0]] + LeadingHexDigits(s[1..]) else []
  }

  /**
   * JavaScript `parseInt(s)`: skip leading white space, read an optional sign,
   * switch to base 16 after "0x"/"0X", then read the longest run of digits.
   * `None` is NaN (no digit at all).
   */
  function ParseInt(s: string): Option<int>
  {
    var t := TrimStart(s);
    var sign := if |t| > 0 && t[0] == '-' then -1 else 1;
    var u := if |t| > 0 && (t[0] == '-' || t[0] == '+') then t[1..] else t;
    if |u| >= 2 && u[0] == '0' && (u[1] == 'x' || u[1] == 'X') then
      var d := LeadingHexDigits(u[2..]);
      if d == [] then None else Some(sign * HexValue(d))
    else
      var d := LeadingDigits(u);
      if d == [] then None else Some(sign * DigitsValue(d))
  }

  lemma {:induction false} LeadingDigitsOfDigits(s: string)
    requires AllDigits(s)
    ensures LeadingDigits(s) == s
  {
    if s != [] {
      LeadingDigitsOfDigits(s[1..]);
    }
  }

  /** `parseInt` reads back the decimal digits of `n`, which is what `String(n)` writes for a safe integer. */
  lemma ParseIntOfDecimal(n: nat)
    ensures ParseInt(NatToDecimal(n)) == Some(n)
  {
    var s := NatToDecimal(n);
    assert TrimStart(s) == s;
    LeadingDigitsOfDigits(s);
    DecimalRoundTrip(n);
  }
}
