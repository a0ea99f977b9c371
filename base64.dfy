/**
 * The browser's `btoa` and `atob`: base64 as in section 4 of RFC 4648, over
 * strings whose characters stand for bytes (Latin-1).  `btoa` refuses a
 * character above U+00FF; `atob` is the WHATWG "forgiving-base64 decode": it
 * drops ASCII white space, accepts missing padding, and refuses a length of
 * 1 modulo 4 or a character outside the alphabet.
 */
module Base64 {
  import opened Options

  /** Every character stands for one byte, as `btoa` demands. */
  predicate IsLatin1(s: string)
  {
    forall i :: 0 <= i < |s| ==> s[i] as int < 256
  }

  predicate InAlphabet(c: char)
  {
    'A' <= c <= 'Z' || 'a' <= c <= 'z' || '0' <= c <= '9' || c == '+' || c == '/'
  }

  /** The base64 alphabet character of a 6-bit value. */
  function EncodeSextet(v: nat): (c: char)
    requires v < 64
  {
    if v < 26 then (65 + v) as char
    else if v < 52 then (97 + v - 26) as char
    else if v < 62 then (48 + v - 52) as char
    else if v == 62 then '+'
    else '/'
  }

  /** The 6-bit value of an alphabet character. */
  function DecodeSextet(c: char): (v: nat)
    requires InAlphabet(c)
    ensures v < 64
  {
    if 'A' <= c <= 'Z' then c as int - 65
    else if 'a' <= c <= 'z' then c as int - 97 + 26
    else if '0' <= c <= '9' then c as int - 48 + 52
    else if c == '+' then 62
    else 63
  }

  lemma SextetRoundTrip(v: nat)
    requires v < 64
    ensures InAlphabet(EncodeSextet(v)) && DecodeSextet(EncodeSextet(v)) == v
  {
  }

  predicate AllInAlphabet(s: string)
  {
    forall i :: 0 <= i < |s| ==> InAlphabet(s[i])
  }

  function Byte(c: char): nat
  {
    c as int
  }

  /** The four alphabet characters of three bytes. */
  function EncodeGroup(a: nat, b: nat, c: nat): (g: string)
    requires a < 256 && b < 256 && c < 256
    ensures |g| == 4 && AllInAlphabet(g)
  {
    [EncodeSextet(a / 4), EncodeSextet((a % 4) * 16 + b / 16),
     EncodeSextet((b % 16) * 4 + c / 64), EncodeSextet(c % 64)]
  }

  /** The alphabet characters of the input bytes, without padding. */
  function EncodeUnpadded(s: string): (r: string)
    requires IsLatin1(s)
    ensures AllInAlphabet(r) && Decodable(|r|)
  {
    if |s| == 0 then []
    else if |s| == 1 then
      var a := Byte(s[0]);
      [EncodeSextet(a / 4), EncodeSextet((a % 4) * 16)]
    else if |s| == 2 then
      var a, b := Byte(s[0]), Byte(s[1]);
      [EncodeSextet(a / 4), EncodeSextet((a % 4) * 16 + b / 16), EncodeSextet((b % 16) * 4)]
    else
      EncodeGroup(Byte(s[0]), Byte(s[1]), Byte(s[2])) + EncodeUnpadded(s[3..])
  }

  /** The '=' characters that complete the last group of four. */
  function Padding(n: nat): string
  {
    if n % 3 == 1 then "==" else if n % 3 == 2 then "=" else ""
  }

  /** `btoa(s)`: `None` is the InvalidCharacterError thrown for a character above U+00FF. */
  function Btoa(s: string): (r: Option<string>)
    ensures r.Some? <==> IsLatin1(s)
  {
    if IsLatin1(s) then Some(EncodeUnpadded(s) + Padding(|s|)) else None
  }

  /** ASCII white space as the forgiving decoder strips it: TAB, LF, FF, CR and SPACE. */
  predicate IsAsciiWhitespace(c: char)
  {
    c == '\t' || c == '\n' || c as int == 12 || c == '\r' || c == ' '
  }

  function RemoveAsciiWhitespace(s: string): (r: string)
    ensures |r| <= |s|
  {
    if s == [] then []
    else if IsAsciiWhitespace(s[0]) then RemoveAsciiWhitespace(s[1..])
    else [s[0]] + RemoveAsciiWhitespace(s[1..])
  }

  /** Drop one or two trailing '=' when the length is a multiple of four. */
  function StripPadding(s: string): string
  {
    if |s| % 4 == 0 && |s| >= 2 && s[|s| - 1] == '=' && s[|s| - 2] == '=' then s[..|s| - 2]
    else if |s| % 4 == 0 && |s| >= 1 && s[|s| - 1] == '=' then s[..|s| - 1]
    else s
  }

  /** A length made of whole groups of four and at most one last group of two or three: any length but 1 modulo 4. */
  predicate Decodable(n: nat)
  {
    n == 0 || n == 2 || n == 3 || (n >= 4 && Decodable(n - 4))
  }

  lemma {:induction false} DecodableLength(n: nat)
    requires n % 4 != 1
    ensures Decodable(n)
  {
    if n >= 4 {
      assert (n - 4) % 4 == n % 4;
      DecodableLength(n - 4);
    }
  }

  /** The bytes of a run of alphabet characters; leftover bits of a short last group are dropped. */
  function DecodeSextets(s: string): string
    requires AllInAlphabet(s) && Decodable(|s|)
  {
    if |s| == 0 then []
    else if |s| == 2 then
      var v0, v1 := DecodeSextet(s[0]), DecodeSextet(s[1]);
      [(v0 * 4 + v1 / 16) as char]
    else if |s| == 3 then
      var v0, v1, v2 := DecodeSextet(s[0]), DecodeSextet(s[1]), DecodeSextet(s[2]);
      [(v0 * 4 + v1 / 16) as char, ((v1 % 16) * 16 + v2 / 4) as char]
    else
      var v0, v1, v2, v3 := DecodeSextet(s[0]), DecodeSextet(s[1]), DecodeSextet(s[2]), DecodeSextet(s[3]);
      [(v0 * 4 + v1 / 16) as char, ((v1 % 16) * 16 + v2 / 4) as char, ((v2 % 4) * 64 + v3) as char]
      + DecodeSextets(s[4..])
  }

  /** `atob(s)`: `None` is the InvalidCharacterError thrown for input that is not base64. */
  function Atob(s: string): (r: Option<string>)
    ensures r.Some? ==> IsLatin1(r.value)
  {
    var t := StripPadding(RemoveAsciiWhitespace(s));
    if |t| % 4 == 1 || !AllInAlphabet(t) then None
    else
      DecodableLength(|t|);
      var r := DecodeSextets(t);
      DecodedIsLatin1(t);
      Some(r)
  }

  lemma {:induction false} DecodedIsLatin1(s: string)
    requires AllInAlphabet(s) && Decodable(|s|)
    ensures IsLatin1(DecodeSextets(s))
  {
    if |s| >= 4 {
      DecodedIsLatin1(s[4..]);
    }
  }

  /** The 6-bit groups of three bytes give the three bytes back. */
  lemma GroupArithmetic(a: nat, b: nat, c: nat)
    requires a < 256 && b < 256 && c < 256
    ensures (a / 4) * 4 + ((a % 4) * 16 + b / 16) / 16 == a
    ensures (((a % 4) * 16 + b / 16) % 16) * 16 + ((b % 16) * 4 + c / 64) / 4 == b
    ensures (((b % 16) * 4 + c / 64) % 4) * 64 + c % 64 == c
  {
  }

  /** A group of four characters decodes to the three bytes it encodes. */
  lemma DecodeGroup(a: nat, b: nat, c: nat, rest: string)
    requires a < 256 && b < 256 && c < 256
    requires AllInAlphabet(rest) && Decodable(|rest|)
    ensures var g := EncodeGroup(a, b, c) + rest;
      AllInAlphabet(g) && Decodable(|g|)
      && DecodeSextets(g) == [a as char, b as char, c as char] + DecodeSextets(rest)
  {
    var e := EncodeGroup(a, b, c);
    var g := e + rest;
    GroupDecodes(a, b, c);
    assert g[..4] == e && g[4..] == rest;
    DecodeFirstGroup(g);
  }

  /** The sextets of a group's characters recombine into its three bytes. */
  lemma GroupDecodes(a: nat, b: nat, c: nat)
    requires a < 256 && b < 256 && c < 256
    ensures var e := EncodeGroup(a, b, c);
      var v0, v1, v2, v3 := DecodeSextet(e[0]), DecodeSextet(e[1]), DecodeSextet(e[2]), DecodeSextet(e[3]);
      v0 * 4 + v1 / 16 == a && (v1 % 16) * 16 + v2 / 4 == b && (v2 % 4) * 64 + v3 == c
  {
    SextetRoundTrip(a / 4);
    SextetRoundTrip((a % 4) * 16 + b / 16);
    SextetRoundTrip((b % 16) * 4 + c / 64);
    SextetRoundTrip(c % 64);
    GroupArithmetic(a, b, c);
  }

  /** The first group of four characters decodes to three bytes ahead of the rest. */
  lemma DecodeFirstGroup(g: string)
    requires AllInAlphabet(g) && Decodable(|g|) && |g| >= 4
    ensures AllInAlphabet(g[4..]) && Decodable(|g[4..]|)
    ensures var v0, v1, v2, v3 := DecodeSextet(g[0]), DecodeSextet(g[1]), DecodeSextet(g[2]), DecodeSextet(g[3]);
      DecodeSextets(g)
      == [(v0 * 4 + v1 / 16) as char, ((v1 % 16) * 16 + v2 / 4) as char, ((v2 % 4) * 64 + v3) as char]
         + DecodeSextets(g[4..])
  {
  }

  /** One trailing byte is written as two characters and read back. */
  lemma DecodeLastOne(a: nat)
    requires a < 256
    ensures var g := [EncodeSextet(a / 4), EncodeSextet((a % 4) * 16)];
      AllInAlphabet(g) && DecodeSextets(g) == [a as char]
  {
    SextetRoundTrip(a / 4);
    SextetRoundTrip((a % 4) * 16);
  }

  /** Two trailing bytes are written as three characters and read back. */
  lemma DecodeLastTwo(a: nat, b: nat)
    requires a < 256 && b < 256
    ensures var g := [EncodeSextet(a / 4), EncodeSextet((a % 4) * 16 + b / 16), EncodeSextet((b % 16) * 4)];
      AllInAlphabet(g) && DecodeSextets(g) == [a as char, b as char]
  {
    GroupArithmetic(a, b, 0);
    SextetRoundTrip(a / 4);
    SextetRoundTrip((a % 4) * 16 + b / 16);
    SextetRoundTrip((b % 16) * 4);
  }

  lemma FirstThree(s: string)
    requires |s| >= 3
    ensures s == [s[0], s[1], s[2]] + s[3..]
  {
  }

  /** The first group of three bytes decodes back, given that the rest does. */
  lemma DecodeEncodeStep(s: string)
    requires IsLatin1(s) && |s| >= 3
    requires DecodeSextets(EncodeUnpadded(s[3..])) == s[3..]
    ensures DecodeSextets(EncodeUnpadded(s)) == s
  {
    var a, b, c := Byte(s[0]), Byte(s[1]), Byte(s[2]);
    var rest := EncodeUnpadded(s[3..]);
    assert EncodeUnpadded(s) == EncodeGroup(a, b, c) + rest;
    DecodeGroup(a, b, c, rest);
    assert DecodeSextets(EncodeUnpadded(s)) == [a as char, b as char, c as char] + s[3..];
    assert a as char == s[0] && b as char == s[1] && c as char == s[2];
    FirstThree(s);
  }

  /** Decoding the unpadded encoding gives the input bytes back. */
  lemma {:induction false} DecodeEncodeUnpadded(s: string)
    requires IsLatin1(s)
    ensures DecodeSextets(EncodeUnpadded(s)) == s
  {
    if |s| == 1 {
      DecodeLastOne(Byte(s[0]));
    } else if |s| == 2 {
      DecodeLastTwo(Byte(s[0]), Byte(s[1]));
    } else if |s| >= 3 {
      DecodeEncodeUnpadded(s[3..]);
      DecodeEncodeStep(s);
    }
  }

  lemma ModSteps(m: nat)
    ensures (m + 4) % 4 == m % 4 && (m + 3) % 3 == m % 3
  {
  }

  /** The unpadded encoding leaves 0, 2 or 3 characters in its last group for 0, 1 or 2 leftover bytes. */
  lemma {:induction false} EncodeUnpaddedLength(s: string)
    requires IsLatin1(s)
    ensures |EncodeUnpadded(s)| % 4 == (if |s| % 3 == 0 then 0 else |s| % 3 + 1)
  {
    if |s| >= 3 {
      var n, m := |s[3..]|, |EncodeUnpadded(s[3..])|;
      EncodeUnpaddedLength(s[3..]);
      assert |EncodeUnpadded(s)| == m + 4 && |s| == n + 3;
      ModSteps(m);
      ModSteps(n);
    }
  }

  lemma {:induction false} NoWhitespaceUnchanged(s: string)
    requires forall i :: 0 <= i < |s| ==> !IsAsciiWhitespace(s[i])
    ensures RemoveAsciiWhitespace(s) == s
  {
    if s != [] {
      NoWhitespaceUnchanged(s[1..]);
    }
  }

  /** `btoa` writes only alphabet characters and '='; in particular no ':' and no white space. */
  lemma BtoaAlphabet(s: string)
    requires IsLatin1(s)
    ensures forall i :: 0 <= i < |Btoa(s).value| ==> InAlphabet(Btoa(s).value[i]) || Btoa(s).value[i] == '='
  {
    var u := EncodeUnpadded(s);
    var e := u + Padding(|s|);
    forall i | 0 <= i < |e| ensures InAlphabet(e[i]) || e[i] == '=' {
      if i < |u| {
        assert e[i] == u[i];
      }
    }
  }

  /** `btoa` output comes in whole groups of four characters. */
  lemma BtoaLength(s: string)
    requires IsLatin1(s)
    ensures |Btoa(s).value| % 4 == 0
  {
    var u := EncodeUnpadded(s);
    EncodeUnpaddedLength(s);
    assert Btoa(s).value == u + Padding(|s|);
    PaddingCompletes(|u|, |s|);
  }

  /** The padding completes the last group of an encoding of `n` bytes. */
  lemma PaddingCompletes(m: nat, n: nat)
    requires m % 4 == (if n % 3 == 0 then 0 else n % 3 + 1)
    ensures (m + |Padding(n)|) % 4 == 0
  {
    var q := m / 4;
    assert m == 4 * q + m % 4;
  }

  /** Stripping the padding that completes a run of alphabet characters gives the run back. */
  lemma StripCompletingPadding(u: string, pad: string)
    requires AllInAlphabet(u)
    requires (|u| % 4 == 0 && pad == "") || (|u| % 4 == 2 && pad == "==") || (|u| % 4 == 3 && pad == "=")
    ensures StripPadding(u + pad) == u
  {
    var e := u + pad;
    if pad == "==" {
      assert e[..|e| - 2] == u;
    } else if pad == "=" {
      assert e[|e| - 2] == u[|u| - 1];
      assert e[..|e| - 1] == u;
    } else if |u| > 0 {
      assert e[|e| - 1] == u[|u| - 1];
    }
  }

  /** Stripping the padding of `btoa`'s output leaves the unpadded encoding. */
  lemma StripBtoaPadding(s: string)
    requires IsLatin1(s)
    ensures StripPadding(EncodeUnpadded(s) + Padding(|s|)) == EncodeUnpadded(s)
  {
    EncodeUnpaddedLength(s);
    StripCompletingPadding(EncodeUnpadded(s), Padding(|s|));
  }

  /** `atob(btoa(s)) == s` for every Latin-1 string. */
  lemma AtobBtoa(s: string)
    requires IsLatin1(s)
    ensures Atob(Btoa(s).value) == Some(s)
  {
    var u := EncodeUnpadded(s);
    var e := u + Padding(|s|);
    assert Btoa(s).value == e;
    BtoaAlphabet(s);
    NoWhitespaceUnchanged(e);
    StripBtoaPadding(s);
    assert StripPadding(RemoveAsciiWhitespace(e)) == u;
    EncodeUnpaddedLength(s);
    assert |u| % 4 != 1;
    DecodableLength(|u|);
    DecodeEncodeUnpadded(s);
    assert Atob(e) == Some(DecodeSextets(u));
  }
}
