/** Http::url_encode and Http::url_decode (src/Http.cpp). A char is a byte; as a number it is signed. */
module UrlEscape {
  import opened Text
  import opened Widths

  predicate Octets(s: string) {
    forall i :: 0 <= i < |s| ==> s[i] as int < 256
  }

  /** The eight bits of a char. */
  function Code(c: char): (n: nat)
    ensures n < 256
    ensures c as int < 256 ==> n == c as int
  {
    c as int % 256
  }

  // --- encoding ---

  predicate Plain(c: char) {
    '0' <= c <= '9' || 'a' <= c <= 'z' || 'A' <= c <= 'Z' || c in "-_.!~*'()"
  }

  /** hex_lookup. */
  function UpperHex(d: nat): char
    requires d < 16
  {
    if d < 10 then (48 + d) as char else (65 + d - 10) as char
  }

  function EncodeChar(c: char): string {
    if Plain(c) then [c]
    else if c == ' ' then "+"
    else ['%', UpperHex(Code(c) / 16), UpperHex(Code(c) % 16)]
  }

  function Encode(s: string): string {
    if s == "" then "" else EncodeChar(s[0]) + Encode(s[1..])
  }

  lemma {:induction false} EncodeSnoc(s: string, c: char)
    ensures Encode(s + [c]) == Encode(s) + EncodeChar(c)
  {
    if s == "" {
      assert "" + [c] == [c] && [c][1..] == "";
    } else {
      assert (s + [c])[1..] == s[1..] + [c];
      EncodeSnoc(s[1..], c);
    }
  }

  method UrlEncode(str: string) returns (out: string)
    ensures out == Encode(str)
  {
    out := "";
    for i := 0 to |str|
      invariant out == Encode(str[..i])
    {
      var c := str[i];
      EncodeSnoc(str[..i], c);
      assert str[..i + 1] == str[..i] + [c];
      if Plain(c) {
        out := out + [c];
      } else if c == ' ' {
        out := out + "+";
      } else {
        out := out + ['%'];
        out := out + [UpperHex(Code(c) / 16)];
        out := out + [UpperHex(Code(c) % 16)];
      }
    }
    assert str[..|str|] == str;
  }

  // --- decoding ---

  /** What is left of a char when '0' is taken off, and another 7 from what looks like a letter. */
  function Reduced(c: char): int {
    var ch := (if Code(c) < 128 then Code(c) else Code(c) - 256) - 48;
    if ch > 9 then ch - 7 else ch
  }

  /** Bitwise or of the lowest n bits. */
  function OrBits(a: nat, b: nat, n: nat): nat {
    if n == 0 then 0 else (if a % 2 == 1 || b % 2 == 1 then 1 else 0) + 2 * OrBits(a / 2, b / 2, n - 1)
  }

  lemma {:induction false} OrBitsFit(a: nat, b: nat, n: nat, limit: nat)
    requires limit == Pow2(n)
    ensures OrBits(a, b, n) < limit
  {
    if n > 0 {
      OrBitsFit(a / 2, b / 2, n - 1, Pow2(n - 1));
    }
  }

  /** ret: the low eight bits of ch1 << 4, or-ed with those of ch2. */
  function Unescape(c1: char, c2: char): (c: char)
    ensures c as int < 256
  {
    OrBitsFit(Reduced(c1) * 16 % 256, Reduced(c2) % 256, 8, 256);
    OrBits(Reduced(c1) * 16 % 256, Reduced(c2) % 256, 8) as char
  }

  /** A string ends in a NUL that may be read. */
  function CharAt(s: string, i: nat): char
    requires i <= |s|
  {
    if i < |s| then s[i] else 0 as char
  }

  function Decode(s: string): string
    decreases |s|
  {
    if s == "" then ""
    else if s[0] == '%' && |s| > 1 then
      [Unescape(s[1], CharAt(s, 2))] + Decode(if |s| > 2 then s[3..] else "")
    else if s[0] == '+' then " " + Decode(s[1..])
    else [s[0]] + Decode(s[1..])
  }

  lemma DecodeNext(s: string, a: nat, done: string)
    requires a < |s|
    ensures s[a] == '%' && a < |s| - 1 ==>
              done + Decode(After(s, a)) == done + [Unescape(s[a + 1], CharAt(s, a + 2))] + Decode(After(s, a + 3))
    ensures !(s[a] == '%' && a < |s| - 1) ==>
              done + Decode(After(s, a)) == done + [if s[a] == '+' then ' ' else s[a]] + Decode(After(s, a + 1))
  {
    hide Unescape;
    var left := s[a..];
    assert a + 3 <= |s| ==> s[a + 3..] == left[3..];
    assert s[a + 1..] == left[1..];
  }

  lemma DecodeEnds(s: string, a: nat)
    ensures After(s, 0) == s
    ensures a >= |s| ==> Decode(After(s, a)) == ""
  {
  }

  /** The look-ahead never goes further than the NUL. */
  method UrlDecode(str: string) returns (result: string)
    ensures result == Decode(str)
  {
    hide Unescape, Decode, After;
    result := "";
    var a := 0;
    DecodeEnds(str, 0);
    while a < |str|
      invariant Decode(str) == result + Decode(After(str, a))
    {
      DecodeNext(str, a, result);
      if str[a] == '%' && a < |str| - 1 {
        a := a + 1;
        var c1 := str[a];
        a := a + 1;
        var c2 := CharAt(str, a);
        result := result + [Unescape(c1, c2)];
      } else if str[a] == '+' {
        result := result + " ";
      } else {
        result := result + [str[a]];
      }
      a := a + 1;
    }
    DecodeEnds(str, a);
  }

  // --- hex digits ---

  predicate IsHex(c: char) {
    '0' <= c <= '9' || 'A' <= c <= 'F' || 'a' <= c <= 'f'
  }

  function HexValue(c: char): (d: nat)
    requires IsHex(c)
    ensures d < 16
  {
    if c <= '9' then c as int - 48 else if c <= 'F' then c as int - 65 + 10 else c as int - 97 + 10
  }

  lemma {:induction false} OrNothing(a: nat, n: nat)
    requires a < Pow2(n)
    ensures OrBits(a, 0, n) == a && OrBits(0, a, n) == a
  {
    if n > 0 {
      OrNothing(a / 2, n - 1);
    }
  }

  lemma OrLow(a: nat, bit: nat, b: nat, n: nat)
    requires n > 0 && bit < 2
    ensures OrBits(2 * a, bit + 2 * b, n) == bit + 2 * OrBits(a, b, n - 1)
  {
    assert 2 * a % 2 == 0 && 2 * a / 2 == a && (bit + 2 * b) % 2 == bit && (bit + 2 * b) / 2 == b;
  }

  /** Four bits below the shifted ones. */
  lemma OrShifted(h: nat, l: nat, m: nat)
    requires l < 16
    ensures OrBits(16 * h, l + 16 * m, 8) == l + 16 * OrBits(h, m, 4)
  {
    hide OrBits;
    var b0, b1, b2, b3 := l % 2, l / 2 % 2, l / 4 % 2, l / 8;
    assert l == b0 + 2 * (b1 + 2 * (b2 + 2 * b3));
    OrLow(h, b3, m, 5);
    OrLow(2 * h, b2, b3 + 2 * m, 6);
    OrLow(4 * h, b1, b2 + 2 * (b3 + 2 * m), 7);
    OrLow(8 * h, b0, b1 + 2 * (b2 + 2 * (b3 + 2 * m)), 8);
    assert 2 * (8 * h) == 16 * h && 2 * (4 * h) == 8 * h && 2 * (2 * h) == 4 * h;
  }

  /** The value of two hex digits, unless the second one is lower-case: then bit 5 comes out set. */
  lemma UnescapeHex(c1: char, c2: char)
    requires IsHex(c1) && IsHex(c2)
    ensures var h, l := HexValue(c1), HexValue(c2);
            Unescape(c1, c2) as int == l + 16 * (if c2 < 'a' || h / 2 % 2 == 1 then h else h + 2)
  {
    var h, l := HexValue(c1), HexValue(c2);
    var m := if c2 < 'a' then 0 else 2;
    ReducedHex(c1);
    ReducedHex(c2);
    hide Reduced, HexValue, Unescape, IsHex;
    UnescapeBits(c1, c2, 16 * h, l + 16 * m);
    OrShifted(h, l, m);
    OrNothing(h, 4) by { assert Pow2(4) == 16; }
    OrTwo(h);
    hide OrBits;
  }

  lemma ReducedHex(c: char)
    requires IsHex(c)
    ensures Reduced(c) * 16 % 256 == 16 * HexValue(c)
    ensures Reduced(c) % 256 == HexValue(c) + 16 * (if c < 'a' then 0 else 2)
  {
  }

  lemma OrTwo(h: nat)
    requires h < 16
    ensures OrBits(h, 2, 4) == if h / 2 % 2 == 1 then h else h + 2
  {
    OrNothing(h / 4, 2) by { assert Pow2(2) == 4; }
    assert OrBits(h, 2, 4) == h % 2 + 2 * OrBits(h / 2, 1, 3);
    assert OrBits(h / 2, 1, 3) == 1 + 2 * OrBits(h / 2 / 2, 0, 2);
    assert h / 2 / 2 == h / 4;
  }

  /** What any byte counts for as a digit; those beyond ASCII are negative. */
  function DigitOf(c: char): (n: nat)
    requires c as int < 256
  {
    if c <= '9' then c as int + 208 else if c as int < 128 then c as int - 55 else c as int - 48
  }

  lemma AnyDigit(c: char)
    requires c as int < 256
    ensures Unescape('0', c) as int == DigitOf(c) % 256 && Unescape(c, '0') as int == 16 * DigitOf(c) % 256
  {
    var n := DigitOf(c);
    ReducedDigit(c);
    ReducedHex('0');
    hide Reduced, DigitOf, OrBits, Unescape, IsHex;
    UnescapeBits('0', c, 0, n % 256);
    UnescapeBits(c, '0', 16 * n % 256, 0);
    OrNothing(n % 256, 8) by { assert Pow2(8) == 256; }
    OrNothing(16 * n % 256, 8) by { assert Pow2(8) == 256; }
  }

  lemma UnescapeBits(c1: char, c2: char, h: nat, l: nat)
    requires Reduced(c1) * 16 % 256 == h && Reduced(c2) % 256 == l
    ensures Unescape(c1, c2) as int == OrBits(h, l, 8)
  {
    OrBitsFit(h, l, 8, 256) by { assert Pow2(8) == 256; }
    hide Reduced, OrBits;
  }

  lemma ReducedDigit(c: char)
    requires c as int < 256
    ensures Reduced(c) % 256 == DigitOf(c) % 256 && Reduced(c) * 16 % 256 == 16 * DigitOf(c) % 256
  {
    assert Reduced(c) == DigitOf(c) || Reduced(c) == DigitOf(c) - 256;
    hide Reduced, DigitOf;
    SameDigit(Reduced(c));
  }

  lemma SameDigit(d: int)
    ensures (d + 256) % 256 == d % 256 && 16 * (d + 256) % 256 == d * 16 % 256
  {
    var n := d * 16;
    Modulo256(d, 1);
    Modulo256(n, 16);
    assert 16 * (d + 256) == n + 256 * 16;
  }

  lemma Modulo256(n: int, k: int)
    ensures (n + 256 * k) % 256 == n % 256
  {
    assert n + 256 * k == 256 * (n / 256 + k) + n % 256;
  }

  /** An escape of one digit takes in the NUL behind the text, which counts for 208. */
  lemma CutEscape(c: char)
    requires IsHex(c)
    ensures var t := Decode(['%', c]); |t| == 1 && t[0] as int == 16 * OrBits(HexValue(c), 13, 4)
  {
    var h := HexValue(c);
    ReducedHex(c);
    DecodeCut(c);
    hide Reduced, OrBits, HexValue, IsHex, Decode, Unescape;
    OrShifted(h, 0, 13);
    UnescapeBits(c, 0 as char, 16 * h, 208) by { assert Reduced(0 as char) == -48; }
  }

  lemma DecodeCut(c: char)
    ensures Decode(['%', c]) == [Unescape(c, 0 as char)]
  {
    assert Decode("") == "";
    hide Unescape;
  }

  // --- the round trip ---

  lemma UpperHexValue(d: nat)
    requires d < 16
    ensures IsHex(UpperHex(d)) && UpperHex(d) < 'a' && HexValue(UpperHex(d)) == d
  {
  }

  lemma UnescapeUpper(c: char)
    requires c as int < 256
    ensures Unescape(UpperHex(Code(c) / 16), UpperHex(Code(c) % 16)) == c
  {
    var c1, c2 := UpperHex(Code(c) / 16), UpperHex(Code(c) % 16);
    UpperHexValue(Code(c) / 16);
    UpperHexValue(Code(c) % 16);
    UnescapeHex(c1, c2);
    hide Unescape, UpperHex, HexValue, IsHex;
  }

  /** Every string of bytes comes back. */
  lemma {:induction false} DecodeEncoded(s: string)
    requires Octets(s)
    ensures Decode(Encode(s)) == s
  {
    if s != "" {
      DecodeChar(s[0], Encode(s[1..]));
      DecodeEncoded(s[1..]);
    }
  }

  lemma DecodeChar(c: char, rest: string)
    requires c as int < 256
    ensures Decode(EncodeChar(c) + rest) == [c] + Decode(rest)
  {
    hide Unescape, UpperHex;
    UnescapeUpper(c);
    assert (EncodeChar(c) + rest)[|EncodeChar(c)|..] == rest;
  }

  /** Text in which every percent sign starts an escape, in digits of either case. */
  predicate WellEscaped(t: string) {
    t == ""
    || if t[0] == '%' then |t| >= 3 && IsHex(t[1]) && IsHex(t[2]) && WellEscaped(t[3..]) else WellEscaped(t[1..])
  }

  /** The unreserved characters of section 2.3 of RFC 2396: letters, digits and marks. */
  predicate Unreserved(c: char) {
    || ('A' <= c <= 'Z') || ('a' <= c <= 'z') || ('0' <= c <= '9')
    || c == '-' || c == '_' || c == '.' || c == '!' || c == '~' || c == '*' || c == '\'' || c == '(' || c == ')'
  }

  /** Exactly those are left as they are; nothing else is in encoded text but the percent sign and the plus sign, which
      stand for something else. */
  lemma KeptCharacters(c: char)
    requires c as int < 256
    ensures Encode([c]) == [c] <==> Unreserved(c)
    ensures Encode([c]) == "+" <==> c == ' '
  {
    assert [c][1..] == "" && EncodeChar(c) + "" == EncodeChar(c);
    assert '+' !in "-_.!~*'()";
  }

  lemma {:induction false} EncodedCharacters(s: string, c: char)
    requires c in Encode(s)
    ensures Unreserved(c) || c == '%' || c == '+'
  {
    if c in EncodeChar(s[0]) {
      hide Code;
    } else {
      EncodedCharacters(s[1..], c);
    }
  }

  /** Encoded text stands for what was encoded, read as the RFC reads escapes. */
  lemma {:induction false} EncodedMeans(s: string)
    requires Octets(s)
    ensures WellEscaped(Encode(s)) && Meaning(Encode(s)) == s
  {
    EncodedWellEscaped(s);
    if s != "" {
      EncodedMeans(s[1..]);
      EncodedWellEscaped(s[1..]);
      CharMeans(s[0], Encode(s[1..]));
    }
  }

  lemma CharMeans(c: char, rest: string)
    requires c as int < 256 && WellEscaped(rest)
    ensures WellEscaped(EncodeChar(c) + rest) && Meaning(EncodeChar(c) + rest) == [c] + Meaning(rest)
  {
    hide UpperHex, HexValue, IsHex;
    UpperHexValue(Code(c) / 16);
    UpperHexValue(Code(c) % 16);
    assert (EncodeChar(c) + rest)[|EncodeChar(c)|..] == rest;
  }

  /** In the output of the encoder the decoder finds two digits behind each percent sign, and does not look at the
      NUL. */
  lemma {:induction false} EncodedWellEscaped(s: string)
    ensures WellEscaped(Encode(s))
  {
    if s != "" {
      EncodedWellEscaped(s[1..]);
      assert Encode(s)[|EncodeChar(s[0])|..] == Encode(s[1..]);
    }
  }

  /** What the escapes of section 2.1 of RFC 3986 stand for, with + for a space. */
  function Meaning(t: string): string
    requires WellEscaped(t)
  {
    if t == "" then ""
    else if t[0] == '%' then [(HexValue(t[1]) * 16 + HexValue(t[2])) as char] + Meaning(t[3..])
    else [if t[0] == '+' then ' ' else t[0]] + Meaning(t[1..])
  }

  /** No escape has a lower-case second digit, save where the bit that it sets is set anyway. */
  predicate Readable(t: string)
    requires WellEscaped(t)
  {
    t == ""
    || if t[0] == '%' then (t[2] < 'a' || HexValue(t[1]) / 2 % 2 == 1) && Readable(t[3..]) else Readable(t[1..])
  }

  /** The decoder was written for upper-case digits; exactly these texts are decoded to what they stand for. */
  lemma {:induction false} DecodesMeaning(t: string)
    requires WellEscaped(t)
    ensures Decode(t) == Meaning(t) <==> Readable(t)
  {
    hide Unescape;
    if t != "" {
      if t[0] == '%' {
        UnescapeHex(t[1], t[2]);
        DecodesMeaning(t[3..]);
        assert Decode(t)[1..] == Decode(t[3..]) && Meaning(t)[1..] == Meaning(t[3..]);
      } else {
        DecodesMeaning(t[1..]);
        assert Decode(t)[1..] == Decode(t[1..]) && Meaning(t)[1..] == Meaning(t[1..]);
      }
    }
  }
}
