/** Base64::encode (src/Base64.cpp) against section 4 of RFC 4648. */
module Base64 {
  import opened NetworkEncoding
  import opened Options
  import opened Widths

  /** The letters, the digits, plus and slash. */
  const TABLE := Range('A', 26) + Range('a', 26) + Range('0', 10) + "+/"

  // --- the alphabet ---

  function Range(first: char, n: nat): (r: string)
    requires first as int + n <= 128
    ensures |r| == n && forall i :: 0 <= i < n ==> r[i] == (first as int + i) as char
  {
    if n == 0 then "" else Range(first, n - 1) + [(first as int + n - 1) as char]
  }

  /** The digit of value d, as Table 1 of the RFC lists them. */
  function Digit(d: nat): char
    requires d < 64
  {
    if d < 26 then (65 + d) as char
    else if d < 52 then (97 + d - 26) as char
    else if d < 62 then (48 + d - 52) as char
    else if d == 62 then '+'
    else '/'
  }

  /** base64_table[i]. */
  function Entry(i: nat): (c: char)
    requires i < 64
    ensures c == Digit(i)
  {
    TABLE[i]
  }

  /** The value of a digit. */
  function ValueOf(c: char): (v: Option<nat>)
    ensures v.Some? ==> v.value < 64 && Digit(v.value) == c
  {
    if 'A' <= c <= 'Z' then Some(c as int - 65)
    else if 'a' <= c <= 'z' then Some(c as int - 97 + 26)
    else if '0' <= c <= '9' then Some(c as int - 48 + 52)
    else if c == '+' then Some(62)
    else if c == '/' then Some(63)
    else None
  }

  // --- the encoding of the RFC ---

  /** 24 bits are three bytes from left to right. */
  function Group(a: Byte, b: Byte, c: Byte): nat {
    a * 65536 + b * 256 + c
  }

  /** ... and four digits of six bits from left to right. */
  function Sextet(group: nat, i: nat): (d: nat)
    ensures d < 64
  {
    (if i == 0 then group / 262144 else if i == 1 then group / 4096 else if i == 2 then group / 64 else group) % 64
  }

  /** The n + 1 digits that n bytes of a group reach into, filled up with padding. */
  function Digits(g: nat, n: nat): (r: string)
    ensures |r| == 4
  {
    [Digit(Sextet(g, 0)), Digit(Sextet(g, 1)), if n >= 2 then Digit(Sextet(g, 2)) else '=',
     if n >= 3 then Digit(Sextet(g, 3)) else '=']
  }

  function Rfc4648(bs: seq<Byte>): string {
    if bs == [] then ""
    else if |bs| == 1 then Digits(Group(bs[0], 0, 0), 1)
    else if |bs| == 2 then Digits(Group(bs[0], bs[1], 0), 2)
    else Digits(Group(bs[0], bs[1], bs[2]), 3) + Rfc4648(bs[3..])
  }

  // --- a decoder, and the two are inverses ---

  function Join(p: nat, q: nat, r: nat, s: nat): nat {
    p * 262144 + q * 4096 + r * 64 + s
  }

  /** The first n bytes of a group; the bits behind them have to be zero. */
  function BytesOf(g: nat, n: nat): Option<seq<Byte>>
    requires g < 0x100_0000
  {
    if n >= 3 then Some([g / 65536, g / 256 % 256, g % 256])
    else if n == 2 then if g % 256 == 0 then Some([g / 65536, g / 256 % 256]) else None
    else if g % 65536 == 0 then Some([g / 65536]) else None
  }

  function DecodeGroup(t: string, n: nat): Option<seq<Byte>>
    requires |t| >= 4
  {
    var p, q := ValueOf(t[0]), ValueOf(t[1]);
    var r := if n >= 2 then ValueOf(t[2]) else Some(0);
    var s := if n >= 3 then ValueOf(t[3]) else Some(0);
    if p.None? || q.None? || r.None? || s.None? then None
    else BytesOf(Join(p.value, q.value, r.value, s.value), n)
  }

  /** How many bytes the first four digits stand for: only the last four may be padded. */
  function Count(t: string): (n: nat)
    requires |t| >= 4
    ensures 1 <= n <= 3
  {
    if |t| > 4 || t[3] != '=' then 3 else if t[2] != '=' then 2 else 1
  }

  function Decode(t: string): Option<seq<Byte>> {
    if t == "" then Some([])
    else if |t| < 4 then None
    else
      var front, rest := DecodeGroup(t, Count(t)), Decode(t[4..]);
      if front.None? || rest.None? then None else Some(front.value + rest.value)
  }

  lemma Division(g: nat, m: nat, high: nat, low: nat)
    requires m in [64, 256, 4096, 65536, 262144] && low < m && g == high * m + low
    ensures g / m == high && g % m == low
  {
    if m == 64 {
      assert g / 64 == high;
    } else if m == 256 {
      assert g / 256 == high;
    } else if m == 4096 {
      assert g / 4096 == high;
    } else if m == 65536 {
      assert g / 65536 == high;
    } else {
      assert g / 262144 == high;
    }
  }

  /** The digits of a group are the ones it is made of. */
  lemma SextetsAre(g: nat, p: nat, q: nat, r: nat, s: nat)
    requires p < 64 && q < 64 && r < 64 && s < 64 && g == p * 262144 + q * 4096 + r * 64 + s
    ensures Sextet(g, 0) == p && Sextet(g, 1) == q && Sextet(g, 2) == r && Sextet(g, 3) == s
  {
    Division(g, 262144, p, q * 4096 + r * 64 + s);
    Division(g, 4096, p * 64 + q, r * 64 + s);
    Division(g, 64, p * 4096 + q * 64 + r, s);
    Division(p * 64 + q, 64, p, q);
    Division(p * 4096 + q * 64 + r, 64, p * 64 + q, r);
  }

  /** ... and so are its bytes. */
  lemma BytesAre(g: nat, a: Byte, b: Byte, c: Byte)
    requires g == Group(a, b, c)
    ensures g / 65536 == a && g / 256 % 256 == b && g % 256 == c
  {
    Division(g, 65536, a, b * 256 + c);
    Division(g, 256, a * 256 + b, c);
    Division(a * 256 + b, 256, a, b);
  }

  /** Three bytes as four digits, by the shifts and masks of the code. */
  lemma SextetsOfBytes(a: Byte, b: Byte, c: Byte)
    ensures var g := Group(a, b, c);
            Sextet(g, 0) == a / 4 && Sextet(g, 1) == a % 4 * 16 + b / 16
            && Sextet(g, 2) == b % 16 * 4 + c / 64 && Sextet(g, 3) == c % 64
  {
    SextetsAre(Group(a, b, c), a / 4, a % 4 * 16 + b / 16, b % 16 * 4 + c / 64, c % 64);
  }

  lemma DigitsDecode(p: nat)
    requires p < 64
    ensures ValueOf(Digit(p)) == Some(p) && Digit(p) != '='
  {
  }

  lemma JoinSextets(a: Byte, b: Byte, c: Byte)
    ensures var g := Group(a, b, c);
            g == Join(Sextet(g, 0), Sextet(g, 1), Sextet(g, 2), Sextet(g, 3))
  {
    SextetsOfBytes(a, b, c);
    hide Sextet;
  }

  lemma BytesOfGroup(a: Byte, b: Byte, c: Byte, n: nat)
    requires 1 <= n <= 3 && (n < 3 ==> c == 0) && (n < 2 ==> b == 0)
    ensures Group(a, b, c) < 0x100_0000 && BytesOf(Group(a, b, c), n) == Some([a, b, c][..n])
  {
    var g := Group(a, b, c);
    BytesAre(g, a, b, c);
    Division(g, 65536, a, b * 256 + c);
    assert [a, b, c][..n] == if n == 1 then [a] else if n == 2 then [a, b] else [a, b, c];
  }

  /** n bytes are decoded from their n + 1 digits. */
  lemma DecodeDigits(a: Byte, b: Byte, c: Byte, n: nat, rest: string)
    requires 1 <= n <= 3 && (n < 3 ==> c == 0) && (n < 2 ==> b == 0)
    ensures DecodeGroup(Digits(Group(a, b, c), n) + rest, n) == Some([a, b, c][..n])
  {
    var g := Group(a, b, c);
    SextetsOfBytes(a, b, c);
    JoinSextets(a, b, c);
    BytesOfGroup(a, b, c, n);
    assert (n < 3 ==> Sextet(g, 3) == 0) && (n < 2 ==> Sextet(g, 2) == 0);
    hide Group, Sextet, Join, BytesOf;
    DigitsDecode(Sextet(g, 0));
    DigitsDecode(Sextet(g, 1));
    DigitsDecode(Sextet(g, 2));
    DigitsDecode(Sextet(g, 3));
    hide Digit, ValueOf;
  }

  /** What was encoded is what is decoded. */
  lemma {:induction false} DecodeEncoded(bs: seq<Byte>)
    ensures Decode(Rfc4648(bs)) == Some(bs)
  {
    hide DecodeGroup, Digits, Group;
    if bs != [] {
      var n := if |bs| < 3 then |bs| else 3;
      var b, c := if |bs| > 1 then bs[1] else 0, if |bs| > 2 then bs[2] else 0;
      var rest := if |bs| < 3 then "" else Rfc4648(bs[3..]);
      assert Rfc4648(bs) == Digits(Group(bs[0], b, c), n) + rest;
      DecodeDigits(bs[0], b, c, n, rest);
      CountDigits(bs[0], b, c, n, rest);
      if |bs| > 3 {
        DecodeEncoded(bs[3..]);
      }
      assert (Digits(Group(bs[0], b, c), n) + rest)[4..] == rest;
      assert bs == [bs[0], b, c][..n] + bs[n..];
    }
  }

  lemma CountDigits(a: Byte, b: Byte, c: Byte, n: nat, rest: string)
    requires 1 <= n <= 3 && (n < 3 ==> rest == "")
    ensures Count(Digits(Group(a, b, c), n) + rest) == n
  {
    var g := Group(a, b, c);
    hide Group, Sextet;
    DigitsDecode(Sextet(g, 2));
    DigitsDecode(Sextet(g, 3));
    hide Digit;
  }

  lemma GroupOfDigits(p: nat, q: nat, r: nat, s: nat)
    requires p < 64 && q < 64 && r < 64 && s < 64
    ensures var g := Join(p, q, r, s);
            g < 0x100_0000 && Group(g / 65536, g / 256 % 256, g % 256) == g
            && Sextet(g, 0) == p && Sextet(g, 1) == q && Sextet(g, 2) == r && Sextet(g, 3) == s
  {
    var g := Join(p, q, r, s);
    var a, b, c := p * 4 + q / 16, q % 16 * 16 + r / 4, r % 4 * 64 + s;
    assert g == Group(a, b, c);
    BytesAre(g, a, b, c);
    SextetsAre(g, p, q, r, s);
  }

  /** n bytes are accepted only in their own n + 1 digits. */
  lemma DigitsOfDecoded(t: string, n: nat)
    requires |t| >= 4 && 1 <= n <= 3 && (n < 3 ==> t[3] == '=') && (n < 2 ==> t[2] == '=')
    requires DecodeGroup(t, n).Some?
    ensures var x := DecodeGroup(t, n).value;
            |x| == n && Digits(Group(x[0], if n > 1 then x[1] else 0, if n > 2 then x[2] else 0), n) == t[..4]
  {
    var p, q := ValueOf(t[0]).value, ValueOf(t[1]).value;
    var r := if n >= 2 then ValueOf(t[2]).value else 0;
    var s := if n >= 3 then ValueOf(t[3]).value else 0;
    var g := Join(p, q, r, s);
    GroupOfDigits(p, q, r, s);
    LowBytes(g, n);
    hide Join, Sextet, Group, ValueOf, Digit;
  }

  lemma LowBytes(g: nat, n: nat)
    requires g < 0x100_0000 && BytesOf(g, n).Some?
    ensures n < 3 ==> g % 256 == 0
    ensures n < 2 ==> g / 256 % 256 == 0
  {
    if n < 2 {
      Division(g, 65536, g / 65536, 0);
      assert g == g / 65536 * 256 * 256;
      Division(g, 256, g / 65536 * 256, 0);
    }
  }

  /** A text is accepted only if it is the encoding of what it is decoded to, so that the two are inverses. */
  lemma {:induction false} EncodeDecoded(t: string)
    requires Decode(t).Some?
    ensures Rfc4648(Decode(t).value) == t
  {
    hide DecodeGroup, Digits, Group;
    if t != "" {
      var n := Count(t);
      DigitsOfDecoded(t, n);
      EncodeDecoded(t[4..]);
      var x, y := DecodeGroup(t, n).value, Decode(t[4..]).value;
      assert t == t[..4] + t[4..];
      assert n < 3 ==> t[4..] == "" && y == [];
      assert (x + y)[..n] == x && (x + y)[n..] == y;
      assert n == 3 ==> (x + y)[3..] == y;
    }
  }

  /** Four digits for every three bytes begun. */
  lemma {:induction false} EncodedLength(bs: seq<Byte>)
    ensures |Rfc4648(bs)| == (|bs| + 2) / 3 * 4
  {
    hide Digits, Group;
    if |bs| >= 3 {
      EncodedLength(bs[3..]);
    }
  }

  /** No two inputs have the same encoding. */
  lemma Injective(x: seq<Byte>, y: seq<Byte>)
    requires Rfc4648(x) == Rfc4648(y)
    ensures x == y
  {
    DecodeEncoded(x);
    DecodeEncoded(y);
  }

  // --- the loop ---

  /** input.size() - 2, which is unsigned. */
  function Bound(n: nat): nat {
    (n - 2) % TWO_64
  }

  /** The loop reads input[a], input[a + 1] and input[a + 2] for every multiple a of three below its bound; all of
      that is inside the input exactly if it has at least two bytes. */
  lemma ReadsInBounds(n: nat)
    requires n < TWO_64
    ensures (forall a: nat :: a % 3 == 0 && a < Bound(n) ==> a + 2 < n) <==> n >= 2
  {
    if n < 2 {
      assert 0 % 3 == 0 && 0 < Bound(n);
    }
  }

  lemma {:induction false} EncodeAppend(x: seq<Byte>, y: seq<Byte>)
    requires |x| % 3 == 0
    ensures Rfc4648(x + y) == Rfc4648(x) + Rfc4648(y)
  {
    hide Digits, Group;
    if x == [] {
      assert x + y == y;
    } else {
      EncodeAppend(x[3..], y);
      assert (x + y)[3..] == x[3..] + y;
    }
  }

  /** When one or two bytes are left, the code leaves the missing ones out of the shifts. */
  lemma SextetsOfTail(a: Byte, b: Byte)
    ensures var g := Group(a, b, 0);
            Sextet(g, 0) == a / 4 && Sextet(g, 1) == a % 4 * 16 + b / 16 && Sextet(g, 2) == b % 16 * 4
    ensures b == 0 ==> Sextet(Group(a, b, 0), 1) == a % 4 * 16
  {
    SextetsOfBytes(a, b, 0);
    hide Sextet, Group;
    assert b % 16 * 4 + 0 / 64 == b % 16 * 4;
  }

  lemma EncodeNext(input: seq<Byte>, a: nat)
    requires a % 3 == 0 && a + 2 < |input|
    ensures Rfc4648(input[..a + 3])
         == Rfc4648(input[..a]) + Digits(Group(input[a], input[a + 1], input[a + 2]), 3)
  {
    hide Digits, Group;
    assert input[..a + 3] == input[..a] + input[a..a + 3];
    EncodeAppend(input[..a], input[a..a + 3]);
  }

  /** encode, for input of at least two bytes. The bit fields that are or-ed together do not overlap, so they are
      added up here; >> 2 is / 4 and & 0x3 is % 4. */
  method Encode(input: seq<Byte>) returns (out: string)
    requires 2 <= |input| < TWO_64
    ensures out == Rfc4648(input)
  {
    hide Digits, Group, Rfc4648;
    EncodeNothing(input);
    out := "";
    var a := 0;
    while a < Bound(|input|)
      invariant a % 3 == 0 && a <= |input| && out == Rfc4648(input[..a])
    {
      EncodeNext(input, a);
      var digits := EncodeThree(input[a], input[a + 1], input[a + 2]);
      out := out + digits;
      a := a + 3;
    }
    EncodeLast(input, a);
    if a < |input| {
      var digits;
      if a == |input| - 2 {
        digits := EncodeTwo(input[a], input[a + 1]);
      } else {
        digits := EncodeOne(input[a]);
      }
      out := out + digits;
    }
  }

  lemma EncodeNothing(input: seq<Byte>)
    ensures Rfc4648(input[..0]) == ""
  {
  }

  lemma EncodeLast(input: seq<Byte>, a: nat)
    requires a % 3 == 0 && a <= |input|
    ensures a == |input| ==> Rfc4648(input) == Rfc4648(input[..a])
    ensures a == |input| - 1 ==> Rfc4648(input) == Rfc4648(input[..a]) + Digits(Group(input[a], 0, 0), 1)
    ensures a == |input| - 2 ==> Rfc4648(input) == Rfc4648(input[..a]) + Digits(Group(input[a], input[a + 1], 0), 2)
  {
    hide Digits, Group;
    assert input == input[..a] + input[a..];
    EncodeAppend(input[..a], input[a..]);
  }

  /** The body of the loop. */
  method EncodeThree(a: Byte, b: Byte, c: Byte) returns (out: string)
    ensures out == Digits(Group(a, b, c), 3)
  {
    SextetsOfBytes(a, b, c);
    hide Digit, Sextet, Group, Entry;
    out := [Entry(a / 4)];
    out := out + [Entry(a % 4 * 16 + b / 16)];
    out := out + [Entry(b % 16 * 4 + c / 64)];
    out := out + [Entry(c % 64)];
  }

  /** The remainder of two bytes. */
  method EncodeTwo(a: Byte, b: Byte) returns (out: string)
    ensures out == Digits(Group(a, b, 0), 2)
  {
    SextetsOfTail(a, b);
    hide Digit, Sextet, Group, Entry;
    out := [Entry(a / 4)];
    out := out + [Entry(a % 4 * 16 + b / 16)];
    out := out + [Entry(b % 16 * 4)];
    out := out + "=";
  }

  /** The remainder of one byte. */
  method EncodeOne(a: Byte) returns (out: string)
    ensures out == Digits(Group(a, 0, 0), 1)
  {
    SextetsOfTail(a, 0);
    hide Digit, Sextet, Group, Entry;
    out := [Entry(a / 4)];
    out := out + [Entry(a % 4 * 16)];
    out := out + "==";
  }
}
