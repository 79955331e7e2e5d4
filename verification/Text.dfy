/** The std::string operations the HTTP code is made of. A position is an int; NPOS is -1, the value the 64-bit
    npos has as a signed number, so npos + 1 is 0, and a negative count stands for one that has wrapped round
    to more than any string holds. */
module Text {
  import opened Options
  import opened Widths

  const NPOS := -1

  /** pat stands in s at position i. */
  predicate At(s: string, pat: string, i: int) {
    0 <= i && i + |pat| <= |s| && s[i..i + |pat|] == pat
  }

  /** std::string::find: the first occurrence of pat at or after from. */
  function Find(s: string, pat: string, from: nat): (r: int)
    ensures r == NPOS || (from <= r && At(s, pat, r))
    ensures forall i :: from <= i && (r == NPOS || i < r) ==> !At(s, pat, i)
    decreases |s| - from
  {
    if from + |pat| > |s| then NPOS
    else if At(s, pat, from) then from
    else if from == |s| then NPOS
    else Find(s, pat, from + 1)
  }

  lemma FindIs(s: string, pat: string, from: nat, r: int)
    requires from <= r && At(s, pat, r)
    requires forall i :: from <= i < r ==> !At(s, pat, i)
    ensures Find(s, pat, from) == r
  {
  }

  lemma FindNone(s: string, pat: string, from: nat)
    requires forall i :: from <= i ==> !At(s, pat, i)
    ensures Find(s, pat, from) == NPOS
  {
  }

  lemma AtPrefix(s: string, t: string, pat: string, i: int)
    requires i + |pat| <= |s|
    ensures At(s + t, pat, i) <==> At(s, pat, i)
  {
    if 0 <= i {
      assert (s + t)[i..i + |pat|] == s[i..i + |pat|];
    }
  }

  /** What has been found stays the first occurrence when more text arrives. */
  lemma FindAppend(s: string, t: string, pat: string, from: nat)
    requires Find(s, pat, from) != NPOS
    ensures Find(s + t, pat, from) == Find(s, pat, from)
  {
    var r := Find(s, pat, from);
    AtPrefix(s, t, pat, r);
    forall i | from <= i < r
      ensures !At(s + t, pat, i)
    {
      AtPrefix(s, t, pat, i);
    }
    FindIs(s + t, pat, from, r);
  }

  /** A strict prefix that ends before the first occurrence does holds no occurrence. */
  lemma FindCut(s: string, t: string, pat: string, from: nat)
    requires Find(s + t, pat, from) == NPOS || |s| < Find(s + t, pat, from) + |pat|
    ensures Find(s, pat, from) == NPOS
  {
    forall i | from <= i
      ensures !At(s, pat, i)
    {
      if At(s, pat, i) {
        AtPrefix(s, t, pat, i);
      }
    }
    FindNone(s, pat, from);
  }

  /** find for a single character. */
  function FindChar(s: string, c: char, from: nat): (r: int)
    ensures r == NPOS || from <= r < |s|
  {
    CharFrom(s, c, from)
  }

  function CharFrom(s: string, c: char, from: nat): (r: int)
    ensures r == NPOS || (from <= r < |s| && s[r] == c)
    ensures forall i :: from <= i < |s| && (r == NPOS || i < r) ==> s[i] != c
    decreases |s| - from
  {
    if from >= |s| then NPOS
    else if s[from] == c then from
    else CharFrom(s, c, from + 1)
  }

  lemma FindCharIs(s: string, c: char, from: nat, r: int)
    requires from <= r < |s| && s[r] == c
    requires forall i :: from <= i < r ==> s[i] != c
    ensures FindChar(s, c, from) == r
  {
  }

  /** find_first_not_of. */
  function FindNotIn(s: string, cs: set<char>, from: nat): (r: int)
    ensures r == NPOS || from <= r < |s|
  {
    NotInFrom(s, cs, from)
  }

  function NotInFrom(s: string, cs: set<char>, from: nat): (r: int)
    ensures r == NPOS || (from <= r < |s| && s[r] !in cs)
    ensures forall i :: from <= i < |s| && (r == NPOS || i < r) ==> s[i] in cs
    decreases |s| - from
  {
    if from >= |s| then NPOS
    else if s[from] !in cs then from
    else NotInFrom(s, cs, from + 1)
  }

  lemma FindNotInIs(s: string, cs: set<char>, from: nat, r: int)
    requires from <= r < |s| && s[r] !in cs
    requires forall i :: from <= i < r ==> s[i] in cs
    ensures FindNotIn(s, cs, from) == r
  {
  }

  /** rfind. */
  function RFind(s: string, pat: string): (r: int)
    ensures r == NPOS || At(s, pat, r)
    ensures forall i :: r < i ==> !At(s, pat, i)
  {
    RFindFrom(s, pat, |s|)
  }

  function RFindFrom(s: string, pat: string, at: int): (r: int)
    requires -1 <= at
    requires forall i :: at < i ==> !At(s, pat, i)
    ensures r == NPOS || At(s, pat, r)
    ensures forall i :: r < i ==> !At(s, pat, i)
    decreases at + 1
  {
    if at == -1 then NPOS
    else if At(s, pat, at) then at
    else RFindFrom(s, pat, at - 1)
  }

  /** substr(pos, count), pos within the string as the standard demands. */
  function Substr(s: string, pos: nat, count: int): string
    requires pos <= |s|
  {
    if count < 0 || pos + count > |s| then s[pos..] else s[pos..pos + count]
  }

  function ToLowerChar(c: char): char {
    if 'A' <= c <= 'Z' then ((c as int) + 32) as char else c
  }

  /** tolower, letter by letter. */
  lemma LowerCase(c: char, i: nat)
    requires i < 26
    ensures ToLowerChar("ABCDEFGHIJKLMNOPQRSTUVWXYZ"[i]) == "abcdefghijklmnopqrstuvwxyz"[i]
    ensures c !in "ABCDEFGHIJKLMNOPQRSTUVWXYZ" ==> ToLowerChar(c) == c
  {
    if 'A' <= c <= 'Z' {
      assert c == "ABCDEFGHIJKLMNOPQRSTUVWXYZ"[c as int - 65];
    }
  }

  function ToLower(s: string): (r: string)
    ensures |r| == |s|
    ensures forall i :: 0 <= i < |s| ==> r[i] == ToLowerChar(s[i])
  {
    seq(|s|, i requires 0 <= i < |s| => ToLowerChar(s[i]))
  }

  // --- one character, and the text around it ---

  /** What stands from position i on, if anything. */
  function After(s: string, i: nat): string {
    if i <= |s| then s[i..] else ""
  }

  lemma CharShift(s: string, c: char, off: nat, from: nat)
    requires off <= |s|
    ensures FindChar(s, c, off + from)
         == if FindChar(s[off..], c, from) == NPOS then NPOS else off + FindChar(s[off..], c, from)
  {
    var r := FindChar(s[off..], c, from);
    if r != NPOS {
      FindCharIs(s, c, off + from, off + r);
    }
  }

  lemma CharFound(s: string, c: char, from: nat)
    requires FindChar(s, c, from) != NPOS
    ensures Stands(s, c, FindChar(s, c, from))
  {
  }

  predicate Stands(s: string, c: char, i: int) {
    0 <= i < |s| && s[i] == c
  }

  /** A slice of what is left from off on, by its places in the whole. */
  lemma SlicesOfRest(s: string, off: nat, i: nat, j: nat)
    requires off <= i <= j <= |s|
    ensures s[off..][i - off..j - off] == s[i..j] && s[off..][j - off..] == s[j..]
    ensures s[off..][..j - off] == s[off..j]
  {
  }

  lemma Slices(s: string, off: nat, i: nat, j: nat)
    requires i <= j && off + j <= |s|
    ensures s[off..][i..j] == s[off + i..off + j] && s[off..][j..] == s[off + j..]
    ensures i == 0 ==> s[off..][..j] == s[off..off + j]
  {
  }

  predicate Without(s: string, c: char) {
    c !in s
  }

  lemma CharBehind(a: string, b: string, c: char)
    requires Without(a, c)
    ensures FindChar(a + b, c, 0) == if FindChar(b, c, 0) == NPOS then NPOS else |a| + FindChar(b, c, 0)
  {
    var r := FindChar(b, c, 0);
    assert forall i :: 0 <= i < |a| ==> (a + b)[i] == a[i];
    assert forall i :: |a| <= i < |a + b| ==> (a + b)[i] == b[i - |a|];
    if r != NPOS {
      FindCharIs(a + b, c, 0, |a| + r);
    }
  }

  lemma CharFirst(s: string, c: char)
    ensures s != "" && s[0] == c ==> FindChar(s, c, 0) == 0
    ensures Without(s, c) ==> FindChar(s, c, 0) == NPOS
    ensures !Without(s, c) ==> FindChar(s, c, 0) != NPOS
  {
    if s != "" && s[0] == c {
      FindCharIs(s, c, 0, 0);
    }
    if !Without(s, c) {
      var i :| 0 <= i < |s| && s[i] == c;
    }
  }

  lemma Pieces(a: string, mark: string, b: string)
    requires |mark| == 1
    ensures (a + (mark + b))[..|a|] == a && (a + (mark + b))[|a| + 1..] == b
  {
  }

  lemma Middle(a: string, t: string, e: nat)
    requires e <= |t|
    ensures var text := a + (":" + t);
            && text[..|a|] == a && text[|a| + 1..|a| + 1 + e] == t[..e]
            && (e < |t| ==> text[|a| + 2 + e..] == t[e + 1..])
  {
  }

  // --- numbers ---

  predicate IsSpace(c: char) {
    c == ' ' || c == '\t' || c == '\n' || c as int == 11 || c as int == 12 || c == '\r'
  }

  function DigitValue(c: char): nat {
    if '0' <= c <= '9' then c as int - 48
    else if 'a' <= c <= 'z' then c as int - 87
    else if 'A' <= c <= 'Z' then c as int - 55
    else 99
  }

  function SkipSpace(s: string): string {
    if s != "" && IsSpace(s[0]) then SkipSpace(s[1..]) else s
  }

  /** The number read from the digits at the front of s, on top of acc. */
  function ReadDigits(s: string, base: nat, acc: nat): nat {
    if s == "" || DigitValue(s[0]) >= base then acc
    else ReadDigits(s[1..], base, acc * base + DigitValue(s[0]))
  }

  /** strtol and its family: optional spaces, an optional sign, for base 16 an optional 0x, then digits.
      None if there is no digit. */
  function StrTo(s: string, base: nat): Option<int>
  {
    var t := SkipSpace(s);
    var neg := t != "" && t[0] == '-';
    var u := if t != "" && (t[0] == '-' || t[0] == '+') then t[1..] else t;
    var v := if base == 16 && |u| > 2 && u[0] == '0' && (u[1] == 'x' || u[1] == 'X') && DigitValue(u[2]) < 16
             then u[2..] else u;
    if v == "" || DigitValue(v[0]) >= base then None
    else Some(if neg then 0 - ReadDigits(v, base, 0) else ReadDigits(v, base, 0))
  }

  /** stoul and stoull on a 64-bit host; None is the exception. A minus sign negates modulo 2^64. */
  function Stoull(s: string, base: nat): (r: Option<nat>)
    ensures r.Some? ==> r.value < TWO_64
  {
    match StrTo(s, base)
    case None => None
    case Some(n) => if n >= TWO_64 || n <= -TWO_64 then None else Some(n % TWO_64)
  }

  lemma StoullIs(s: string, base: nat, n: int)
    requires StrTo(s, base) == Some(n)
    ensures 0 <= n < TWO_64 ==> Stoull(s, base) == Some(n)
    ensures -TWO_64 < n < 0 ==> Stoull(s, base) == Some(n + TWO_64)
    ensures n <= -TWO_64 || n >= TWO_64 ==> Stoull(s, base) == None
  {
    hide StrTo;
  }

  /** stoi; None is the exception. */
  function Stoi(s: string): Option<int> {
    match StrTo(s, 10)
    case None => None
    case Some(n) => if -0x8000_0000 <= n < 0x8000_0000 then Some(n) else None
  }

  function DigitChar(d: nat): (c: char)
    requires d < 16
    ensures DigitValue(c) == d
  {
    "0123456789abcdef"[d]
  }

  /** The digits of n; std::to_string for base 10. */
  function Print(n: nat, base: nat): (s: string)
    requires base == 10 || base == 16
    ensures s != "" && forall i :: 0 <= i < |s| ==> DigitValue(s[i]) < base
    decreases n
  {
    if n < base then [DigitChar(n)] else Print(n / base, base) + [DigitChar(n % base)]
  }

  lemma ReadDigit(c: char, rest: string, base: nat, acc: nat)
    requires DigitValue(c) < base
    ensures ReadDigits([c] + rest, base, acc) == ReadDigits(rest, base, acc * base + DigitValue(c))
  {
    assert ([c] + rest)[1..] == rest;
  }

  lemma {:induction false} ReadPrint(n: nat, base: nat, rest: string)
    requires base == 10 || base == 16
    ensures ReadDigits(Print(n, base) + rest, base, 0) == ReadDigits(rest, base, n)
    decreases n
  {
    hide ReadDigits, DigitValue;
    if n < base {
      ReadDigit(DigitChar(n), rest, base, 0);
    } else {
      var c := DigitChar(n % base);
      assert Print(n, base) + rest == Print(n / base, base) + ([c] + rest);
      ReadPrint(n / base, base, [c] + rest);
      ReadDigit(c, rest, base, n / base);
    }
  }

  /** A digit first and no 'x' second: nothing is skipped. */
  lemma NoSignOrPrefix(s: string, base: nat)
    requires base <= 16 && s != "" && DigitValue(s[0]) < base
    requires base == 16 && |s| > 1 ==> s[1] != 'x' && s[1] != 'X'
    ensures StrTo(s, base) == Some(ReadDigits(s, base, 0))
  {
  }

  /** Reading back a printed number, followed by anything that is not a digit. */
  lemma StrToPrint(n: nat, base: nat, rest: string)
    requires base == 10 || base == 16
    requires rest == "" || DigitValue(rest[0]) >= base
    requires base == 16 && rest != "" ==> rest[0] != 'x' && rest[0] != 'X'
    ensures StrTo(Print(n, base) + rest, base) == Some(n)
  {
    hide Print;
    var p := Print(n, base);
    var s := p + rest;
    ReadPrint(n, base, rest);
    assert DigitValue(s[0]) < base;
    NoSignOrPrefix(s, base);
    if |p| > 1 {
      assert s[1] == p[1];
    }
  }

  /** A space in front of a number is skipped, and what follows it is not looked at. */
  lemma StoiPrint(n: nat, rest: string)
    requires n < 0x8000_0000 && (rest == "" || DigitValue(rest[0]) >= 10)
    ensures Stoi(" " + Print(n, 10) + rest) == Some(n)
  {
    hide Print, StrTo;
    var p := Print(n, 10) + rest;
    assert " " + Print(n, 10) + rest == " " + p;
    StrToPrint(n, 10, rest);
    assert DigitValue(p[0]) < 10;
    StrToSpace(' ', p, 10);
  }

  /** What stoi refuses. */
  lemma StoiTooBig(n: nat, rest: string)
    requires n >= 0x8000_0000 && (rest == "" || DigitValue(rest[0]) >= 10)
    ensures Stoi(" " + Print(n, 10) + rest) == None
  {
    hide Print, StrTo;
    var p := Print(n, 10) + rest;
    assert " " + Print(n, 10) + rest == " " + p;
    StrToPrint(n, 10, rest);
    StrToSpace(' ', p, 10);
  }

  lemma StoiMinus(n: nat, rest: string)
    requires rest == "" || DigitValue(rest[0]) >= 10
    ensures Stoi("-" + Print(n, 10) + rest) == if n <= 0x8000_0000 then Some(0 - n) else None
  {
    hide Print, StrTo;
    var p := Print(n, 10) + rest;
    assert "-" + Print(n, 10) + rest == "-" + p;
    StrToPrint(n, 10, rest);
    StrToSign(p, 10);
  }

  lemma StrToSpace(c: char, s: string, base: nat)
    requires c == ' ' || 9 <= c as int <= 13
    ensures StrTo([c] + s, base) == StrTo(s, base)
  {
    assert ([c] + s)[1..] == s;
    assert SkipSpace([c] + s) == SkipSpace(s);
    hide ReadDigits, SkipSpace;
  }

  /** One sign may stand in front of a number. */
  lemma StrToSign(s: string, base: nat)
    requires base <= 16 && s != "" && DigitValue(s[0]) < base
    ensures StrTo(s, base).Some?
    ensures StrTo("+" + s, base) == StrTo(s, base)
    ensures StrTo("-" + s, base) == Some(0 - StrTo(s, base).value)
  {
    assert ("+" + s)[1..] == s && ("-" + s)[1..] == s;
    assert SkipSpace("+" + s) == "+" + s && SkipSpace("-" + s) == "-" + s && SkipSpace(s) == s;
    hide ReadDigits, SkipSpace;
  }

  /** Hexadecimal digits may have 0x in front; without one behind it, this is a zero and something else. */
  lemma StrToPrefix(x: char, s: string)
    requires x == 'x' || x == 'X'
    ensures StrTo(['0', x] + s, 16) == Some(if s != "" && DigitValue(s[0]) < 16 then ReadDigits(s, 16, 0) else 0)
  {
    var t := ['0', x] + s;
    assert t[2..] == s && t[0] == '0' && t[1] == x;
    assert SkipSpace(t) == t;
    assert DigitValue(x) == 33;
    assert ReadDigits(t, 16, 0) == 0 by {
      assert t[1..][0] == x;
    }
    hide SkipSpace;
  }

  /** Neither a digit nor what may stand before one. */
  predicate NoNumber(s: string) {
    s != "" && DigitValue(s[0]) >= 10 && !IsSpace(s[0]) && s[0] != '+' && s[0] != '-'
  }

  lemma NoDigits(s: string)
    requires NoNumber(s)
    ensures StrTo(s, 10) == None
  {
  }

  lemma StoullPrint(n: nat)
    requires n < TWO_64
    ensures Stoull(Print(n, 10), 10) == Some(n)
  {
    hide Print, StrTo;
    StrToPrint(n, 10, "");
    assert Print(n, 10) + "" == Print(n, 10);
    StoullIs(Print(n, 10), 10, n);
  }

  lemma DecimalChars(n: nat)
    ensures forall i :: 0 <= i < |Print(n, 10)| ==> '0' <= Print(n, 10)[i] <= '9'
  {
    hide Print;
    forall i | 0 <= i < |Print(n, 10)|
      ensures '0' <= Print(n, 10)[i] <= '9'
    {
      assert DigitValue(Print(n, 10)[i]) < 10;
    }
  }
}
