/** SHA-1 as FIPS 180-4 defines it: the functions and constants of section 4.1.1 and 4.2.1, the padding of
    section 5.1.1, the initial value of section 5.3.1 and the 80-word computation of section 6.1.2. Nothing
    here follows the code; it is what the code is compared with. */
module Fips180 {

  type Word = bv32

  /** The five working variables. */
  datatype State = State(a: Word, b: Word, c: Word, d: Word, e: Word)

  function Rotl(x: Word, n: bv6): Word
    requires n <= 32
  {
    (x << n) | (x >> (32 - n))
  }

  function Ch(x: Word, y: Word, z: Word): Word {
    (x & y) ^ (!x & z)
  }

  function Parity(x: Word, y: Word, z: Word): Word {
    x ^ y ^ z
  }

  function Maj(x: Word, y: Word, z: Word): Word {
    (x & y) ^ (x & z) ^ (y & z)
  }

  function F(t: nat, x: Word, y: Word, z: Word): Word {
    if t < 20 then Ch(x, y, z)
    else if t < 40 then Parity(x, y, z)
    else if t < 60 then Maj(x, y, z)
    else Parity(x, y, z)
  }

  function K(t: nat): Word {
    if t < 20 then 0x5a827999
    else if t < 40 then 0x6ed9eba1
    else if t < 60 then 0x8f1bbcdc
    else 0xca62c1d6
  }

  function NextWord(w3: Word, w8: Word, w14: Word, w16: Word): Word {
    Rotl(w3 ^ w8 ^ w14 ^ w16, 1)
  }

  /** Word t of the message schedule of the 16-word block m. */
  function W(m: seq<Word>, t: nat): Word
    requires |m| == 16
  {
    if t < 16 then m[t]
    else NextWord(W(m, t - 3), W(m, t - 8), W(m, t - 14), W(m, t - 16))
  }

  /** Addition of words is modulo 2^32. */
  function Plus(x: Word, y: Word): Word {
    x + y
  }

  function Sum(u: Word, v: Word, w: Word, x: Word, y: Word): Word {
    u + v + w + x + y
  }

  /** One step of the main loop: T is added up, the registers shift by one. */
  function Step(s: State, t: nat, w: Word): State {
    var T := Sum(Rotl(s.a, 5), F(t, s.b, s.c, s.d), s.e, K(t), w);
    State(T, s.a, Rotl(s.b, 30), s.c, s.d)
  }

  function Rounds(m: seq<Word>, h: State, t: nat): State
    requires |m| == 16
  {
    if t == 0 then h else Step(Rounds(m, h, t - 1), t - 1, W(m, t - 1))
  }

  function Add(s: State, r: State): State {
    State(Plus(s.a, r.a), Plus(s.b, r.b), Plus(s.c, r.c), Plus(s.d, r.d), Plus(s.e, r.e))
  }

  function Compress(h: State, m: seq<Word>): State
    requires |m| == 16
  {
    Add(h, Rounds(m, h, 80))
  }

  const INITIAL := State(0x67452301, 0xefcdab89, 0x98badcfe, 0x10325476, 0xc3d2e1f0)

  /** Big-endian word of four bytes, and back. */
  function ToWord(a: bv8, b: bv8, c: bv8, d: bv8): Word {
    (a as Word << 24) | (b as Word << 16) | (c as Word << 8) | d as Word
  }

  function WordBytes(w: Word): (r: seq<bv8>)
    ensures |r| == 4
  {
    [((w >> 24) & 0xff) as bv8, ((w >> 16) & 0xff) as bv8, ((w >> 8) & 0xff) as bv8, (w & 0xff) as bv8]
  }

  lemma WordOfWordBytes(w: Word)
    ensures var r := WordBytes(w); ToWord(r[0], r[1], r[2], r[3]) == w
  {
  }

  function Block(bytes: seq<bv8>): (r: seq<Word>)
    requires |bytes| == 64
    ensures |r| == 16
  {
    seq(16, i requires 0 <= i < 16 => ToWord(bytes[4 * i], bytes[4 * i + 1], bytes[4 * i + 2], bytes[4 * i + 3]))
  }

  /** The hash value after the first n whole blocks of bytes. */
  function Chain(bytes: seq<bv8>, n: nat): State
    requires 64 * n <= |bytes|
  {
    if n == 0 then INITIAL else Compress(Chain(bytes, n - 1), Block(bytes[64 * (n - 1)..64 * n]))
  }

  function Zeros(n: nat): (r: seq<bv8>)
    ensures |r| == n
  {
    seq(n, _ => 0)
  }

  /** How many zero bytes follow the byte 0x80: the least number that leaves 8 bytes of the last block. */
  function ZeroBytes(n: nat): nat {
    (119 - n % 64) % 64
  }

  /** The 64-bit big-endian message length in bits. */
  function LengthBytes(bits: nat): (r: seq<bv8>)
    requires bits < 0x1_0000_0000_0000_0000
    ensures |r| == 8
  {
    WordBytes((bits / 0x1_0000_0000) as Word) + WordBytes((bits % 0x1_0000_0000) as Word)
  }

  function Pad(m: seq<bv8>): (r: seq<bv8>)
    requires 8 * |m| < 0x1_0000_0000_0000_0000
    ensures |r| % 64 == 0
  {
    m + [0x80] + Zeros(ZeroBytes(|m|)) + LengthBytes(8 * |m|)
  }

  function StateBytes(s: State): (r: seq<bv8>)
    ensures |r| == 20
  {
    WordBytes(s.a) + WordBytes(s.b) + WordBytes(s.c) + WordBytes(s.d) + WordBytes(s.e)
  }

  /** The last hash value. */
  function FinalState(m: seq<bv8>): State
    requires 8 * |m| < 0x1_0000_0000_0000_0000
  {
    Chain(Pad(m), |Pad(m)| / 64)
  }

  /** The message digest of a byte string. */
  function Hash(m: seq<bv8>): (r: seq<bv8>)
    requires 8 * |m| < 0x1_0000_0000_0000_0000
    ensures |r| == 20
  {
    StateBytes(FinalState(m))
  }
}
