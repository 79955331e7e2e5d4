/** The streaming hasher of src/Sha1.cpp: a 16-word message schedule overwritten in place, 80 unrolled rounds
    that rotate the roles of five variables instead of moving their values, and a finaliser that compresses one
    or two blocks. Everything is proved equal to the definition in Fips180. */
module Sha1 {
  import opened Fips180
  import opened Widths

  const BLOCK_INTS := 16
  const BLOCK_BYTES := 64
  /** The word the code computes in place of W(t), from the 16 words kept. */
  function Blk(block: seq<Word>, i: nat): Word
    requires |block| == 16 && i < 16
  {
    Rotl(block[(i + 13) % 16] ^ block[(i + 8) % 16] ^ block[(i + 2) % 16] ^ block[i], 1)
  }

  /** The round whose schedule word sits in slot j before round t: the latest one congruent to j. */
  function Slot(t: nat, j: nat): nat
    requires j < 16
  {
    if t < 16 then j else t - 1 - (t - 1 - j) % 16
  }

  /** Before round t the buffer holds the last 16 words of the schedule, word s in slot s mod 16. */
  ghost predicate Window(block: seq<Word>, m: seq<Word>, t: nat) {
    && |block| == |m| == 16
    && forall j :: 0 <= j < 16 ==> block[j] == W(m, Slot(t, j))
  }

  lemma SlotBack(t: nat, k: nat)
    requires 16 <= t && 1 <= k <= 16
    ensures Slot(t, (t % 16 + 16 - k) % 16) == t - k
  {
    assert (t % 16 + 16 - k) % 16 == (t - k) % 16;
    assert (t - 1 - (t - k) % 16) % 16 == (k - 1) % 16;
  }

  lemma SlotStep(t: nat, j: nat)
    requires j < 16
    ensures Slot(t + 1, j) == if t >= 16 && j == t % 16 then t else Slot(t, j)
  {
    if t >= 16 {
      var q, r := (t - 1 - j) / 16, (t - 1 - j) % 16;
      assert t - j == 16 * q + r + 1;
      if r == 15 {
        assert t - j == 16 * (q + 1);
      }
    }
  }

  lemma BlkForm(block: seq<Word>, i: nat)
    requires |block| == 16 && i < 16
    ensures Blk(block, i) == NextWord(block[(i + 13) % 16], block[(i + 8) % 16], block[(i + 2) % 16], block[i])
  {
  }

  lemma WindowBack(block: seq<Word>, m: seq<Word>, t: nat, k: nat)
    requires Window(block, m, t) && t >= 16 && 1 <= k <= 16
    ensures block[(t % 16 + 16 - k) % 16] == W(m, t - k)
  {
    hide W;
    SlotBack(t, k);
  }

  lemma BlkIsNextWord(block: seq<Word>, m: seq<Word>, t: nat, i: nat)
    requires |block| == |m| == 16
    requires Window(block, m, t) && t >= 16 && i == t % 16
    ensures Blk(block, i) == W(m, t)
  {
    hide NextWord, Blk, Window;
    BlkForm(block, i);
    WindowBack(block, m, t, 3);
    WindowBack(block, m, t, 8);
    WindowBack(block, m, t, 14);
    WindowBack(block, m, t, 16);
  }

  lemma WindowMoves(block: seq<Word>, m: seq<Word>, t: nat)
    requires Window(block, m, t)
    ensures Window(if t < 16 then block else block[t % 16 := W(m, t)], m, t + 1)
  {
    hide W;
    forall j | 0 <= j < 16 {
      SlotStep(t, j);
    }
  }

  lemma WindowAt(block: seq<Word>, m: seq<Word>, t: nat, i: nat)
    requires Window(block, m, t + 1) && i == t % 16
    ensures |block| == 16 && block[i] == W(m, t)
  {
    hide W;
  }

  lemma Start(m: seq<Word>, digest: seq<Word>)
    requires |m| == 16 && |digest| == 5
    ensures Window(m, m, 0)
    ensures State(digest[0], digest[1], digest[2], digest[3], digest[4]) == Rounds(m, ToState(digest), 0)
  {
  }

  lemma PlusForm(x: Word, y: Word)
    ensures x + y == Plus(x, y)
  {
  }

  lemma Finish(before: seq<Word>, after: seq<Word>, m: seq<Word>, s: State)
    requires |before| == |after| == 5 && |m| == 16 && s == Rounds(m, ToState(before), 80)
    requires after[0] == Plus(before[0], s.a) && after[1] == Plus(before[1], s.b) && after[2] == Plus(before[2], s.c)
    requires after[3] == Plus(before[3], s.d) && after[4] == Plus(before[4], s.e)
    ensures ToState(after) == Compress(ToState(before), m)
  {
    hide Rounds, Plus;
  }

  lemma ChooseForm(t: nat, x: Word, y: Word, z: Word)
    requires t < 20
    ensures ((x & (y ^ z)) ^ z) == F(t, x, y, z) && 0x5a827999 == K(t)
  {
  }

  lemma ParityForm(t: nat, x: Word, y: Word, z: Word)
    requires 20 <= t < 40
    ensures x ^ y ^ z == F(t, x, y, z) && 0x6ed9eba1 == K(t)
  {
  }

  lemma MajorityForm(t: nat, x: Word, y: Word, z: Word)
    requires 40 <= t < 60
    ensures (((x | y) & z) | (x & y)) == F(t, x, y, z) && 0x8f1bbcdc == K(t)
  {
  }

  lemma LastParityForm(t: nat, x: Word, y: Word, z: Word)
    requires 60 <= t < 80
    ensures x ^ y ^ z == F(t, x, y, z) && 0xca62c1d6 == K(t)
  {
  }

  lemma SumForm(z: Word, f: Word, w: Word, k: Word, r: Word)
    ensures z + (f + w + k + r) == Sum(r, f, z, k, w)
  {
  }

  lemma StepForm(v: Word, w: Word, x: Word, y: Word, z: Word, t: nat, wt: Word, f: Word, k: Word, r: Word)
    requires f == F(t, w, x, y) && k == K(t) && r == Rotl(v, 5)
    ensures Step(State(v, w, x, y, z), t, wt) == State(z + (f + wt + k + r), v, Rotl(w, 30), x, y)
  {
    hide F, K, Rotl, Sum;
    SumForm(z, f, wt, k, r);
  }

  /** One round with the roles v, w, x, y, z is one step of the registers, read back in the next roles. */
  lemma RoundForm(m: seq<Word>, h: State, t: nat, v: Word, w: Word, x: Word, y: Word, z: Word,
                  wt: Word, f: Word, k: Word, r: Word)
    requires |m| == 16 && State(v, w, x, y, z) == Rounds(m, h, t)
    requires wt == W(m, t) && f == F(t, w, x, y) && k == K(t) && r == Rotl(v, 5)
    ensures State(z + (f + wt + k + r), v, Rotl(w, 30), x, y) == Rounds(m, h, t + 1)
  {
    hide F, K, Rotl, W, Step;
    StepForm(v, w, x, y, z, t, wt, f, k, r);
  }

  method R0(block: array<Word>, v: Word, w: Word, x: Word, y: Word, z: Word, i: nat,
            ghost m: seq<Word>, ghost h: State, ghost t: nat)
    returns (w': Word, z': Word)
    requires block.Length == |m| == 16 && Window(block[..], m, t) && i == t % 16 && t < 16
    requires State(v, w, x, y, z) == Rounds(m, h, t)
    ensures Window(block[..], m, t + 1)
    ensures State(z', v, w', x, y) == Rounds(m, h, t + 1)
  {
    hide *;
    WindowMoves(old(block[..]), m, t);
    var f, u, k, r := ((w & (x ^ y)) ^ y), block[i], 0x5a827999, Rotl(v, 5);
    ChooseForm(t, w, x, y);
    WindowAt(block[..], m, t, i);
    RoundForm(m, h, t, v, w, x, y, z, u, f, k, r);
    z' := z + (f + u + k + r);
    w' := Rotl(w, 30);
  }

  method R1(block: array<Word>, v: Word, w: Word, x: Word, y: Word, z: Word, i: nat,
            ghost m: seq<Word>, ghost h: State, ghost t: nat)
    returns (w': Word, z': Word)
    requires block.Length == |m| == 16 && Window(block[..], m, t) && i == t % 16 && 16 <= t < 20
    requires State(v, w, x, y, z) == Rounds(m, h, t)
    modifies block
    ensures Window(block[..], m, t + 1)
    ensures State(z', v, w', x, y) == Rounds(m, h, t + 1)
  {
    hide *;
    BlkIsNextWord(block[..], m, t, i);
    block[i] := Blk(block[..], i);
    WindowMoves(old(block[..]), m, t);
    var f, u, k, r := ((w & (x ^ y)) ^ y), block[i], 0x5a827999, Rotl(v, 5);
    ChooseForm(t, w, x, y);
    WindowAt(block[..], m, t, i);
    RoundForm(m, h, t, v, w, x, y, z, u, f, k, r);
    z' := z + (f + u + k + r);
    w' := Rotl(w, 30);
  }

  method R2(block: array<Word>, v: Word, w: Word, x: Word, y: Word, z: Word, i: nat,
            ghost m: seq<Word>, ghost h: State, ghost t: nat)
    returns (w': Word, z': Word)
    requires block.Length == |m| == 16 && Window(block[..], m, t) && i == t % 16 && 20 <= t < 40
    requires State(v, w, x, y, z) == Rounds(m, h, t)
    modifies block
    ensures Window(block[..], m, t + 1)
    ensures State(z', v, w', x, y) == Rounds(m, h, t + 1)
  {
    hide *;
    BlkIsNextWord(block[..], m, t, i);
    block[i] := Blk(block[..], i);
    WindowMoves(old(block[..]), m, t);
    var f, u, k, r := w ^ x ^ y, block[i], 0x6ed9eba1, Rotl(v, 5);
    ParityForm(t, w, x, y);
    WindowAt(block[..], m, t, i);
    RoundForm(m, h, t, v, w, x, y, z, u, f, k, r);
    z' := z + (f + u + k + r);
    w' := Rotl(w, 30);
  }

  method R3(block: array<Word>, v: Word, w: Word, x: Word, y: Word, z: Word, i: nat,
            ghost m: seq<Word>, ghost h: State, ghost t: nat)
    returns (w': Word, z': Word)
    requires block.Length == |m| == 16 && Window(block[..], m, t) && i == t % 16 && 40 <= t < 60
    requires State(v, w, x, y, z) == Rounds(m, h, t)
    modifies block
    ensures Window(block[..], m, t + 1)
    ensures State(z', v, w', x, y) == Rounds(m, h, t + 1)
  {
    hide *;
    BlkIsNextWord(block[..], m, t, i);
    block[i] := Blk(block[..], i);
    WindowMoves(old(block[..]), m, t);
    var f, u, k, r := (((w | x) & y) | (w & x)), block[i], 0x8f1bbcdc, Rotl(v, 5);
    MajorityForm(t, w, x, y);
    WindowAt(block[..], m, t, i);
    RoundForm(m, h, t, v, w, x, y, z, u, f, k, r);
    z' := z + (f + u + k + r);
    w' := Rotl(w, 30);
  }

  method R4(block: array<Word>, v: Word, w: Word, x: Word, y: Word, z: Word, i: nat,
            ghost m: seq<Word>, ghost h: State, ghost t: nat)
    returns (w': Word, z': Word)
    requires block.Length == |m| == 16 && Window(block[..], m, t) && i == t % 16 && 60 <= t < 80
    requires State(v, w, x, y, z) == Rounds(m, h, t)
    modifies block
    ensures Window(block[..], m, t + 1)
    ensures State(z', v, w', x, y) == Rounds(m, h, t + 1)
  {
    hide *;
    BlkIsNextWord(block[..], m, t, i);
    block[i] := Blk(block[..], i);
    WindowMoves(old(block[..]), m, t);
    var f, u, k, r := w ^ x ^ y, block[i], 0xca62c1d6, Rotl(v, 5);
    LastParityForm(t, w, x, y);
    WindowAt(block[..], m, t, i);
    RoundForm(m, h, t, v, w, x, y, z, u, f, k, r);
    z' := z + (f + u + k + r);
    w' := Rotl(w, 30);
  }

  method Rounds0To19(block: array<Word>, a0: Word, b0: Word, c0: Word, d0: Word, e0: Word,
                     ghost m: seq<Word>, ghost h: State)
    returns (a: Word, b: Word, c: Word, d: Word, e: Word)
    requires block.Length == |m| == 16 && Window(block[..], m, 0)
    requires State(a0, b0, c0, d0, e0) == Rounds(m, h, 0)
    modifies block
    ensures Window(block[..], m, 20)
    ensures State(a, b, c, d, e) == Rounds(m, h, 20)
  {
    hide *;
    a, b, c, d, e := a0, b0, c0, d0, e0;
    b, e := R0(block, a, b, c, d, e, 0, m, h, 0);
    a, d := R0(block, e, a, b, c, d, 1, m, h, 1);
    e, c := R0(block, d, e, a, b, c, 2, m, h, 2);
    d, b := R0(block, c, d, e, a, b, 3, m, h, 3);
    c, a := R0(block, b, c, d, e, a, 4, m, h, 4);
    b, e := R0(block, a, b, c, d, e, 5, m, h, 5);
    a, d := R0(block, e, a, b, c, d, 6, m, h, 6);
    e, c := R0(block, d, e, a, b, c, 7, m, h, 7);
    d, b := R0(block, c, d, e, a, b, 8, m, h, 8);
    c, a := R0(block, b, c, d, e, a, 9, m, h, 9);
    b, e := R0(block, a, b, c, d, e, 10, m, h, 10);
    a, d := R0(block, e, a, b, c, d, 11, m, h, 11);
    e, c := R0(block, d, e, a, b, c, 12, m, h, 12);
    d, b := R0(block, c, d, e, a, b, 13, m, h, 13);
    c, a := R0(block, b, c, d, e, a, 14, m, h, 14);
    b, e := R0(block, a, b, c, d, e, 15, m, h, 15);
    a, d := R1(block, e, a, b, c, d, 0, m, h, 16);
    e, c := R1(block, d, e, a, b, c, 1, m, h, 17);
    d, b := R1(block, c, d, e, a, b, 2, m, h, 18);
    c, a := R1(block, b, c, d, e, a, 3, m, h, 19);
  }

  method Rounds20To39(block: array<Word>, a0: Word, b0: Word, c0: Word, d0: Word, e0: Word,
                     ghost m: seq<Word>, ghost h: State)
    returns (a: Word, b: Word, c: Word, d: Word, e: Word)
    requires block.Length == |m| == 16 && Window(block[..], m, 20)
    requires State(a0, b0, c0, d0, e0) == Rounds(m, h, 20)
    modifies block
    ensures Window(block[..], m, 40)
    ensures State(a, b, c, d, e) == Rounds(m, h, 40)
  {
    hide *;
    a, b, c, d, e := a0, b0, c0, d0, e0;
    b, e := R2(block, a, b, c, d, e, 4, m, h, 20);
    a, d := R2(block, e, a, b, c, d, 5, m, h, 21);
    e, c := R2(block, d, e, a, b, c, 6, m, h, 22);
    d, b := R2(block, c, d, e, a, b, 7, m, h, 23);
    c, a := R2(block, b, c, d, e, a, 8, m, h, 24);
    b, e := R2(block, a, b, c, d, e, 9, m, h, 25);
    a, d := R2(block, e, a, b, c, d, 10, m, h, 26);
    e, c := R2(block, d, e, a, b, c, 11, m, h, 27);
    d, b := R2(block, c, d, e, a, b, 12, m, h, 28);
    c, a := R2(block, b, c, d, e, a, 13, m, h, 29);
    b, e := R2(block, a, b, c, d, e, 14, m, h, 30);
    a, d := R2(block, e, a, b, c, d, 15, m, h, 31);
    e, c := R2(block, d, e, a, b, c, 0, m, h, 32);
    d, b := R2(block, c, d, e, a, b, 1, m, h, 33);
    c, a := R2(block, b, c, d, e, a, 2, m, h, 34);
    b, e := R2(block, a, b, c, d, e, 3, m, h, 35);
    a, d := R2(block, e, a, b, c, d, 4, m, h, 36);
    e, c := R2(block, d, e, a, b, c, 5, m, h, 37);
    d, b := R2(block, c, d, e, a, b, 6, m, h, 38);
    c, a := R2(block, b, c, d, e, a, 7, m, h, 39);
  }

  method Rounds40To59(block: array<Word>, a0: Word, b0: Word, c0: Word, d0: Word, e0: Word,
                     ghost m: seq<Word>, ghost h: State)
    returns (a: Word, b: Word, c: Word, d: Word, e: Word)
    requires block.Length == |m| == 16 && Window(block[..], m, 40)
    requires State(a0, b0, c0, d0, e0) == Rounds(m, h, 40)
    modifies block
    ensures Window(block[..], m, 60)
    ensures State(a, b, c, d, e) == Rounds(m, h, 60)
  {
    hide *;
    a, b, c, d, e := a0, b0, c0, d0, e0;
    b, e := R3(block, a, b, c, d, e, 8, m, h, 40);
    a, d := R3(block, e, a, b, c, d, 9, m, h, 41);
    e, c := R3(block, d, e, a, b, c, 10, m, h, 42);
    d, b := R3(block, c, d, e, a, b, 11, m, h, 43);
    c, a := R3(block, b, c, d, e, a, 12, m, h, 44);
    b, e := R3(block, a, b, c, d, e, 13, m, h, 45);
    a, d := R3(block, e, a, b, c, d, 14, m, h, 46);
    e, c := R3(block, d, e, a, b, c, 15, m, h, 47);
    d, b := R3(block, c, d, e, a, b, 0, m, h, 48);
    c, a := R3(block, b, c, d, e, a, 1, m, h, 49);
    b, e := R3(block, a, b, c, d, e, 2, m, h, 50);
    a, d := R3(block, e, a, b, c, d, 3, m, h, 51);
    e, c := R3(block, d, e, a, b, c, 4, m, h, 52);
    d, b := R3(block, c, d, e, a, b, 5, m, h, 53);
    c, a := R3(block, b, c, d, e, a, 6, m, h, 54);
    b, e := R3(block, a, b, c, d, e, 7, m, h, 55);
    a, d := R3(block, e, a, b, c, d, 8, m, h, 56);
    e, c := R3(block, d, e, a, b, c, 9, m, h, 57);
    d, b := R3(block, c, d, e, a, b, 10, m, h, 58);
    c, a := R3(block, b, c, d, e, a, 11, m, h, 59);
  }

  method Rounds60To79(block: array<Word>, a0: Word, b0: Word, c0: Word, d0: Word, e0: Word,
                     ghost m: seq<Word>, ghost h: State)
    returns (a: Word, b: Word, c: Word, d: Word, e: Word)
    requires block.Length == |m| == 16 && Window(block[..], m, 60)
    requires State(a0, b0, c0, d0, e0) == Rounds(m, h, 60)
    modifies block
    ensures Window(block[..], m, 80)
    ensures State(a, b, c, d, e) == Rounds(m, h, 80)
  {
    hide *;
    a, b, c, d, e := a0, b0, c0, d0, e0;
    b, e := R4(block, a, b, c, d, e, 12, m, h, 60);
    a, d := R4(block, e, a, b, c, d, 13, m, h, 61);
    e, c := R4(block, d, e, a, b, c, 14, m, h, 62);
    d, b := R4(block, c, d, e, a, b, 15, m, h, 63);
    c, a := R4(block, b, c, d, e, a, 0, m, h, 64);
    b, e := R4(block, a, b, c, d, e, 1, m, h, 65);
    a, d := R4(block, e, a, b, c, d, 2, m, h, 66);
    e, c := R4(block, d, e, a, b, c, 3, m, h, 67);
    d, b := R4(block, c, d, e, a, b, 4, m, h, 68);
    c, a := R4(block, b, c, d, e, a, 5, m, h, 69);
    b, e := R4(block, a, b, c, d, e, 6, m, h, 70);
    a, d := R4(block, e, a, b, c, d, 7, m, h, 71);
    e, c := R4(block, d, e, a, b, c, 8, m, h, 72);
    d, b := R4(block, c, d, e, a, b, 9, m, h, 73);
    c, a := R4(block, b, c, d, e, a, 10, m, h, 74);
    b, e := R4(block, a, b, c, d, e, 11, m, h, 75);
    a, d := R4(block, e, a, b, c, d, 12, m, h, 76);
    e, c := R4(block, d, e, a, b, c, 13, m, h, 77);
    d, b := R4(block, c, d, e, a, b, 14, m, h, 78);
    c, a := R4(block, b, c, d, e, a, 15, m, h, 79);
  }

  method Transform(digest: array<Word>, block: array<Word>)
    requires digest.Length == 5 && block.Length == 16 && digest != block
    modifies digest, block
    ensures ToState(digest[..]) == Compress(old(ToState(digest[..])), old(block[..]))
  {
    hide *;
    ghost var m, h := block[..], ToState(digest[..]);
    Start(m, digest[..]);
    var a0, b0, c0, d0, e0 := digest[0], digest[1], digest[2], digest[3], digest[4];
    var a, b, c, d, e := a0, b0, c0, d0, e0;

    a, b, c, d, e := Rounds0To19(block, a, b, c, d, e, m, h);
    a, b, c, d, e := Rounds20To39(block, a, b, c, d, e, m, h);
    a, b, c, d, e := Rounds40To59(block, a, b, c, d, e, m, h);
    a, b, c, d, e := Rounds60To79(block, a, b, c, d, e, m, h);

    digest[0], digest[1], digest[2], digest[3], digest[4] := a0 + a, b0 + b, c0 + c, d0 + d, e0 + e;
    assert digest[0] == Plus(a0, a) by { PlusForm(a0, a); }
    assert digest[1] == Plus(b0, b) by { PlusForm(b0, b); }
    assert digest[2] == Plus(c0, c) by { PlusForm(c0, c); }
    assert digest[3] == Plus(d0, d) by { PlusForm(d0, d); }
    assert digest[4] == Plus(e0, e) by { PlusForm(e0, e); }
    Finish(old(digest[..]), digest[..], m, State(a, b, c, d, e));
  }

  function ToState(digest: seq<Word>): State
    requires |digest| == 5
  {
    State(digest[0], digest[1], digest[2], digest[3], digest[4])
  }

  lemma BlockWord(a: bv8, b: bv8, c: bv8, d: bv8)
    ensures (d as Word) | (c as Word << 8) | (b as Word << 16) | (a as Word << 24) == ToWord(a, b, c, d)
  {
  }

  method BufferToBlock(buffer: seq<bv8>, block: array<Word>)
    requires |buffer| == 64 && block.Length == 16
    modifies block
    ensures block[..] == Block(buffer)
  {
    for i := 0 to BLOCK_INTS
      invariant forall j :: 0 <= j < i ==> block[j] == Block(buffer)[j]
    {
      var a, b, c, d := buffer[4 * i], buffer[4 * i + 1], buffer[4 * i + 2], buffer[4 * i + 3];
      BlockWord(a, b, c, d);
      block[i] := (d as Word) | (c as Word << 8) | (b as Word << 16) | (a as Word << 24);
    }
  }

  lemma ChainExtends(bytes: seq<bv8>, more: seq<bv8>, n: nat)
    requires 64 * n <= |bytes|
    ensures Chain(bytes + more, n) == Chain(bytes, n)
  {
    hide Compress;
    if n > 0 {
      ChainExtends(bytes, more, n - 1);
      assert (bytes + more)[64 * (n - 1)..64 * n] == bytes[64 * (n - 1)..64 * n];
    }
  }

  /** What the hasher's fields hold after the bytes m: the chaining value of n whole blocks, and the rest. */
  ghost predicate Holds(h: State, buffer: seq<bv8>, n: nat, m: seq<bv8>) {
    && |buffer| < 64
    && |m| == 64 * n + |buffer|
    && buffer == m[64 * n..]
    && h == Chain(m, n)
  }

  /** The bytes determine the fields, however they have come in. */
  lemma HoldsUnique(h: State, buffer: seq<bv8>, n: nat, h': State, buffer': seq<bv8>, n': nat, m: seq<bv8>)
    requires Holds(h, buffer, n, m) && Holds(h', buffer', n', m)
    ensures h == h' && buffer == buffer' && n == n'
  {
    hide Chain;
    assert n == |m| / 64 == n';
  }

  lemma HoldsPart(h: State, buffer: seq<bv8>, n: nat, m: seq<bv8>, more: seq<bv8>)
    requires Holds(h, buffer, n, m) && |buffer + more| < 64
    ensures Holds(h, buffer + more, n, m + more)
  {
    hide Chain;
    ChainExtends(m, more, n);
  }

  lemma HoldsBlock(h: State, buffer: seq<bv8>, n: nat, m: seq<bv8>, more: seq<bv8>)
    requires Holds(h, buffer, n, m) && |buffer + more| == 64
    ensures Holds(Compress(h, Block(buffer + more)), [], n + 1, m + more)
  {
    hide Compress, Block;
    ChainExtends(m, more, n);
    assert (m + more)[64 * n..64 * (n + 1)] == buffer + more;
  }

  /** The two halves of a 64-bit count. */
  function LowWord(bits: nat): Word
    requires bits < TWO_64
  {
    (bits % 0x1_0000_0000) as Word
  }

  function HighWord(bits: nat): Word
    requires bits < TWO_64
  {
    (bits / 0x1_0000_0000) as Word
  }

  /** The block with its last two words replaced by the message length is the block of the padded bytes. */
  lemma LengthWords(head: seq<bv8>, filler: seq<bv8>, bits: nat)
    requires |head| == 56 && |filler| == 8 && bits < TWO_64
    ensures Block(head + LengthBytes(bits))
         == Block(head + filler)[15 := LowWord(bits)][14 := HighWord(bits)]
  {
    var hi, lo := HighWord(bits), LowWord(bits);
    WordOfWordBytes(hi);
    WordOfWordBytes(lo);
    LastWords(head, hi, lo);
    hide ToWord, WordBytes;
    forall i | 0 <= i < 14
      ensures Block(head + LengthBytes(bits))[i] == Block(head + filler)[i]
    {
    }
  }

  lemma LastWords(head: seq<bv8>, hi: Word, lo: Word)
    requires |head| == 56
    ensures Block(head + (WordBytes(hi) + WordBytes(lo)))[14] == hi
    ensures Block(head + (WordBytes(hi) + WordBytes(lo)))[15] == lo
  {
    WordOfWordBytes(hi);
    WordOfWordBytes(lo);
    hide ToWord, WordBytes;
  }

  /** Up to 55 bytes are left over: the padding fits into one block. */
  lemma PadOneBlock(h: State, tail: seq<bv8>, n: nat, m: seq<bv8>)
    requires Holds(h, tail, n, m) && 8 * |m| < TWO_64 && |tail| <= 55
    ensures FinalState(m) == Compress(h, Block(tail + [0x80] + Zeros(55 - |tail|) + LengthBytes(8 * |m|)))
  {
    hide Chain, Compress, Block, LengthBytes, Zeros;
    var more := [0x80] + Zeros(55 - |tail|) + LengthBytes(8 * |m|);
    PadSplit(m, n, |tail|);
    assert tail + more == tail + [0x80] + Zeros(55 - |tail|) + LengthBytes(8 * |m|);
    HoldsBlock(h, tail, n, m, more);
  }

  /** Otherwise the length goes into a block of its own. */
  lemma PadTwoBlocks(h: State, tail: seq<bv8>, n: nat, m: seq<bv8>)
    requires Holds(h, tail, n, m) && 8 * |m| < TWO_64 && |tail| > 55
    ensures FinalState(m) == Compress(Compress(h, Block(tail + [0x80] + Zeros(63 - |tail|))),
                                      Block(Zeros(56) + LengthBytes(8 * |m|)))
  {
    hide Chain, Compress, Block, LengthBytes, Zeros;
    var first, second := [0x80] + Zeros(63 - |tail|), Zeros(56) + LengthBytes(8 * |m|);
    PadSplit(m, n, |tail|);
    assert tail + first == tail + [0x80] + Zeros(63 - |tail|);
    HoldsBlock(h, tail, n, m, first);
    HoldsBlock(Chain(m + first, n + 1), [], n + 1, m + first, second);
    assert [] + second == second;
  }

  lemma PadSplit(m: seq<bv8>, n: nat, tail: nat)
    requires 8 * |m| < TWO_64 && |m| == 64 * n + tail && tail < 64
    ensures tail <= 55 ==> Pad(m) == m + ([0x80] + Zeros(55 - tail) + LengthBytes(8 * |m|))
    ensures tail > 55 ==> Pad(m) == m + ([0x80] + Zeros(63 - tail)) + (Zeros(56) + LengthBytes(8 * |m|))
    ensures FinalState(m) == Chain(Pad(m), if tail <= 55 then n + 1 else n + 2)
  {
    hide Chain, LengthBytes;
    assert |m| % 64 == tail;
    if tail > 55 {
      assert Zeros(119 - tail) == Zeros(63 - tail) + Zeros(56);
    }
  }

  /** Clearing the first 14 words and setting the last two gives the block that holds nothing but the length. */
  lemma ZeroBlock()
    ensures forall i :: 0 <= i < 16 ==> Block(Zeros(56) + Zeros(8))[i] == 0
  {
    ZeroWord();
    hide ToWord;
  }

  lemma ZeroWord()
    ensures ToWord(0, 0, 0, 0) == 0
  {
  }

  /** The counter may wrap; below 2^64 bits it has not. */
  lemma TotalBits(n: nat, tail: nat)
    requires 8 * (64 * n + tail) < TWO_64
    ensures (n % TWO_64 * BLOCK_BYTES + tail) * 8 % TWO_64 == 8 * (64 * n + tail)
  {
  }

  lemma NextBytes(before: seq<bv8>, s: seq<bv8>, at: nat, n: nat)
    requires at + n <= |s|
    ensures before + s[..at] + s[at..at + n] == before + s[..at + n]
    ensures before + s[..|s|] == before + s && before + s[..0] == before
  {
    assert s[..at + n] == s[..at] + s[at..at + n];
  }

  class Context {
    const digest: array<Word>
    var buffer: seq<bv8>
    var transforms: nat
    /** Every byte absorbed so far. */
    ghost var absorbed: seq<bv8>
    /** How many whole blocks that is. */
    ghost var blocks: nat

    ghost predicate Valid()
      reads this, digest
    {
      digest.Length == 5 && Holds(ToState(digest[..]), buffer, blocks, absorbed) && transforms == blocks % TWO_64
    }

    constructor ()
      ensures Valid() && fresh(digest) && absorbed == []
    {
      var d := new Word[5];
      d[0], d[1], d[2], d[3], d[4] := 0x67452301, 0xefcdab89, 0x98badcfe, 0x10325476, 0xc3d2e1f0;
      digest := d;
      buffer := [];
      transforms := 0;
      absorbed := [];
      blocks := 0;
    }

    /** Takes in as much as fits, and compresses a full buffer. */
    method Absorb(got: seq<bv8>)
      requires Valid() && |buffer| + |got| <= BLOCK_BYTES
      modifies this, digest
      ensures Valid() && |buffer| < BLOCK_BYTES && absorbed == old(absorbed) + got
      ensures |old(buffer)| + |got| == BLOCK_BYTES ==> buffer == []
    {
      hide Compress, Block, Chain, ToState;
      buffer := buffer + got;
      if |buffer| == BLOCK_BYTES {
        HoldsBlock(ToState(digest[..]), old(buffer), blocks, absorbed, got);
        var block := new Word[BLOCK_INTS];
        BufferToBlock(buffer, block);
        Transform(digest, block);
        transforms := (transforms + 1) % TWO_64;
        blocks := blocks + 1;
        buffer := [];
      } else {
        HoldsPart(ToState(digest[..]), old(buffer), blocks, absorbed, got);
      }
      absorbed := absorbed + got;
    }

    /** The bytes are absorbed behind those before; SameBytes says that how they are cut up does not show. */
    method Update(s: seq<bv8>)
      requires Valid()
      modifies this, digest
      ensures Valid() && absorbed == old(absorbed) + s
    {
      assert |buffer| < BLOCK_BYTES;
      hide *;
      NextBytes(absorbed, s, 0, 0);
      var at := 0;
      while true
        invariant Valid() && 0 <= at <= |s| && |buffer| < BLOCK_BYTES
        invariant absorbed == old(absorbed) + s[..at]
        decreases |s| - at
      {
        var n := if |s| - at < BLOCK_BYTES - |buffer| then |s| - at else BLOCK_BYTES - |buffer|;
        NextBytes(old(absorbed), s, at, n);
        var full := |buffer| + n == BLOCK_BYTES;
        Absorb(s[at..at + n]);
        at := at + n;
        if !full {
          return;
        }
      }
    }

    /** Appends the byte 0x80 and zeros up to the end of the block. */
    method PadBuffer() returns (origSize: nat)
      requires |buffer| < BLOCK_BYTES
      modifies `buffer
      ensures origSize == |old(buffer)| + 1
      ensures buffer == old(buffer) + [0x80] + Zeros(BLOCK_BYTES - origSize)
    {
      buffer := buffer + [0x80];
      origSize := |buffer|;
      while |buffer| < BLOCK_BYTES
        invariant origSize <= |buffer| <= BLOCK_BYTES
        invariant buffer == old(buffer) + [0x80] + Zeros(|buffer| - origSize)
      {
        buffer := buffer + [0];
      }
    }

    /** Pads and compresses the one or two blocks that are left. */
    method Final()
      requires Valid() && 8 * |absorbed| < TWO_64
      modifies this, digest
      ensures ToState(digest[..]) == FinalState(old(absorbed))
    {
      hide Compress, Block, Chain, ToState, LengthBytes, FinalState, ZeroBytes;
      ghost var m, tail, h := absorbed, buffer, ToState(digest[..]);
      var totalBits := (transforms * BLOCK_BYTES + |buffer|) * 8 % TWO_64;
      TotalBits(blocks, |tail|);
      var origSize := PadBuffer();
      var block := new Word[BLOCK_INTS];
      BufferToBlock(buffer, block);
      ghost var head;
      if origSize > BLOCK_BYTES - 8 {
        PadTwoBlocks(h, tail, blocks, m);
        Transform(digest, block);
        transforms := (transforms + 1) % TWO_64;
        ClearHead(block);
        head := Zeros(56);
      } else {
        PadOneBlock(h, tail, blocks, m);
        head := tail + [0x80] + Zeros(55 - |tail|);
        assert buffer == head + Zeros(8);
      }
      CompressLength(digest, block, totalBits, head);
      transforms := (transforms + 1) % TWO_64;
    }
  }

  /** update(a), update(b) leaves the same digest, buffer and count as update(a + b): two hashers that have absorbed
      the same bytes cannot be told apart. */
  lemma SameBytes(c: Context, d: Context)
    requires c.Valid() && d.Valid() && c.absorbed == d.absorbed
    ensures c.digest[..] == d.digest[..] && c.buffer == d.buffer && c.transforms == d.transforms
  {
    hide Holds;
    HoldsUnique(ToState(c.digest[..]), c.buffer, c.blocks, ToState(d.digest[..]), d.buffer, d.blocks, c.absorbed);
    var s, t := c.digest[..], d.digest[..];
    assert s == [s[0], s[1], s[2], s[3], s[4]] && t == [t[0], t[1], t[2], t[3], t[4]];
  }

  /** Writes the length into the last two words and compresses. */
  method CompressLength(digest: array<Word>, block: array<Word>, totalBits: nat, ghost head: seq<bv8>)
    requires digest.Length == 5 && block.Length == BLOCK_INTS && digest != block
    requires |head| == 56 && totalBits < TWO_64
    requires forall j :: 0 <= j < 14 ==> block[j] == Block(head + Zeros(8))[j]
    modifies digest, block
    ensures ToState(digest[..]) == Compress(old(ToState(digest[..])), Block(head + LengthBytes(totalBits)))
  {
    hide Compress, Block, ToState, LengthBytes, LowWord, HighWord;
    LengthWords(head, Zeros(8), totalBits);
    block[BLOCK_INTS - 1] := LowWord(totalBits);
    block[BLOCK_INTS - 2] := HighWord(totalBits);
    assert block[..] == Block(head + LengthBytes(totalBits));
    Transform(digest, block);
  }

  /** The words that are not the length become zero. */
  method ClearHead(block: array<Word>)
    requires block.Length == BLOCK_INTS
    modifies block
    ensures forall j :: 0 <= j < 14 ==> block[j] == Block(Zeros(56) + Zeros(8))[j]
  {
    for i := 0 to BLOCK_INTS - 2
      invariant forall j :: 0 <= j < i ==> block[j] == 0
    {
      block[i] := 0;
    }
    ZeroBlock();
  }

  /** A word as the four bytes a little-endian host keeps in memory, and the byte reversal ntohl does there. */
  function HostBytes(w: Word): (r: seq<bv8>)
    ensures |r| == 4
  {
    [(w & 0xff) as bv8, ((w >> 8) & 0xff) as bv8, ((w >> 16) & 0xff) as bv8, ((w >> 24) & 0xff) as bv8]
  }

  function Ntohl(w: Word): Word {
    ((w & 0xff) << 24) | ((w & 0xff00) << 8) | ((w >> 8) & 0xff00) | ((w >> 24) & 0xff)
  }

  lemma SwappedHostBytes(w: Word)
    ensures HostBytes(Ntohl(w)) == WordBytes(w)
  {
  }

  /** The digest array as raw memory. */
  function Memory(digest: seq<Word>): seq<bv8>
    requires |digest| == 5
  {
    HostBytes(digest[0]) + HostBytes(digest[1]) + HostBytes(digest[2]) + HostBytes(digest[3]) + HostBytes(digest[4])
  }

  lemma MemoryOfSwapped(d: seq<Word>, swapped: seq<Word>)
    requires |d| == |swapped| == 5 && forall j :: 0 <= j < 5 ==> swapped[j] == Ntohl(d[j])
    ensures Memory(swapped) == StateBytes(ToState(d))
  {
    hide HostBytes, Ntohl, WordBytes;
    forall j | 0 <= j < 5
      ensures HostBytes(swapped[j]) == WordBytes(d[j])
    {
      SwappedHostBytes(d[j]);
    }
  }

  /** For every input short enough for the standard, the code's digest is the standard's. */
  method Sha1Digest(input: seq<bv8>) returns (out: seq<bv8>)
    requires 8 * |input| < TWO_64
    ensures out == Hash(input)
  {
    hide Compress, Block, Chain, LengthBytes, Pad, HostBytes, Ntohl, WordBytes, ToWord, Holds;
    var ctx := new Context();
    ctx.Update(input);
    assert ctx.absorbed == input;
    ctx.Final();
    ghost var d := ctx.digest[..];
    for i := 0 to 5
      invariant |ctx.digest[..]| == |d| == 5
      invariant forall j :: 0 <= j < i ==> ctx.digest[j] == Ntohl(d[j])
      invariant forall j :: i <= j < 5 ==> ctx.digest[j] == d[j]
    {
      ctx.digest[i] := Ntohl(ctx.digest[i]);
    }
    out := Memory(ctx.digest[..]);
    MemoryOfSwapped(d, ctx.digest[..]);
  }
}
