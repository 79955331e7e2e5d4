/** WebFrame::send and WebFrame::receive (src/WebFrame.cpp): frames as sections 5.2 and 5.3 of RFC 6455 lay them
    out, over a socket that delivers bytes in whatever pieces it likes. */
module WebFrame {
  import opened NetworkEncoding
  import opened Options
  import opened Sockets
  import opened Widths

  /** A masking key is four bytes. */
  type Key = k: seq<Byte> | |k| == 4 witness [0, 0, 0, 0]

  /** What a frame says. */
  datatype Frame = Frame(final: bool, opcode: nat, payload: seq<Byte>)

  // --- masking ---

  /** Exclusive or of the lowest bit. */
  function XorBit(a: nat, b: nat): (r: nat)
    ensures r < 2
  {
    if a % 2 == b % 2 then 0 else 1
  }

  /** Exclusive or of the lowest n bits. */
  function XorBits(a: nat, b: nat, n: nat): (r: nat)
    ensures r < Pow2(n)
  {
    if n == 0 then 0 else XorBit(a, b) + 2 * XorBits(a / 2, b / 2, n - 1)
  }

  /** Bit j of a, the lowest being bit 0. */
  function Bit(a: nat, j: nat): nat {
    if j == 0 then a % 2 else Bit(a / 2, j - 1)
  }

  lemma XorLowest(a: nat, b: nat, n: nat)
    requires n > 0
    ensures var x := XorBits(a, b, n); x % 2 == (a % 2 + b % 2) % 2 && x / 2 == XorBits(a / 2, b / 2, n - 1)
  {
    var high := XorBits(a / 2, b / 2, n - 1);
    assert XorBits(a, b, n) == XorBit(a, b) + 2 * high;
    hide XorBits;
  }

  /** A bit of the exclusive or is the sum of the two bits, modulo two. */
  lemma {:induction false} XorBitsAre(a: nat, b: nat, n: nat, j: nat)
    requires j < n
    ensures Bit(XorBits(a, b, n), j) == (Bit(a, j) + Bit(b, j)) % 2
  {
    XorLowest(a, b, n);
    hide XorBits, XorBit;
    if j > 0 {
      XorBitsAre(a / 2, b / 2, n - 1, j - 1);
    }
  }

  lemma XorBitTwice(a: nat, b: nat, high: nat)
    ensures var x := XorBit(a, b) + 2 * high;
            x / 2 == high && XorBit(x, b) == a % 2
  {
    var x := XorBit(a, b) + 2 * high;
    assert x % 2 == XorBit(a, b);
  }

  lemma {:induction false} XorBitsTwice(a: nat, b: nat, n: nat)
    requires a < Pow2(n)
    ensures XorBits(XorBits(a, b, n), b, n) == a
  {
    if n > 0 {
      var high := XorBits(a / 2, b / 2, n - 1);
      XorBitTwice(a, b, high);
      XorBitsTwice(a / 2, b / 2, n - 1);
      hide XorBit;
      assert XorBits(a, b, n) == XorBit(a, b) + 2 * high;
      assert XorBits(XorBits(a, b, n), b, n) == a % 2 + 2 * (a / 2);
    }
  }

  function Xor(a: Byte, b: Byte): Byte {
    assert Pow2(8) == 256 by { assert Pow2(4) == 16; }
    XorBits(a, b, 8)
  }

  lemma XorTwice(a: Byte, b: Byte)
    ensures Xor(Xor(a, b), b) == a
  {
    assert Pow2(8) == 256 by { assert Pow2(4) == 16; }
    XorBitsTwice(a, b, 8);
  }

  /** Section 5.3: byte i of the payload with byte i mod 4 of the key. */
  function Mask(payload: seq<Byte>, key: Key): (r: seq<Byte>)
    ensures |r| == |payload|
  {
    seq(|payload|, i requires 0 <= i < |payload| => Xor(payload[i], key[i % 4]))
  }

  /** Section 5.3 bit by bit: byte i of what is sent is the exclusive or of byte i of the payload and byte
      i mod 4 of the key. */
  lemma MaskBits(payload: seq<Byte>, key: Key, i: nat, j: nat)
    requires i < |payload| && j < 8
    ensures Bit(Mask(payload, key)[i], j) == (Bit(payload[i], j) + Bit(key[i % 4], j)) % 2
  {
    XorBitsAre(payload[i], key[i % 4], 8, j);
  }

  lemma MaskTwice(payload: seq<Byte>, key: Key)
    ensures Mask(Mask(payload, key), key) == payload
  {
    hide Xor;
    forall i | 0 <= i < |payload|
      ensures Mask(Mask(payload, key), key)[i] == payload[i]
    {
      XorTwice(payload[i], key[i % 4]);
    }
  }

  // --- the layout ---

  /** The seven length bits. */
  function ShortLength(n: nat): (r: nat)
    ensures r < 128
  {
    if n <= 125 then n else if n < 65535 then 126 else 127
  }

  /** The length bytes that follow the first two. */
  function LongLength(n: nat): seq<Byte> {
    if n <= 125 then [] else if n < 65535 then NetworkBytes(n, 2) else NetworkBytes(n, 8)
  }

  /** The first 16 bits; the fields do not overlap, so or-ing them together is adding them up. */
  function FirstBits(final: bool, opcode: nat, masked: bool, short: nat): nat {
    (if final then 32768 else 0) + opcode * 256 + (if masked then 128 else 0) + short
  }

  /** The bytes of a frame; a key is there exactly if the sender is a client. */
  function Encode(f: Frame, key: Option<Key>): seq<Byte> {
    NetworkBytes(FirstBits(f.final, f.opcode, key.Some?, ShortLength(|f.payload|)), 2)
    + LongLength(|f.payload|)
    + (if key.Some? then key.value + Mask(f.payload, key.value) else f.payload)
  }

  /** The layout of section 5.2: FIN and opcode in the first byte, MASK and the short length in the second. */
  lemma FirstBytes(final: bool, opcode: nat, masked: bool, short: nat)
    requires opcode < 16 && short < 128
    ensures NetworkBytes(FirstBits(final, opcode, masked, short), 2)
         == [(if final then 128 else 0) + opcode, (if masked then 128 else 0) + short]
  {
    var x := FirstBits(final, opcode, masked, short);
    NetworkIsBigEndian(x, 2);
    assert BigEndian(x, 2) == BigEndian(x / 256, 1) + [x % 256];
    assert BigEndian(x / 256, 1) == BigEndian(x / 256 / 256, 0) + [x / 256 % 256];
  }

  /** The whole frame of section 5.2: the first two bytes, the length in no, two or eight more bytes with the highest
      first, and then the payload, or the key and the masked payload. */
  lemma FrameLayout(f: Frame, key: Option<Key>)
    requires f.opcode < 16
    ensures var n := |f.payload|;
            var long := if n <= 125 then 0 else if n < 65535 then 2 else 8;
            Encode(f, key)
            == [(if f.final then 128 else 0) + f.opcode,
                (if key.Some? then 128 else 0) + (if long == 0 then n else if long == 2 then 126 else 127)]
               + BigEndian(n, long)
               + (if key.Some? then key.value + Mask(f.payload, key.value) else f.payload)
  {
    hide *;
    var n := |f.payload|;
    LengthForm(n);
    EncodeForm(f, key);
    FirstBytes(f.final, f.opcode, key.Some?, ShortLength(n));
  }

  lemma LengthForm(n: nat)
    ensures var long := if n <= 125 then 0 else if n < 65535 then 2 else 8;
            && LongLength(n) == BigEndian(n, long)
            && ShortLength(n) == (if long == 0 then n else if long == 2 then 126 else 127)
  {
    NetworkIsBigEndian(n, 2);
    NetworkIsBigEndian(n, 8);
    assert BigEndian(n, 0) == [];
    hide NetworkBytes, BigEndian;
  }

  lemma EncodeForm(f: Frame, key: Option<Key>)
    ensures Encode(f, key)
         == NetworkBytes(FirstBits(f.final, f.opcode, key.Some?, ShortLength(|f.payload|)), 2)
            + LongLength(|f.payload|)
            + (if key.Some? then key.value + Mask(f.payload, key.value) else f.payload)
  {
  }

  /** The RFC asks for the shortest form that holds the length; the code meets that exactly for every length other
      than 65535, which it sends in the 64-bit form. */
  lemma ShortestForm(n: nat)
    requires n < TWO_64
    ensures |LongLength(n)| == (if n <= 125 then 0 else if n <= 65535 then 2 else 8) <==> n != 65535
  {
  }

  /** What stands at the front of a stream of bytes, seen from the receiver's end. */
  datatype Reading =
    | Got(frame: Frame, used: nat)
    | WrongRole
    | TooBig
    | Incomplete

  datatype Header = Header(final: bool, opcode: nat, masked: bool, length: nat, size: nat)

  /** The fields of the first two bytes. */
  function FirstFields(first: nat): Header {
    Header(first / 32768 % 2 == 1, first / 256 % 16, first / 128 % 2 == 1, first % 128, 2)
  }

  /** How many length bytes follow. */
  function ExtraLength(short: nat): nat {
    if short == 126 then 2 else if short == 127 then 8 else 0
  }

  function ReadHeader(s: seq<Byte>): Option<Header> {
    if |s| < 2 then None
    else
      var h := FirstFields(FromNetwork(s[..2]));
      var extra := ExtraLength(h.length);
      if |s| < 2 + extra then None
      else if extra == 0 then Some(h)
      else Some(h.(length := FromNetwork(s[2..2 + extra]), size := 2 + extra))
  }

  /** Key and payload behind the header. */
  function ReadPayload(s: seq<Byte>, h: Header): Reading {
    var at := h.size + (if h.masked then 4 else 0);
    if |s| < at + h.length then Incomplete
    else
      var raw := s[at..at + h.length];
      Got(Frame(h.final, h.opcode, if h.masked then Mask(raw, s[h.size..at]) else raw), at + h.length)
  }

  function Decode(s: seq<Byte>, isClient: bool, maxSize: nat): Reading {
    if |s| < 2 then Incomplete
    else if FirstFields(FromNetwork(s[..2])).masked == isClient then WrongRole
    else
      match ReadHeader(s)
      case None => Incomplete
      case Some(h) => if maxSize != 0 && h.length > maxSize then TooBig else ReadPayload(s, h)
  }

  lemma ReadHeaderOfEncoded(f: Frame, masked: bool, rest: seq<Byte>)
    requires f.opcode < 16 && |f.payload| < TWO_64
    ensures var n := |f.payload|;
            var front := NetworkBytes(FirstBits(f.final, f.opcode, masked, ShortLength(n)), 2) + LongLength(n);
            && FirstFields(FromNetwork((front + rest)[..2])) == Header(f.final, f.opcode, masked, ShortLength(n), 2)
            && ReadHeader(front + rest) == Some(Header(f.final, f.opcode, masked, n, |front|))
  {
    var n := |f.payload|;
    var x := FirstBits(f.final, f.opcode, masked, ShortLength(n));
    var first, long := NetworkBytes(x, 2), LongLength(n);
    var s := first + long + rest;
    assert s[..2] == first && s[2..2 + |long|] == long;
    PowersUsed();
    hide Pow256, NetworkBytes, FromNetwork;
    NetworkInverse(x, 2);
    FieldsOfFirstBits(f.final, f.opcode, masked, ShortLength(n));
    if n > 125 {
      NetworkInverse(n, if n < 65535 then 2 else 8);
    }
  }

  lemma PowersUsed()
    ensures Pow256(2) == 65536 && Pow256(4) == 0x1_0000_0000 && Pow256(8) == TWO_64
  {
    assert Pow256(5) == 256 * Pow256(4) && Pow256(6) == 256 * Pow256(5) && Pow256(7) == 256 * Pow256(6);
  }

  lemma FieldsOfFirstBits(final: bool, opcode: nat, masked: bool, short: nat)
    requires opcode < 16 && short < 128
    ensures FirstBits(final, opcode, masked, short) < 65536
    ensures FirstFields(FirstBits(final, opcode, masked, short)) == Header(final, opcode, masked, short, 2)
  {
  }

  /** Round trip: whatever follows it, an encoded frame is read back by the opposite end, in all three length forms,
      and exactly its bytes are used. */
  lemma DecodeEncoded(f: Frame, key: Option<Key>, rest: seq<Byte>, maxSize: nat)
    requires f.opcode < 16 && |f.payload| < TWO_64
    requires maxSize == 0 || |f.payload| <= maxSize
    ensures Decode(Encode(f, key) + rest, key.None?, maxSize) == Got(f, |Encode(f, key)|)
  {
    var n, masked := |f.payload|, key.Some?;
    var front := NetworkBytes(FirstBits(f.final, f.opcode, masked, ShortLength(n)), 2) + LongLength(n);
    var body := if masked then key.value + Mask(f.payload, key.value) else f.payload;
    assert Encode(f, key) + rest == front + (body + rest);
    ReadHeaderOfEncoded(f, masked, body + rest);
    PayloadOfEncoded(f, key, front, rest);
    hide ReadHeader, FirstFields, FromNetwork, NetworkBytes, LongLength, FirstBits, Mask, ReadPayload;
    assert |front + (body + rest)| >= 2;
  }

  lemma PayloadOfEncoded(f: Frame, key: Option<Key>, front: seq<Byte>, rest: seq<Byte>)
    ensures var body := if key.Some? then key.value + Mask(f.payload, key.value) else f.payload;
            ReadPayload(front + (body + rest), Header(f.final, f.opcode, key.Some?, |f.payload|, |front|))
            == Got(f, |front + body|)
  {
    hide Mask;
    if key.Some? {
      var s, at := front + ((key.value + Mask(f.payload, key.value)) + rest), |front| + 4;
      assert s[|front|..at] == key.value;
      assert s[at..at + |f.payload|] == Mask(f.payload, key.value);
      MaskTwice(f.payload, key.value);
    } else {
      assert (front + (f.payload + rest))[|front|..|front| + |f.payload|] == f.payload;
    }
  }

  /** A payload above the limit, and a frame of the own role, are refused. */
  lemma RefusedFrame(f: Frame, key: Option<Key>, rest: seq<Byte>, maxSize: nat)
    requires f.opcode < 16 && |f.payload| < TWO_64
    ensures maxSize != 0 && |f.payload| > maxSize ==> Decode(Encode(f, key) + rest, key.None?, maxSize) == TooBig
    ensures Decode(Encode(f, key) + rest, key.Some?, maxSize) == WrongRole
  {
    var front, body := FrontOf(f, key), BodyOf(f, key);
    FrontAndBody(f, key, rest);
    ReadHeaderOfEncoded(f, key.Some?, body + rest);
    hide ReadHeader, FirstFields, FromNetwork, Encode, FrontOf, BodyOf, ReadPayload;
    assert |front + (body + rest)| >= 2;
  }

  /** Part of a frame is waited for. */
  lemma PartialFrame(f: Frame, key: Option<Key>, p: seq<Byte>, q: seq<Byte>, maxSize: nat)
    requires f.opcode < 16 && |f.payload| < TWO_64 && (maxSize == 0 || |f.payload| <= maxSize)
    requires p + q == Encode(f, key) && q != []
    ensures Decode(p, key.None?, maxSize) == Incomplete
  {
    hide *;
    var front, body := FrontOf(f, key), BodyOf(f, key);
    FrontAndBody(f, key, []);
    PrefixPieces(p, q, front, body);
    FrontRead(f, key, body);
    if |front| <= |p| {
      FrontRead(f, key, p[|front|..]);
      PayloadCut(p, key, Header(f.final, f.opcode, key.Some?, |f.payload|, |front|), maxSize);
    } else if |p| >= 2 {
      HeaderCut(p, f, key, front + body, maxSize);
    }
    TooShort(p, key.None?, maxSize);
  }

  lemma PrefixPieces(p: seq<Byte>, q: seq<Byte>, front: seq<Byte>, body: seq<Byte>)
    requires p + q == front + body && q != []
    ensures |p| < |front| + |body|
    ensures |front| <= |p| ==> p == front + p[|front|..]
    ensures |p| >= 2 && |front| >= 2 ==> p[..2] == (front + body)[..2]
  {
    assert p == (p + q)[..|p|];
    assert |p| < |p + q|;
  }

  lemma TooShort(s: seq<Byte>, isClient: bool, maxSize: nat)
    ensures |s| < 2 ==> Decode(s, isClient, maxSize) == Incomplete
  {
  }

  lemma FrontRead(f: Frame, key: Option<Key>, rest: seq<Byte>)
    requires f.opcode < 16 && |f.payload| < TWO_64
    ensures var front := FrontOf(f, key);
            && |front| == 2 + ExtraLength(ShortLength(|f.payload|))
            && FirstFields(FromNetwork((front + rest)[..2]))
               == Header(f.final, f.opcode, key.Some?, ShortLength(|f.payload|), 2)
            && ReadHeader(front + rest) == Some(Header(f.final, f.opcode, key.Some?, |f.payload|, |front|))
  {
    ReadHeaderOfEncoded(f, key.Some?, rest);
    hide NetworkBytes, FromNetwork, FirstBits, FirstFields, ReadHeader;
  }

  lemma PayloadCut(p: seq<Byte>, key: Option<Key>, h: Header, maxSize: nat)
    requires |p| >= 2 && ReadHeader(p) == Some(h) && FirstFields(FromNetwork(p[..2])).masked == h.masked == key.Some?
    requires (maxSize == 0 || h.length <= maxSize) && |p| < h.size + (if key.Some? then 4 else 0) + h.length
    ensures Decode(p, key.None?, maxSize) == Incomplete
  {
    hide FromNetwork, FirstFields, ReadHeader, Mask;
  }

  lemma HeaderCut(p: seq<Byte>, f: Frame, key: Option<Key>, whole: seq<Byte>, maxSize: nat)
    requires 2 <= |p| < 2 + ExtraLength(ShortLength(|f.payload|)) && |whole| >= 2 && p[..2] == whole[..2]
    requires FirstFields(FromNetwork(whole[..2])) == Header(f.final, f.opcode, key.Some?, ShortLength(|f.payload|), 2)
    ensures Decode(p, key.None?, maxSize) == Incomplete
  {
    hide FromNetwork, FirstFields, ShortLength, ReadPayload;
  }

  function FrontOf(f: Frame, key: Option<Key>): (r: seq<Byte>)
    ensures |r| >= 2
  {
    NetworkBytes(FirstBits(f.final, f.opcode, key.Some?, ShortLength(|f.payload|)), 2) + LongLength(|f.payload|)
  }

  function BodyOf(f: Frame, key: Option<Key>): (r: seq<Byte>)
    ensures |r| == (if key.Some? then 4 else 0) + |f.payload|
  {
    if key.Some? then key.value + Mask(f.payload, key.value) else f.payload
  }

  lemma FrontAndBody(f: Frame, key: Option<Key>, rest: seq<Byte>)
    ensures Encode(f, key) == FrontOf(f, key) + BodyOf(f, key)
    ensures Encode(f, key) + rest == FrontOf(f, key) + (BodyOf(f, key) + rest)
    ensures BodyOf(f, key) + [] == BodyOf(f, key)
  {
    hide NetworkBytes, FirstBits, LongLength, Mask;
  }

  // --- streams of frames ---

  datatype Sent = Sent(frame: Frame, key: Option<Key>)

  predicate SentOk(m: Sent, isClient: bool, maxSize: nat) {
    && m.frame.opcode < 16 && |m.frame.payload| < TWO_64
    && (maxSize == 0 || |m.frame.payload| <= maxSize)
    && m.key.None? == isClient
  }

  function EncodeAll(ms: seq<Sent>): seq<Byte> {
    if ms == [] then [] else Encode(ms[0].frame, ms[0].key) + EncodeAll(ms[1..])
  }

  /** Reading frames one after the other until something else than a frame stands at the front. */
  function DecodeAll(s: seq<Byte>, isClient: bool, maxSize: nat): (seq<Frame>, seq<Byte>)
    decreases |s|
  {
    var r := Decode(s, isClient, maxSize);
    if r.Got? && 0 < r.used <= |s| then
      var (fs, left) := DecodeAll(s[r.used..], isClient, maxSize);
      ([r.frame] + fs, left)
    else ([], s)
  }

  function FramesOf(ms: seq<Sent>): seq<Frame> {
    if ms == [] then [] else [ms[0].frame] + FramesOf(ms[1..])
  }

  /** Any number of frames come back in order, and the incomplete bytes behind them are left. */
  lemma {:induction false} DecodeAllEncoded(ms: seq<Sent>, rest: seq<Byte>, isClient: bool, maxSize: nat)
    requires forall m :: m in ms ==> SentOk(m, isClient, maxSize)
    requires !Decode(rest, isClient, maxSize).Got?
    ensures DecodeAll(EncodeAll(ms) + rest, isClient, maxSize)
         == (FramesOf(ms), rest)
  {
    hide Decode, Encode;
    if ms == [] {
      assert EncodeAll(ms) + rest == rest;
    } else {
      var one, more := Encode(ms[0].frame, ms[0].key), EncodeAll(ms[1..]) + rest;
      assert EncodeAll(ms) + rest == one + more;
      assert ms[0] in ms;
      DecodeEncoded(ms[0].frame, ms[0].key, more, maxSize);
      EncodedNotEmpty(ms[0]);
      assert (one + more)[|one|..] == more;
      DecodeAllEncoded(ms[1..], rest, isClient, maxSize);
    }
  }

  lemma EncodedNotEmpty(m: Sent)
    ensures |Encode(m.frame, m.key)| > 0
  {
    hide LongLength, Mask, FirstBits;
  }

  // --- the object ---

  /** The pieces in which receive reads a frame. */
  ghost predicate Pieces(s: seq<Byte>, first: seq<Byte>, extra: seq<Byte>, key: seq<Byte>, raw: seq<Byte>,
                         rest: seq<Byte>)
  {
    && s == first + extra + key + raw + rest
    && |first| == 2 && |extra| == ExtraLength(FirstFields(FromNetwork(first)).length)
    && |key| == (if FirstFields(FromNetwork(first)).masked then 4 else 0)
  }

  function LengthOf(first: seq<Byte>, extra: seq<Byte>): nat {
    if extra == [] then FirstFields(FromNetwork(first)).length else FromNetwork(extra)
  }

  lemma HeaderOfPieces(s: seq<Byte>, first: seq<Byte>, extra: seq<Byte>, rest: seq<Byte>)
    requires s == first + extra + rest
    requires |first| == 2 && |extra| == ExtraLength(FirstFields(FromNetwork(first)).length)
    ensures s[..2] == first
    ensures ReadHeader(s)
         == Some(FirstFields(FromNetwork(first)).(length := LengthOf(first, extra), size := 2 + |extra|))
  {
    hide FromNetwork;
    assert s[..2] == first && s[2..2 + |extra|] == extra;
  }

  lemma FrameOfPieces(s: seq<Byte>, first: seq<Byte>, extra: seq<Byte>, key: seq<Byte>, raw: seq<Byte>,
                      rest: seq<Byte>, maxSize: nat)
    requires Pieces(s, first, extra, key, raw, rest) && |raw| == LengthOf(first, extra)
    requires maxSize == 0 || |raw| <= maxSize
    ensures var h := FirstFields(FromNetwork(first));
            var f := Frame(h.final, h.opcode, if h.masked then Mask(raw, key) else raw);
            Decode(s, !h.masked, maxSize) == Got(f, |s| - |rest|)
    ensures s[|s| - |rest|..] == rest
  {
    var h := FirstFields(FromNetwork(first));
    assert s == first + extra + key + raw + rest && |first| == 2 && |key| == if h.masked then 4 else 0;
    PieceSlices(first, extra, key, raw, rest);
    HeaderOfPieces(s, first, extra, key + raw + rest);
    hide *;
    DecodeAt(s, h.(length := |raw|, size := 2 + |extra|), key, raw, maxSize);
  }

  lemma PieceSlices(first: seq<Byte>, extra: seq<Byte>, key: seq<Byte>, raw: seq<Byte>, rest: seq<Byte>)
    ensures var s, size := first + extra + key + raw + rest, |first| + |extra|;
            var at := size + |key|;
            && s == first + extra + (key + raw + rest) && s[size..at] == key && s[at..at + |raw|] == raw
            && s[|s| - |rest|..] == rest
  {
    var s, size := first + extra + key + raw + rest, |first| + |extra|;
    assert s == (first + extra) + (key + raw + rest);
    assert s == (first + extra + key) + (raw + rest);
    assert s == (first + extra + key + raw) + rest;
  }

  lemma JoinPieces(first: seq<Byte>, extra: seq<Byte>, key: seq<Byte>, raw: seq<Byte>, rest: seq<Byte>)
    ensures first + (extra + (key + (raw + rest))) == first + extra + key + raw + rest
  {
    assert first + extra + (key + (raw + rest)) == first + extra + key + (raw + rest);
  }

  lemma DecodeAt(s: seq<Byte>, h: Header, key: seq<Byte>, raw: seq<Byte>, maxSize: nat)
    requires |s| >= 2 && ReadHeader(s) == Some(h) && FirstFields(FromNetwork(s[..2])).masked == h.masked
    requires |key| == (if h.masked then 4 else 0) && |raw| == h.length && (maxSize == 0 || h.length <= maxSize)
    requires h.size + |key| + |raw| <= |s|
    requires s[h.size..h.size + |key|] == key && s[h.size + |key|..h.size + |key| + |raw|] == raw
    ensures var f := Frame(h.final, h.opcode, if h.masked then Mask(raw, key) else raw);
            Decode(s, !h.masked, maxSize) == Got(f, h.size + |key| + |raw|)
  {
    hide FromNetwork, Mask, FirstFields, ReadHeader;
  }

  /** The static mask key. */
  class MaskKey {
    var current: nat

    constructor (seed: nat)
      ensures current == seed
    {
      current := seed;
    }
  }

  class WebFrame {
    const isClient: bool
    var payload: seq<Byte>
    var opcode: nat
    var final: bool

    constructor (isClient: bool, final: bool, opcode: nat, payload: seq<Byte>)
      ensures this.isClient == isClient && View() == Frame(final, opcode, payload)
    {
      this.isClient, this.final, this.opcode, this.payload := isClient, final, opcode, payload;
    }

    function View(): Frame
      reads this
    {
      Frame(final, opcode, payload)
    }

    /** The loop that masks, or unmasks, the payload where it stands. */
    method MaskPayload(key: Key)
      modifies this`payload
      ensures payload == Mask(old(payload), key)
    {
      hide Xor;
      for a := 0 to |payload|
        invariant |payload| == |old(payload)|
        invariant forall i :: 0 <= i < a ==> payload[i] == Mask(old(payload), key)[i]
        invariant forall i :: a <= i < |payload| ==> payload[i] == old(payload)[i]
      {
        payload := payload[a := Xor(payload[a], key[a % 4])];
      }
    }

    /** send: the peer gets the encoded frame, or a strict prefix of it if the connection fails. A client masks its
        payload in place on the way, with a key that is counted up for every frame. */
    method Send(socket: TcpSocket<Byte>, maskKey: MaskKey) returns (r: Status, ghost key: Option<Key>, ghost sent: nat)
      requires opcode < 16
      modifies this`payload, maskKey, socket`accepted, socket`sends
      ensures key == if isClient then Some(HostBytes(maskKey.current, 4)) else None
      ensures maskKey.current == if isClient then (old(maskKey.current) + 1) % 0x1_0000_0000 else old(maskKey.current)
      ensures payload == if isClient then Mask(old(payload), key.value) else old(payload)
      ensures sent <= |Encode(old(View()), key)|
      ensures socket.accepted == old(socket.accepted) + Encode(old(View()), key)[..sent]
      ensures r == Success <==> sent == |Encode(old(View()), key)|
      ensures r == Success || r == Timeout || r == SendError
      ensures r != Success ==> Stopped(r, socket.isBlocking, Halt(!socket.isBlocking, old(socket.sends)))
      ensures old(socket.CanSend(|Encode(View(), key)|)) ==> r == Success
    {
      hide HostBytes, NetworkBytes, Mask;
      ghost var n := |payload|;
      var first2Bytes := FirstBits(final, opcode, isClient, ShortLength(|payload|));
      var buffer := NetworkBytes(first2Bytes, 2);
      if |payload| > 125 {
        if |payload| < 65535 {
          buffer := buffer + NetworkBytes(|payload|, 2);
        } else {
          buffer := buffer + NetworkBytes(|payload|, 8);
        }
      }
      assert buffer == NetworkBytes(first2Bytes, 2) + LongLength(n);
      key := None;
      if isClient {
        maskKey.current := (maskKey.current + 1) % 0x1_0000_0000;
        var maskBytes: Key := HostBytes(maskKey.current, 4);
        key := Some(maskBytes);
        buffer := buffer + maskBytes;
        MaskPayload(maskBytes);
      }
      buffer := buffer + payload;
      assert buffer == Encode(old(View()), key);
      r, sent := socket.SendBuffer(buffer);
    }

    /** The first read of receive. */
    method ReadStart(socket: TcpSocket<Byte>, n: nat, ghost m: int) returns (r: Status, data: seq<Byte>)
      modifies socket`incoming, socket`recvs
      ensures r == Success || r == WouldBlock || r == Timeout || r == Disconnected || r == ReceiveError
      ensures r == Success ==> |data| == n && old(socket.incoming) == data + socket.incoming
      ensures r == WouldBlock || r == Timeout ==> socket.incoming == old(socket.incoming)
      ensures n > 0 ==> Refused(r, socket.isBlocking, Awake(false, old(socket.recvs)))
      ensures n <= m && old(socket.CanRead(m)) ==>
                (r == Success && socket.CanRead(m - n)) || (r == WouldBlock && socket.CanRead(m))
      ensures r == WouldBlock ==> |socket.recvs| < |old(socket.recvs)|
    {
      var buffer := new Byte[n];
      r := socket.ReceiveAll(buffer);
      data := buffer[..];
    }

    /** Every later read. */
    method ReadMore(socket: TcpSocket<Byte>, n: nat, ghost m: int) returns (r: Status, data: seq<Byte>)
      modifies socket`incoming, socket`recvs
      ensures r == Success || r == Disconnected || r == ReceiveError
      ensures |data| == n && (r == Success ==> old(socket.incoming) == data + socket.incoming)
      ensures n > 0 ==> RefusedLater(r, Awake(!socket.isBlocking, old(socket.recvs)))
      ensures n <= m && old(socket.CanRead(m)) ==> r == Success && socket.CanRead(m - n)
    {
      var buffer := new Byte[n];
      r := socket.ReceiveRest(buffer);
      data := buffer[..];
    }

    /** The length bytes, if there are any, after the first two. */
    method ReadLength(socket: TcpSocket<Byte>, first: seq<Byte>, ghost m: int)
      returns (r: Status, extra: seq<Byte>, payloadLength: nat)
      requires |first| == 2
      modifies socket`incoming, socket`recvs
      ensures r == Success || r == Disconnected || r == ReceiveError
      ensures |extra| == ExtraLength(FirstFields(FromNetwork(first)).length)
      ensures payloadLength == LengthOf(first, extra)
      ensures r == Success ==> old(socket.incoming) == extra + socket.incoming
      ensures extra != [] ==> RefusedLater(r, Awake(!socket.isBlocking, old(socket.recvs)))
      ensures |extra| <= m && old(socket.CanRead(m)) ==> r == Success && socket.CanRead(m - |extra|)
    {
      hide FirstFields, FromNetwork;
      r, extra := Success, [];
      payloadLength := FirstFields(FromNetwork(first)).length;
      if payloadLength == 126 || payloadLength == 127 {
        r, extra := ReadMore(socket, ExtraLength(payloadLength), m);
        payloadLength := FromNetwork(extra);
      }
    }

    /** The mask key, if there is one, and the payload, which is unmasked. */
    method ReadBody(socket: TcpSocket<Byte>, masked: bool, length: nat, ghost m: int)
      returns (r: Status, ghost keyRead: seq<Byte>, ghost raw: seq<Byte>)
      modifies this`payload, socket`incoming, socket`recvs
      ensures r == Success || r == Disconnected || r == ReceiveError
      ensures |keyRead| == if masked then 4 else 0
      ensures r == Success ==> |raw| == length && old(socket.incoming) == keyRead + (raw + socket.incoming)
      ensures r == Success ==> payload == if masked then Mask(raw, keyRead) else raw
      ensures masked || length > 0 ==> RefusedLater(r, Awake(!socket.isBlocking, old(socket.recvs)))
      ensures |keyRead| + length <= m && old(socket.CanRead(m)) ==>
                r == Success && socket.CanRead(m - |keyRead| - length)
    {
      hide Mask;
      var key: Key := [0, 0, 0, 0];
      keyRead, raw := if masked then key else [], [];
      if masked {
        r, key := ReadMore(socket, 4, m);
        keyRead := key;
        if r != Success {
          return r, keyRead, raw;
        }
      }
      r, payload := ReadMore(socket, length, m - |keyRead|);
      raw := payload;
      if r == Success && masked {
        MaskPayload(key);
      }
    }

    /** Everything after the first two bytes. */
    method ReadFrame(socket: TcpSocket<Byte>, first: seq<Byte>, ghost m: int) returns (r: Status)
      requires |first| == 2 && FirstFields(FromNetwork(first)).masked != isClient
      modifies this`payload, socket`incoming, socket`recvs
      ensures r == Success || r == Disconnected || r == ReceiveError || r == MaxPacketSizeExceeded
      ensures r == Success ==>
                var f := Frame(FirstFields(FromNetwork(first)).final, FirstFields(FromNetwork(first)).opcode, payload);
                Consumed(first + old(socket.incoming), isClient, socket.maxReceiveSize, f, socket.incoming)
      ensures r == MaxPacketSizeExceeded ==>
                Decode(first + old(socket.incoming), isClient, socket.maxReceiveSize) == TooBig
      ensures old(socket.CanRead(m)) && Needs(first + old(socket.incoming), isClient, socket.maxReceiveSize, m + 2) ==>
                && r == Success
                && socket.CanRead(m + 2 - Used(first + old(socket.incoming), isClient, socket.maxReceiveSize))
    {
      hide Mask, FirstFields, FromNetwork, Decode;
      ghost var s, isC, max := first + socket.incoming, isClient, socket.maxReceiveSize;
      var masked := FirstFields(FromNetwork(first)).masked;
      var extra, payloadLength;
      r, extra, payloadLength := ReadLength(socket, first, m);
      UsedBy(s, first, extra, isC, max, if r == Success then socket.incoming else []);
      if r != Success {
        return r;
      }
      if socket.maxReceiveSize != 0 && payloadLength > socket.maxReceiveSize {
        return MaxPacketSizeExceeded;
      }
      ghost var key, raw;
      r, key, raw := ReadBody(socket, masked, payloadLength, m - |extra|);
      if r == Success {
        JoinPieces(first, extra, key, raw, socket.incoming);
        FrameOfPieces(s, first, extra, key, raw, socket.incoming, max);
      }
    }

    /** receive. Success: exactly the frame at the front of the stream has been consumed and is in the fields.
        WouldBlock and Timeout: nothing has been consumed. A stream and a schedule good for m bytes are, after
        the frame, good for the rest of them. */
    method Receive(socket: TcpSocket<Byte>, ghost m: int) returns (r: Status)
      modifies this, socket`incoming, socket`recvs
      ensures r != SendError
      ensures r == Success ==>
                Consumed(old(socket.incoming), isClient, socket.maxReceiveSize, View(), socket.incoming)
      ensures r == Error ==> Decode(old(socket.incoming), isClient, socket.maxReceiveSize) == WrongRole
      ensures r == MaxPacketSizeExceeded ==>
                Decode(old(socket.incoming), isClient, socket.maxReceiveSize) == TooBig
      ensures r == WouldBlock || r == Timeout ==> socket.incoming == old(socket.incoming)
      ensures Refused(r, socket.isBlocking, Awake(false, old(socket.recvs)))
      ensures Needs(old(socket.incoming), isClient, socket.maxReceiveSize, m) && old(socket.CanRead(m)) ==>
                || (r == WouldBlock && socket.CanRead(m))
                || (r == Success && socket.CanRead(m - Used(old(socket.incoming), isClient, socket.maxReceiveSize)))
      ensures r == WouldBlock ==> |socket.recvs| < |old(socket.recvs)|
    {
      hide FirstFields, FromNetwork, Decode, Awake;
      payload := [];
      NeedsTwo(socket.incoming, isClient, socket.maxReceiveSize);
      var first;
      r, first := ReadStart(socket, 2, m);
      if r != Success {
        return r;
      }
      final := FirstFields(FromNetwork(first)).final;
      opcode := FirstFields(FromNetwork(first)).opcode;
      if FirstFields(FromNetwork(first)).masked == isClient {
        WrongRoleOf(old(socket.incoming), first, socket.incoming, isClient, socket.maxReceiveSize);
        return Error;
      }
      r := ReadFrame(socket, first, m - 2);
    }
  }

  /** The frame at the front of s has been taken off. */
  ghost predicate Consumed(s: seq<Byte>, isClient: bool, maxSize: nat, frame: Frame, rest: seq<Byte>) {
    var d := Decode(s, isClient, maxSize);
    d.Got? && d.frame == frame && d.used <= |s| && rest == s[d.used..]
  }

  /** How many bytes the frame at the front of s has. */
  ghost function Used(s: seq<Byte>, isClient: bool, maxSize: nat): nat {
    var d := Decode(s, isClient, maxSize);
    if d.Got? then d.used else 0
  }

  /** A whole frame stands at the front of s, within its first m bytes. */
  ghost predicate Needs(s: seq<Byte>, isClient: bool, maxSize: nat, m: int) {
    Decode(s, isClient, maxSize).Got? && Used(s, isClient, maxSize) <= m
  }

  lemma NeedsTwo(s: seq<Byte>, isClient: bool, maxSize: nat)
    ensures Decode(s, isClient, maxSize).Got? ==> Decode(s, isClient, maxSize).used >= 2
  {
    hide FromNetwork, Mask;
  }

  /** A complete frame uses its header, its key and its payload. */
  lemma UsedBy(s: seq<Byte>, first: seq<Byte>, extra: seq<Byte>, isClient: bool, maxSize: nat, rest: seq<Byte>)
    requires |first| == 2 && first <= s && FirstFields(FromNetwork(first)).masked != isClient
    requires |extra| == ExtraLength(FirstFields(FromNetwork(first)).length)
    ensures Decode(s, isClient, maxSize).Got? ==> Decode(s, isClient, maxSize).used >= 2 + |extra|
    ensures s == first + extra + rest && maxSize != 0 && LengthOf(first, extra) > maxSize ==>
              Decode(s, isClient, maxSize) == TooBig
    ensures s == first + extra + rest && Decode(s, isClient, maxSize).Got? ==>
              Decode(s, isClient, maxSize).used
              == 2 + |extra| + (if isClient then 0 else 4) + LengthOf(first, extra)
  {
    hide FromNetwork, Mask;
    assert s[..2] == first;
    if s == first + extra + rest {
      HeaderOfPieces(s, first, extra, rest);
    }
  }

  lemma WrongRoleOf(s: seq<Byte>, first: seq<Byte>, rest: seq<Byte>, isClient: bool, maxSize: nat)
    requires |first| == 2 && s == first + rest && FirstFields(FromNetwork(first)).masked == isClient
    ensures Decode(s, isClient, maxSize) == WrongRole
  {
    hide FirstFields, FromNetwork;
    assert s[..2] == first;
  }
  lemma FrontFrame(ms: seq<Sent>, s: seq<Byte>, rest: seq<Byte>, isClient: bool, maxSize: nat)
    requires ms != [] && SentOk(ms[0], isClient, maxSize) && s == EncodeAll(ms) + rest
    ensures Needs(s, isClient, maxSize, |EncodeAll(ms)|)
    ensures |EncodeAll(ms)| == Used(s, isClient, maxSize) + |EncodeAll(ms[1..])|
    ensures Decode(s, isClient, maxSize).Got?
    ensures Decode(s, isClient, maxSize) == Got(ms[0].frame, Used(s, isClient, maxSize))
    ensures s[Used(s, isClient, maxSize)..] == EncodeAll(ms[1..]) + rest
  {
    hide Decode, Encode;
    var one, more := Encode(ms[0].frame, ms[0].key), EncodeAll(ms[1..]) + rest;
    assert s == one + more;
    DecodeEncoded(ms[0].frame, ms[0].key, more, maxSize);
    assert (one + more)[|one|..] == more;
  }

  lemma NextFrame(frames: seq<Frame>, ms: seq<Sent>)
    requires ms != []
    ensures frames + FramesOf(ms) == frames + [ms[0].frame] + FramesOf(ms[1..])
  {
  }

  /** Receiving as many frames as have been sent, and trying again whenever it would block. Over every schedule the
      frames come out in order and none of them twice, and those not received stand where a timeout leaves off; a
      calm schedule brings all of them. */
  method ReceiveFrames(socket: TcpSocket<Byte>, isClient: bool, count: nat, ghost ms: seq<Sent>, ghost rest: seq<Byte>)
    returns (r: Status, frames: seq<Frame>, ghost left: seq<Sent>)
    requires |ms| == count && forall m :: m in ms ==> SentOk(m, isClient, socket.maxReceiveSize)
    requires socket.incoming == EncodeAll(ms) + rest
    modifies socket`incoming, socket`recvs
    ensures frames + FramesOf(left) == FramesOf(ms)
    ensures r == Success || r == Timeout ==> socket.incoming == EncodeAll(left) + rest
    ensures r == Success ==> frames == FramesOf(ms) && socket.incoming == rest
    ensures r == Success || r == Timeout || r == Disconnected || r == ReceiveError
    ensures old(socket.CanRead(|EncodeAll(ms)|)) ==> r == Success
  {
    hide Decode, Encode, SentOk, EncodeAll, FramesOf;
    frames, left, r := [], ms, Success;
    assert [] + FramesOf(ms) == FramesOf(ms);
    while |frames| < count
      invariant |frames| + |left| == count && frames + FramesOf(left) == FramesOf(ms)
      invariant socket.incoming == EncodeAll(left) + rest
      invariant forall m :: m in left ==> SentOk(m, isClient, socket.maxReceiveSize)
      invariant old(socket.CanRead(|EncodeAll(ms)|)) ==> socket.CanRead(|EncodeAll(left)|)
      decreases count - |frames|, |socket.recvs|
    {
      FrontFrame(left, socket.incoming, rest, isClient, socket.maxReceiveSize);
      NextFrame(frames, left);
      var frame := new WebFrame(isClient, true, 1, []);
      r := frame.Receive(socket, |EncodeAll(left)|);
      if r == Success {
        frames := frames + [frame.View()];
        left := left[1..];
      } else if r != WouldBlock {
        return;
      }
    }
    NoFrames(left, rest);
    r := Success;
  }

  lemma NoFrames(ms: seq<Sent>, rest: seq<Byte>)
    requires ms == []
    ensures FramesOf(ms) == [] && EncodeAll(ms) + rest == rest
  {
  }
}
