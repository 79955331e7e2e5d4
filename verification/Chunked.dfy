/** The chunk loop of HttpResponse::parse (src/HttpResponse.cpp:54-80) as a function of the bytes that are not yet
    decoded, and chunked coding as section 7.1 of RFC 9112 writes it. */
module Chunked {
  import opened Http
  import opened Options
  import opened Text
  import opened Widths

  /** What one run of the loop does to the undecoded bytes: what it decodes, what it leaves, how it ends. */
  datatype Drained = Drained(decoded: string, left: string, status: Status)

  /** stoul in base 16, cut to the 32 bits of chunk_len; None is the exception stoul throws. */
  function ChunkLength(line: string): (r: Option<nat>)
    ensures r.Some? ==> r.value < TWO_32
  {
    match Stoull(line, 16)
    case None => None
    case Some(n) => Some(n % TWO_32)
  }

  /** One pass through the loop body: stop for more data, an exception, the chunk of size zero with what follows
      it, or a chunk's data with what follows it. */
  datatype Pass = Short | Bad | Last(rest: string) | Full(data: string, rest: string)

  function Step(raw: string): (p: Pass)
    ensures p.Full? ==> |p.data| + |p.rest| < |raw|
    ensures p.Last? ==> |p.rest| <= |raw|
  {
    var le := Find(raw, "\r\n", 0);
    if raw == "" || le == NPOS then Short
    else
      match ChunkLength(raw[..le])
      case None => Bad
      case Some(n) =>
        if |raw| - le < (n + 4) % TWO_32 then Short
        else if le + 2 + n > |raw| then Bad
        else if n == 0 then Last(After(raw, le + 4))
        else Full(raw[le + 2..le + 2 + n], After(raw, le + 2 + n + 2))
  }

  function Drain(raw: string): Drained
    decreases |raw|
  {
    match Step(raw)
    case Short => Drained("", raw, NotEnoughData)
    case Bad => Drained("", raw, Thrown)
    case Last(rest) => Drained("", rest, Success)
    case Full(data, rest) =>
      var d := Drain(rest);
      Drained(data + d.decoded, d.left, d.status)
  }

  /** Nothing is invented: the bytes decoded and left are never more than the bytes given. */
  lemma {:induction false} DrainShrinks(raw: string)
    ensures |Drain(raw).decoded| + |Drain(raw).left| <= |raw|
    decreases |raw|
  {
    hide Step;
    if Step(raw).Full? {
      DrainShrinks(Step(raw).rest);
    }
  }

  /** Past the length check the first erase stays within the buffer exactly if chunk_len + 4 has not wrapped. */
  lemma EraseInBounds(size: nat, le: nat, n: nat)
    requires size < TWO_32 - 4 && le + 2 <= size && n < TWO_32
    requires size - le >= (n + 4) % TWO_32
    ensures le + 2 + n <= size <==> n + 4 < TWO_32
    ensures n + 4 < TWO_32 ==> le + 2 + n + 2 <= size
  {
  }

  lemma StepCases(raw: string, le: int)
    requires raw != "" && le == Find(raw, "\r\n", 0)
    ensures le == NPOS ==> Step(raw) == Short
    ensures le != NPOS && ChunkLength(raw[..le]).None? ==> Step(raw) == Bad
    ensures le != NPOS && ChunkLength(raw[..le]).Some? ==>
              var n := ChunkLength(raw[..le]).value;
              Step(raw) == if |raw| - le < (n + 4) % TWO_32 then Short
                           else if le + 2 + n > |raw| then Bad
                           else if n == 0 then Last(After(raw, le + 4))
                           else Full(raw[le + 2..le + 2 + n], After(raw, le + 2 + n + 2))
  {
    hide Find, ChunkLength;
  }

  lemma StepAt(raw: string, le: nat, n: nat)
    requires Find(raw, "\r\n", 0) == le && ChunkLength(raw[..le]) == Some(n)
    requires |raw| - le >= n + 4
    ensures Step(raw) == if n == 0 then Last(raw[le + 4..]) else Full(raw[le + 2..le + 2 + n], raw[le + 4 + n..])
  {
    hide Find, ChunkLength;
  }

  lemma StepFound(raw: string) returns (le: nat, n: nat)
    requires |raw| < TWO_32 - 4 && (Step(raw).Last? || Step(raw).Full?)
    ensures Find(raw, "\r\n", 0) == le && ChunkLength(raw[..le]) == Some(n)
    ensures n + 4 < TWO_32 && |raw| - le >= n + 4
    ensures Step(raw) == if n == 0 then Last(raw[le + 4..]) else Full(raw[le + 2..le + 2 + n], raw[le + 4 + n..])
  {
    hide Find, ChunkLength;
    le := Find(raw, "\r\n", 0);
    n := ChunkLength(raw[..le]).value;
    EraseInBounds(|raw|, le, n);
  }

  /** A chunk that has been taken off is taken off as well when more data follows. */
  lemma StepAppend(a: string, b: string)
    requires |a| < TWO_32 - 4
    ensures Step(a).Last? ==> Step(a + b) == Last(Step(a).rest + b)
    ensures Step(a).Full? ==> Step(a + b) == Full(Step(a).data, Step(a).rest + b)
  {
    hide Find, ChunkLength, Step;
    if Step(a).Last? || Step(a).Full? {
      var le, n := StepFound(a);
      FindAppend(a, b, "\r\n", 0);
      assert (a + b)[..le] == a[..le];
      StepAt(a + b, le, n);
      assert (a + b)[le + 4 + n..] == a[le + 4 + n..] + b;
      assert (a + b)[le + 2..le + 2 + n] == a[le + 2..le + 2 + n];
    }
  }

  /** The lemma behind fragmentation independence: draining a, appending b to what is left and draining again
      is draining a + b. It holds for every text, well formed or not. */
  lemma {:induction false} DrainAppend(a: string, b: string)
    requires Drain(a).status == NotEnoughData && |a| < TWO_32 - 4
    ensures var d, e := Drain(a), Drain(Drain(a).left + b);
            Drain(a + b) == Drained(d.decoded + e.decoded, e.left, e.status)
    decreases |a|
  {
    hide Step;
    StepAppend(a, b);
    if Step(a).Full? {
      var data, rest := Step(a).data, Step(a).rest;
      DrainAppend(rest, b);
      Regroup(data, Drain(rest).decoded, Drain(Drain(rest).left + b).decoded);
    }
  }

  // --- section 7.1 of RFC 9112 ---

  predicate HexDigit(c: char) {
    '0' <= c <= '9' || 'A' <= c <= 'F' || 'a' <= c <= 'f'
  }

  function HexDigitValue(c: char): nat
    requires HexDigit(c)
  {
    if c <= '9' then c as int - '0' as int
    else if c <= 'F' then c as int - 'A' as int + 10
    else c as int - 'a' as int + 10
  }

  predicate AllHex(ds: string) {
    forall i :: 0 <= i < |ds| ==> HexDigit(ds[i])
  }

  /** The number that hexadecimal digits of either case stand for; leading zeros do not matter. */
  function HexValue(ds: string): nat
    requires AllHex(ds)
  {
    if ds == "" then 0 else 16 * HexValue(ds[..|ds| - 1]) + HexDigitValue(ds[|ds| - 1])
  }

  /** How many hexadecimal digits stand at the front. */
  function HexLength(line: string): (n: nat)
    ensures n <= |line| && AllHex(line[..n])
    ensures n < |line| ==> !HexDigit(line[n])
  {
    if line != "" && HexDigit(line[0]) then 1 + HexLength(line[1..]) else 0
  }

  /** A chunk extension begins with a semicolon, or with blanks before it; what it says is not looked at. */
  predicate ExtensionOk(ext: string) {
    '\n' !in ext && (ext == "" || ext[0] == ';' || ext[0] == ' ' || ext[0] == '\t')
  }

  /** A chunk-size, which is one digit at least, and a chunk extension. */
  predicate SizeLineOk(line: string) {
    HexLength(line) > 0 && ExtensionOk(line[HexLength(line)..])
  }

  function SizeOf(line: string): nat {
    HexValue(line[..HexLength(line)])
  }

  /** A size line without its CRLF, the data it announces, and the two bytes after the data. */
  datatype Chunk = Chunk(line: string, data: string, tail: string)

  predicate ChunkOk(c: Chunk) {
    SizeLineOk(c.line) && SizeOf(c.line) == |c.data| && c.tail == "\r\n"
  }

  function EncodeChunk(c: Chunk): string {
    c.line + "\r\n" + c.data + c.tail
  }

  function EncodeChunks(cs: seq<Chunk>): string {
    if cs == [] then "" else EncodeChunk(cs[0]) + EncodeChunks(cs[1..])
  }

  function DataOf(cs: seq<Chunk>): string {
    if cs == [] then "" else cs[0].data + DataOf(cs[1..])
  }

  /** Chunks with data, then one of size zero. */
  predicate Ends(cs: seq<Chunk>) {
    cs != [] && cs[|cs| - 1].data == "" && forall i :: 0 <= i < |cs| - 1 ==> cs[i].data != ""
  }

  ghost predicate StreamOk(cs: seq<Chunk>) {
    Ends(cs) && forall i :: 0 <= i < |cs| ==> ChunkOk(cs[i])
  }

  ghost predicate SizesBelow(cs: seq<Chunk>, limit: nat) {
    forall i :: 0 <= i < |cs| ==> |cs[i].data| < limit
  }

  // --- size lines as they are read ---

  lemma HexDigitIs(c: char)
    ensures HexDigit(c) <==> DigitValue(c) < 16
    ensures HexDigit(c) ==> HexDigitValue(c) == DigitValue(c)
  {
  }

  lemma {:induction false} ReadHex(ds: string, rest: string)
    requires AllHex(ds)
    ensures ReadDigits(ds + rest, 16, 0) == ReadDigits(rest, 16, HexValue(ds))
  {
    hide ReadDigits, HexDigit, HexDigitValue, DigitValue;
    if ds == "" {
      assert ds + rest == rest;
    } else {
      var front, c := ds[..|ds| - 1], ds[|ds| - 1];
      assert ds + rest == front + ([c] + rest);
      ReadHex(front, [c] + rest);
      HexDigitIs(c);
      ReadDigit(c, rest, 16, HexValue(front));
    }
  }

  lemma LineDigits(line: string)
    requires SizeLineOk(line)
    ensures StrTo(line, 16) == Some(SizeOf(line))
  {
    var n := HexLength(line);
    var ds, ext := line[..n], line[n..];
    assert line == ds + ext;
    HexDigitIs(line[0]);
    if |line| > 1 {
      assert HexDigit(line[1]) || line[1] == ext[0];
    }
    NoSignOrPrefix(line, 16);
    ReadHex(ds, ext);
    hide StrTo, HexValue;
    if ext != "" {
      HexDigitIs(ext[0]);
    }
  }

  lemma LengthFrom(line: string, n: nat)
    requires StrTo(line, 16) == Some(n)
    ensures ChunkLength(line) == if n < TWO_64 then Some(n % TWO_32) else None
    ensures ChunkLength(line) == Some(n) <==> n < TWO_32
  {
    hide StrTo;
  }

  lemma FindLineEnd(line: string)
    requires '\n' !in line
    ensures Find(line + "\r\n", "\r\n", 0) == |line|
  {
    hide Find;
    var t := line + "\r\n";
    forall i | 0 <= i < |line|
      ensures !At(t, "\r\n", i)
    {
      NotAtLineFeed(t, i);
    }
    FindIs(t, "\r\n", 0, |line|);
  }

  lemma NotAtLineFeed(t: string, i: nat)
    requires i + 1 < |t| && t[i + 1] != '\n'
    ensures !At(t, "\r\n", i)
  {
    assert t[i..i + 2][1] == t[i + 1];
  }
  /** A size line of the RFC is read modulo 2^32 as long as it is below 2^64; so it is read as the size it states
      if and only if that is below 2^32. */
  lemma HexLineOk(line: string)
    requires SizeLineOk(line)
    ensures ChunkLength(line) == if SizeOf(line) < TWO_64 then Some(SizeOf(line) % TWO_32) else None
    ensures ChunkLength(line) == Some(SizeOf(line)) <==> SizeOf(line) < TWO_32
    ensures Find(line + "\r\n", "\r\n", 0) == |line|
  {
    hide *;
    LineDigits(line);
    LengthFrom(line, SizeOf(line));
    NoLineFeed(line);
    FindLineEnd(line);
  }

  lemma NoLineFeed(line: string)
    requires SizeLineOk(line)
    ensures '\n' !in line
  {
    var n := HexLength(line);
    assert line == line[..n] + line[n..];
    assert '\n' !in line[..n];
  }

  /** Every size has a size line. */
  lemma {:induction false} PrintedSize(n: nat)
    ensures AllHex(Print(n, 16)) && HexValue(Print(n, 16)) == n
    decreases n
  {
    HexDigitIs(DigitChar(n % 16));
    hide HexDigitValue, HexDigit, DigitValue, DigitChar;
    if n >= 16 {
      PrintedSize(n / 16);
      var p := Print(n / 16, 16);
      assert Print(n, 16)[..|p|] == p;
    }
  }

  lemma {:induction false} HexLengthIs(ds: string, ext: string)
    requires AllHex(ds) && (ext == "" || !HexDigit(ext[0]))
    ensures HexLength(ds + ext) == |ds|
  {
    hide HexDigit;
    if ds == "" {
      assert ds + ext == ext;
    } else {
      assert (ds + ext)[1..] == ds[1..] + ext;
      HexLengthIs(ds[1..], ext);
    }
  }

  lemma PrintedLine(n: nat, ext: string)
    requires ExtensionOk(ext)
    ensures SizeLineOk(Print(n, 16) + ext) && SizeOf(Print(n, 16) + ext) == n
  {
    var ds := Print(n, 16);
    PrintedSize(n);
    HexLengthIs(ds, ext);
    assert (ds + ext)[..|ds|] == ds && (ds + ext)[|ds|..] == ext;
  }

  /** A size that is not read as it stands: these nine digits announce 4294967301 bytes and are taken for five. */
  lemma SizeCut()
    ensures SizeLineOk("100000005") && SizeOf("100000005") == 0x1_0000_0005
    ensures ChunkLength("100000005") == Some(5)
  {
    hide *;
    NoExtension();
    PrintedLine(0x1_0000_0005, "");
    PrintedNine();
    assert Print(0x1_0000_0005, 16) + "" == "100000005";
    HexLineOk("100000005");
    assert 0x1_0000_0005 < TWO_64 && 0x1_0000_0005 % TWO_32 == 5 by {
      Powers();
    }
  }

  lemma Powers()
    ensures TWO_32 == 0x1_0000_0000 && TWO_64 == 0x1_0000_0000_0000_0000
  {
  }

  lemma NoExtension()
    ensures ExtensionOk("")
  {
  }

  lemma PrintedNine()
    ensures Print(0x1_0000_0005, 16) == "100000005"
  {
  }

  // --- what the loop takes for a chunk ---

  /** The loop takes a line as stoul reads it, cut to 32 bits, and skips any two bytes after the data. */
  ghost predicate ReadAsChunk(c: Chunk) {
    Find(c.line + "\r\n", "\r\n", 0) == |c.line| && ChunkLength(c.line) == Some(|c.data|) && |c.tail| == 2
  }

  ghost predicate ReadAsStream(cs: seq<Chunk>) {
    Ends(cs) && forall i :: 0 <= i < |cs| ==> ReadAsChunk(cs[i])
  }

  /** Of the chunks of the RFC it takes those for what they are that have less than 2^32 bytes. */
  lemma ChunkRead(c: Chunk)
    requires ChunkOk(c)
    ensures ReadAsChunk(c) <==> |c.data| < TWO_32
  {
    hide Find, ChunkLength, SizeLineOk, SizeOf;
    HexLineOk(c.line);
  }

  /** Of what it takes, chunks of the RFC are those with a size line of the RFC that states less than 2^32 bytes, and
      a CRLF behind the data. */
  lemma ReadConforms(c: Chunk)
    requires ReadAsChunk(c)
    ensures ChunkOk(c) <==> SizeLineOk(c.line) && SizeOf(c.line) < TWO_32 && c.tail == "\r\n"
  {
    hide Find, ChunkLength, SizeLineOk, SizeOf;
    if SizeLineOk(c.line) {
      HexLineOk(c.line);
    }
  }

  lemma StreamRead(cs: seq<Chunk>)
    requires StreamOk(cs) && SizesBelow(cs, TWO_32)
    ensures ReadAsStream(cs)
  {
    hide ChunkOk, ReadAsChunk;
    forall i | 0 <= i < |cs|
      ensures ReadAsChunk(cs[i])
    {
      ChunkRead(cs[i]);
    }
  }

  /** One whole chunk at the front is taken off. */
  lemma StepRead(c: Chunk, rest: string)
    requires ReadAsChunk(c)
    ensures Step(EncodeChunk(c) + rest) == if c.data == "" then Last(rest) else Full(c.data, rest)
  {
    var s, le := EncodeChunk(c) + rest, |c.line|;
    LineOf(c, rest);
    hide Find, ChunkLength, Step;
    StepAt(s, le, |c.data|);
    assert s[le + 2..le + 2 + |c.data|] == c.data;
    assert s[le + 2 + |c.data| + 2..] == rest;
  }

  lemma LineOf(c: Chunk, rest: string)
    requires Find(c.line + "\r\n", "\r\n", 0) == |c.line|
    ensures var s := EncodeChunk(c) + rest; Find(s, "\r\n", 0) == |c.line| && s[..|c.line|] == c.line
  {
    assert EncodeChunk(c) + rest == (c.line + "\r\n") + (c.data + c.tail + rest);
    FindAppend(c.line + "\r\n", c.data + c.tail + rest, "\r\n", 0);
  }

  /** A chunk of the RFC is taken off, with exactly its data, if and only if it has less than 2^32 bytes. */
  lemma StepChunk(c: Chunk, rest: string)
    requires ChunkOk(c)
    ensures Step(EncodeChunk(c) + rest) == (if c.data == "" then Last(rest) else Full(c.data, rest))
        <==> |c.data| < TWO_32
  {
    hide Find, ChunkLength, SizeLineOk, SizeOf, Step, EncodeChunk;
    ChunkRead(c);
    if |c.data| < TWO_32 {
      StepRead(c, rest);
    } else {
      var s := EncodeChunk(c) + rest;
      HexLineOk(c.line);
      LineOf(c, rest);
      StepTakes(s, |c.line|);
    }
  }

  /** What a pass takes off is as long as the line was read. */
  lemma StepTakes(raw: string, le: nat)
    requires Find(raw, "\r\n", 0) == le
    ensures Step(raw).Full? ==> ChunkLength(raw[..le]) == Some(|Step(raw).data|)
  {
    hide Find, ChunkLength;
  }

  /** Part of a chunk is not enough. */
  lemma DrainPartialChunk(c: Chunk, p: string, q: string)
    requires ReadAsChunk(c) && |c.data| + 4 < TWO_32 && p + q == EncodeChunk(c) && q != ""
    ensures Step(p) == Short
  {
    var head, body := c.line + "\r\n", c.data + c.tail;
    assert EncodeChunk(c) == head + body;
    Overlap(p, q, head, body);
    hide Find, Step, ChunkLength;
    if |p| < |head| {
      FindCut(p, head[|p|..], "\r\n", 0);
      StepNoLine(p);
    } else {
      FindAppend(head, p[|head|..], "\r\n", 0);
      assert p[..|c.line|] == head[..|c.line|] == c.line;
      StepShort(p, |c.line|, |c.data|);
    }
  }

  ghost predicate Waits(c: Chunk) {
    forall n :: 0 <= n < |EncodeChunk(c)| ==> Step(EncodeChunk(c)[..n]) == Short
  }

  /** Every part of a chunk of the RFC is waited for if and only if its size and four fit 32 bits. */
  lemma PartialChunk(c: Chunk)
    requires ChunkOk(c)
    ensures Waits(c) <==> |c.data| + 4 < TWO_32
  {
    hide Step, ChunkOk, ReadAsChunk;
    ChunkRead(c);
    var s := EncodeChunk(c);
    if |c.data| + 4 < TWO_32 {
      forall n | 0 <= n < |s|
        ensures Step(s[..n]) == Short
      {
        assert s[..n] + s[n..] == s;
        DrainPartialChunk(c, s[..n], s[n..]);
      }
    } else {
      var n := Unwaited(c);
      assert Step(s[..n]) != Short;
    }
  }

  lemma Unwaited(c: Chunk) returns (n: nat)
    requires ChunkOk(c) && |c.data| + 4 >= TWO_32
    ensures n < |EncodeChunk(c)| && Step(EncodeChunk(c)[..n]) != Short
  {
    hide Find, ChunkLength, Step, SizeLineOk, SizeOf;
    var m := |c.data| % TWO_32;
    var k := if m + 4 < TWO_32 then m + 2 else 1;
    var part := Chunk(c.line, c.data[..k], "");
    n := |c.line| + 2 + k;
    HexLineOk(c.line);
    LineOf(part, "");
    assert EncodeChunk(c)[..n] == EncodeChunk(part) + "";
    StepCases(EncodeChunk(c)[..n], |c.line|);
  }

  lemma StepNoLine(raw: string)
    requires Find(raw, "\r\n", 0) == NPOS
    ensures Step(raw) == Short
  {
    hide Find, ChunkLength;
  }

  lemma StepShort(raw: string, le: nat, n: nat)
    requires Find(raw, "\r\n", 0) == le && ChunkLength(raw[..le]) == Some(n)
    requires n + 4 < TWO_32 && |raw| - le < n + 4
    ensures Step(raw) == Short
  {
    hide Find, ChunkLength;
  }

  lemma NothingLeft()
    ensures Step("") == Short
  {
  }

  /** Two ways to cut the same text. */
  lemma Overlap(p: string, q: string, a: string, b: string)
    requires p + q == a + b
    ensures |p| < |a| ==> a == p + a[|p|..]
    ensures |p| >= |a| ==> p == a + p[|a|..]
  {
    if |p| < |a| {
      assert p == (a + b)[..|p|];
    } else {
      assert a == (p + q)[..|a|];
    }
  }

  lemma {:induction false} DrainRead(cs: seq<Chunk>, extra: string)
    requires ReadAsStream(cs)
    ensures Drain(EncodeChunks(cs) + extra) == Drained(DataOf(cs), extra, Success)
  {
    hide Step, ReadAsChunk, EncodeChunk;
    var rest := EncodeChunks(cs[1..]) + extra;
    assert EncodeChunks(cs) + extra == EncodeChunk(cs[0]) + rest;
    StepRead(cs[0], rest);
    if |cs| > 1 {
      DrainRead(cs[1..], extra);
    } else {
      assert rest == extra;
    }
  }

  /** Decoding an encoded stream gives its data and stops right behind it. */
  lemma DrainStream(cs: seq<Chunk>, extra: string)
    requires StreamOk(cs) && SizesBelow(cs, TWO_32)
    ensures Drain(EncodeChunks(cs) + extra) == Drained(DataOf(cs), extra, Success)
  {
    StreamRead(cs);
    hide *;
    DrainRead(cs, extra);
  }

  lemma {:induction false} DrainReadPrefix(cs: seq<Chunk>, p: string, q: string)
    requires ReadAsStream(cs) && SizesBelow(cs, TWO_32 - 4) && p + q == EncodeChunks(cs) && q != ""
    ensures Drain(p).status == NotEnoughData
  {
    hide Step, ReadAsChunk, EncodeChunk;
    var first, rest := EncodeChunk(cs[0]), EncodeChunks(cs[1..]);
    assert p + q == first + rest;
    if |p| < |first| {
      assert p + first[|p|..] == first by {
        assert p == (first + rest)[..|p|];
      }
      DrainPartialChunk(cs[0], p, first[|p|..]);
    } else {
      assert |cs| > 1 by {
        assert |cs| == 1 ==> rest == "";
      }
      var p' := p[|first|..];
      assert p == first + p' && p' + q == rest by {
        assert p[..|first|] == (first + rest)[..|first|] == first;
        assert rest == (p + q)[|first|..];
      }
      StepRead(cs[0], p');
      DrainReadPrefix(cs[1..], p', q);
    }
  }

  /** Every strict prefix of an encoded stream asks for more. */
  lemma DrainStreamPrefix(cs: seq<Chunk>, p: string, q: string)
    requires StreamOk(cs) && SizesBelow(cs, TWO_32 - 4) && p + q == EncodeChunks(cs) && q != ""
    ensures Drain(p).status == NotEnoughData
  {
    StreamRead(cs);
    hide *;
    DrainReadPrefix(cs, p, q);
  }

  lemma StepIsChunk(raw: string) returns (c: Chunk)
    requires |raw| < TWO_32 - 4 && (Step(raw).Last? || Step(raw).Full?)
    ensures ReadAsChunk(c) && raw == EncodeChunk(c) + Step(raw).rest
    ensures c.data == if Step(raw).Last? then "" else Step(raw).data
    ensures Step(raw).Full? ==> c.data != ""
  {
    hide Find, ChunkLength, Step;
    var le, n := StepFound(raw);
    FoundPrefix(raw, le);
    c := Chunk(raw[..le], raw[le + 2..le + 2 + n], raw[le + 2 + n..le + 4 + n]);
    FivePieces(raw, le, le + 2, le + 2 + n, le + 4 + n);
  }

  lemma FivePieces(s: string, i: nat, j: nat, k: nat, l: nat)
    requires i <= j <= k <= l <= |s|
    ensures s == s[..i] + s[i..j] + s[j..k] + s[k..l] + s[l..]
  {
    assert s[..l] == s[..k] + s[k..l];
    assert s[..k] == s[..j] + s[j..k];
    assert s[..j] == s[..i] + s[i..j];
  }

  lemma FoundPrefix(s: string, r: nat)
    requires Find(s, "\r\n", 0) == r
    ensures r + 2 <= |s| && s[r..r + 2] == "\r\n" && Find(s[..r] + "\r\n", "\r\n", 0) == r
  {
    hide Find;
    var t, more := s[..r] + "\r\n", s[r + 2..];
    FoundSplit(s, r);
    hide At;
    forall i | 0 <= i < r
      ensures !At(t, "\r\n", i)
    {
      AtPrefix(t, more, "\r\n", i);
    }
    FindIs(t, "\r\n", 0, r);
  }

  lemma FoundSplit(s: string, r: nat)
    requires At(s, "\r\n", r)
    ensures r + 2 <= |s| && s[r..r + 2] == "\r\n" && s == s[..r] + "\r\n" + s[r + 2..]
    ensures At(s[..r] + "\r\n", "\r\n", r)
  {
    assert s == s[..r] + s[r..r + 2] + s[r + 2..];
  }

  lemma StreamCons(c: Chunk, rest: seq<Chunk>)
    requires ReadAsChunk(c) && (if c.data == "" then rest == [] else ReadAsStream(rest))
    ensures ReadAsStream([c] + rest)
    ensures EncodeChunks([c] + rest) == EncodeChunk(c) + EncodeChunks(rest)
    ensures DataOf([c] + rest) == c.data + DataOf(rest)
  {
    hide ReadAsChunk, EncodeChunk;
    assert ([c] + rest)[1..] == rest;
  }

  /** What is decoded with Success is a stream as the loop reads one, and its data is what has been decoded. It is a
      stream of the RFC if and only if every line is one of the RFC, states less than 2^32 bytes, and has its data
      ended by CRLF. */
  lemma {:induction false} DrainAccepts(raw: string) returns (cs: seq<Chunk>)
    requires Drain(raw).status == Success && |raw| < TWO_32 - 4
    ensures ReadAsStream(cs) && raw == EncodeChunks(cs) + Drain(raw).left && DataOf(cs) == Drain(raw).decoded
    ensures StreamOk(cs) <==> forall c :: c in cs ==> SizeLineOk(c.line) && SizeOf(c.line) < TWO_32 && c.tail == "\r\n"
    decreases |raw|
  {
    var c := StepIsChunk(raw);
    hide Step, ReadAsChunk, ReadAsStream, StreamOk, EncodeChunk, EncodeChunks, DataOf, SizeLineOk, SizeOf;
    var rest := [];
    if Step(raw).Full? {
      rest := DrainAccepts(Step(raw).rest);
    }
    StreamCons(c, rest);
    cs := [c] + rest;
    Regroup(EncodeChunk(c), EncodeChunks(rest), Drain(raw).left);
    NoChunks();
    StreamConforms(cs);
  }

  lemma StreamConforms(cs: seq<Chunk>)
    requires ReadAsStream(cs)
    ensures StreamOk(cs) <==> forall c :: c in cs ==> SizeLineOk(c.line) && SizeOf(c.line) < TWO_32 && c.tail == "\r\n"
  {
    hide ChunkOk, ReadAsChunk, SizeLineOk, SizeOf;
    forall c | c in cs
      ensures ChunkOk(c) <==> SizeLineOk(c.line) && SizeOf(c.line) < TWO_32 && c.tail == "\r\n"
    {
      ReadConforms(c);
    }
  }

  lemma NoChunks()
    ensures EncodeChunks([]) == "" && DataOf([]) == ""
  {
  }

  // --- exceptions ---

  /** A line with its CRLF that is no number, or whose number and four have wrapped while there is as much as
      is left of the sum. */
  predicate BadLine(raw: string) {
    var le := Find(raw, "\r\n", 0);
    le != NPOS
    && match ChunkLength(raw[..le])
       case None => true
       case Some(n) => n + 4 >= TWO_32 && |raw| - le >= n + 4 - TWO_32
  }

  ghost predicate Whole(cs: seq<Chunk>) {
    forall c :: c in cs ==> ReadAsChunk(c) && c.data != ""
  }

  /** Behind whole chunks with data comes a bad line. */
  ghost predicate Throws(raw: string) {
    exists cs, rest :: Whole(cs) && raw == EncodeChunks(cs) + rest && BadLine(rest)
  }

  lemma StepBad(raw: string)
    requires |raw| < TWO_32 - 4
    ensures Step(raw) == Bad <==> BadLine(raw)
  {
    hide ChunkLength, Find;
  }

  /** Exactly then an exception leaves the loop. */
  lemma DrainThrows(raw: string)
    requires |raw| < TWO_32 - 4
    ensures Drain(raw).status == Thrown <==> Throws(raw)
  {
    hide Drain, Whole, BadLine;
    if Drain(raw).status == Thrown {
      var cs, rest := ThrownAt(raw);
    }
    if Throws(raw) {
      var cs, rest :| Whole(cs) && raw == EncodeChunks(cs) + rest && BadLine(rest);
      DrainToBad(cs, rest);
    }
  }

  lemma {:induction false} ThrownAt(raw: string) returns (cs: seq<Chunk>, rest: string)
    requires |raw| < TWO_32 - 4 && Drain(raw).status == Thrown
    ensures Whole(cs) && raw == EncodeChunks(cs) + rest && BadLine(rest)
    decreases |raw|
  {
    hide Step, BadLine, ReadAsChunk, EncodeChunk;
    StepBad(raw);
    if Step(raw) == Bad {
      cs, rest := [], raw;
    } else {
      var c := StepIsChunk(raw);
      var more;
      more, rest := ThrownAt(Step(raw).rest);
      cs := [c] + more;
      assert cs[1..] == more;
      Regroup(EncodeChunk(c), EncodeChunks(more), rest);
    }
  }

  lemma {:induction false} DrainToBad(cs: seq<Chunk>, rest: string)
    requires Whole(cs) && BadLine(rest) && |EncodeChunks(cs) + rest| < TWO_32 - 4
    ensures Drain(EncodeChunks(cs) + rest).status == Thrown
  {
    hide Step, BadLine, ReadAsChunk, EncodeChunk;
    if cs == [] {
      StepBad(rest);
      assert EncodeChunks(cs) + rest == rest;
    } else {
      var more := EncodeChunks(cs[1..]) + rest;
      assert cs[0] in cs;
      assert EncodeChunks(cs) + rest == EncodeChunk(cs[0]) + more;
      StepRead(cs[0], more);
      DrainToBad(cs[1..], rest);
    }
  }
}
