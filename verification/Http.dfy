/** What HttpRequest and HttpResponse share (src/Http.cpp, include/frnetlib/Http.h): the message fields, splitting
    into lines, header lines, the end of the header, and the text of a printed header with its inverse. */
module Http {
  import opened Options
  import opened Text

  const MAX_HTTP_HEADER_SIZE := 0xC800
  const MAX_HTTP_BODY_SIZE := 0xA00000

  /** The statuses the parsers return; Thrown stands for an exception that leaves parse. */
  datatype Status = Success | NotEnoughData | ParseError | HttpHeaderTooBig | HttpBodyTooBig | Thrown

  datatype Version = V1 | V1_1

  datatype RequestType = Get | Post | Put | Delete | Patch | RequestTypeCount | Unknown | Partial

  datatype Encoding = NoEncoding | Chunked | Compress | Deflate | Gzip | Identity

  /** The fields of the class, as a value. */
  datatype Message = Message(
    headers: map<string, string>,
    post: map<string, string>,
    get: map<string, string>,
    encodings: set<Encoding>,
    body: string,
    kind: RequestType,
    uri: string,
    status: int,
    version: Version)

  const FRESH := Message(map[], map[], map[], {}, "", Unknown, "/", 200, V1_1)

  function StringToEncoding(s: string): Encoding {
    var t := ToLower(s);
    if t == "chunked" then Chunked
    else if t == "compress" then Compress
    else if t == "deflate" then Deflate
    else if t == "gzip" then Gzip
    else if t == "identity" then Identity
    else NoEncoding
  }

  /** The names of the encodings, in any case. */
  lemma EncodingNames(s: string)
    ensures StringToEncoding(s) == Chunked <==> ToLower(s) == "chunked"
    ensures StringToEncoding(s) == Compress <==> ToLower(s) == "compress"
    ensures StringToEncoding(s) == Deflate <==> ToLower(s) == "deflate"
    ensures StringToEncoding(s) == Gzip <==> ToLower(s) == "gzip"
    ensures StringToEncoding(s) == Identity <==> ToLower(s) == "identity"
  {
  }

  // --- splitting ---

  function Strip(s: string): (r: string)
    ensures |r| <= |s|
  {
    if s == "" then "" else Strip(s[..|s| - 1]) + (if s[|s| - 1] == ' ' then "" else [s[|s| - 1]])
  }

  function Clean(s: string, strip: bool): string {
    if strip then Strip(s) else s
  }

  function Keep(s: string): seq<string> {
    if s == "" then [] else [s]
  }

  /** The pieces between the tokens, cleaned of spaces if asked, without the empty ones. */
  function Fields(s: string, token: char, strip: bool): seq<string> {
    var k := FindChar(s, token, 0);
    if k == NPOS then Keep(Clean(s, strip))
    else Keep(Clean(s[..k], strip)) + Fields(s[k + 1..], token, strip)
  }

  lemma FieldsAt(t: string, k: nat, token: char, strip: bool)
    requires k < |t| && t[k] == token && forall j :: 0 <= j < k ==> t[j] != token
    ensures Fields(t, token, strip) == Keep(Clean(t[..k], strip)) + Fields(t[k + 1..], token, strip)
  {
    hide Clean, Keep;
    FindCharIs(t, token, 0, k);
  }

  /** Stripping takes out every space and nothing else. */
  lemma {:induction false} StripParts(s: string, t: string)
    ensures Strip(s + t) == Strip(s) + Strip(t)
    ensures Strip(" ") == "" && ' ' !in Strip(s) && (' ' !in s ==> Strip(s) == s)
  {
    if t == "" {
      assert s + t == s;
      StripWord(s);
    } else {
      assert (s + t)[..|s + t| - 1] == s + t[..|t| - 1];
      StripParts(s, t[..|t| - 1]);
    }
  }

  lemma {:induction false} StripWord(s: string)
    ensures Strip(" ") == "" && ' ' !in Strip(s) && (' ' !in s ==> Strip(s) == s)
  {
    if s != "" {
      StripWord(s[..|s| - 1]);
      assert s == s[..|s| - 1] + [s[|s| - 1]];
    }
  }

  /** s[i..j] stands between two tokens, or between one and an end. */
  predicate Between(s: string, token: char, i: int, j: int) {
    && 0 <= i <= j <= |s| && token !in s[i..j]
    && (i == 0 || s[i - 1] == token) && (j == |s| || s[j] == token)
  }

  ghost predicate Listed(s: string, token: char, strip: bool, f: string) {
    exists i, j :: Between(s, token, i, j) && Clean(s[i..j], strip) == f
  }

  /** What splitting gives, are exactly the texts between tokens, cleaned, that are not empty. */
  lemma {:induction false} FieldsAre(s: string, token: char, strip: bool, f: string)
    ensures f in Fields(s, token, strip) <==> f != "" && Listed(s, token, strip, f)
    decreases |s|
  {
    hide Clean, Keep, FindChar, Listed;
    var k := FindChar(s, token, 0);
    ListedFirst(s, token, strip, f);
    KeepsText(Clean(if k == NPOS then s else s[..k], strip), f);
    if k != NPOS {
      FieldsAre(s[k + 1..], token, strip, f);
    }
  }

  lemma KeepsText(t: string, f: string)
    ensures f in Keep(t) <==> f != "" && f == t
  {
  }

  lemma ListedFirst(s: string, token: char, strip: bool, f: string)
    ensures var k := FindChar(s, token, 0);
            (Listed(s, token, strip, f)
             <==> if k == NPOS then Clean(s, strip) == f
                  else Clean(s[..k], strip) == f || Listed(s[k + 1..], token, strip, f))
  {
    hide Clean, Between;
    var k := FindChar(s, token, 0);
    FirstBetween(s, token);
    var n := if k == NPOS then |s| else k;
    assert s[0..n] == s[..n] && s[..|s|] == s;
    if k != NPOS {
      var t := s[k + 1..];
      if i, j :| Between(s, token, i, j) && Clean(s[i..j], strip) == f && !(i == 0 && j == k) {
        assert k < i;
        RestBetween(s, token, k, i - k - 1, j - k - 1);
      }
      if Listed(t, token, strip, f) {
        var i, j := ListedAt(t, token, strip, f);
        RestBetween(s, token, k, i, j);
      }
    }
  }

  lemma ListedAt(s: string, token: char, strip: bool, f: string) returns (i: nat, j: nat)
    requires Listed(s, token, strip, f)
    ensures i <= j <= |s| && Between(s, token, i, j) && Clean(s[i..j], strip) == f
  {
    i, j :| Between(s, token, i, j) && Clean(s[i..j], strip) == f;
  }

  lemma InSlice(s: string, i: int, k: int, j: int)
    ensures 0 <= i <= k < j <= |s| ==> s[k] in s[i..j]
  {
    assert 0 <= i <= k < j <= |s| ==> s[i..j][k - i] == s[k];
  }

  lemma FirstBetween(s: string, token: char)
    ensures var k := FindChar(s, token, 0);
            && (k != NPOS ==> s[k] == token)
            && Between(s, token, 0, if k == NPOS then |s| else k)
            && forall i, j :: Between(s, token, i, j) ==>
                 0 <= i <= j <= |s| && if k == NPOS then i == 0 && j == |s| else k < i || (i == 0 && j == k)
  {
    var k := FindChar(s, token, 0);
    forall i, j | Between(s, token, i, j)
      ensures if k == NPOS then i == 0 && j == |s| else k < i || (i == 0 && j == k)
    {
      InSlice(s, i, k, j);
    }
  }

  /** The same places, counted from behind a token. */
  lemma RestBetween(s: string, token: char, k: nat, i: int, j: int)
    requires k < |s| && s[k] == token && 0 <= i <= j <= |s| - k - 1
    ensures Between(s, token, i + k + 1, j + k + 1) <==> Between(s[k + 1..], token, i, j)
    ensures s[i + k + 1..j + k + 1] == s[k + 1..][i..j]
  {
    Slices(s, k + 1, i, j);
  }

  lemma FieldsStep(s: string, start: nat, i: nat, token: char, strip: bool)
    requires start <= i <= |s| && forall j :: start <= j < i ==> s[j] != token
    requires i == |s| || s[i] == token
    ensures Fields(s[start..], token, strip)
         == Keep(Clean(s[start..i], strip)) + (if i == |s| then [] else Fields(s[i + 1..], token, strip))
  {
    hide Clean, Keep;
    var t := s[start..];
    assert t[..i - start] == s[start..i];
    if i < |s| {
      hide Fields;
      FieldsAt(t, i - start, token, strip);
      assert t[i - start + 1..] == s[i + 1..];
    } else {
      assert FindChar(t, token, 0) == NPOS;
      assert s[start..i] == t;
    }
  }

  lemma CleanSnoc(s: string, start: nat, i: nat, strip: bool)
    requires start <= i < |s|
    ensures Clean(s[start..i + 1], strip)
         == Clean(s[start..i], strip) + (if strip && s[i] == ' ' then "" else [s[i]])
  {
    assert s[start..i + 1][..i - start] == s[start..i];
  }

  lemma CleanEmpty(strip: bool)
    ensures Clean("", strip) == ""
  {
  }

  lemma Regroup<T>(a: seq<T>, b: seq<T>, c: seq<T>)
    ensures a + (b + c) == (a + b) + c
    ensures b == [] ==> a + b == a
  {
  }

  /** The scan has read str[..i]: ret holds the pieces before start, buffer what it keeps of str[start..i]. */
  ghost predicate Scanned(str: string, token: char, strip: bool, start: nat, i: nat, buffer: string, ret: seq<string>) {
    && start <= i <= |str|
    && (forall j :: start <= j < i ==> str[j] != token)
    && buffer == Clean(str[start..i], strip)
    && ret + Fields(str[start..], token, strip) == Fields(str, token, strip)
  }

  lemma ScanStart(str: string, token: char, strip: bool)
    ensures Scanned(str, token, strip, 0, 0, "", [])
  {
    CleanEmpty(strip);
    assert str[0..] == str && str[0..0] == "";
  }

  lemma ScanToken(str: string, token: char, strip: bool, start: nat, i: nat, buffer: string, ret: seq<string>)
    requires Scanned(str, token, strip, start, i, buffer, ret) && i < |str| && str[i] == token
    ensures Scanned(str, token, strip, i + 1, i + 1, "", if buffer == "" then ret else ret + [buffer])
  {
    hide Fields;
    FieldsStep(str, start, i, token, strip);
    Regroup(ret, Keep(buffer), Fields(str[i + 1..], token, strip));
    CleanEmpty(strip);
    assert str[i + 1..i + 1] == "";
  }

  lemma ScanChar(str: string, token: char, strip: bool, start: nat, i: nat, buffer: string, ret: seq<string>)
    requires Scanned(str, token, strip, start, i, buffer, ret) && i < |str| && str[i] != token
    ensures Scanned(str, token, strip, start, i + 1, if strip && str[i] == ' ' then buffer else buffer + [str[i]], ret)
  {
    hide Fields, Clean;
    CleanSnoc(str, start, i, strip);
  }

  lemma ScanEnd(str: string, token: char, strip: bool, start: nat, buffer: string, ret: seq<string>)
    requires Scanned(str, token, strip, start, |str|, buffer, ret)
    ensures (if buffer == "" then ret else ret + [buffer]) == Fields(str, token, strip)
  {
    hide Fields, Clean;
    FieldsStep(str, start, |str|, token, strip);
  }

  method SplitString(str: string, token: char, strip: bool) returns (ret: seq<string>)
    ensures ret == Fields(str, token, strip)
  {
    hide Scanned, Fields, Clean, FindChar;
    ret := [];
    var buffer := "";
    ghost var start: nat := 0;
    ScanStart(str, token, strip);
    for i := 0 to |str|
      invariant Scanned(str, token, strip, start, i, buffer, ret)
    {
      if str[i] == token {
        ScanToken(str, token, strip, start, i, buffer, ret);
        if buffer != "" {
          ret := ret + [buffer];
        }
        buffer := "";
        start := i + 1;
      } else {
        ScanChar(str, token, strip, start, i, buffer, ret);
        if str[i] != ' ' || !strip {
          buffer := buffer + [str[i]];
        }
      }
    }
    ScanEnd(str, token, strip, start, buffer, ret);
    if buffer != "" {
      ret := ret + [buffer];
    }
  }

  // --- header lines ---

  /** How many printable characters (32 to 126) stand at the front. */
  function PrintableLength(s: string): (n: nat)
    ensures n <= |s|
    ensures forall i :: 0 <= i < n ==> 32 <= s[i] as int <= 126
    ensures n < |s| ==> !(32 <= s[n] as int <= 126)
  {
    if s != "" && 32 <= s[0] as int <= 126 then 1 + PrintableLength(s[1..]) else 0
  }

  /** The lower-cased name and the value of a header line, if it is one. */
  function HeaderLine(line: string): Option<(string, string)> {
    var colon := FindChar(line, ':', 0);
    if colon == NPOS then None
    else
      var begin := FindNotIn(line, {' '}, colon + 1);
      if begin == NPOS then None
      else Some((ToLower(line[..colon]), line[begin..begin + PrintableLength(line[begin..])]))
  }

  /** unordered_map::emplace: the first value stays. */
  function Emplace(m: map<string, string>, k: string, v: string): map<string, string> {
    if k in m then m else m[k := v]
  }

  function Lookup(m: map<string, string>, key: string): string {
    if ToLower(key) in m then m[ToLower(key)] else ""
  }

  function EncodingsOf(value: string): set<Encoding> {
    set f | f in Fields(value, ',', true) :: StringToEncoding(f)
  }

  function AddHeader(m: Message, line: string): Message {
    match HeaderLine(line)
    case None => m
    case Some((name, value)) =>
      m.(headers := Emplace(m.headers, name, value),
         encodings := if name == "transfer-encoding" then m.encodings + EncodingsOf(value) else m.encodings)
  }

  function AddHeaders(m: Message, lines: seq<string>): Message {
    if lines == [] then m else AddHeader(AddHeaders(m, lines[..|lines| - 1]), lines[|lines| - 1])
  }

  lemma NextLine(lines: seq<string>, i: nat)
    requires 1 <= i < |lines|
    ensures lines[1..i + 1] == lines[1..i] + [lines[i]]
  {
  }

  /** Header lines change the headers and the encodings, and look at nothing else. */
  lemma {:induction false} AddHeadersKeeps(m: Message, body: string, lines: seq<string>)
    ensures AddHeaders(m.(body := body), lines) == AddHeaders(m, lines).(body := body)
    ensures AddHeaders(m, lines) == m.(headers := AddHeaders(m, lines).headers,
                                       encodings := AddHeaders(m, lines).encodings)
  {
    if lines != [] {
      AddHeadersKeeps(m, body, lines[..|lines| - 1]);
    }
  }

  // --- the end of the header ---

  datatype Terminator = Terminator(pos: int, size: nat)

  function HeaderEnd(body: string): Terminator {
    var p := Find(body, "\r\n\r\n", 0);
    if p != NPOS then Terminator(p, 4) else Terminator(Find(body, "\n\n", 0), 2)
  }

  lemma HeaderEndForm(body: string)
    ensures var p := Find(body, "\r\n\r\n", 0);
            HeaderEnd(body) == if p != NPOS then Terminator(p, 4) else Terminator(Find(body, "\n\n", 0), 2)
  {
    hide Find;
  }

  lemma HeaderEndWithin(body: string)
    ensures var end := HeaderEnd(body);
            end.pos == NPOS || (0 <= end.pos && end.pos + end.size <= |body| && (end.size == 2 || end.size == 4))
  {
    hide Find;
  }

  /** Once seen, the end of the header stays where it is exactly if it is a CRLF one or no CRLF one follows. */
  lemma HeaderEndStable(x: string, y: string)
    requires HeaderEnd(x).pos != NPOS
    ensures HeaderEnd(x + y) == HeaderEnd(x)
       <==> (Find(x, "\r\n\r\n", 0) != NPOS || Find(x + y, "\r\n\r\n", 0) == NPOS)
  {
    if Find(x, "\r\n\r\n", 0) != NPOS {
      FindAppend(x, y, "\r\n\r\n", 0);
    } else {
      FindAppend(x, y, "\n\n", 0);
    }
  }

  /** Lines that end in LF alone end the header as well, if there is no CRLF end anywhere. */
  lemma LfHeaderEnd(text: string, raw: string)
    requires Find(text + "\n\n", "\n\n", 0) == |text| && Find(text + "\n\n" + raw, "\r\n\r\n", 0) == NPOS
    ensures HeaderEnd(text + "\n\n" + raw) == Terminator(|text|, 2)
  {
    FindAppend(text + "\n\n", raw, "\n\n", 0);
  }

  /** A header whose only end is the CRLF one behind it, within the size limit. */
  predicate OneHeader(text: string) {
    var h := text + "\r\n\r\n";
    && Find(h, "\r\n\r\n", 0) == |text| && Find(h, "\n\n", 0) == NPOS
    && |text| + 3 <= MAX_HTTP_HEADER_SIZE
  }

  lemma HeadEnd(text: string, raw: string)
    requires OneHeader(text)
    ensures HeaderEnd(text + "\r\n\r\n" + raw) == Terminator(|text|, 4)
  {
    FindAppend(text + "\r\n\r\n", raw, "\r\n\r\n", 0);
  }

  lemma HeadNoEnd(text: string, p: string, q: string)
    requires OneHeader(text) && p + q == text + "\r\n\r\n" && q != ""
    ensures HeaderEnd(p).pos == NPOS
  {
    FindCut(p, q, "\r\n\r\n", 0);
    FindCut(p, q, "\n\n", 0);
  }

  /** No prefix of the stream shows another end than the whole. */
  lemma EndOnce(text: string, raw: string, n: nat)
    requires OneHeader(text) && n <= |text + "\r\n\r\n" + raw|
    ensures var stream := text + "\r\n\r\n" + raw;
            HeaderEnd(stream[..n]).pos == NPOS || HeaderEnd(stream) == HeaderEnd(stream[..n])
  {
    var h := text + "\r\n\r\n";
    var stream := h + raw;
    HeadEnd(text, raw);
    if n < |h| {
      assert stream[..n] + h[n..] == h;
      HeadNoEnd(text, stream[..n], h[n..]);
    } else {
      assert stream[..n] == h + raw[..n - |h|];
      HeadEnd(text, raw[..n - |h|]);
    }
  }

  lemma EndBetween(x: string, b: string, c: string)
    requires HeaderEnd(x).pos == NPOS || HeaderEnd(x + (b + c)) == HeaderEnd(x)
    ensures HeaderEnd(x).pos == NPOS || HeaderEnd(x + b) == HeaderEnd(x)
  {
    assert x + (b + c) == (x + b) + c;
    if HeaderEnd(x).pos != NPOS {
      HeaderEndStable(x, b);
      HeaderEndStable(x, b + c);
      if Find(x + b, "\r\n\r\n", 0) != NPOS {
        FindAppend(x + b, c, "\r\n\r\n", 0);
      }
    }
  }

  // --- printed headers ---

  /** Every line with CRLF after it. */
  function Emit(lines: seq<string>): string {
    if lines == [] then "" else lines[0] + "\r\n" + Emit(lines[1..])
  }

  lemma {:induction false} EmitSnoc(lines: seq<string>, line: string)
    ensures Emit(lines + [line]) == Emit(lines) + line + "\r\n"
  {
    if lines == [] {
      assert Emit([line]) == line + "\r\n" + Emit([]);
    } else {
      assert (lines + [line])[1..] == lines[1..] + [line];
      EmitSnoc(lines[1..], line);
    }
  }

  /** A line that survives: not empty, no line feed in it. */
  predicate LineOk(line: string) {
    line != "" && '\n' !in line
  }

  predicate LinesOk(lines: seq<string>) {
    lines != [] && forall i :: 0 <= i < |lines| ==> LineOk(lines[i])
  }

  /** What splitting at line feeds gives back: every line but the last still ends in its carriage return. */
  function Received(lines: seq<string>): (r: seq<string>)
    ensures |r| == |lines|
  {
    seq(|lines|, i requires 0 <= i < |lines| => if i < |lines| - 1 then lines[i] + "\r" else lines[i])
  }

  /** The header without its terminator. */
  function HeaderText(lines: seq<string>): (r: string)
    requires lines != []
    ensures Emit(lines) == r + "\r\n"
  {
    if |lines| == 1 then
      assert Emit(lines[1..]) == "";
      lines[0]
    else lines[0] + "\r\n" + HeaderText(lines[1..])
  }

  lemma {:induction false} FieldsOfHeaderText(lines: seq<string>)
    requires LinesOk(lines)
    ensures Fields(HeaderText(lines), '\n', false) == Received(lines)
  {
    var text, first := HeaderText(lines), lines[0];
    if |lines| == 1 {
      assert FindChar(text, '\n', 0) == NPOS;
    } else {
      FindCharIs(text, '\n', 0, |first| + 1);
      assert text[..|first| + 1] == first + "\r";
      assert text[|first| + 2..] == HeaderText(lines[1..]);
      FieldsOfHeaderText(lines[1..]);
      assert Received(lines) == [first + "\r"] + Received(lines[1..]);
    }
  }

  lemma AtCrLf(s: string, i: nat)
    ensures At(s, "\r\n\r\n", i) ==> s[i] == '\r' && s[i + 1] == '\n' && s[i + 3] == '\n'
    ensures At(s, "\n\n", i) ==> s[i] == '\n' && s[i + 1] == '\n'
  {
    if At(s, "\r\n\r\n", i) {
      assert s[i..i + 4][0] == '\r' && s[i..i + 4][1] == '\n' && s[i..i + 4][3] == '\n';
    }
    if At(s, "\n\n", i) {
      assert s[i..i + 2][0] == '\n' && s[i..i + 2][1] == '\n';
    }
  }

  /** No empty line stands in a printed header before its end. */
  lemma {:induction false} NoEarlyEnd(lines: seq<string>, i: int)
    requires LinesOk(lines)
    ensures i < |HeaderText(lines)| ==> !At(Emit(lines) + "\r\n", "\r\n\r\n", i)
    ensures !At(Emit(lines) + "\r\n", "\n\n", i)
  {
    var first, rest := lines[0], Emit(lines[1..]) + "\r\n";
    PrintedRest(lines);
    hide Emit, HeaderText, At;
    var n := |first| + 2;
    if i >= n {
      Shifted(first + "\r\n", rest, "\r\n\r\n", i - n);
      Shifted(first + "\r\n", rest, "\n\n", i - n);
      if |lines| > 1 {
        NoEarlyEnd(lines[1..], i - n);
      } else {
        AtCrLf(rest, i - n);
      }
    } else if 0 <= i {
      NoEndInLine(first, rest, i);
    } else {
      NotAtNegative(Emit(lines) + "\r\n", i);
    }
  }

  lemma NotAtNegative(s: string, i: int)
    requires i < 0
    ensures !At(s, "\r\n\r\n", i) && !At(s, "\n\n", i)
  {
  }

  lemma PrintedRest(lines: seq<string>)
    requires LinesOk(lines)
    ensures var first, rest := lines[0], Emit(lines[1..]) + "\r\n";
            && Emit(lines) + "\r\n" == first + "\r\n" + rest
            && |HeaderText(lines)| == |first| + (if |lines| == 1 then 0 else 2 + |HeaderText(lines[1..])|)
            && |rest| >= 2 && rest[0] != '\n'
            && if |lines| == 1 then rest == "\r\n" else LinesOk(lines[1..]) && rest[1] != '\n'
  {
    var rest := Emit(lines[1..]) + "\r\n";
    if |lines| > 1 {
      assert rest == lines[1] + "\r\n" + Emit(lines[2..]) + "\r\n" by {
        assert lines[1..][1..] == lines[2..];
      }
      assert rest[0] == lines[1][0] && rest[1] == (lines[1] + "\r\n")[1];
    }
  }

  lemma NoEndInLine(line: string, rest: string, i: nat)
    requires LineOk(line) && i < |line| + 2 && |rest| >= 2 && rest[0] != '\n'
    ensures i < |line| || rest[1] != '\n' ==> !At(line + "\r\n" + rest, "\r\n\r\n", i)
    ensures !At(line + "\r\n" + rest, "\n\n", i)
  {
    AtCrLf(line + "\r\n" + rest, i);
  }

  lemma Shifted(s: string, t: string, pat: string, i: nat)
    ensures At(s + t, pat, |s| + i) <==> At(t, pat, i)
  {
    if i + |pat| <= |t| {
      assert (s + t)[|s| + i..|s| + i + |pat|] == t[i..i + |pat|];
    }
  }

  /** The end of a printed header is found where it was printed, whatever body follows. */
  lemma HeaderEndOfPrinted(lines: seq<string>, body: string)
    requires LinesOk(lines)
    ensures var text := HeaderText(lines);
            && HeaderEnd(Emit(lines) + "\r\n" + body) == Terminator(|text|, 4)
            && Find(Emit(lines) + "\r\n", "\r\n\r\n", 0) == |text|
            && Find(Emit(lines) + "\r\n", "\n\n", 0) == NPOS
  {
    var s, text := Emit(lines) + "\r\n", HeaderText(lines);
    assert s == text + "\r\n\r\n";
    assert At(s, "\r\n\r\n", |text|);
    forall i
      ensures i < |text| ==> !At(s, "\r\n\r\n", i)
      ensures !At(s, "\n\n", i)
    {
      NoEarlyEnd(lines, i);
    }
    FindIs(s, "\r\n\r\n", 0, |text|);
    FindAppend(s, body, "\r\n\r\n", 0);
    FindNone(s, "\n\n", 0);
  }

  // --- printed name and value pairs ---

  type Pair = (string, string)

  function PairLine(p: Pair): string {
    p.0 + ": " + p.1
  }

  /** Names and values that come back from a printed header line. */
  predicate PairOk(p: Pair) {
    && ':' !in p.0 && '\n' !in p.0
    && p.1 != "" && p.1[0] != ' '
    && forall i :: 0 <= i < |p.1| ==> 32 <= p.1[i] as int <= 126
  }

  lemma PrintableUpTo(s: string, n: nat)
    requires n <= |s| && forall i :: 0 <= i < n ==> 32 <= s[i] as int <= 126
    requires n < |s| ==> !(32 <= s[n] as int <= 126)
    ensures PrintableLength(s) == n
  {
  }

  predicate Spaces(s: string) {
    forall i :: 0 <= i < |s| ==> s[i] == ' '
  }

  /** A line with a colon and more than spaces behind it is a header: the name up to the first colon, in lower case,
      and the printable characters from the first that is no space on. */
  lemma HeaderLineParts(name: string, gap: string, rest: string, len: nat)
    requires ':' !in name && Spaces(gap) && rest != "" && rest[0] != ' ' && len == PrintableLength(rest)
    ensures HeaderLine(name + ":" + gap + rest) == Some((ToLower(name), rest[..len]))
  {
    hide FindChar, FindNotIn, PrintableLength, ToLower, Spaces;
    NameEnds(name, gap, rest);
    LinePieces(name, gap, rest, len);
  }

  /** Any other line is none. */
  lemma NoHeaderLine(name: string, gap: string)
    requires ':' !in name && Spaces(gap)
    ensures HeaderLine(name) == None && HeaderLine(name + ":" + gap) == None
  {
    FindCharIs(name + ":" + gap, ':', 0, |name|);
  }

  lemma LinePieces(name: string, gap: string, rest: string, len: nat)
    requires len <= |rest|
    ensures var n, line := |name| + 1 + |gap|, name + ":" + gap + rest;
            line[..|name|] == name && line[n..] == rest && line[n..n + len] == rest[..len]
  {
    assert name + ":" + gap + rest == (name + ":" + gap) + rest;
  }

  lemma NameEnds(name: string, gap: string, rest: string)
    requires ':' !in name && Spaces(gap) && rest != "" && rest[0] != ' '
    ensures var line := name + ":" + gap + rest;
            FindChar(line, ':', 0) == |name| && FindNotIn(line, {' '}, |name| + 1) == |name| + 1 + |gap|
  {
    FindCharIs(name + ":" + gap + rest, ':', 0, |name|);
    FindNotInIs(name + ":" + gap + rest, {' '}, |name| + 1, |name| + 1 + |gap|);
  }

  lemma HeaderLineOfPair(p: Pair, line: string)
    requires PairOk(p) && (line == PairLine(p) || line == PairLine(p) + "\r")
    ensures HeaderLine(line) == Some((ToLower(p.0), p.1))
  {
    hide HeaderLine, ToLower;
    var rest := if line == PairLine(p) then p.1 else p.1 + "\r";
    assert line == p.0 + ":" + " " + rest;
    PrintableUpTo(rest, |p.1|);
    HeaderLineParts(p.0, " ", rest, |p.1|);
    assert rest[..|p.1|] == p.1;
  }

  lemma PairLineOk(p: Pair)
    requires PairOk(p)
    ensures LineOk(PairLine(p))
  {
    assert PairLine(p)[|p.0|] == ':';
  }

  function EmplaceAll(m: map<string, string>, ps: seq<Pair>): map<string, string> {
    if ps == [] then m
    else
      var p := ps[|ps| - 1];
      Emplace(EmplaceAll(m, ps[..|ps| - 1]), ToLower(p.0), p.1)
  }

  /** The first value of a name stays, in whatever case the name comes back. */
  lemma {:induction false} FirstStays(m: map<string, string>, ps: seq<Pair>, i: nat)
    requires i < |ps| && forall j :: 0 <= j < i ==> ToLower(ps[j].0) != ToLower(ps[i].0)
    ensures var k, all := ToLower(ps[i].0), EmplaceAll(m, ps);
            k in all && all[k] == if k in m then m[k] else ps[i].1
  {
    hide ToLower;
    var n := |ps| - 1;
    if i < n {
      FirstStays(m, ps[..n], i);
    } else {
      OnlyNamed(m, ps[..n], ToLower(ps[i].0));
    }
  }

  lemma {:induction false} OnlyNamed(m: map<string, string>, ps: seq<Pair>, k: string)
    requires forall j :: 0 <= j < |ps| ==> ToLower(ps[j].0) != k
    ensures k in EmplaceAll(m, ps) <==> k in m
    ensures k in m ==> EmplaceAll(m, ps)[k] == m[k]
  {
    hide ToLower;
    if ps != [] {
      OnlyNamed(m, ps[..|ps| - 1], k);
    }
  }

  const TRANSFER_ENCODING := "transfer-encoding"

  /** The encodings listed in the pairs that have that name. */
  function EncodingsIn(ps: seq<Pair>): set<Encoding> {
    set p, f | p in ps && ToLower(p.0) == TRANSFER_ENCODING && f in EncodingsOf(p.1) :: f
  }

  lemma EncodingsSnoc(ps: seq<Pair>, p: Pair)
    ensures EncodingsIn(ps + [p])
         == EncodingsIn(ps) + if ToLower(p.0) == TRANSFER_ENCODING then EncodingsOf(p.1) else {}
  {
    hide ToLower, EncodingsOf;
  }

  /** Reading printed header lines stores every pair, the first of a name winning, and collects the encodings. */
  lemma {:induction false} AddHeadersOfPairs(m: Message, lines: seq<string>, ps: seq<Pair>)
    requires |lines| == |ps|
    requires forall i :: 0 <= i < |ps| ==>
      PairOk(ps[i]) && (lines[i] == PairLine(ps[i]) || lines[i] == PairLine(ps[i]) + "\r")
    ensures AddHeaders(m, lines)
         == m.(headers := EmplaceAll(m.headers, ps), encodings := m.encodings + EncodingsIn(ps))
  {
    hide HeaderLine, PairLine, PairOk, EncodingsOf, EncodingsIn;
    if ps == [] {
      NoEncodings();
    } else {
      var n := |ps| - 1;
      AddHeadersOfPairs(m, lines[..n], ps[..n]);
      HeaderLineOfPair(ps[n], lines[n]);
      EncodingsSnoc(ps[..n], ps[n]);
      assert ps[..n] + [ps[n]] == ps;
    }
  }

  lemma NoEncodings()
    ensures EncodingsIn([]) == {}
  {
  }

  lemma OtherHeaders(ps: seq<Pair>)
    requires forall i :: 0 <= i < |ps| ==> ToLower(ps[i].0) != TRANSFER_ENCODING
    ensures EncodingsIn(ps) == {}
  {
    hide ToLower, EncodingsOf;
  }

  /** The word stands in the list, between commas, in any case, with or without spaces in it. */
  ghost predicate ListsChunked(value: string) {
    exists f :: Listed(value, ',', true, f) && ToLower(f) == "chunked"
  }

  lemma ChunkedOf(value: string)
    ensures Chunked in EncodingsOf(value) <==> ListsChunked(value)
  {
    hide Listed, Fields, StringToEncoding, ToLower;
    forall f
      ensures StringToEncoding(f) == Chunked <==> ToLower(f) == "chunked"
      ensures f in Fields(value, ',', true) <==> f != "" && Listed(value, ',', true, f)
    {
      EncodingNames(f);
      FieldsAre(value, ',', true, f);
    }
    LowerEmpty();
  }

  /** A header says that the body is chunked if and only if a line named transfer-encoding, in any case, lists it. */
  lemma ChunkedIn(ps: seq<Pair>)
    ensures Chunked in EncodingsIn(ps)
       <==> exists p :: p in ps && ToLower(p.0) == TRANSFER_ENCODING && ListsChunked(p.1)
  {
    hide ListsChunked, EncodingsOf, ToLower;
    forall p: Pair
      ensures Chunked in EncodingsOf(p.1) <==> ListsChunked(p.1)
    {
      ChunkedOf(p.1);
    }
  }

  lemma LowerEmpty()
    ensures ToLower("") == ""
  {
  }

  lemma {:induction false} EmplaceAllAppend(m: map<string, string>, ps: seq<Pair>, qs: seq<Pair>)
    ensures EmplaceAll(m, ps + qs) == EmplaceAll(EmplaceAll(m, ps), qs)
  {
    if qs == [] {
      assert ps + qs == ps;
    } else {
      var n := |qs| - 1;
      assert (ps + qs)[..|ps| + n] == ps + qs[..n];
      EmplaceAllAppend(m, ps, qs[..n]);
    }
  }

  /** order is one way to iterate over the map: every key once. */
  predicate Enumerates(order: seq<string>, m: map<string, string>) {
    && (forall i :: 0 <= i < |order| ==> order[i] in m)
    && (forall i, j :: 0 <= i < j < |order| ==> order[i] != order[j])
    && (forall k :: k in m ==> k in order)
  }

  function PairsOf(order: seq<string>, m: map<string, string>): (ps: seq<Pair>)
    requires forall i :: 0 <= i < |order| ==> order[i] in m
    ensures |ps| == |order|
  {
    seq(|order|, i requires 0 <= i < |order| => (order[i], m[order[i]]))
  }

  predicate LowerKeys(m: map<string, string>) {
    forall k :: k in m ==> ToLower(k) == k
  }

  lemma {:induction false} EmplacePrefix(order: seq<string>, m: map<string, string>, n: nat)
    requires Enumerates(order, m) && LowerKeys(m) && n <= |order|
    ensures EmplaceAll(map[], PairsOf(order, m)[..n]) == map k | k in m && k in order[..n] :: m[k]
  {
    if n > 0 {
      EmplacePrefix(order, m, n - 1);
      var ps := PairsOf(order, m)[..n];
      assert ps[..n - 1] == PairsOf(order, m)[..n - 1];
      assert order[..n] == order[..n - 1] + [order[n - 1]];
      assert order[n - 1] !in order[..n - 1];
    }
  }

  /** Storing the pairs of a map, in whatever order it is iterated, gives the map back. */
  lemma EmplaceOrder(order: seq<string>, m: map<string, string>)
    requires Enumerates(order, m) && LowerKeys(m)
    ensures EmplaceAll(map[], PairsOf(order, m)) == m
  {
    EmplacePrefix(order, m, |order|);
    assert PairsOf(order, m)[..|order|] == PairsOf(order, m);
    assert order[..|order|] == order;
  }

  function PairLines(ps: seq<Pair>): (r: seq<string>)
    ensures |r| == |ps|
  {
    seq(|ps|, i requires 0 <= i < |ps| => PairLine(ps[i]))
  }

  /** A pair that comes back from its printed line under the same name. */
  predicate Stays(p: Pair) {
    PairOk(p) && ToLower(p.0) == p.0 && p.0 != "transfer-encoding"
  }

  lemma EmitOne(line: string)
    ensures Emit([line]) == line + "\r\n"
  {
    assert Emit([line][1..]) == "";
  }

  lemma EmitPair(lines: seq<string>, p: Pair)
    ensures Emit(lines + [PairLine(p)]) == Emit(lines) + (p.0 + ": " + p.1 + "\r\n")
  {
    EmitSnoc(lines, PairLine(p));
    hide Emit;
  }

  /** A header: its first line, then a line for each pair. */
  function HeadLines(first: string, ps: seq<Pair>): (lines: seq<string>)
    ensures |lines| == |ps| + 1
  {
    [first] + PairLines(ps)
  }

  lemma LinesOfPairs(first: string, ps: seq<Pair>)
    requires LineOk(first) && forall i :: 0 <= i < |ps| ==> PairOk(ps[i])
    ensures LinesOk(HeadLines(first, ps))
  {
    hide PairOk, LineOk;
    forall i | 0 <= i < |ps|
      ensures LineOk(PairLines(ps)[i])
    {
      PairLineOk(ps[i]);
    }
  }

  lemma ReceivedPairs(first: string, ps: seq<Pair>)
    requires LineOk(first) && forall i :: 0 <= i < |ps| ==> PairOk(ps[i])
    ensures var got := Fields(HeaderText(HeadLines(first, ps)), '\n', false);
            && |got| == |ps| + 1 && got[0] == (if ps == [] then first else first + "\r")
            && forall i :: 0 <= i < |ps| ==> got[i + 1] == PairLine(ps[i]) || got[i + 1] == PairLine(ps[i]) + "\r"
  {
    LinesOfPairs(first, ps);
    FieldsOfHeaderText(HeadLines(first, ps));
    ReceivedAt(first, ps);
    hide *;
  }

  lemma ReceivedAt(first: string, ps: seq<Pair>)
    ensures var got := Received(HeadLines(first, ps));
            && |got| == |ps| + 1 && got[0] == (if ps == [] then first else first + "\r")
            && forall i :: 0 <= i < |ps| ==> got[i + 1] == PairLine(ps[i]) || got[i + 1] == PairLine(ps[i]) + "\r"
  {
    hide PairLine;
    var lines := HeadLines(first, ps);
    forall i | 0 <= i < |ps|
      ensures lines[i + 1] == PairLine(ps[i])
    {
    }
  }

  function HeadOf(first: string, ps: seq<Pair>): string {
    Emit(HeadLines(first, ps))
  }

  lemma HeadPair(first: string, ps: seq<Pair>, p: Pair)
    ensures HeadOf(first, ps + [p]) == HeadOf(first, ps) + (p.0 + ": " + p.1 + "\r\n")
  {
    hide Emit;
    assert HeadLines(first, ps + [p]) == HeadLines(first, ps) + [PairLine(p)];
    EmitPair(HeadLines(first, ps), p);
  }

  // --- fragments ---

  function Concat(frags: seq<string>): string {
    if frags == [] then "" else frags[0] + Concat(frags[1..])
  }

  lemma FindShift(p: string, s: string, pat: string)
    ensures Find(p + s, pat, |p|) == if Find(s, pat, 0) == NPOS then NPOS else |p| + Find(s, pat, 0)
  {
    hide Find;
    forall i | |p| <= i
      ensures At(p + s, pat, i) <==> At(s, pat, i - |p|)
    {
      Shifted(p, s, pat, i - |p|);
    }
    var r := Find(s, pat, 0);
    if r == NPOS {
      FindNone(p + s, pat, |p|);
    } else {
      FindIs(p + s, pat, |p|, |p| + r);
    }
  }

  // --- the object ---

  /** The Http base object of a request or a response. */
  class Http {
    var headerData: map<string, string>
    var postData: map<string, string>
    var getData: map<string, string>
    var transferEncodings: set<Encoding>
    var body: string
    var requestType: RequestType
    var uri: string
    var status: int
    var version: Version

    function View(): Message
      reads this
    {
      Message(headerData, postData, getData, transferEncodings, body, requestType, uri, status, version)
    }

    constructor ()
      ensures View() == FRESH
    {
      headerData, postData, getData, transferEncodings := map[], map[], map[], {};
      body, requestType, uri, status, version := "", Unknown, "/", 200, V1_1;
    }

    /** header, as it is read: a header that is missing is put in, empty. */
    method Header(key: string) returns (value: string)
      modifies `headerData
      ensures value == Lookup(old(headerData), key)
      ensures headerData == old(headerData)[ToLower(key) := value]
    {
      var name := ToLower(key);
      if name !in headerData {
        headerData := headerData[name := ""];
      }
      value := headerData[name];
    }

    /** header, as it is assigned to. */
    method SetHeader(key: string, value: string)
      modifies `headerData
      ensures headerData == old(headerData)[ToLower(key) := value]
    {
      headerData := headerData[ToLower(key) := value];
    }

    method ParseHeaderLine(str: string)
      modifies this
      ensures View() == AddHeader(old(View()), str)
    {
      hide FindChar, FindNotIn, PrintableLength, ToLower, EncodingsOf, Emplace;
      var colonPos := FindChar(str, ':', 0);
      if colonPos == NPOS {
        return;
      }
      var dataBegin := FindNotIn(str, {' '}, colonPos + 1);
      if dataBegin == NPOS {
        return;
      }
      var dataLen := CountPrintable(str, dataBegin);
      var headerName := ToLower(Substr(str, 0, colonPos));
      var headerValue := Substr(str, dataBegin, dataLen);
      if headerName == "transfer-encoding" {
        StoreEncodings(headerValue);
      }
      headerData := Emplace(headerData, headerName, headerValue);
    }

    method StoreEncodings(headerValue: string)
      modifies `transferEncodings
      ensures transferEncodings == old(transferEncodings) + EncodingsOf(headerValue)
    {
      hide Fields;
      var encodings := SplitString(headerValue, ',', true);
      for i := 0 to |encodings|
        invariant transferEncodings
               == old(transferEncodings) + set f | f in encodings[..i] :: StringToEncoding(f)
      {
        assert encodings[..i + 1] == encodings[..i] + [encodings[i]];
        transferEncodings := transferEncodings + {StringToEncoding(encodings[i])};
      }
      assert encodings[..|encodings|] == encodings;
    }
  }

  /** The loop that measures a header value. */
  method CountPrintable(str: string, dataBegin: nat) returns (dataLen: nat)
    requires dataBegin <= |str|
    ensures dataLen == PrintableLength(str[dataBegin..])
  {
    ghost var rest := str[dataBegin..];
    dataLen := 0;
    for a := dataBegin to |str|
      invariant dataLen == a - dataBegin
      invariant forall j :: 0 <= j < dataLen ==> 32 <= rest[j] as int <= 126
    {
      assert rest[dataLen] == str[a];
      if 32 <= str[a] as int <= 126 {
        dataLen := dataLen + 1;
      } else {
        break;
      }
    }
    PrintableUpTo(rest, dataLen);
  }
}
