/** src/HttpResponse.cpp: the resumable parser as a function of its fields and the next fragment, the printer, and
    what they promise together. The class that runs them in place is at the end. */
module HttpResponse {
  import opened Chunked
  import opened Fragments
  import opened Http
  import opened Options
  import opened Text
  import opened Widths

  datatype Response = Response(http: Message, headerEnded: bool, contentLength: nat, chunkOffset: nat)

  const NEW := Response(FRESH, false, 0, 0)

  function WithBody(st: Response, body: string): Response {
    st.(http := st.http.(body := body))
  }

  function More(st: Response, data: string): Response {
    WithBody(st, st.http.body + data)
  }

  // --- parsing ---

  function StatusLine(st: Response, line: string): Option<Response> {
    var begin := FindChar(line, ' ', 0);
    if begin == NPOS then None
    else
      var end := FindChar(line, ' ', begin + 1);
      match Stoi(Substr(line, begin, end - begin))
      case None => None
      case Some(n) =>
        Some(st.(http := st.http.(
          status := n,
          version := if Substr(line, 0, begin) == "HTTP/1.0" then V1 else V1_1)))
  }

  function StoreLength(st: Response): (bool, Response) {
    if "content-length" !in st.http.headers then (true, st)
    else
      match Stoull(st.http.headers["content-length"], 10)
      case None => (false, st)
      case Some(n) => (true, st.(contentLength := n))
  }

  /** parse_header: false if there is no status line or a number in it is no number. */
  function HeaderParsed(st: Response, text: string): (bool, Response) {
    var lines := Fields(text, '\n', false);
    if lines == [] then (false, st)
    else
      match StatusLine(st, lines[0])
      case None => (false, st)
      case Some(st1) => StoreLength(st1.(http := AddHeaders(st1.http, lines[1..])))
  }

  /** The part of parse that follows the header. */
  function ParseBody(st: Response): (Response, Status) {
    var body, off := st.http.body, st.chunkOffset;
    if |body| > MAX_HTTP_BODY_SIZE then (st, HttpBodyTooBig)
    else if Chunked in st.http.encodings then
      if off > |body| then (st, NotEnoughData)
      else
        var d := Drain(body[off..]);
        (WithBody(st, body[..off] + d.decoded + d.left).(chunkOffset := off + |d.decoded|), d.status)
    else if st.contentLength > 0 && |body| > st.contentLength then
      (WithBody(st, body[..st.contentLength]), Success)
    else if |body| < st.contentLength then (st, NotEnoughData)
    else (st, Success)
  }

  /** The end of the header has been seen at pos. */
  function ParseFrom(s: Response, end: Terminator): (Response, Status)
    requires 0 <= end.pos && end.pos + end.size <= |s.http.body|
  {
    var body := s.http.body;
    var (ok, s1) := HeaderParsed(s.(headerEnded := true), body[..end.pos]);
    if ok then ParseBody(WithBody(s1, body[end.pos + end.size..])) else (s1, ParseError)
  }

  /** parse, once the fragment has been appended. */
  function ParseBuffer(s: Response): (Response, Status) {
    var body := s.http.body;
    if s.headerEnded then ParseBody(s)
    else if |body| >= 4 && body[..4] != "HTTP" then (s, ParseError)
    else
      var end := HeaderEnd(body);
      if end.pos == NPOS then
        (s, if |body| > MAX_HTTP_HEADER_SIZE then HttpHeaderTooBig else NotEnoughData)
      else if end.pos > MAX_HTTP_HEADER_SIZE then (s.(headerEnded := true), HttpHeaderTooBig)
      else ParseFrom(s, end)
  }

  function Parsed(st: Response, data: string): (Response, Status) {
    ParseBuffer(More(st, data))
  }

  // --- one call for two ---

  /** The bytes behind the header; none while there is no end of the header. */
  function RawBody(s: Response): string {
    var end := HeaderEnd(s.http.body);
    if s.headerEnded then s.http.body
    else if end.pos == NPOS then ""
    else s.http.body[end.pos + end.size..]
  }

  /** Fields as parse leaves them. */
  ghost predicate Valid(st: Response) {
    st.chunkOffset <= |st.http.body| && (!st.headerEnded ==> st.chunkOffset == 0)
  }

  /** If the buffer holds the end of the header, it is the end that is also found once b is there. */
  ghost predicate SameEnd(s: Response, b: string) {
    s.headerEnded || HeaderEnd(s.http.body).pos == NPOS || HeaderEnd(s.http.body + b) == HeaderEnd(s.http.body)
  }

  lemma ParseBodyValid(st: Response)
    requires st.chunkOffset <= |st.http.body|
    requires ParseBody(st).1 == NotEnoughData
    ensures ParseBody(st).0.chunkOffset <= |ParseBody(st).0.http.body|
    ensures |ParseBody(st).0.http.body| <= |st.http.body|
    ensures ParseBody(st).0.headerEnded == st.headerEnded
  {
    hide Drain;
    DrainShrinks(st.http.body[st.chunkOffset..]);
  }

  lemma CutBehind(p: string, q: string, r: string, b: string)
    ensures var t := p + q + r + b; t[..|p| + |q|] == p + q && t[|p| + |q|..] == r + b
  {
    assert p + q + r + b == (p + q) + (r + b);
  }

  /** The rest of parse may run on a body in two goes. */
  lemma MergeBody(st: Response, b: string)
    requires st.chunkOffset <= |st.http.body|
    requires ParseBody(st).1 == NotEnoughData && |st.http.body + b| <= MAX_HTTP_BODY_SIZE
    ensures ParseBody(More(ParseBody(st).0, b)) == ParseBody(More(st, b))
  {
    hide Drain;
    if Chunked in st.http.encodings {
      var off := st.chunkOffset;
      var p, raw := st.http.body[..off], st.http.body[off..];
      var d := Drain(raw);
      DrainShrinks(raw);
      DrainAppend(raw, b);
      var e := Drain(d.left + b);
      assert (st.http.body + b)[..off] == p && (st.http.body + b)[off..] == raw + b;
      CutBehind(p, d.decoded, d.left, b);
      assert p + d.decoded + e.decoded + e.left == p + (d.decoded + e.decoded) + e.left;
    }
  }

  /** The header is read from its text; the buffer behind it is left alone. */
  lemma HeaderParsedKeeps(st: Response, body: string, text: string)
    ensures HeaderParsed(WithBody(st, body), text)
         == (HeaderParsed(st, text).0, WithBody(HeaderParsed(st, text).1, body))
    ensures HeaderParsed(st, text).1.chunkOffset == st.chunkOffset
    ensures HeaderParsed(st, text).1.headerEnded == st.headerEnded
    ensures HeaderParsed(st, text).1.http.body == st.http.body
  {
    var lines := Fields(text, '\n', false);
    hide Fields, AddHeaders, Stoi, Stoull, FindChar, Substr;
    if lines != [] {
      match StatusLine(st, lines[0])
      case None =>
      case Some(st1) =>
        AddHeadersKeeps(st1.http, body, lines[1..]);
        AddHeadersKeeps(st1.http, st1.http.body, lines[1..]);
    }
  }

  /** What the header makes of the fields, whatever is in the buffer. */
  function Headed(s: Response, text: string): (bool, Response) {
    HeaderParsed(WithBody(s, "").(headerEnded := true), text)
  }

  lemma ParseFromIs(s: Response, end: Terminator, text: string, rest: string)
    requires 0 <= end.pos && end.pos + end.size <= |s.http.body|
    requires text == s.http.body[..end.pos] && rest == s.http.body[end.pos + end.size..]
    ensures Headed(s, text).1.chunkOffset == s.chunkOffset && Headed(s, text).1.headerEnded
    ensures ParseFrom(s, end) == if Headed(s, text).0 then ParseBody(WithBody(Headed(s, text).1, rest))
                                 else (WithBody(Headed(s, text).1, s.http.body), ParseError)
  {
    hide ParseBody, HeaderParsed;
    HeaderParsedKeeps(WithBody(s, "").(headerEnded := true), s.http.body, text);
  }

  lemma MergeHeader(s: Response, end: Terminator, b: string)
    requires 0 <= end.pos && end.pos + end.size <= |s.http.body|
    requires s.chunkOffset == 0 && ParseFrom(s, end).1 == NotEnoughData
    requires |s.http.body| - end.pos - end.size + |b| <= MAX_HTTP_BODY_SIZE
    ensures Valid(ParseFrom(s, end).0) && ParseFrom(s, end).0.headerEnded
    ensures ParseBuffer(More(ParseFrom(s, end).0, b)) == ParseFrom(More(s, b), end)
  {
    hide ParseBody, ParseFrom, Headed;
    var x, text, rest := s.http.body, s.http.body[..end.pos], s.http.body[end.pos + end.size..];
    assert (x + b)[..end.pos] == text && (x + b)[end.pos + end.size..] == rest + b;
    ParseFromIs(s, end, text, rest);
    ParseFromIs(More(s, b), end, text, rest + b);
    HeadedKeeps(s, x + b, text);
    var s1 := WithBody(Headed(s, text).1, rest);
    ParseBodyValid(s1);
    MergeBody(s1, b);
  }

  lemma HeadedKeeps(s: Response, body: string, text: string)
    ensures Headed(WithBody(s, body), text) == Headed(s, text)
  {
  }

  /** A header with a status line has four bytes at least, so its first four have been looked at. */
  lemma HeaderIsLong(s: Response, end: Terminator)
    requires 0 <= end.pos && 2 <= end.size && end.pos + end.size <= |s.http.body|
    requires ParseFrom(s, end).1 == NotEnoughData
    ensures 4 <= |s.http.body|
  {
    if end.pos <= 1 {
      NoStatusLine(s.(headerEnded := true), s.http.body[..end.pos]);
    }
  }

  lemma NoStatusLine(st: Response, text: string)
    requires |text| <= 1
    ensures !HeaderParsed(st, text).0
  {
    assert |text| == 1 ==> text[1..] == "";
    assert Fields("", '\n', false) == [];
    if Fields(text, '\n', false) != [] {
      assert Fields(text, '\n', false) == [text];
      assert SkipSpace(text) == "" || FindChar(text, ' ', 0) == NPOS;
    }
  }

  lemma MergeBuffer(s: Response, b: string)
    requires Valid(s) && ParseBuffer(s).1 == NotEnoughData
    requires SameEnd(s, b) && |RawBody(More(s, b))| <= MAX_HTTP_BODY_SIZE
    ensures Valid(ParseBuffer(s).0)
    ensures ParseBuffer(More(ParseBuffer(s).0, b)) == ParseBuffer(More(s, b))
  {
    hide ParseBody, ParseFrom, HeaderEnd;
    var x := s.http.body;
    if s.headerEnded {
      ParseBodyValid(s);
      MergeBody(s, b);
    } else if HeaderEnd(x).pos != NPOS {
      HeaderEndWithin(x);
      MergeHeader(s, HeaderEnd(x), b);
      HeaderIsLong(s, HeaderEnd(x));
      assert (x + b)[..4] == x[..4];
    }
  }

  /** Two calls, the first of which could not finish, are one call on both fragments. */
  lemma Merge(st: Response, a: string, b: string)
    requires Valid(st) && Parsed(st, a).1 == NotEnoughData
    requires SameEnd(More(st, a), b) && |RawBody(More(st, a + b))| <= MAX_HTTP_BODY_SIZE
    ensures Valid(Parsed(st, a).0)
    ensures Parsed(Parsed(st, a).0, b) == Parsed(st, a + b)
  {
    hide ParseBuffer, RawBody, SameEnd;
    assert st.http.body + a + b == st.http.body + (a + b);
    MergeBuffer(More(st, a), b);
  }

  /** Where the hypothesis on the header's end fails, the split shows: if the first fragment ends the header with
      an empty LF line and the second brings an empty CRLF line, two calls keep more of the body than one. */
  lemma SplitShows(st: Response, a: string, b: string)
    requires !st.headerEnded && Valid(st)
    requires Parsed(st, a).1 == NotEnoughData && Parsed(st, a + b).1 == NotEnoughData
    requires HeaderEnd(st.http.body + a).pos != NPOS
    requires Chunked !in Parsed(st, a).0.http.encodings && Chunked !in Parsed(st, a + b).0.http.encodings
    requires |RawBody(More(st, a + b))| <= MAX_HTTP_BODY_SIZE
    ensures Parsed(Parsed(st, a).0, b) == Parsed(st, a + b) <==> SameEnd(More(st, a), b)
  {
    hide Parsed, RawBody;
    if SameEnd(More(st, a), b) {
      Merge(st, a, b);
    } else {
      SplitKeepsMore(st, a, b);
    }
  }

  lemma SplitKeepsMore(st: Response, a: string, b: string)
    requires !st.headerEnded
    requires Parsed(st, a).1 == NotEnoughData && Parsed(st, a + b).1 == NotEnoughData
    requires HeaderEnd(st.http.body + a).pos != NPOS && HeaderEnd(st.http.body + a + b) != HeaderEnd(st.http.body + a)
    requires Chunked !in Parsed(st, a).0.http.encodings && Chunked !in Parsed(st, a + b).0.http.encodings
    ensures Parsed(Parsed(st, a).0, b) != Parsed(st, a + b)
  {
    hide Parsed, HeaderEnd;
    assert st.http.body + a + b == st.http.body + (a + b);
    LaterEnd(st.http.body + a, b);
    UnchunkedLeft(st, a);
    UnchunkedLeft(st, a + b);
    if Parsed(Parsed(st, a).0, b).1 == NotEnoughData {
      UnchunkedMore(Parsed(st, a).0, b);
    }
  }

  lemma LaterEnd(x: string, b: string)
    requires HeaderEnd(x).pos != NPOS && HeaderEnd(x + b) != HeaderEnd(x)
    ensures HeaderEnd(x + b).pos != NPOS
    ensures HeaderEnd(x + b).pos + HeaderEnd(x + b).size > HeaderEnd(x).pos + HeaderEnd(x).size
  {
    HeaderEndStable(x, b);
    HeaderEndWithin(x);
    var p := Find(x + b, "\r\n\r\n", 0);
    hide Find;
    if p + 4 <= |x| {
      AtPrefix(x, b, "\r\n\r\n", p);
    }
  }

  /** A sized message that is not complete keeps every byte behind its header. */
  lemma UnchunkedLeft(st: Response, a: string)
    requires !st.headerEnded && HeaderEnd(st.http.body + a).pos != NPOS && Parsed(st, a).1 == NotEnoughData
    requires Chunked !in Parsed(st, a).0.http.encodings
    ensures var end := HeaderEnd(st.http.body + a);
            |Parsed(st, a).0.http.body| == |st.http.body + a| - end.pos - end.size
    ensures Parsed(st, a).0.headerEnded
  {
    hide Drain, HeaderParsed, ParseFrom;
    var s := More(st, a);
    var end := HeaderEnd(s.http.body);
    HeaderEndWithin(s.http.body);
    hide HeaderEnd, Headed;
    ParseFromIs(s, end, s.http.body[..end.pos], s.http.body[end.pos + end.size..]);
  }

  lemma UnchunkedMore(s: Response, b: string)
    requires s.headerEnded && Chunked !in s.http.encodings && Parsed(s, b).1 == NotEnoughData
    ensures Parsed(s, b).0.http.body == s.http.body + b
  {
  }

  // --- exceptions ---

  /** The fields with which what is behind the header is looked at, if it is. */
  function BehindHeader(s: Response): Option<Response> {
    var body, end := s.http.body, HeaderEnd(s.http.body);
    if s.headerEnded then Some(s)
    else if (|body| >= 4 && body[..4] != "HTTP") || !(0 <= end.pos <= MAX_HTTP_HEADER_SIZE) then None
    else
      HeaderEndWithin(body);
      var (ok, s1) := Headed(s, body[..end.pos]);
      if ok then Some(WithBody(s1, body[end.pos + end.size..])) else None
  }

  /** The chunk loop comes to a bad line behind whole chunks. */
  ghost predicate BodyThrows(st: Response) {
    && Chunked in st.http.encodings && |st.http.body| <= MAX_HTTP_BODY_SIZE
    && st.chunkOffset <= |st.http.body| && Throws(st.http.body[st.chunkOffset..])
  }

  /** Exactly then an exception leaves parse; none leaves the header. */
  lemma ParseThrows(st: Response, data: string)
    ensures Parsed(st, data).1 == Thrown <==>
              var s := BehindHeader(More(st, data)); s.Some? && BodyThrows(s.value)
  {
    var s := More(st, data);
    var end := HeaderEnd(s.http.body);
    HeaderEndWithin(s.http.body);
    hide HeaderEnd, ParseFrom, ParseBody, Headed, BodyThrows;
    if !s.headerEnded && 0 <= end.pos {
      ParseFromIs(s, end, s.http.body[..end.pos], s.http.body[end.pos + end.size..]);
    }
    if BehindHeader(s).Some? {
      ParseBodyThrows(BehindHeader(s).value);
    }
  }

  lemma ParseBodyThrows(st: Response)
    ensures ParseBody(st).1 == Thrown <==> BodyThrows(st)
  {
    hide Drain, Throws;
    if st.chunkOffset <= |st.http.body| <= MAX_HTTP_BODY_SIZE {
      DrainThrows(st.http.body[st.chunkOffset..]);
    }
  }

  // --- whole messages in fragments ---

  /** No prefix of the stream shows another end of the header than the whole. */
  ghost predicate OneEnd(st: Response, stream: string) {
    forall n :: 0 <= n <= |stream| ==> SameEnd(More(st, stream[..n]), stream[n..])
  }

  /** Merge, with the hypotheses known of a longer stream. */
  lemma MergePart(st: Response, a: string, b: string, c: string)
    requires Valid(st) && Parsed(st, a).1 == NotEnoughData
    requires SameEnd(More(st, a), b + c) && SameEnd(More(st, a + b), c)
    requires |RawBody(More(st, a + (b + c)))| <= MAX_HTTP_BODY_SIZE
    ensures Parsed(Parsed(st, a).0, b) == Parsed(st, a + b)
  {
    hide *;
    SameEndBetween(More(st, a), b, c);
    RawBodyGrows(More(st, a + b), c);
    MoreTwice(st, a, b, c);
    Merge(st, a, b);
  }

  /** Where the header has one end, any two calls in a row are one. */
  lemma StreamJoins(st: Response, stream: string)
    requires Valid(st) && OneEnd(st, stream)
    requires |RawBody(More(st, stream))| <= MAX_HTTP_BODY_SIZE
    ensures Joins(Parsed, st, stream)
  {
    hide Parsed, SameEnd, Valid, RawBody;
    forall i, j | 0 <= i <= j <= |stream| && Parsed(st, stream[..i]).1 == NotEnoughData
      ensures Parsed(Parsed(st, stream[..i]).0, stream[i..j]) == Parsed(st, stream[..j])
    {
      assert stream[..i] + stream[i..j] == stream[..j] && stream[i..j] + stream[j..] == stream[i..];
      assert stream[..i] + (stream[i..j] + stream[j..]) == stream;
      MergePart(st, stream[..i], stream[i..j], stream[j..]);
    }
  }

  lemma SameEndBetween(s: Response, b: string, c: string)
    requires SameEnd(s, b + c)
    ensures SameEnd(s, b)
  {
    hide HeaderEnd;
    if !s.headerEnded {
      EndBetween(s.http.body, b, c);
    }
  }

  lemma MoreTwice(st: Response, a: string, b: string, c: string)
    ensures More(More(st, a + b), c) == More(st, a + (b + c))
  {
    assert st.http.body + (a + b) + c == st.http.body + (a + (b + c));
  }

  lemma RawBodyGrows(s: Response, c: string)
    requires SameEnd(s, c)
    ensures |RawBody(s)| <= |RawBody(More(s, c))|
  {
    HeaderEndWithin(s.http.body);
    hide HeaderEnd;
  }

  /** A header that begins as a response does, with its one end behind it, and that parse_header accepts. */
  ghost predicate HeadOk(text: string) {
    "HTTP" <= text + "\r\n\r\n" && OneHeader(text) && Headed(NEW, text).0
  }

  lemma HeadParses(text: string, raw: string)
    requires HeadOk(text)
    ensures Parsed(NEW, text + "\r\n\r\n" + raw) == ParseBody(WithBody(Headed(NEW, text).1, raw))
  {
    var h := text + "\r\n\r\n";
    var s := WithBody(NEW, h + raw);
    assert "" + (h + raw) == h + raw;
    HeadEnd(text, raw);
    HeadStarts(text, raw);
    HeadedKeeps(NEW, h + raw, text);
    assert (h + raw)[..|text|] == text && (h + raw)[|text| + 4..] == raw;
    hide ParseBody, Headed, HeaderEnd, ParseFrom, ParseBuffer, HeadOk;
    BufferWithEnd(s, Terminator(|text|, 4));
    ParseFromIs(s, Terminator(|text|, 4), text, raw);
  }

  lemma BufferWithEnd(s: Response, end: Terminator)
    requires !s.headerEnded && |s.http.body| >= 4 && s.http.body[..4] == "HTTP"
    requires HeaderEnd(s.http.body) == end
    requires 0 <= end.pos <= MAX_HTTP_HEADER_SIZE && end.pos + end.size <= |s.http.body|
    ensures ParseBuffer(s) == ParseFrom(s, end)
  {
    hide HeaderEnd, ParseFrom;
  }

  lemma HeadStarts(text: string, raw: string)
    requires HeadOk(text)
    ensures |text| <= MAX_HTTP_HEADER_SIZE && Headed(NEW, text).0
    ensures (text + "\r\n\r\n" + raw)[..4] == "HTTP"
  {
    hide Find, Headed;
    assert (text + "\r\n\r\n" + raw)[..4] == (text + "\r\n\r\n")[..4];
  }

  lemma HeadPrefix(text: string, p: string, q: string)
    requires HeadOk(text) && p + q == text + "\r\n\r\n" && q != ""
    ensures Parsed(NEW, p) == (WithBody(NEW, p), NotEnoughData)
  {
    HeadNoEnd(text, p, q);
    hide HeaderEnd, Find, Headed;
    assert "" + p == p;
    assert |p| >= 4 ==> p[..4] == (p + q)[..4];
  }

  lemma HeadOneEnd(text: string, raw: string)
    requires HeadOk(text)
    ensures OneEnd(NEW, text + "\r\n\r\n" + raw)
  {
    var stream := text + "\r\n\r\n" + raw;
    hide HeaderEnd, Headed, OneHeader;
    forall n | 0 <= n <= |stream|
      ensures SameEnd(More(NEW, stream[..n]), stream[n..])
    {
      EndOnce(text, raw, n);
      assert "" + stream[..n] == stream[..n] && stream[..n] + stream[n..] == stream;
    }
  }

  /** What follows the header asks for more until it is complete. */
  ghost predicate PatientBody(st: Response, raw: string) {
    forall n :: 0 <= n < |raw| ==> ParseBody(WithBody(st, raw[..n])).1 == NotEnoughData
  }

  lemma HeadPatient(text: string, raw: string)
    requires HeadOk(text) && PatientBody(Headed(NEW, text).1, raw)
    ensures Patient(Parsed, NEW, text + "\r\n\r\n" + raw)
  {
    var h := text + "\r\n\r\n";
    var stream := h + raw;
    hide Parsed, ParseBody, HeadOk, Headed;
    forall n | 0 <= n < |stream|
      ensures Parsed(NEW, stream[..n]).1 == NotEnoughData
    {
      if n < |h| {
        assert stream[..n] + h[n..] == h;
        HeadPrefix(text, stream[..n], h[n..]);
      } else {
        assert stream[..n] == h + raw[..n - |h|];
        HeadParses(text, raw[..n - |h|]);
      }
    }
  }

  /** A header and a body behind it are a stream that may be cut anywhere. */
  lemma Stream(text: string, raw: string)
    requires HeadOk(text) && PatientBody(Headed(NEW, text).1, raw) && |raw| <= MAX_HTTP_BODY_SIZE
    ensures Patient(Parsed, NEW, text + "\r\n\r\n" + raw) && Joins(Parsed, NEW, text + "\r\n\r\n" + raw)
    ensures Parsed(NEW, "") == (NEW, NotEnoughData)
  {
    var h, stream := text + "\r\n\r\n", text + "\r\n\r\n" + raw;
    HeadPatient(text, raw);
    HeadOneEnd(text, raw);
    HeadEnd(text, raw);
    HeadPrefix(text, "", h);
    assert stream[|text| + 4..] == raw && "" + h == h;
    assert RawBody(More(NEW, stream)) == raw by {
      assert More(NEW, stream).http.body == stream;
    }
    hide Parsed, ParseBody, Headed, HeadOk, RawBody, OneEnd, PatientBody;
    StreamJoins(NEW, stream);
  }

  /** A header and a body behind it, in any fragments: the result is that of the body as a whole. */
  lemma FragmentsOfMessage(text: string, raw: string, frags: seq<string>)
    requires HeadOk(text) && PatientBody(Headed(NEW, text).1, raw) && |raw| <= MAX_HTTP_BODY_SIZE
    requires Concat(frags) == text + "\r\n\r\n" + raw
    ensures Feed(Parsed, NEW, frags) == Parsed(NEW, Concat(frags)) == ParseBody(WithBody(Headed(NEW, text).1, raw))
    ensures Patient(Parsed, NEW, Concat(frags))
  {
    hide *;
    Stream(text, raw);
    HeadParses(text, raw);
    FeedWhole(Parsed, NEW, frags);
  }

  /** As long as something is missing at the end, the answer is that more data is needed. */
  lemma PartialMessage(text: string, raw: string, frags: seq<string>, rest: string)
    requires HeadOk(text) && PatientBody(Headed(NEW, text).1, raw) && |raw| <= MAX_HTTP_BODY_SIZE
    requires Concat(frags) + rest == text + "\r\n\r\n" + raw && rest != ""
    ensures Feed(Parsed, NEW, frags).1 == NotEnoughData
  {
    hide *;
    Stream(text, raw);
    FeedPart(Parsed, NEW, frags, rest);
  }

  /** Chunked fragmentation independence: header and chunk stream, cut anywhere, end in Success with the data of
      the chunks as the body; until then every call asks for more. */
  lemma ChunkedMessage(text: string, cs: seq<Chunk>, frags: seq<string>)
    requires HeadOk(text) && Chunked in Headed(NEW, text).1.http.encodings
    requires StreamOk(cs) && |EncodeChunks(cs)| <= MAX_HTTP_BODY_SIZE
    requires Concat(frags) == text + "\r\n\r\n" + EncodeChunks(cs)
    ensures Feed(Parsed, NEW, frags)
         == (WithBody(Headed(NEW, text).1, DataOf(cs)).(chunkOffset := |DataOf(cs)|), Success)
    ensures Parsed(NEW, Concat(frags)) == Feed(Parsed, NEW, frags) && Patient(Parsed, NEW, Concat(frags))
  {
    var raw, st := EncodeChunks(cs), Headed(NEW, text).1;
    HeadedStart(text);
    SizesWithin(cs);
    hide HeadOk, Drain, Headed, StreamOk, EncodeChunks;
    assert PatientBody(st, raw) by {
      forall n | 0 <= n < |raw|
        ensures ParseBody(WithBody(st, raw[..n])).1 == NotEnoughData
      {
        DrainStreamPrefix(cs, raw[..n], raw[n..]);
        assert raw[..n][0..] == raw[..n];
      }
    }
    FragmentsOfMessage(text, raw, frags);
    DrainStream(cs, "");
    assert raw + "" == raw && raw[0..] == raw && raw[..0] == "";
    assert "" + DataOf(cs) + "" == DataOf(cs);
  }

  lemma {:induction false} SizesWithin(cs: seq<Chunk>)
    ensures SizesBelow(cs, |EncodeChunks(cs)| + 1)
  {
    if cs != [] {
      SizesWithin(cs[1..]);
      forall i | 0 < i < |cs|
        ensures |cs[i].data| <= |EncodeChunks(cs[1..])|
      {
        assert cs[1..][i - 1] == cs[i];
      }
    }
  }

  lemma HeadedStart(text: string)
    ensures Headed(NEW, text).1.chunkOffset == 0
  {
    HeaderParsedKeeps(WithBody(NEW, "").(headerEnded := true), "", text);
  }

  /** The same for a body as long as its Content-Length says. */
  lemma SizedMessage(text: string, raw: string, frags: seq<string>)
    requires HeadOk(text) && Chunked !in Headed(NEW, text).1.http.encodings
    requires |raw| == Headed(NEW, text).1.contentLength <= MAX_HTTP_BODY_SIZE
    requires Concat(frags) == text + "\r\n\r\n" + raw
    ensures Feed(Parsed, NEW, frags) == (WithBody(Headed(NEW, text).1, raw), Success)
    ensures Parsed(NEW, Concat(frags)) == Feed(Parsed, NEW, frags) && Patient(Parsed, NEW, Concat(frags))
  {
    hide HeadOk, Headed;
    FragmentsOfMessage(text, raw, frags);
  }

  // --- what is behind the header ---

  /** Without a Content-Length everything behind the header is the body. */
  lemma UnsizedMessage(text: string, raw: string)
    requires HeadOk(text) && Chunked !in Headed(NEW, text).1.http.encodings && |raw| <= MAX_HTTP_BODY_SIZE
    requires Headed(NEW, text).1.contentLength == 0
    ensures Parsed(NEW, text + "\r\n\r\n" + raw) == (WithBody(Headed(NEW, text).1, raw), Success)
  {
    HeadParses(text, raw);
    hide HeadOk, Headed, Parsed;
  }

  /** With one, what is behind that many bytes is cut off. */
  lemma LongerMessage(text: string, raw: string)
    requires HeadOk(text) && Chunked !in Headed(NEW, text).1.http.encodings && |raw| <= MAX_HTTP_BODY_SIZE
    requires 0 < Headed(NEW, text).1.contentLength < |raw|
    ensures Parsed(NEW, text + "\r\n\r\n" + raw)
         == (WithBody(Headed(NEW, text).1, raw[..Headed(NEW, text).1.contentLength]), Success)
  {
    HeadParses(text, raw);
    hide HeadOk, Headed, Parsed;
  }

  /** More than the limit is refused, chunked or not, and nothing of it is lost. */
  lemma BigMessage(text: string, raw: string)
    requires HeadOk(text) && |raw| > MAX_HTTP_BODY_SIZE
    ensures Parsed(NEW, text + "\r\n\r\n" + raw) == (WithBody(Headed(NEW, text).1, raw), HttpBodyTooBig)
  {
    HeadParses(text, raw);
    hide HeadOk, Headed, Parsed;
  }

  /** A header whose lines end in LF alone is read like any other. */
  lemma LfMessage(text: string, raw: string)
    requires "HTTP" <= text && |text| <= MAX_HTTP_HEADER_SIZE && Headed(NEW, text).0
    requires Find(text + "\n\n", "\n\n", 0) == |text| && Find(text + "\n\n" + raw, "\r\n\r\n", 0) == NPOS
    ensures Parsed(NEW, text + "\n\n" + raw) == ParseBody(WithBody(Headed(NEW, text).1, raw))
  {
    var data, end := text + "\n\n" + raw, Terminator(|text|, 2);
    LfHeaderEnd(text, raw);
    MoreOfNew(data);
    assert data[..4] == text[..4] == "HTTP" && data[..|text|] == text && data[|text| + 2..] == raw;
    HeadedKeeps(NEW, data, text);
    hide *;
    BufferWithEnd(WithBody(NEW, data), end);
    ParseFromIs(WithBody(NEW, data), end, text, raw);
  }

  lemma MoreOfNew(data: string)
    ensures WithBody(NEW, data).http.body == data && !WithBody(NEW, data).headerEnded
    ensures Parsed(NEW, data) == ParseBuffer(WithBody(NEW, data))
  {
    assert "" + data == data;
    hide ParseBuffer;
  }

  // --- what is refused ---

  /** Before the end of the header: anything but HTTP, and more than a header may have; everything else is waited
      for. */
  lemma NoEndYet(data: string)
    requires Find(data, "\r\n\r\n", 0) == NPOS && Find(data, "\n\n", 0) == NPOS
    ensures Parsed(NEW, data)
         == (WithBody(NEW, data),
             if |data| >= 4 && !("HTTP" <= data) then ParseError
             else if |data| > MAX_HTTP_HEADER_SIZE then HttpHeaderTooBig
             else NotEnoughData)
  {
    hide *;
    HeaderEndForm(data);
    StartsHttp(data);
    MoreOfNew(data);
    BufferNoEnd(WithBody(NEW, data));
  }

  lemma StartsHttp(data: string)
    ensures |data| >= 4 ==> (data[..4] == "HTTP" <==> "HTTP" <= data)
  {
  }

  lemma BufferNoEnd(s: Response)
    requires !s.headerEnded && HeaderEnd(s.http.body).pos == NPOS
    ensures var body := s.http.body;
            ParseBuffer(s)
            == (s, if |body| >= 4 && body[..4] != "HTTP" then ParseError
                   else if |body| > MAX_HTTP_HEADER_SIZE then HttpHeaderTooBig
                   else NotEnoughData)
  {
    hide HeaderEnd, ParseFrom, ParseBody;
  }

  /** An end of the header that comes too late. */
  lemma LateEnd(data: string)
    requires "HTTP" <= data && HeaderEnd(data).pos > MAX_HTTP_HEADER_SIZE
    ensures var (s, r) := Parsed(NEW, data); r == HttpHeaderTooBig && s.headerEnded && s.http.body == data
  {
    MoreOfNew(data);
    hide HeaderEnd;
  }

  /** A header that parse_header does not accept. */
  lemma BadHead(text: string, raw: string)
    requires "HTTP" <= text && OneHeader(text) && !Headed(NEW, text).0
    ensures Parsed(NEW, text + "\r\n\r\n" + raw).1 == ParseError
  {
    var data, end := text + "\r\n\r\n" + raw, Terminator(|text|, 4);
    HeadEnd(text, raw);
    MoreOfNew(data);
    assert |text| <= MAX_HTTP_HEADER_SIZE;
    assert data[..4] == text[..4] == "HTTP" && data[..|text|] == text && data[|text| + 4..] == raw;
    HeadedKeeps(NEW, data, text);
    hide *;
    BufferWithEnd(WithBody(NEW, data), end);
    ParseFromIs(WithBody(NEW, data), end, text, raw);
  }

  // --- headers as they are received ---

  /** The protocol, a blank, the code, and whatever follows it. */
  function StatusOf(proto: string, n: nat, tail: string): string {
    proto + " " + Print(n, 10) + tail
  }

  predicate StatusOk(proto: string, n: nat, tail: string) {
    && "HTTP" <= proto && ' ' !in proto && '\n' !in proto && n < 0x8000_0000
    && '\n' !in tail && (tail == "" || DigitValue(tail[0]) >= 10)
  }

  lemma StatusLineParts(st: Response, proto: string, n: nat, tail: string)
    requires ' ' !in proto && n < 0x8000_0000 && (tail == "" || DigitValue(tail[0]) >= 10)
    ensures StatusLine(st, StatusOf(proto, n, tail))
         == Some(st.(http := st.http.(status := n, version := if proto == "HTTP/1.0" then V1 else V1_1)))
  {
    hide Stoi, Print;
    var line, k, digits := StatusOf(proto, n, tail), |proto|, Print(n, 10);
    DecimalChars(n);
    FindCharIs(line, ' ', 0, k);
    var end := FindChar(line, ' ', k + 1);
    assert end == NPOS || end >= k + 1 + |digits| by {
      assert forall i :: 0 <= i < |digits| ==> line[k + 1 + i] == digits[i];
      if end != NPOS {
        CharFound(line, ' ', k + 1);
      }
    }
    hide FindChar;
    var part := if end == NPOS then tail else tail[..end - k - 1 - |digits|];
    assert Substr(line, k, end - k) == " " + digits + part;
    StoiPrint(n, part);
    assert line[0..k] == proto;
  }

  /** What a header leaves before its length is looked at. */
  function ReadHead(proto: string, n: nat, ps: seq<Pair>): Response {
    Response(FRESH.(headers := EmplaceAll(map[], ps), encodings := EncodingsIn(ps), status := n,
                    version := if proto == "HTTP/1.0" then V1 else V1_1), true, 0, 0)
  }

  lemma ReadHeadIs(proto: string, n: nat, ps: seq<Pair>, st: Response)
    requires st.http == FRESH.(headers := EmplaceAll(map[], ps), encodings := EncodingsIn(ps), status := n,
                               version := if proto == "HTTP/1.0" then V1 else V1_1)
    requires st.headerEnded && st.contentLength == 0 && st.chunkOffset == 0
    ensures ReadHead(proto, n, ps) == st
  {
  }

  lemma HeaderOfPairs(st0: Response, st1: Response, text: string, ps: seq<Pair>)
    requires var got := Fields(text, '\n', false);
             && |got| == |ps| + 1 && StatusLine(st0, got[0]) == Some(st1)
             && forall i :: 0 <= i < |ps| ==> got[i + 1] == PairLine(ps[i]) || got[i + 1] == PairLine(ps[i]) + "\r"
    requires forall i :: 0 <= i < |ps| ==> PairOk(ps[i])
    ensures HeaderParsed(st0, text)
         == StoreLength(st1.(http := st1.http.(headers := EmplaceAll(st1.http.headers, ps),
                                               encodings := st1.http.encodings + EncodingsIn(ps))))
  {
    hide Fields, StatusLine, PairOk, PairLine, StoreLength, EmplaceAll, EncodingsIn, AddHeaders;
    var got := Fields(text, '\n', false);
    AddHeadersOfPairs(st1.http, got[1..], ps);
  }

  lemma StatusOfLine(proto: string, n: nat, tail: string)
    requires StatusOk(proto, n, tail)
    ensures var first := StatusOf(proto, n, tail);
            LineOk(first) && "HTTP" <= first && |first| > 4 && StatusOf(proto, n, tail + "\r") == first + "\r"
    ensures ' ' !in proto && n < 0x8000_0000 && (tail == "" || DigitValue(tail[0]) >= 10)
    ensures DigitValue((tail + "\r")[0]) >= 10
  {
    DecimalChars(n);
    hide Print;
    var first := StatusOf(proto, n, tail);
    assert first[|proto|] == ' ';
  }

  /** Status line and name-and-value lines as they come in are read as what they say. */
  lemma HeadedOfText(proto: string, n: nat, tail: string, ps: seq<Pair>)
    requires StatusOk(proto, n, tail) && forall i :: 0 <= i < |ps| ==> PairOk(ps[i])
    ensures Headed(NEW, HeaderText(HeadLines(StatusOf(proto, n, tail), ps))) == StoreLength(ReadHead(proto, n, ps))
  {
    var first := StatusOf(proto, n, tail);
    var text, st0 := HeaderText(HeadLines(first, ps)), Response(FRESH, true, 0, 0);
    HeadedForm(text);
    ReadHeadForm(proto, n, ps);
    StatusOfLine(proto, n, tail);
    hide *;
    ReceivedPairs(first, ps);
    StatusLineParts(st0, proto, n, tail);
    StatusLineParts(st0, proto, n, tail + "\r");
    var st1 := st0.(http := st0.http.(status := n, version := if proto == "HTTP/1.0" then V1 else V1_1));
    HeaderOfPairs(st0, st1, text, ps);
  }

  lemma ReadHeadForm(proto: string, n: nat, ps: seq<Pair>)
    ensures var st0 := Response(FRESH, true, 0, 0);
            var st1 := st0.(http := st0.http.(status := n, version := if proto == "HTTP/1.0" then V1 else V1_1));
            && FRESH.headers == map[] && FRESH.encodings == {}
            && ReadHead(proto, n, ps)
               == st1.(http := st1.http.(headers := EmplaceAll(st1.http.headers, ps),
                                         encodings := st1.http.encodings + EncodingsIn(ps)))
  {
  }

  lemma HeadedForm(text: string)
    ensures Headed(NEW, text) == HeaderParsed(Response(FRESH, true, 0, 0), text)
  {
  }

  lemma HeadOfText(proto: string, n: nat, tail: string, ps: seq<Pair>)
    requires StatusOk(proto, n, tail) && forall i :: 0 <= i < |ps| ==> PairOk(ps[i])
    ensures var lines := HeadLines(StatusOf(proto, n, tail), ps);
            var text := HeaderText(lines);
            |text| + 3 <= MAX_HTTP_HEADER_SIZE ==> OneHeader(text) && "HTTP" <= text
  {
    var lines := HeadLines(StatusOf(proto, n, tail), ps);
    StatusOfLine(proto, n, tail);
    hide Find, HeaderText, Emit, StatusOf, PairOk, PairLine;
    LinesOfPairs(StatusOf(proto, n, tail), ps);
    HeaderEndOfPrinted(lines, "");
    TextStarts(lines);
    assert Emit(lines) + "\r\n" == HeaderText(lines) + "\r\n\r\n";
  }

  /** A response that says it is chunked: whatever its other headers are, if its length is not among them, the chunk
      stream behind them, cut anywhere, is decoded. */
  lemma ChunkedText(proto: string, n: nat, tail: string, ps: seq<Pair>, cs: seq<Chunk>, frags: seq<string>)
    requires StatusOk(proto, n, tail) && forall i :: 0 <= i < |ps| ==> PairOk(ps[i])
    requires forall i :: 0 <= i < |ps| ==> ToLower(ps[i].0) != "content-length"
    requires exists p :: p in ps && ToLower(p.0) == TRANSFER_ENCODING && ListsChunked(p.1)
    requires StreamOk(cs) && |EncodeChunks(cs)| <= MAX_HTTP_BODY_SIZE
    requires var text := HeaderText(HeadLines(StatusOf(proto, n, tail), ps));
             |text| + 3 <= MAX_HTTP_HEADER_SIZE && Concat(frags) == text + "\r\n\r\n" + EncodeChunks(cs)
    ensures Feed(Parsed, NEW, frags)
         == (WithBody(ReadHead(proto, n, ps), DataOf(cs)).(chunkOffset := |DataOf(cs)|), Success)
    ensures Patient(Parsed, NEW, Concat(frags))
  {
    ChunkedIn(ps);
    LengthOfText(proto, n, ps);
    ReadHeadEncodings(proto, n, ps);
    hide *;
    HeadedOfText(proto, n, tail, ps);
    HeadOfText(proto, n, tail, ps);
    var text := HeaderText(HeadLines(StatusOf(proto, n, tail), ps));
    HeadOkIs(text);
    ChunkedMessage(text, cs, frags);
  }

  /** A response that says neither that it is chunked nor how long it is. */
  lemma PlainText(proto: string, n: nat, tail: string, ps: seq<Pair>, raw: string)
    requires StatusOk(proto, n, tail) && forall i :: 0 <= i < |ps| ==> PairOk(ps[i])
    requires forall i :: 0 <= i < |ps| ==> ToLower(ps[i].0) != "content-length"
    requires !exists p :: p in ps && ToLower(p.0) == TRANSFER_ENCODING && ListsChunked(p.1)
    requires |raw| <= MAX_HTTP_BODY_SIZE
    requires var text := HeaderText(HeadLines(StatusOf(proto, n, tail), ps)); |text| + 3 <= MAX_HTTP_HEADER_SIZE
    ensures Parsed(NEW, HeaderText(HeadLines(StatusOf(proto, n, tail), ps)) + "\r\n\r\n" + raw)
         == (WithBody(ReadHead(proto, n, ps), raw), Success)
  {
    ChunkedIn(ps);
    LengthOfText(proto, n, ps);
    ReadHeadEncodings(proto, n, ps);
    hide *;
    HeadedOfText(proto, n, tail, ps);
    HeadOfText(proto, n, tail, ps);
    var text := HeaderText(HeadLines(StatusOf(proto, n, tail), ps));
    HeadOkIs(text);
    UnsizedMessage(text, raw);
  }

  lemma LengthOfText(proto: string, n: nat, ps: seq<Pair>)
    requires forall i :: 0 <= i < |ps| ==> ToLower(ps[i].0) != "content-length"
    ensures StoreLength(ReadHead(proto, n, ps)) == (true, ReadHead(proto, n, ps))
    ensures ReadHead(proto, n, ps).contentLength == 0
  {
    hide ToLower, EmplaceAll, EncodingsIn;
    OnlyNamed(map[], ps, "content-length");
  }

  lemma ReadHeadEncodings(proto: string, n: nat, ps: seq<Pair>)
    ensures ReadHead(proto, n, ps).http.encodings == EncodingsIn(ps)
  {
  }

  lemma HeadOkIs(text: string)
    requires OneHeader(text) && "HTTP" <= text && Headed(NEW, text).0
    ensures HeadOk(text)
  {
    hide Find, Headed;
    assert text <= text + "\r\n\r\n";
  }

  /** What parse_header does not accept: no blank in the first line, ... */
  lemma NoBlankHead(first: string, ps: seq<Pair>)
    requires LineOk(first) && ' ' !in first && forall i :: 0 <= i < |ps| ==> PairOk(ps[i])
    ensures !Headed(NEW, HeaderText(HeadLines(first, ps))).0
  {
    NoBlank(first);
    NoBlank(first + "\r");
    BadFirstLine(first, ps);
  }

  /** ... no number behind it, ... */
  lemma NoCodeHead(proto: string, word: string, ps: seq<Pair>)
    requires ' ' !in proto && NoNumber(word) && forall i :: 0 <= i < |ps| ==> PairOk(ps[i])
    requires LineOk(proto + " " + word)
    ensures !Headed(NEW, HeaderText(HeadLines(proto + " " + word, ps))).0
  {
    assert proto + " " + word + "\r" == proto + " " + (word + "\r");
    NoCode(proto, word);
    NoCode(proto, word + "\r");
    BadFirstLine(proto + " " + word, ps);
  }

  lemma BadFirstLine(first: string, ps: seq<Pair>)
    requires LineOk(first) && forall i :: 0 <= i < |ps| ==> PairOk(ps[i])
    requires var st0 := Response(FRESH, true, 0, 0);
             StatusLine(st0, first) == None && StatusLine(st0, first + "\r") == None
    ensures !Headed(NEW, HeaderText(HeadLines(first, ps))).0
  {
    hide *;
    var text := HeaderText(HeadLines(first, ps));
    HeadedForm(text);
    ReceivedPairs(first, ps);
    NoStatusLineIn(Response(FRESH, true, 0, 0), text);
  }

  lemma NoStatusLineIn(st: Response, text: string)
    requires var lines := Fields(text, '\n', false); lines != [] && StatusLine(st, lines[0]) == None
    ensures !HeaderParsed(st, text).0
  {
    hide Fields, StatusLine, AddHeaders;
  }

  lemma NoBlank(line: string)
    requires ' ' !in line
    ensures StatusLine(Response(FRESH, true, 0, 0), line) == None
  {
    hide Stoi, Substr;
  }

  lemma NoCode(proto: string, word: string)
    requires ' ' !in proto && NoNumber(word)
    ensures StatusLine(Response(FRESH, true, 0, 0), proto + " " + word) == None
  {
    var line, k := proto + " " + word, |proto|;
    FindCharIs(line, ' ', 0, k);
    var end := FindChar(line, ' ', k + 1);
    if end != NPOS {
      CharFound(line, ' ', k + 1);
    }
    hide FindChar;
    var part := if end == NPOS then word else word[..end - k - 1];
    assert end != NPOS ==> end > k + 1;
    assert Substr(line, k, end - k) == " " + part;
    StrToSpace(' ', part, 10);
    NoDigits(part);
    hide StrTo;
  }

  /** ... or a length that is no number. */
  lemma BadLength(proto: string, n: nat, tail: string, ps: seq<Pair>)
    requires StatusOk(proto, n, tail) && forall i :: 0 <= i < |ps| ==> PairOk(ps[i])
    requires var h := EmplaceAll(map[], ps); "content-length" in h && NoNumber(h["content-length"])
    ensures !Headed(NEW, HeaderText(HeadLines(StatusOf(proto, n, tail), ps))).0
  {
    ReadHeadHeaders(proto, n, ps);
    hide *;
    HeadedOfText(proto, n, tail, ps);
    BadNumber(ReadHead(proto, n, ps));
  }

  lemma ReadHeadHeaders(proto: string, n: nat, ps: seq<Pair>)
    ensures ReadHead(proto, n, ps).http.headers == EmplaceAll(map[], ps)
  {
  }

  lemma BadNumber(st: Response)
    requires "content-length" in st.http.headers && NoNumber(st.http.headers["content-length"])
    ensures !StoreLength(st).0
  {
    NoDigits(st.http.headers["content-length"]);
    hide StrTo;
  }

  // --- printing ---

  function StatusText(m: Message): string {
    (if m.version == V1 then "HTTP/1.0 " else "HTTP/1.1 ") + Print(m.status % TWO_32, 10) + " "
  }

  /** A header that is added if it is missing. */
  function Missing(m: Message, name: string, value: string): (r: seq<Pair>)
    ensures |r| <= 1
  {
    if name in m.headers then [] else [(name, value)]
  }

  /** The headers construct adds when they are missing. */
  function Defaults(m: Message): seq<Pair> {
    Missing(m, "connection", "keep-alive") + Missing(m, "content-type", "text/html")
    + (if m.body == "" then [] else Missing(m, "content-length", Print(|m.body|, 10)))
  }

  /** The lines of the printed header, for an iteration order of the header map. */
  function Lines(m: Message, order: seq<string>): seq<string>
    requires Enumerates(order, m.headers)
  {
    HeadLines(StatusText(m), PairsOf(order, m.headers) + Defaults(m))
  }

  function Constructed(m: Message, order: seq<string>): string
    requires Enumerates(order, m.headers)
  {
    Emit(Lines(m, order)) + "\r\n" + m.body
  }

  /** The headers with the ones that are added. */
  function Completed(m: Message): map<string, string> {
    var h := Emplace(Emplace(m.headers, "connection", "keep-alive"), "content-type", "text/html");
    if m.body == "" then h else Emplace(h, "content-length", Print(|m.body|, 10))
  }

  /** Responses whose parts survive printing. Any body will do, even one with an empty line in it. */
  ghost predicate Printable(m: Message) {
    && LowerKeys(m.headers)
    && (forall k :: k in m.headers ==> PairOk((k, m.headers[k])))
    && "content-length" !in m.headers && "transfer-encoding" !in m.headers
    && 0 <= m.status < 0x8000_0000
    && |m.body| <= MAX_HTTP_BODY_SIZE
  }

  lemma ConnectionStays()
    ensures Stays(("connection", "keep-alive"))
  {
  }

  lemma ContentTypeStays()
    ensures Stays(("content-type", "text/html"))
  {
  }

  lemma ContentLengthStays(n: nat)
    ensures Stays(("content-length", Print(n, 10)))
  {
    DecimalChars(n);
    hide Print;
  }

  lemma DefaultsOk(m: Message)
    ensures forall i :: 0 <= i < |Defaults(m)| ==> Stays(Defaults(m)[i])
  {
    ConnectionStays();
    ContentTypeStays();
    ContentLengthStays(|m.body|);
    hide Print, Stays;
  }

  lemma AllPairsOk(m: Message, order: seq<string>)
    requires Printable(m) && Enumerates(order, m.headers)
    ensures var ps := PairsOf(order, m.headers) + Defaults(m);
            ps != [] && forall i :: 0 <= i < |ps| ==> PairOk(ps[i]) && ToLower(ps[i].0) != "transfer-encoding"
  {
    DefaultsOk(m);
    hide PairOk, Print, ToLower;
  }

  /** Reading the printed pairs back stores the original headers and the added ones. */
  lemma StoredPairs(m: Message, order: seq<string>)
    requires Printable(m) && Enumerates(order, m.headers)
    ensures EmplaceAll(map[], PairsOf(order, m.headers) + Defaults(m)) == Completed(m)
  {
    EmplaceAllAppend(map[], PairsOf(order, m.headers), Defaults(m));
    EmplaceOrder(order, m.headers);
    StoredDefaults(m);
  }

  lemma StoredDefaults(m: Message)
    ensures EmplaceAll(m.headers, Defaults(m)) == Completed(m)
  {
    hide Print, Stays, EmplaceAll;
    var v := Print(|m.body|, 10);
    ConnectionStays();
    ContentTypeStays();
    ContentLengthStays(|m.body|);
    var a, b := Missing(m, "connection", "keep-alive"), Missing(m, "content-type", "text/html");
    var c := if m.body == "" then [] else Missing(m, "content-length", v);
    EmplaceAllAppend(m.headers, a + b, c);
    EmplaceAllAppend(m.headers, a, b);
    var h1 := Emplace(m.headers, "connection", "keep-alive");
    var h2 := Emplace(h1, "content-type", "text/html");
    StoredMissing(m, m.headers, "connection", "keep-alive");
    StoredMissing(m, h1, "content-type", "text/html");
    StoredMissing(m, h2, "content-length", v);
    StoredNone(h2);
  }

  lemma StoredNone(h: map<string, string>)
    ensures EmplaceAll(h, []) == h
  {
  }

  lemma StoredMissing(m: Message, h: map<string, string>, name: string, value: string)
    requires Stays((name, value)) && (name in m.headers <==> name in h)
    ensures EmplaceAll(h, Missing(m, name, value)) == Emplace(h, name, value)
  {
    hide PairOk;
    StoredNone(h);
  }

  lemma LinesOfConstructed(m: Message, order: seq<string>)
    requires Printable(m) && Enumerates(order, m.headers)
    ensures LinesOk(Lines(m, order)) && |Lines(m, order)| > 1
  {
    AllPairsOk(m, order);
    StatusTextLine(m);
    hide Defaults, Printable, PairOk, ToLower, LineOk, StatusText;
    LinesOfPairs(StatusText(m), PairsOf(order, m.headers) + Defaults(m));
  }

  lemma StatusTextLine(m: Message)
    ensures LineOk(StatusText(m)) && "HTTP" <= StatusText(m) && |StatusText(m)| > 4
  {
    DecimalChars(m.status % TWO_32);
    hide Print;
  }

  lemma StatusTextForm(m: Message)
    requires 0 <= m.status < 0x8000_0000
    ensures var proto := if m.version == V1 then "HTTP/1.0" else "HTTP/1.1";
            && StatusOk(proto, m.status, " ") && StatusText(m) == StatusOf(proto, m.status, " ")
            && (proto == "HTTP/1.0" <==> m.version == V1)
  {
    hide Print;
    assert "HTTP/1.1"[7] != "HTTP/1.0"[7];
  }

  lemma NoEncodingsAdded(m: Message, order: seq<string>)
    requires Printable(m) && Enumerates(order, m.headers)
    ensures EncodingsIn(PairsOf(order, m.headers) + Defaults(m)) == {}
  {
    AllPairsOk(m, order);
    hide Defaults, Printable, PairOk, ToLower, EncodingsIn;
    OtherHeaders(PairsOf(order, m.headers) + Defaults(m));
  }

  /** The header text of a printed response gives back its status, its version and its completed headers. */
  lemma HeadedOfConstructed(m: Message, order: seq<string>)
    requires Printable(m) && Enumerates(order, m.headers)
    ensures Headed(NEW, HeaderText(Lines(m, order)))
         == (true, Response(FRESH.(headers := Completed(m), status := m.status, version := m.version),
                            true, |m.body|, 0))
  {
    var ps, proto := PairsOf(order, m.headers) + Defaults(m), if m.version == V1 then "HTTP/1.0" else "HTTP/1.1";
    AllPairsOk(m, order);
    StatusTextForm(m);
    StoredPairs(m, order);
    NoEncodingsAdded(m, order);
    LinesForm(m, order);
    var st := Response(FRESH.(headers := Completed(m), status := m.status, version := m.version), true, 0, 0);
    ReadHeadIs(proto, m.status, ps, st);
    hide *;
    HeadedOfText(proto, m.status, " ", ps);
    CompletedLength(m, st);
  }

  lemma LinesForm(m: Message, order: seq<string>)
    requires Enumerates(order, m.headers)
    ensures Lines(m, order) == HeadLines(StatusText(m), PairsOf(order, m.headers) + Defaults(m))
  {
  }

  lemma CompletedLength(m: Message, st: Response)
    requires Printable(m) && st.http.headers == Completed(m) && st.contentLength == 0
    ensures StoreLength(st) == (true, st.(contentLength := |m.body|))
  {
    LengthOfCompleted(m);
    hide Completed, Stoull, Print;
  }

  lemma LengthOfCompleted(m: Message)
    requires Printable(m)
    ensures "content-length" in Completed(m) <==> m.body != ""
    ensures m.body != "" ==> Completed(m)["content-length"] == Print(|m.body|, 10)
    ensures Stoull(Print(|m.body|, 10), 10) == Some(|m.body|)
  {
    hide Print, Stoull, PairOk, LowerKeys;
    StoullPrint(|m.body|);
  }

  /** The object that has received a printed response. */
  function Arrived(m: Message): Response {
    Response(FRESH.(headers := Completed(m), body := m.body, status := m.status, version := m.version),
             true, |m.body|, 0)
  }

  /** Printing and then parsing, for every iteration order of the header map and every way the text is cut up: the
      parser succeeds, only with the last byte, and gives back status, version, body and the completed headers. */
  lemma ConstructedParses(m: Message, order: seq<string>, frags: seq<string>)
    requires Printable(m) && Enumerates(order, m.headers)
    requires |HeaderText(Lines(m, order))| + 3 <= MAX_HTTP_HEADER_SIZE
    requires Concat(frags) == Constructed(m, order)
    ensures Feed(Parsed, NEW, frags) == (Arrived(m), Success)
    ensures Patient(Parsed, NEW, Concat(frags))
  {
    var text := HeaderText(Lines(m, order));
    PrintedHead(m, order);
    HeadedOfConstructed(m, order);
    hide Headed, HeadOk, Lines, Printable, HeaderText, Constructed, Completed;
    SizedMessage(text, m.body, frags);
  }

  /** The printed header is a good one, and the body stands behind it. */
  lemma PrintedHead(m: Message, order: seq<string>)
    requires Printable(m) && Enumerates(order, m.headers)
    requires |HeaderText(Lines(m, order))| + 3 <= MAX_HTTP_HEADER_SIZE
    ensures HeadOk(HeaderText(Lines(m, order)))
    ensures Constructed(m, order) == HeaderText(Lines(m, order)) + "\r\n\r\n" + m.body
    ensures |m.body| <= MAX_HTTP_BODY_SIZE
  {
    hide Find, Headed, Lines, StatusText, HeaderText, Emit, Completed, LowerKeys, PairOk;
    var lines := Lines(m, order);
    LinesOfConstructed(m, order);
    HeaderEndOfPrinted(lines, "");
    var text := HeaderText(lines);
    assert Emit(lines) + "\r\n" == text + "\r\n\r\n";
    StatusTextLine(m);
    FirstLine(m, order);
    TextStarts(lines);
    HeadedOfConstructed(m, order);
  }

  lemma FirstLine(m: Message, order: seq<string>)
    requires Enumerates(order, m.headers)
    ensures Lines(m, order) != [] && Lines(m, order)[0] == StatusText(m)
  {
    hide StatusText;
  }

  /** Part of a printed response has no other result than to be waited for. */
  lemma PrintedArrives(m: Message, order: seq<string>, frags: seq<string>, rest: string)
    requires Printable(m) && Enumerates(order, m.headers)
    requires |HeaderText(Lines(m, order))| + 3 <= MAX_HTTP_HEADER_SIZE
    requires Concat(frags) + rest == Constructed(m, order) && Feed(Parsed, NEW, frags).1 != NotEnoughData
    ensures rest == "" && Feed(Parsed, NEW, frags) == (Arrived(m), Success)
  {
    if rest == "" {
      assert Concat(frags) + "" == Concat(frags);
      ConstructedParses(m, order, frags);
    } else {
      PrintedHead(m, order);
      HeadedOfConstructed(m, order);
      WaitsForBody(Headed(NEW, HeaderText(Lines(m, order))).1, m.body);
      hide *;
      PartialMessage(HeaderText(Lines(m, order)), m.body, frags, rest);
    }
  }

  lemma WaitsForBody(st: Response, raw: string)
    requires Chunked !in st.http.encodings && |raw| == st.contentLength <= MAX_HTTP_BODY_SIZE
    ensures PatientBody(st, raw)
  {
  }

  lemma TextStarts(lines: seq<string>)
    requires LinesOk(lines) && "HTTP" <= lines[0] && |lines[0]| > 4
    ensures "HTTP" <= HeaderText(lines)
  {
  }

  // --- the object ---

  /** erase(pos, n). */
  function Erase(s: string, pos: nat, n: nat): string
    requires pos <= |s|
  {
    s[..pos] + (if pos + n <= |s| then s[pos + n..] else "")
  }

  /** The two erases of one pass turn size line, data and CRLF into the data. */
  lemma TwoErases(p: string, raw: string, le: nat, n: nat)
    requires le + 2 + n <= |raw|
    ensures Erase(Erase(p + raw, |p| + le + n + 2, 2), |p|, le + 2)
         == p + raw[le + 2..le + 2 + n] + After(raw, le + 2 + n + 2)
  {
    var one := Erase(p + raw, |p| + le + n + 2, 2);
    assert one == p + (raw[..le + 2 + n] + After(raw, le + 2 + n + 2));
    assert one[|p| + le + 2..] == raw[le + 2..le + 2 + n] + After(raw, le + 2 + n + 2);
  }

  lemma EraseFits(s: string, pos: nat)
    requires pos <= |s|
    ensures |Erase(s, pos, 2)| >= pos
  {
  }

  /** The loop is at p + done + left with off == |p + done|; going on, it has the rest to drain. */
  ghost predicate Running(p: string, raw: string, done: string, left: string, goingOn: bool) {
    Drain(raw) == if goingOn then Drained(done + Drain(left).decoded, Drain(left).left, Drain(left).status)
                  else Drained(done, left, Success)
  }

  lemma RunningStarts(p: string, raw: string)
    ensures Running(p, raw, "", raw, true)
  {
    hide Drain;
    assert "" + Drain(raw).decoded == Drain(raw).decoded;
  }

  lemma RunningPass(p: string, raw: string, done: string, left: string)
    requires Running(p, raw, done, left, true)
    ensures Step(left) == Short ==> Drain(raw) == Drained(done, left, NotEnoughData)
    ensures Step(left) == Bad ==> Drain(raw) == Drained(done, left, Thrown)
    ensures Step(left).Last? ==> Running(p, raw, done, Step(left).rest, false)
    ensures Step(left).Full? ==> Running(p, raw, done + Step(left).data, Step(left).rest, true)
  {
    hide Step;
    if Step(left).Full? {
      Regroup(done, Step(left).data, Drain(Step(left).rest).decoded);
    } else {
      assert done + "" == done;
    }
  }

  /** What one pass does to the buffer and the offset. */
  ghost predicate Passed(pass: Pass, chunkLen: nat, stop: Option<Status>, body0: string, off0: nat,
                         body: string, off: nat)
    requires off0 <= |body0|
  {
    var p := body0[..off0];
    match pass
    case Short => stop == Some(NotEnoughData) && body == body0 && off == off0
    case Bad => stop == Some(Thrown) && body == body0 && off == off0
    case Last(rest) => stop == None && chunkLen == 0 && body == p + rest && off == off0
    case Full(data, rest) =>
      stop == None && chunkLen == |data| > 0 && body == p + data + rest && off == off0 + |data|
  }

  function MissingText(m: Message, name: string, value: string): string {
    if name in m.headers then "" else name + ": " + value + "\r\n"
  }

  lemma HeadStart(m: Message)
    ensures (if m.version == V1 then "HTTP/1.0 " else "HTTP/1.1 ") + Print(m.status % TWO_32, 10) + " \r\n"
         == HeadOf(StatusText(m), [])
  {
    hide Print;
    EmitOne(StatusText(m));
    assert HeadLines(StatusText(m), []) == [StatusText(m)];
    assert (if m.version == V1 then "HTTP/1.0 " else "HTTP/1.1 ") + Print(m.status % TWO_32, 10) + " \r\n"
        == StatusText(m) + "\r\n";
  }

  lemma HeadMissing(m: Message, ps: seq<Pair>, name: string, value: string)
    ensures HeadOf(StatusText(m), ps + Missing(m, name, value))
         == HeadOf(StatusText(m), ps) + MissingText(m, name, value)
  {
    hide HeadOf;
    if name in m.headers {
      assert ps + [] == ps;
    } else {
      HeadPair(StatusText(m), ps, (name, value));
    }
  }

  lemma HeadDefaults(m: Message, order: seq<string>)
    requires Enumerates(order, m.headers)
    ensures Constructed(m, order)
         == HeadOf(StatusText(m), PairsOf(order, m.headers))
            + MissingText(m, "connection", "keep-alive") + MissingText(m, "content-type", "text/html")
            + (if m.body == "" then "" else MissingText(m, "content-length", Print(|m.body|, 10)))
            + "\r\n" + m.body
  {
    var ps, v := PairsOf(order, m.headers), Print(|m.body|, 10);
    var a, b := Missing(m, "connection", "keep-alive"), Missing(m, "content-type", "text/html");
    var c := if m.body == "" then [] else Missing(m, "content-length", v);
    assert ps + Defaults(m) == ps + a + b + c;
    assert ps + a + b + [] == ps + a + b;
    assert Constructed(m, order) == HeadOf(StatusText(m), ps + a + b + c) + "\r\n" + m.body;
    hide *;
    HeadMissing(m, ps, "connection", "keep-alive");
    HeadMissing(m, ps + a, "content-type", "text/html");
    HeadMissing(m, ps + a + b, "content-length", v);
  }

  /** The text of a response without headers of its own. */
  lemma BareResponse(m: Message)
    requires m.headers == map[]
    ensures Constructed(m, [])
         == (if m.version == V1 then "HTTP/1.0 " else "HTTP/1.1 ") + Print(m.status % TWO_32, 10) + " \r\n"
            + "connection: keep-alive\r\n" + "content-type: text/html\r\n"
            + (if m.body == "" then "" else "content-length: " + Print(|m.body|, 10) + "\r\n")
            + "\r\n" + m.body
  {
    HeadDefaults(m, []);
    HeadStart(m);
    assert PairsOf([], m.headers) == [];
    assert "connection" + ": " + "keep-alive" + "\r\n" == "connection: keep-alive\r\n";
    assert "content-type" + ": " + "text/html" + "\r\n" == "content-type: text/html\r\n";
    assert "content-length" + ": " == "content-length: ";
    hide Print, Constructed, HeadOf, StatusText;
  }

  lemma RunningEnds(p: string, raw: string, done: string, left: string, goingOn: bool)
    requires Running(p, raw, done, left, goingOn)
    ensures !goingOn ==> Drain(raw) == Drained(done, left, Success)
  {
    hide Drain;
  }

  class HttpResponse {
    const http: Http
    var headerEnded: bool
    var contentLength: nat
    var chunkOffset: nat

    function View(): Response
      reads this, http
    {
      Response(http.View(), headerEnded, contentLength, chunkOffset)
    }

    constructor ()
      ensures View() == NEW && fresh(http)
    {
      http := new Http();
      headerEnded, contentLength, chunkOffset := false, 0, 0;
    }

    method ParseHeader(headerEndPos: nat) returns (ok: bool)
      requires headerEndPos <= |http.body|
      modifies this, http
      ensures (ok, View()) == HeaderParsed(old(View()), old(http.body)[..headerEndPos])
    {
      hide Fields, FindChar, Stoi, Stoull, AddHeader;
      var headerLines := SplitString(http.body[..headerEndPos], '\n', false);
      if headerLines == [] {
        return false;
      }
      var statusBegin := FindChar(headerLines[0], ' ', 0);
      if statusBegin == NPOS {
        return false;
      }
      var endPos := FindChar(headerLines[0], ' ', statusBegin + 1);
      var code := Stoi(Substr(headerLines[0], statusBegin, endPos - statusBegin));
      if code.None? {
        return false;
      }
      http.status := code.value;
      http.version := if Substr(headerLines[0], 0, statusBegin) == "HTTP/1.0" then V1 else V1_1;
      ghost var st := View();
      for line := 1 to |headerLines|
        invariant View() == st.(http := AddHeaders(st.http, headerLines[1..line]))
      {
        NextLine(headerLines, line);
        http.ParseHeaderLine(headerLines[line]);
      }
      assert headerLines[1..|headerLines|] == headerLines[1..];
      if "content-length" in http.headerData {
        var length := Stoull(http.headerData["content-length"], 10);
        if length.None? {
          return false;
        }
        contentLength := length.value;
      }
      return true;
    }

    /** The loop body: the length of the chunk taken off, or the status parse returns from within the loop. */
    method OnePass() returns (chunkLen: nat, stop: Option<Status>, ghost pass: Pass)
      requires chunkOffset < |http.body|
      modifies this`chunkOffset, http`body
      ensures pass == Step(old(http.body)[old(chunkOffset)..])
      ensures Passed(pass, chunkLen, stop, old(http.body), old(chunkOffset), http.body, chunkOffset)
    {
      hide Find, ChunkLength, Step, Erase, After;
      ghost var p, raw := http.body[..chunkOffset], http.body[chunkOffset..];
      assert http.body == p + raw;
      FindShift(p, raw, "\r\n");
      StepCases(raw, Find(raw, "\r\n", 0));
      pass := Step(raw);
      chunkLen := 1;
      var lengthEnd := Find(http.body, "\r\n", chunkOffset);
      if lengthEnd == NPOS {
        return chunkLen, Some(NotEnoughData), pass;
      }
      var hexLength := Substr(http.body, chunkOffset, lengthEnd - chunkOffset);
      assert hexLength == raw[..lengthEnd - chunkOffset];
      var length := ChunkLength(hexLength);
      if length.None? {
        return chunkLen, Some(Thrown), pass;
      }
      chunkLen := length.value;
      if |http.body| - lengthEnd < (chunkLen + 4) % TWO_32 {
        return chunkLen, Some(NotEnoughData), pass;
      }
      if chunkOffset + |hexLength| + chunkLen + 2 > |http.body| {
        return chunkLen, Some(Thrown), pass;
      }
      TwoErases(p, raw, |hexLength|, chunkLen);
      EraseFits(http.body, chunkOffset + |hexLength| + chunkLen + 2);
      http.body := Erase(http.body, chunkOffset + |hexLength| + chunkLen + 2, 2);
      http.body := Erase(http.body, chunkOffset, |hexLength| + 2);
      chunkOffset := chunkOffset + chunkLen;
      stop := None;
    }

    /** The chunk loop: body[..chunkOffset] is decoded, body[chunkOffset..] is not. */
    method ParseChunks() returns (r: Status)
      requires chunkOffset <= |http.body|
      modifies this`chunkOffset, http`body
      ensures var p, d := old(http.body)[..old(chunkOffset)], Drain(old(http.body)[old(chunkOffset)..]);
              http.body == p + d.decoded + d.left && chunkOffset == |p + d.decoded| && r == d.status
    {
      hide Drain, Step, Running;
      ghost var p, raw := http.body[..chunkOffset], http.body[chunkOffset..];
      ghost var done, left := "", raw;
      RunningStarts(p, raw);
      var chunkLen: nat := 1;
      while chunkLen > 0 && chunkOffset < |http.body|
        invariant http.body == p + done + left && chunkOffset == |p + done|
        invariant Running(p, raw, done, left, chunkLen > 0)
        decreases chunkLen > 0, |http.body|
      {
        RunningPass(p, raw, done, left);
        assert http.body[..chunkOffset] == p + done && http.body[chunkOffset..] == left;
        var stop: Option<Status>;
        ghost var pass;
        chunkLen, stop, pass := OnePass();
        if stop.Some? {
          return stop.value;
        }
        done, left := if pass.Full? then done + pass.data else done, pass.rest;
      }
      if chunkLen > 0 {
        assert left == "";
        NothingLeft();
        RunningPass(p, raw, done, left);
      }
      RunningEnds(p, raw, done, left, chunkLen > 0);
      r := if chunkLen == 0 then Success else NotEnoughData;
    }

    /** The end of parse: the header is known to be over. */
    method FinishParse() returns (r: Status)
      modifies this, http
      ensures (View(), r) == ParseBody(old(View()))
    {
      hide Drain;
      if |http.body| > MAX_HTTP_BODY_SIZE {
        return HttpBodyTooBig;
      }
      if Chunked in http.transferEncodings {
        if chunkOffset > |http.body| {
          return NotEnoughData;
        }
        r := ParseChunks();
        return r;
      }
      if contentLength > 0 && |http.body| > contentLength {
        http.body := http.body[..contentLength];
      } else if |http.body| < contentLength {
        return NotEnoughData;
      }
      return Success;
    }

    method Parse(responseData: string) returns (r: Status)
      modifies this, http
      ensures (View(), r) == Parsed(old(View()), responseData)
    {
      hide HeaderEnd, HeaderParsed, ParseBody, Find;
      http.body := http.body + responseData;
      if !headerEnded {
        if |http.body| >= 4 && http.body[..4] != "HTTP" {
          return ParseError;
        }
        var headerEndSize := 4;
        var headerEnd := Find(http.body, "\r\n\r\n", 0);
        if headerEnd == NPOS {
          headerEnd := Find(http.body, "\n\n", 0);
          headerEndSize := 2;
        }
        HeaderEndForm(http.body);
        headerEnded := headerEnd != NPOS;
        if (!headerEnded && |http.body| > MAX_HTTP_HEADER_SIZE)
           || (headerEnded && headerEnd > MAX_HTTP_HEADER_SIZE) {
          return HttpHeaderTooBig;
        }
        if !headerEnded {
          return NotEnoughData;
        }
        HeaderEndWithin(http.body);
        HeaderParsedKeeps(View(), http.body, http.body[..headerEnd]);
        var ok := ParseHeader(headerEnd);
        if !ok {
          return ParseError;
        }
        http.body := http.body[headerEnd + headerEndSize..];
      }
      r := FinishParse();
    }

    /** construct, iterating over the headers in the given order. */
    method Construct(order: seq<string>) returns (response: string)
      requires Enumerates(order, http.headerData)
      ensures response == Constructed(http.View(), order)
    {
      hide Print, Missing, MissingText, PairLines, StatusText, Emit, Constructed, HeadOf;
      ghost var m, ps := http.View(), PairsOf(order, http.headerData);
      response := (if http.version == V1 then "HTTP/1.0 " else "HTTP/1.1 ") + Print(http.status % TWO_32, 10) + " \r\n";
      HeadStart(m);
      for i := 0 to |order|
        invariant response == HeadOf(StatusText(m), ps[..i])
      {
        assert ps[..i + 1] == ps[..i] + [ps[i]];
        HeadPair(StatusText(m), ps[..i], ps[i]);
        var data := order[i] + ": " + http.headerData[order[i]] + "\r\n";
        response := response + data;
      }
      assert ps[..|order|] == ps;
      HeadDefaults(m, order);
      response := AppendMissing(response, "connection", "keep-alive");
      response := AppendMissing(response, "content-type", "text/html");
      if http.body != "" {
        response := AppendMissing(response, "content-length", Print(|http.body|, 10));
      }
      response := response + "\r\n" + http.body;
    }

    method AppendMissing(text: string, name: string, value: string) returns (r: string)
      ensures r == text + MissingText(http.View(), name, value)
    {
      r := text;
      if name !in http.headerData {
        r := r + (name + ": " + value + "\r\n");
      }
    }
  }
}
