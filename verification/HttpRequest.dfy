/** src/HttpRequest.cpp: the resumable parser as a function of its fields and the next fragment, the printer, and
    what they promise together. The class that runs them in place is at the end. */
module HttpRequest {
  import opened Arguments
  import opened Fragments
  import opened Http
  import opened Options
  import opened RequestLine
  import opened Text
  import opened Widths

  datatype Request = Request(http: Message, headerEnded: bool, contentLength: nat)

  const NEW := Request(FRESH, false, 0)

  function WithBody(st: Request, body: string): Request {
    st.(http := st.http.(body := body))
  }

  function More(st: Request, data: string): Request {
    WithBody(st, st.http.body + data)
  }

  // --- parsing ---

  function StoreLength(st: Request): (bool, Request) {
    if "content-length" !in st.http.headers then (true, st)
    else
      match Stoull(st.http.headers["content-length"], 10)
      case None => (false, st)
      case Some(n) => (true, st.(contentLength := n))
  }

  /** parse_header: a header without any line passes; otherwise the type has to be known, the line has to have a URI
      and a version, and the length has to be a number. */
  function HeaderParsed(st: Request, text: string): (bool, Request) {
    var lines := Fields(text, '\n', false);
    if lines == [] then (true, st)
    else
      var s1 := st.(http := st.http.(kind := HeaderType(lines[0])));
      if !Known(s1.http.kind) then (false, s1)
      else
        match StoreUri(s1.http, lines[0])
        case None => (false, s1)
        case Some(m) => StoreLength(s1.(http := AddHeaders(m, lines[1..])))
  }

  /** Storing arguments of a form: the last value of a key stays. */
  function StoreAll(m: map<string, string>, ps: seq<Pair>): map<string, string> {
    if ps == [] then m
    else
      var p := ps[|ps| - 1];
      StoreAll(m, ps[..|ps| - 1])[ToLower(p.0) := p.1]
  }

  /** parse_post_body: what stands between the line ends at the front and the last empty line; all of the rest if
      there is no empty line, or only one in front. */
  function FormOf(body: string): seq<Pair> {
    var first, last := FindNotIn(body, {'\r', '\n'}, 0), RFind(body, "\r\n\r\n");
    var begin := if first != NPOS then first else FindNotIn(body, {'\n'}, 0);
    var end := if last != NPOS then last else RFind(body, "\n\n");
    if begin == end || begin == NPOS then [] else ArgumentList(Substr(body, begin, end - begin))
  }

  /** A complete message; for a POST request the form is read. */
  function Finished(st: Request): Request {
    if st.http.kind == Post then st.(http := st.http.(post := StoreAll(st.http.post, FormOf(st.http.body)))) else st
  }

  /** The part of parse that follows the header. */
  function ParseBody(st: Request): (Request, Status) {
    if |st.http.body| > MAX_HTTP_BODY_SIZE then (st, HttpBodyTooBig)
    else if |st.http.body| >= st.contentLength then (Finished(st), Success)
    else (st, NotEnoughData)
  }

  /** The end of the header has been seen at pos. */
  function ParseFrom(s: Request, end: Terminator): (Request, Status)
    requires 0 <= end.pos && end.pos + end.size <= |s.http.body|
  {
    var body := s.http.body;
    var (ok, s1) := HeaderParsed(s.(headerEnded := true), body[..end.pos]);
    if ok then ParseBody(WithBody(s1, body[end.pos + end.size..])) else (s1, ParseError)
  }

  /** parse, once the fragment has been appended. */
  function ParseBuffer(s: Request): (Request, Status) {
    var body := s.http.body;
    if s.headerEnded then ParseBody(s)
    else if body != "" && TypeOf(body) == Unknown then (s, ParseError)
    else
      var end := HeaderEnd(body);
      if end.pos == NPOS then
        (s, if |body| > MAX_HTTP_HEADER_SIZE then HttpHeaderTooBig else NotEnoughData)
      else if end.pos > MAX_HTTP_HEADER_SIZE then (s.(headerEnded := true), HttpHeaderTooBig)
      else ParseFrom(s, end)
  }

  function Parsed(st: Request, data: string): (Request, Status) {
    ParseBuffer(More(st, data))
  }

  // --- one call for two ---

  /** The bytes behind the header; none while there is no end of the header. */
  function RawBody(s: Request): string {
    var end := HeaderEnd(s.http.body);
    if s.headerEnded then s.http.body
    else if end.pos == NPOS then ""
    else s.http.body[end.pos + end.size..]
  }

  /** Fields as parse leaves them. */
  ghost predicate Valid(st: Request) {
    !st.headerEnded ==> st.contentLength == 0
  }

  /** If the buffer holds the end of the header, it is the end that is also found once b is there. */
  ghost predicate SameEnd(s: Request, b: string) {
    s.headerEnded || HeaderEnd(s.http.body).pos == NPOS || HeaderEnd(s.http.body + b) == HeaderEnd(s.http.body)
  }

  lemma MergeBody(st: Request, b: string)
    requires ParseBody(st).1 == NotEnoughData
    ensures ParseBody(st).0 == st
  {
    hide Finished;
  }

  /** The header is read from its text; the buffer behind it is left alone. */
  lemma HeaderParsedKeeps(st: Request, body: string, text: string)
    ensures HeaderParsed(WithBody(st, body), text)
         == (HeaderParsed(st, text).0, WithBody(HeaderParsed(st, text).1, body))
    ensures HeaderParsed(st, text).1.headerEnded == st.headerEnded
    ensures HeaderParsed(st, text).1.http.body == st.http.body
  {
    var lines := Fields(text, '\n', false);
    hide Fields, AddHeaders, Stoull, StoreUri, HeaderType, Known;
    if lines != [] {
      var m := st.http.(kind := HeaderType(lines[0]));
      StoreUriKeeps(m, body, lines[0]);
      var got := StoreUri(m, lines[0]);
      if got.Some? {
        AddHeadersKeeps(got.value, body, lines[1..]);
        AddHeadersKeeps(got.value, got.value.body, lines[1..]);
      }
    }
  }

  lemma StoreUriKeeps(m: Message, body: string, line: string)
    ensures StoreUri(m.(body := body), line)
         == match StoreUri(m, line) case None => None case Some(n) => Some(n.(body := body))
    ensures StoreUri(m, line).Some? ==> StoreUri(m, line).value.body == m.body
  {
    hide FindChar, Find, Substr, ArgumentList, EmplaceAll;
  }

  /** What the header makes of the fields, whatever is in the buffer. */
  function Headed(s: Request, text: string): (bool, Request) {
    HeaderParsed(WithBody(s, "").(headerEnded := true), text)
  }

  lemma ParseFromIs(s: Request, end: Terminator, text: string, rest: string)
    requires 0 <= end.pos && end.pos + end.size <= |s.http.body|
    requires text == s.http.body[..end.pos] && rest == s.http.body[end.pos + end.size..]
    ensures Headed(s, text).1.headerEnded
    ensures ParseFrom(s, end) == if Headed(s, text).0 then ParseBody(WithBody(Headed(s, text).1, rest))
                                 else (WithBody(Headed(s, text).1, s.http.body), ParseError)
  {
    hide ParseBody, HeaderParsed;
    HeaderParsedKeeps(WithBody(s, "").(headerEnded := true), s.http.body, text);
  }

  lemma HeadedKeeps(s: Request, body: string, text: string)
    ensures Headed(WithBody(s, body), text) == Headed(s, text)
  {
  }

  lemma MergeHeader(s: Request, end: Terminator, b: string)
    requires 0 <= end.pos && end.pos + end.size <= |s.http.body|
    requires ParseFrom(s, end).1 == NotEnoughData
    ensures ParseFrom(s, end).0.headerEnded
    ensures ParseBuffer(More(ParseFrom(s, end).0, b)) == ParseFrom(More(s, b), end)
  {
    hide ParseBody, ParseFrom, Headed;
    var x, text, rest := s.http.body, s.http.body[..end.pos], s.http.body[end.pos + end.size..];
    assert (x + b)[..end.pos] == text && (x + b)[end.pos + end.size..] == rest + b;
    ParseFromIs(s, end, text, rest);
    ParseFromIs(More(s, b), end, text, rest + b);
    HeadedKeeps(s, x + b, text);
    MergeBody(WithBody(Headed(s, text).1, rest), b);
  }

  /** A header that leaves something to wait for has a request line, and that has more than six bytes. */
  lemma HeaderIsLong(s: Request, end: Terminator)
    requires Valid(s) && !s.headerEnded
    requires 0 <= end.pos && end.pos + end.size <= |s.http.body|
    requires ParseFrom(s, end).1 == NotEnoughData
    ensures |s.http.body| >= 6
  {
    var st, text := s.(headerEnded := true), s.http.body[..end.pos];
    var lines := Fields(text, '\n', false);
    hide Fields, Finished, StoreUri, HeaderType, AddHeaders, Stoull, Known;
    assert lines != [];
    assert Known(HeaderType(lines[0])) && StoreUri(st.http.(kind := HeaderType(lines[0])), lines[0]).Some?;
    LineIsLong(st.http.(kind := HeaderType(lines[0])), lines[0]);
    FirstFieldWithin(text);
  }

  lemma {:induction false} FirstFieldWithin(text: string)
    ensures Fields(text, '\n', false) != [] ==> |Fields(text, '\n', false)[0]| <= |text|
    decreases |text|
  {
    var k := FindChar(text, '\n', 0);
    FieldsFirst(text, k);
    if k != NPOS {
      FirstFieldWithin(text[k + 1..]);
      hide Fields, FindChar, Clean;
    }
  }

  lemma FieldsFirst(text: string, k: int)
    requires k == FindChar(text, '\n', 0)
    ensures Fields(text, '\n', false)
         == if k == NPOS then Keep(text) else Keep(text[..k]) + Fields(text[k + 1..], '\n', false)
  {
    hide FindChar;
  }

  lemma LineIsLong(m: Message, line: string)
    requires Known(HeaderType(line)) && StoreUri(m, line).Some?
    ensures |line| >= 6
  {
    var space, slash, http := FindChar(line, ' ', 0), FindChar(line, '/', 0), Find(line, "HTTP", 0);
    CharFound(line, ' ', 0);
    CharFound(line, '/', 0);
    hide TypeOf, FindChar, Find, ArgumentList, Substr, EmplaceAll;
    ThreePieces(line, space, slash, http);
  }

  lemma ThreePieces(line: string, space: int, slash: int, http: int)
    requires Stands(line, ' ', space) && Stands(line, '/', slash) && At(line, "HTTP", http)
    ensures |line| >= 6
  {
    var w := line[http..http + 4];
    assert w[0] == line[http] && w[1] == line[http + 1] && w[2] == line[http + 2] && w[3] == line[http + 3];
  }

  lemma MergeBuffer(s: Request, b: string)
    requires Valid(s) && ParseBuffer(s).1 == NotEnoughData
    requires SameEnd(s, b)
    ensures Valid(ParseBuffer(s).0)
    ensures ParseBuffer(More(ParseBuffer(s).0, b)) == ParseBuffer(More(s, b))
  {
    hide ParseBody, ParseFrom, HeaderEnd, TypeOf;
    var x := s.http.body;
    if s.headerEnded {
      MergeBody(s, b);
    } else if HeaderEnd(x).pos != NPOS {
      HeaderEndWithin(x);
      MergeHeader(s, HeaderEnd(x), b);
      HeaderIsLong(s, HeaderEnd(x));
      TypeStays(x, b);
    }
  }

  /** Two calls, the first of which could not finish, are one call on both fragments. */
  lemma Merge(st: Request, a: string, b: string)
    requires Valid(st) && Parsed(st, a).1 == NotEnoughData
    requires SameEnd(More(st, a), b)
    ensures Valid(Parsed(st, a).0)
    ensures Parsed(Parsed(st, a).0, b) == Parsed(st, a + b)
  {
    hide ParseBuffer, SameEnd;
    assert st.http.body + a + b == st.http.body + (a + b);
    MergeBuffer(More(st, a), b);
  }

  /** No exception leaves parse. */
  lemma NeverThrows(st: Request, data: string)
    ensures Parsed(st, data).1 != Thrown
  {
    var s := More(st, data);
    HeaderEndWithin(s.http.body);
    hide HeaderEnd, HeaderParsed, Finished, TypeOf;
  }

  // --- whole messages in fragments ---

  /** No prefix of the stream shows another end of the header than the whole. */
  ghost predicate OneEnd(st: Request, stream: string) {
    forall n :: 0 <= n <= |stream| ==> SameEnd(More(st, stream[..n]), stream[n..])
  }

  /** Merge, with the hypothesis known of a longer stream. */
  lemma MergePart(st: Request, a: string, b: string, c: string)
    requires Valid(st) && Parsed(st, a).1 == NotEnoughData
    requires SameEnd(More(st, a), b + c)
    ensures Parsed(Parsed(st, a).0, b) == Parsed(st, a + b)
  {
    hide Parsed, HeaderEnd;
    if !st.headerEnded {
      EndBetween(st.http.body + a, b, c);
    }
    Merge(st, a, b);
  }

  /** Where the header has one end, any two calls in a row are one. */
  lemma StreamJoins(st: Request, stream: string)
    requires Valid(st) && OneEnd(st, stream)
    ensures Joins(Parsed, st, stream)
  {
    hide Parsed, SameEnd, Valid;
    forall i, j | 0 <= i <= j <= |stream| && Parsed(st, stream[..i]).1 == NotEnoughData
      ensures Parsed(Parsed(st, stream[..i]).0, stream[i..j]) == Parsed(st, stream[..j])
    {
      assert stream[..i] + stream[i..j] == stream[..j] && stream[i..j] + stream[j..] == stream[i..];
      assert stream[..i] + (stream[i..j] + stream[j..]) == stream;
      MergePart(st, stream[..i], stream[i..j], stream[j..]);
    }
  }

  /** A header that begins with a known type, with its one end behind it, and that parse_header accepts. */
  ghost predicate HeadOk(text: string) {
    Known(TypeOf(text + "\r\n\r\n")) && OneHeader(text) && Headed(NEW, text).0
  }

  lemma HeadParses(text: string, raw: string)
    requires HeadOk(text)
    ensures Parsed(NEW, text + "\r\n\r\n" + raw) == ParseBody(WithBody(Headed(NEW, text).1, raw))
  {
    hide *;
    var h := text + "\r\n\r\n";
    var s := WithBody(NEW, h + raw);
    HeadOkParts(text);
    HeadEnd(text, raw);
    TypeStays(h, raw);
    HeadedKeeps(NEW, h + raw, text);
    MoreOfNew(h + raw);
    BufferWithEnd(s, Terminator(|text|, 4));
    assert (h + raw)[..|text|] == text && (h + raw)[|text| + 4..] == raw;
    ParseFromIs(s, Terminator(|text|, 4), text, raw);
  }

  lemma HeadOkParts(text: string)
    requires HeadOk(text)
    ensures Known(TypeOf(text + "\r\n\r\n")) && OneHeader(text) && Headed(NEW, text).0
    ensures |text| <= MAX_HTTP_HEADER_SIZE
  {
    hide Find, TypeOf, Headed;
  }

  lemma MoreOfNew(data: string)
    ensures WithBody(NEW, data).http.body == data && !WithBody(NEW, data).headerEnded
    ensures WithBody(WithBody(NEW, data), "") == NEW
    ensures Parsed(NEW, data) == ParseBuffer(WithBody(NEW, data))
  {
    assert "" + data == data;
    hide ParseBuffer;
  }

  lemma BufferWithEnd(s: Request, end: Terminator)
    requires !s.headerEnded && (Known(TypeOf(s.http.body)) || TypeOf(s.http.body) == Partial)
    requires HeaderEnd(s.http.body) == end
    requires 0 <= end.pos <= MAX_HTTP_HEADER_SIZE && end.pos + end.size <= |s.http.body|
    ensures ParseBuffer(s) == ParseFrom(s, end)
  {
    hide HeaderEnd, ParseFrom, TypeOf;
  }

  /** While the header is coming in, it is waited for; in particular no part of it is taken for a bad type. */
  lemma HeadPrefix(text: string, p: string, q: string)
    requires HeadOk(text) && p + q == text + "\r\n\r\n" && q != ""
    ensures Parsed(NEW, p) == (WithBody(NEW, p), NotEnoughData)
  {
    var h := text + "\r\n\r\n";
    HeadNoEnd(text, p, q);
    TypeStays(h, "");
    assert p == h[..|p|] && |p| < |h|;
    PrefixesOfKnown(TypeOf(h), h, |p|);
    assert |p| <= MAX_HTTP_HEADER_SIZE;
    hide HeaderEnd, TypeOf, HeadOk;
    assert "" + p == p;
  }

  lemma HeadOneEnd(text: string, raw: string)
    requires HeadOk(text)
    ensures OneEnd(NEW, text + "\r\n\r\n" + raw)
  {
    var stream := text + "\r\n\r\n" + raw;
    hide HeaderEnd, Headed, OneHeader, TypeOf;
    forall n | 0 <= n <= |stream|
      ensures SameEnd(More(NEW, stream[..n]), stream[n..])
    {
      EndOnce(text, raw, n);
      assert "" + stream[..n] == stream[..n] && stream[..n] + stream[n..] == stream;
    }
  }

  lemma HeadPatient(text: string, raw: string)
    requires HeadOk(text) && |raw| <= Headed(NEW, text).1.contentLength <= MAX_HTTP_BODY_SIZE
    ensures Patient(Parsed, NEW, text + "\r\n\r\n" + raw)
  {
    var h := text + "\r\n\r\n";
    var stream := h + raw;
    hide Parsed, ParseBody, HeadOk, Headed;
    forall n | 0 <= n < |stream|
      ensures Parsed(NEW, stream[..n]).1 == NotEnoughData
    {
      if n < |h| {
        assert stream[..n] + h[n..] == h;
        HeadPrefix(text, stream[..n], h[n..]);
      } else {
        assert stream[..n] == h + raw[..n - |h|];
        HeadParses(text, raw[..n - |h|]);
        BodyWaits(WithBody(Headed(NEW, text).1, raw[..n - |h|]));
      }
    }
  }

  lemma BodyWaits(st: Request)
    requires |st.http.body| < st.contentLength <= MAX_HTTP_BODY_SIZE
    ensures ParseBody(st).1 == NotEnoughData
  {
    hide Finished;
  }

  lemma BodyDone(st: Request)
    requires |st.http.body| == st.contentLength <= MAX_HTTP_BODY_SIZE
    ensures ParseBody(st) == (Finished(st), Success)
  {
    hide Finished;
  }

  /** A header and as much of the body as there is are a stream that may be cut anywhere. */
  lemma Stream(text: string, raw: string)
    requires HeadOk(text) && |raw| <= Headed(NEW, text).1.contentLength <= MAX_HTTP_BODY_SIZE
    ensures Patient(Parsed, NEW, text + "\r\n\r\n" + raw) && Joins(Parsed, NEW, text + "\r\n\r\n" + raw)
    ensures Parsed(NEW, "") == (NEW, NotEnoughData)
  {
    var h := text + "\r\n\r\n";
    HeadPatient(text, raw);
    HeadOneEnd(text, raw);
    HeadPrefix(text, "", h);
    assert "" + h == h;
    hide Parsed, Headed, HeadOk, OneEnd;
    StreamJoins(NEW, h + raw);
  }

  /** A header and as much of the body as there is, in any fragments: the result is that of one call. */
  lemma FragmentsOfMessage(text: string, raw: string, frags: seq<string>)
    requires HeadOk(text) && |raw| <= Headed(NEW, text).1.contentLength <= MAX_HTTP_BODY_SIZE
    requires Concat(frags) == text + "\r\n\r\n" + raw
    ensures Feed(Parsed, NEW, frags) == Parsed(NEW, Concat(frags)) == ParseBody(WithBody(Headed(NEW, text).1, raw))
    ensures Patient(Parsed, NEW, Concat(frags))
  {
    hide *;
    Stream(text, raw);
    HeadParses(text, raw);
    FeedWhole(Parsed, NEW, frags);
  }

  /** A request whose body is as long as its Content-Length says, cut anywhere: only the last fragment brings
      Success, with the state that one call on the whole would leave; until then every call asks for more. */
  lemma SizedMessage(text: string, raw: string, frags: seq<string>)
    requires HeadOk(text) && |raw| == Headed(NEW, text).1.contentLength <= MAX_HTTP_BODY_SIZE
    requires Concat(frags) == text + "\r\n\r\n" + raw
    ensures Feed(Parsed, NEW, frags) == (Finished(WithBody(Headed(NEW, text).1, raw)), Success)
    ensures Parsed(NEW, Concat(frags)) == Feed(Parsed, NEW, frags) && Patient(Parsed, NEW, Concat(frags))
  {
    hide HeadOk, Headed, Parsed, ParseBody, Finished;
    FragmentsOfMessage(text, raw, frags);
    BodyDone(WithBody(Headed(NEW, text).1, raw));
  }

  /** As long as something is missing at the end, the answer is that more data is needed. */
  lemma PartialMessage(text: string, raw: string, frags: seq<string>, rest: string)
    requires HeadOk(text) && |raw| == Headed(NEW, text).1.contentLength <= MAX_HTTP_BODY_SIZE
    requires Concat(frags) + rest == text + "\r\n\r\n" + raw && rest != ""
    ensures Feed(Parsed, NEW, frags).1 == NotEnoughData
  {
    hide *;
    Stream(text, raw);
    FeedPart(Parsed, NEW, frags, rest);
  }

  // --- what is behind the header ---

  /** At least as much as the Content-Length says is a complete request, and all of it is the body; with less than
      that more is asked for. */
  lemma LongerMessage(text: string, raw: string)
    requires HeadOk(text) && |raw| <= MAX_HTTP_BODY_SIZE
    ensures var st := WithBody(Headed(NEW, text).1, raw);
            Parsed(NEW, text + "\r\n\r\n" + raw)
            == if Headed(NEW, text).1.contentLength <= |raw| then (Finished(st), Success) else (st, NotEnoughData)
    ensures Headed(NEW, text).1.http.kind != Post && Headed(NEW, text).1.contentLength <= |raw| ==>
              Parsed(NEW, text + "\r\n\r\n" + raw) == (WithBody(Headed(NEW, text).1, raw), Success)
  {
    HeadParses(text, raw);
    hide HeadOk, Headed, Parsed, FormOf;
  }

  lemma BigMessage(text: string, raw: string)
    requires HeadOk(text) && |raw| > MAX_HTTP_BODY_SIZE
    ensures Parsed(NEW, text + "\r\n\r\n" + raw) == (WithBody(Headed(NEW, text).1, raw), HttpBodyTooBig)
  {
    HeadParses(text, raw);
    hide HeadOk, Headed, Parsed, Finished;
  }

  /** A header whose lines end in LF alone is read like any other. */
  lemma LfMessage(text: string, raw: string)
    requires Known(TypeOf(text)) && |text| <= MAX_HTTP_HEADER_SIZE && Headed(NEW, text).0
    requires Find(text + "\n\n", "\n\n", 0) == |text| && Find(text + "\n\n" + raw, "\r\n\r\n", 0) == NPOS
    ensures Parsed(NEW, text + "\n\n" + raw) == ParseBody(WithBody(Headed(NEW, text).1, raw))
  {
    hide *;
    var data, end := text + "\n\n" + raw, Terminator(|text|, 2);
    LfHeaderEnd(text, raw);
    MoreOfNew(data);
    assert data == text + ("\n\n" + raw);
    TypeStays(text, "\n\n" + raw);
    assert data[..|text|] == text && data[|text| + 2..] == raw;
    HeadedKeeps(NEW, data, text);
    BufferWithEnd(WithBody(NEW, data), end);
    ParseFromIs(WithBody(NEW, data), end, text, raw);
  }

  // --- what is refused ---

  /** Before the end of the header: what cannot become a known type, and more than a header may have; everything
      else is waited for. */
  lemma NoEndYet(data: string)
    requires Find(data, "\r\n\r\n", 0) == NPOS && Find(data, "\n\n", 0) == NPOS
    ensures Parsed(NEW, data)
         == (WithBody(NEW, data),
             if data != "" && TypeOf(data) == Unknown then ParseError
             else if |data| > MAX_HTTP_HEADER_SIZE then HttpHeaderTooBig
             else NotEnoughData)
  {
    hide *;
    HeaderEndForm(data);
    MoreOfNew(data);
    BufferNoEnd(WithBody(NEW, data));
  }

  lemma BufferNoEnd(s: Request)
    requires !s.headerEnded && HeaderEnd(s.http.body).pos == NPOS
    ensures var body := s.http.body;
            ParseBuffer(s)
            == (s, if body != "" && TypeOf(body) == Unknown then ParseError
                   else if |body| > MAX_HTTP_HEADER_SIZE then HttpHeaderTooBig
                   else NotEnoughData)
  {
    hide HeaderEnd, ParseFrom, ParseBody, TypeOf;
  }

  /** An end of the header that comes too late. */
  lemma LateEnd(data: string)
    requires Known(TypeOf(data)) && HeaderEnd(data).pos > MAX_HTTP_HEADER_SIZE
    ensures var (s, r) := Parsed(NEW, data); r == HttpHeaderTooBig && s.headerEnded && s.http.body == data
  {
    MoreOfNew(data);
    hide HeaderEnd, TypeOf;
  }

  /** A header that parse_header does not accept. */
  lemma BadHead(text: string, raw: string)
    requires Known(TypeOf(text)) && OneHeader(text) && !Headed(NEW, text).0
    ensures Parsed(NEW, text + "\r\n\r\n" + raw).1 == ParseError
  {
    assert |text| <= MAX_HTTP_HEADER_SIZE;
    hide *;
    var data, end := text + "\r\n\r\n" + raw, Terminator(|text|, 4);
    HeadEnd(text, raw);
    MoreOfNew(data);
    HeadParts(text, raw);
    TypeStays(text, "\r\n\r\n" + raw);
    HeadedKeeps(NEW, data, text);
    BufferWithEnd(WithBody(NEW, data), end);
    ParseFromIs(WithBody(NEW, data), end, text, raw);
  }

  lemma HeadParts(text: string, raw: string)
    ensures var data := text + "\r\n\r\n" + raw;
            && data == text + ("\r\n\r\n" + raw) && |data| == |text| + 4 + |raw|
            && data[..|text|] == text && data[|text| + 4..] == raw
  {
  }

  // --- headers as they are received ---

  function RequestLineOf(t: RequestType, uri: string, args: seq<Pair>, back: string): string {
    TypeName(t) + " " + uri + QueryText(args) + " " + back
  }

  /** What a header leaves before its length is looked at. */
  function ReadHead(t: RequestType, uri: string, args: seq<Pair>, back: string, ps: seq<Pair>): Request {
    Request(FRESH.(headers := EmplaceAll(map[], ps), encodings := EncodingsIn(ps), get := EmplaceAll(map[], args),
                   kind := t, uri := uri, version := if "HTTP/1.0" <= back then V1 else V1_1), true, 0)
  }

  lemma HeaderOfPairs(st: Request, text: string, t: RequestType, m1: Message, ps: seq<Pair>)
    requires var got := Fields(text, '\n', false);
             && |got| == |ps| + 1 && HeaderType(got[0]) == t && Known(t)
             && StoreUri(st.http.(kind := t), got[0]) == Some(m1)
             && forall i :: 0 <= i < |ps| ==> got[i + 1] == PairLine(ps[i]) || got[i + 1] == PairLine(ps[i]) + "\r"
    requires forall i :: 0 <= i < |ps| ==> PairOk(ps[i])
    ensures HeaderParsed(st, text)
         == StoreLength(st.(http := m1.(headers := EmplaceAll(m1.headers, ps),
                                        encodings := m1.encodings + EncodingsIn(ps))))
  {
    hide Fields, StoreUri, HeaderType, Known, PairOk, PairLine, StoreLength, EmplaceAll, AddHeaders, EncodingsIn;
    AddHeadersOfPairs(m1, Fields(text, '\n', false)[1..], ps);
  }

  /** Request line and name-and-value lines as they come in are read as what they say. */
  lemma HeadedOfText(t: RequestType, uri: string, args: seq<Pair>, back: string, ps: seq<Pair>)
    requires Known(t) && UriOk(uri) && QueryOk(args) && "HTTP" <= back && Without(back, '?')
    requires LineOk(RequestLineOf(t, uri, args, back)) && forall i :: 0 <= i < |ps| ==> PairOk(ps[i])
    ensures Headed(NEW, HeaderText(HeadLines(RequestLineOf(t, uri, args, back), ps)))
         == StoreLength(ReadHead(t, uri, args, back, ps))
  {
    var first := RequestLineOf(t, uri, args, back);
    var text := HeaderText(HeadLines(first, ps));
    HeadedForm(text);
    ReadHeadForm(t, uri, args, back, ps);
    LineWithReturn(t, uri, args, back);
    hide *;
    ReceivedPairs(first, ps);
    LineRead(FRESH.(kind := t), t, uri, args, back);
    LineRead(FRESH.(kind := t), t, uri, args, back + "\r");
    HeaderOfPairs(Request(FRESH, true, 0), text, t,
                  FRESH.(kind := t, get := EmplaceAll(FRESH.get, args), uri := uri,
                         version := if "HTTP/1.0" <= back then V1 else V1_1), ps);
  }

  lemma LineWithReturn(t: RequestType, uri: string, args: seq<Pair>, back: string)
    requires "HTTP" <= back && Without(back, '?')
    ensures var line := TypeName(t) + " " + uri + QueryText(args) + " " + back;
            RequestLineOf(t, uri, args, back) == line
            && line + "\r" == TypeName(t) + " " + uri + QueryText(args) + " " + (back + "\r")
    ensures "HTTP" <= back + "\r" && Without(back + "\r", '?') && ("HTTP/1.0" <= back <==> "HTTP/1.0" <= back + "\r")
  {
    hide TypeName, QueryText;
    assert "HTTP/1.0" <= back + "\r" ==> |back| >= 8 by {
      assert "HTTP/1.0"[7] == '0';
    }
  }

  lemma ReadHeadForm(t: RequestType, uri: string, args: seq<Pair>, back: string, ps: seq<Pair>)
    ensures var m1 := FRESH.(kind := t, get := EmplaceAll(FRESH.get, args), uri := uri,
                             version := if "HTTP/1.0" <= back then V1 else V1_1);
            && ReadHead(t, uri, args, back, ps)
               == Request(FRESH, true, 0).(http := m1.(headers := EmplaceAll(m1.headers, ps),
                                                       encodings := m1.encodings + EncodingsIn(ps)))
            && Request(FRESH, true, 0).http == FRESH
  {
  }

  lemma HeadedForm(text: string)
    ensures Headed(NEW, text) == HeaderParsed(Request(FRESH, true, 0), text)
  {
  }

  /** A line that is no request line: without a blank, without a known type before it, without a slash, or without
      HTTP. */
  predicate NoRequest(line: string) {
    Without(line, ' ') || !Known(HeaderType(line)) || Without(line, '/') || Find(line, "HTTP", 0) == NPOS
  }

  /** What parse_header does not accept: another first line, ... */
  lemma BadFirstLine(first: string, ps: seq<Pair>)
    requires LineOk(first) && NoRequest(first) && forall i :: 0 <= i < |ps| ==> PairOk(ps[i])
    ensures !Headed(NEW, HeaderText(HeadLines(first, ps))).0
  {
    hide *;
    var text := HeaderText(HeadLines(first, ps));
    HeadedForm(text);
    ReceivedPairs(first, ps);
    NoRequestReturn(first);
    RefusedIn(Request(FRESH, true, 0), text);
  }

  lemma NoRequestReturn(first: string)
    requires NoRequest(first)
    ensures NoRequest(first + "\r")
  {
    CharBefore(first, "\r", ' ');
    hide TypeOf, FindChar, Find;
    assert FindChar(first, ' ', 0) != NPOS ==>
             (first + "\r")[..FindChar(first, ' ', 0)] == first[..FindChar(first, ' ', 0)];
    if Find(first, "HTTP", 0) == NPOS {
      NoHttpAtEnd(first);
    }
  }

  lemma CharBefore(a: string, b: string, c: char)
    ensures Without(a, c) <==> FindChar(a, c, 0) == NPOS
    ensures !Without(a, c) ==> FindChar(a + b, c, 0) == FindChar(a, c, 0)
  {
    CharFirst(a, c);
    if !Without(a, c) {
      FindCharIs(a + b, c, 0, FindChar(a, c, 0));
    }
  }

  lemma NoHttpAtEnd(s: string)
    requires Find(s, "HTTP", 0) == NPOS
    ensures Find(s + "\r", "HTTP", 0) == NPOS
  {
    forall i | 0 <= i
      ensures !At(s + "\r", "HTTP", i)
    {
      if i + 4 <= |s| {
        AtPrefix(s, "\r", "HTTP", i);
      } else if i <= |s| {
        NotAcross(s + "\r", i, |s|);
      }
    }
    FindNone(s + "\r", "HTTP", 0);
  }

  lemma RefusedIn(st: Request, text: string)
    requires var lines := Fields(text, '\n', false); lines != [] && NoRequest(lines[0])
    ensures !HeaderParsed(st, text).0
  {
    var line := Fields(text, '\n', false)[0];
    NoUri(st.http.(kind := HeaderType(line)), line);
    CharBefore(line, "", ' ');
    hide Fields, StoreUri, AddHeaders, TypeOf, FindChar, Find;
  }

  /** ... or a length that is no number. */
  lemma BadLength(t: RequestType, uri: string, args: seq<Pair>, back: string, ps: seq<Pair>)
    requires Known(t) && UriOk(uri) && QueryOk(args) && "HTTP" <= back && Without(back, '?')
    requires LineOk(RequestLineOf(t, uri, args, back)) && forall i :: 0 <= i < |ps| ==> PairOk(ps[i])
    requires var h := EmplaceAll(map[], ps); "content-length" in h && NoNumber(h["content-length"])
    ensures !Headed(NEW, HeaderText(HeadLines(RequestLineOf(t, uri, args, back), ps))).0
  {
    ReadHeadHeaders(t, uri, args, back, ps);
    hide *;
    HeadedOfText(t, uri, args, back, ps);
    BadNumber(ReadHead(t, uri, args, back, ps));
  }

  lemma ReadHeadHeaders(t: RequestType, uri: string, args: seq<Pair>, back: string, ps: seq<Pair>)
    ensures ReadHead(t, uri, args, back, ps).http.headers == EmplaceAll(map[], ps)
  {
  }

  lemma BadNumber(st: Request)
    requires "content-length" in st.http.headers && NoNumber(st.http.headers["content-length"])
    ensures !StoreLength(st).0
  {
    NoDigits(st.http.headers["content-length"]);
    hide StrTo;
  }

  /** An empty line alone is taken for a request, of no type: four bytes before which PATCH comes in the dictionary
      are not yet refused, and a header without lines passes. */
  lemma EmptyLineAlone()
    ensures Parsed(NEW, "\r\n\r\n") == (Request(FRESH, true, 0), Success)
  {
    hide *;
    var data, end := "\r\n\r\n", Terminator(0, 4);
    EmptyHead();
    EmptyLineEnd();
    EmptyLinePartial();
    MoreOfNew(data);
    HeadedKeeps(NEW, data, "");
    assert data[..0] == "" && data[4..] == "";
    BufferWithEnd(WithBody(NEW, data), end);
    ParseFromIs(WithBody(NEW, data), end, "", "");
  }

  lemma EmptyLineEnd()
    ensures HeaderEnd("\r\n\r\n") == Terminator(0, 4)
  {
    var data := "\r\n\r\n";
    assert data[0..4] == data;
    FindIs(data, "\r\n\r\n", 0, 0);
    hide Find;
  }

  lemma EmptyHead()
    ensures Headed(NEW, "") == (true, Request(FRESH, true, 0)) && 0 <= MAX_HTTP_HEADER_SIZE
    ensures ParseBody(WithBody(Request(FRESH, true, 0), "")) == (Request(FRESH, true, 0), Success)
  {
    HeadedForm("");
    assert Fields("", '\n', false) == [];
  }

  lemma EmptyLinePartial()
    ensures TypeOf("\r\n\r\n") == Partial
  {
    assert Less("\r\n\r\n", "PATCH");
  }

  // --- the size of what is stored ---

  predicate Short(headers: map<string, string>, n: nat) {
    forall k :: k in headers ==> |headers[k]| <= n
  }

  predicate AllShort(lines: seq<string>, n: nat) {
    forall i :: 0 <= i < |lines| ==> |lines[i]| <= n
  }

  lemma TailShort(lines: seq<string>, n: nat)
    requires AllShort(lines, n) && lines != []
    ensures AllShort(lines[1..], n)
  {
  }

  lemma {:induction false} FieldsShort(text: string, n: nat)
    requires |text| <= n
    ensures AllShort(Fields(text, '\n', false), n)
    decreases |text|
  {
    var k := FindChar(text, '\n', 0);
    FieldsFirst(text, k);
    if k != NPOS {
      FieldsShort(text[k + 1..], n);
      hide Fields, FindChar;
    }
  }

  lemma {:induction false} AddHeadersShort(m: Message, lines: seq<string>, n: nat)
    requires Short(m.headers, n) && AllShort(lines, n)
    ensures Short(AddHeaders(m, lines).headers, n)
  {
    if lines != [] {
      AddHeadersShort(m, lines[..|lines| - 1], n);
      hide FindChar, FindNotIn, ToLower, EncodingsOf;
    }
  }

  lemma HeaderParsedShort(st: Request, text: string, n: nat)
    requires Short(st.http.headers, n) && |text| <= n
    ensures Short(HeaderParsed(st, text).1.http.headers, n)
  {
    hide *;
    var lines := Fields(text, '\n', false);
    FieldsShort(text, n);
    HeaderParsedHeaders(st, text);
    if lines != [] {
      TailShort(lines, n);
      var m := st.http.(kind := HeaderType(lines[0]));
      StoreUriHeaders(m, lines[0]);
      if StoreUri(m, lines[0]).Some? {
        AddHeadersShort(StoreUri(m, lines[0]).value, lines[1..], n);
      }
    }
  }

  lemma HeaderParsedHeaders(st: Request, text: string)
    ensures var lines := Fields(text, '\n', false);
            var h := HeaderParsed(st, text).1.http.headers;
            h == st.http.headers
            || (lines != [] && var got := StoreUri(st.http.(kind := HeaderType(lines[0])), lines[0]);
                  got.Some? && h == AddHeaders(got.value, lines[1..]).headers)
  {
    hide Fields, AddHeaders, StoreLength, HeaderType, Known, StoreUri;
    var lines := Fields(text, '\n', false);
    if lines != [] {
      var got := StoreUri(st.http.(kind := HeaderType(lines[0])), lines[0]);
      if got.Some? {
        StoreLengthHeaders(st.(http := AddHeaders(got.value, lines[1..])));
      }
    }
  }

  lemma StoreUriHeaders(m: Message, line: string)
    ensures StoreUri(m, line).Some? ==>
              StoreUri(m, line).value.headers == m.headers && StoreUri(m, line).value.post == m.post
  {
    hide FindChar, Find, Substr, ArgumentList, EmplaceAll;
  }

  lemma StoreLengthHeaders(st: Request)
    ensures StoreLength(st).1.http == st.http
  {
    hide Stoull;
  }

  /** No header that is stored is longer than a header may be, whatever is received. */
  lemma ParsedShort(st: Request, data: string)
    requires Short(st.http.headers, MAX_HTTP_HEADER_SIZE)
    ensures Short(Parsed(st, data).0.http.headers, MAX_HTTP_HEADER_SIZE)
  {
    var s := More(st, data);
    var end := HeaderEnd(s.http.body);
    HeaderEndWithin(s.http.body);
    hide HeaderEnd, HeaderParsed, Short, FormOf, TypeOf;
    if !s.headerEnded && 0 <= end.pos <= MAX_HTTP_HEADER_SIZE {
      HeaderParsedShort(s.(headerEnded := true), s.http.body[..end.pos], MAX_HTTP_HEADER_SIZE);
    }
  }

  lemma {:induction false} FeedShort(st: Request, frags: seq<string>)
    requires Short(st.http.headers, MAX_HTTP_HEADER_SIZE)
    ensures Short(Feed(Parsed, st, frags).0.http.headers, MAX_HTTP_HEADER_SIZE)
    decreases |frags|
  {
    hide Parsed, Short;
    if frags != [] {
      ParsedShort(st, frags[0]);
      FeedShort(Parsed(st, frags[0]).0, frags[1..]);
    }
  }

  // --- printing ---

  /** A header that is added if the lower-cased name is missing. */
  function Missing(m: Message, name: string, value: string): (r: seq<Pair>)
    ensures |r| <= 1
  {
    if ToLower(name) in m.headers then [] else [(name, value)]
  }

  /** The headers construct adds; the length only if there is a body, but then in any case. */
  function Defaults(m: Message, host: string, formSize: nat): seq<Pair> {
    Missing(m, "Connection", "keep-alive") + Missing(m, "Host", host)
    + (if m.body == "" then [] else [("Content-Length", Print(|m.body| + formSize, 10))])
  }

  /** How the three maps are iterated over. */
  datatype Orders = Orders(headers: seq<string>, get: seq<string>, post: seq<string>)

  predicate OrdersOf(o: Orders, m: Message) {
    Enumerates(o.headers, m.headers) && Enumerates(o.get, m.get) && Enumerates(o.post, m.post)
  }

  function FormText(ps: seq<Pair>): string {
    if ps == [] then "" else Join(ps) + "\r\n"
  }

  function FirstLine(m: Message, o: Orders): string
    requires OrdersOf(o, m)
  {
    RequestText(m.kind, m.uri, PairsOf(o.get, m.get), m.version)
  }

  function HeaderPairs(m: Message, host: string, o: Orders): seq<Pair>
    requires OrdersOf(o, m)
  {
    PairsOf(o.headers, m.headers) + Defaults(m, host, |FormText(PairsOf(o.post, m.post))|)
  }

  function Constructed(m: Message, host: string, o: Orders): string
    requires OrdersOf(o, m)
  {
    HeadOf(FirstLine(m, o), HeaderPairs(m, host, o)) + "\r\n" + FormText(PairsOf(o.post, m.post)) + m.body
  }

  /** What stands behind the header: the form, and then the body. */
  function BodyText(m: Message, o: Orders): string
    requires OrdersOf(o, m)
  {
    FormText(PairsOf(o.post, m.post)) + m.body
  }

  /** The headers with the ones that are added; a length is printed only if there is a body besides the form. */
  function Completed(m: Message, host: string, n: nat): map<string, string> {
    var h := Emplace(Emplace(m.headers, "connection", "keep-alive"), "host", host);
    if m.body == "" then h else Emplace(h, "content-length", Print(n, 10))
  }

  /** Requests whose parts survive printing. */
  ghost predicate Printable(m: Message, host: string) {
    && (Known(m.kind) || m.kind == Unknown) && UriOk(m.uri) && Without(m.uri, '\n')
    && LowerKeys(m.get)
    && (forall k :: k in m.get ==> ArgOk((k, m.get[k])) && NoHttp(k) && NoHttp(m.get[k]))
    && (forall k :: k in m.get ==> Without(k, '\n') && Without(m.get[k], '\n') && Unended(m.get[k]))
    && LowerKeys(m.headers)
    && (forall k :: k in m.headers ==> PairOk((k, m.headers[k])))
    && "content-length" !in m.headers && "transfer-encoding" !in m.headers
    && ("host" !in m.headers ==> PairOk(("Host", host)))
    && |m.body| <= MAX_HTTP_BODY_SIZE
  }

  /** The type that is printed for Unknown is GET. */
  function PrintedKind(m: Message): RequestType {
    if m.kind == Unknown then Get else m.kind
  }

  lemma QueryPairsOk(m: Message, host: string, o: Orders)
    requires Printable(m, host) && OrdersOf(o, m)
    ensures var ps := PairsOf(o.get, m.get);
            && QueryOk(ps) && (forall i :: 0 <= i < |ps| ==> Without(ps[i].0, '\n') && Without(ps[i].1, '\n'))
            && EmplaceAll(map[], ps) == m.get
  {
    EmplaceOrder(o.get, m.get);
    hide NoHttp, Without, EmplaceAll, UriOk, Known, PairOk;
    hide LowerKeys;
    var ps := PairsOf(o.get, m.get);
    forall i | 0 <= i < |ps|
      ensures ArgOk(ps[i]) && NoHttp(ps[i].0) && NoHttp(ps[i].1)
      ensures Without(ps[i].0, '\n') && Without(ps[i].1, '\n') && Unended(ps[i].1)
    {
      assert o.get[i] in m.get;
    }
  }

  lemma {:induction false} JoinWithoutLf(ps: seq<Pair>)
    requires forall i :: 0 <= i < |ps| ==> Without(ps[i].0, '\n') && Without(ps[i].1, '\n')
    ensures Without(Join(ps), '\n')
  {
    if |ps| > 1 {
      JoinWithoutLf(ps[1..]);
    }
  }

  lemma FirstLineOk(m: Message, host: string, o: Orders)
    requires Printable(m, host) && OrdersOf(o, m)
    ensures LineOk(FirstLine(m, o))
  {
    var ps := PairsOf(o.get, m.get);
    QueryPairsOk(m, host, o);
    JoinWithoutLf(ps);
    LinesPlain(PrintedKind(m), m.uri, ps, m.version);
  }

  lemma LinesPlain(t: RequestType, uri: string, ps: seq<Pair>, v: Version)
    requires Known(t) && Without(uri, '\n') && Without(Join(ps), '\n')
    ensures Without(TypeName(t) + " " + uri + QueryText(ps) + " " + Protocol(v), '\n')
  {
    hide Join;
    assert Without(TypeName(t), '\n') && Without(Protocol(v), '\n') && Without(QueryText(ps), '\n');
  }

  predicate PairComesBack(p: Pair) {
    PairOk(p) && ToLower(p.0) != "transfer-encoding"
  }

  lemma ConnectionBack()
    ensures PairComesBack(("Connection", "keep-alive")) && ToLower("Connection") == "connection"
  {
  }

  lemma HostBack(host: string)
    ensures ToLower("Host") == "host"
    ensures PairOk(("Host", host)) ==> PairComesBack(("Host", host))
  {
    assert ToLower("Host") == "host";
  }

  lemma LengthBack(n: nat)
    ensures PairComesBack(("Content-Length", Print(n, 10))) && ToLower("Content-Length") == "content-length"
  {
    DecimalChars(n);
    hide Print;
  }

  lemma AllPairsBack(m: Message, host: string, o: Orders)
    requires Printable(m, host) && OrdersOf(o, m)
    ensures var ps := HeaderPairs(m, host, o);
            ps != [] && forall i :: 0 <= i < |ps| ==> PairComesBack(ps[i])
  {
    var n := |FormText(PairsOf(o.post, m.post))|;
    ConnectionBack();
    HostBack(host);
    LengthBack(|m.body| + n);
    var own := PairsOf(o.headers, m.headers);
    OwnPairsBack(m, host, o);
    hide Printable, PairComesBack, Print, ToLower, FormText;
    var ds := Defaults(m, host, n);
    assert forall i :: 0 <= i < |ds| ==> PairComesBack(ds[i]) by {
      HostOk(m, host);
    }
    assert own + ds != [] by {
      if ds == [] {
        assert "connection" in m.headers;
      }
    }
  }

  lemma HostOk(m: Message, host: string)
    requires Printable(m, host)
    ensures "host" !in m.headers ==> PairComesBack(("Host", host))
  {
    HostBack(host);
  }

  lemma OwnPairsBack(m: Message, host: string, o: Orders)
    requires Printable(m, host) && OrdersOf(o, m)
    ensures var ps := PairsOf(o.headers, m.headers); forall i :: 0 <= i < |ps| ==> PairComesBack(ps[i])
  {
    hide PairOk, ToLower, ArgOk, NoHttp, UriOk, Known;
  }

  /** Reading the printed pairs back stores the original headers and the added ones. */
  lemma StoredPairs(m: Message, host: string, o: Orders)
    requires Printable(m, host) && OrdersOf(o, m)
    ensures EmplaceAll(map[], HeaderPairs(m, host, o)) == Completed(m, host, |BodyText(m, o)|)
  {
    PairsForm(m, host, o);
    LowerHeaders(m, host, o);
    hide *;
    var n := |FormText(PairsOf(o.post, m.post))|;
    EmplaceAllAppend(map[], PairsOf(o.headers, m.headers), Defaults(m, host, n));
    EmplaceOrder(o.headers, m.headers);
    StoredDefaults(m, host, n);
  }

  lemma PairsForm(m: Message, host: string, o: Orders)
    requires OrdersOf(o, m)
    ensures var n := |FormText(PairsOf(o.post, m.post))|;
            HeaderPairs(m, host, o) == PairsOf(o.headers, m.headers) + Defaults(m, host, n)
            && |BodyText(m, o)| == |m.body| + n
  {
    hide FormText, Defaults;
  }

  lemma LowerHeaders(m: Message, host: string, o: Orders)
    requires Printable(m, host) && OrdersOf(o, m)
    ensures Enumerates(o.headers, m.headers) && LowerKeys(m.headers)
    ensures (forall i :: 0 <= i < |o.headers| ==> o.headers[i] in m.headers)
    ensures (forall i :: 0 <= i < |o.post| ==> o.post[i] in m.post)
  {
  }

  lemma NoForm(m: Message, o: Orders)
    requires OrdersOf(o, m) && m.post == map[]
    ensures FormText(PairsOf(o.post, m.post)) == ""
  {
    SomeElement(o.post);
  }

  lemma SomeElement(order: seq<string>)
    ensures order != [] ==> exists x :: x in order
  {
    if order != [] {
      assert order[0] in order;
    }
  }

  lemma StoredDefaults(m: Message, host: string, n: nat)
    ensures EmplaceAll(m.headers, Defaults(m, host, n)) == Completed(m, host, |m.body| + n)
  {
    ConnectionBack();
    HostBack(host);
    LengthBack(|m.body| + n);
    var a, b := Missing(m, "Connection", "keep-alive"), Missing(m, "Host", host);
    var v := Print(|m.body| + n, 10);
    var c := if m.body == "" then [] else [("Content-Length", v)];
    assert Defaults(m, host, n) == a + b + c;
    hide Print, PairComesBack, EmplaceAll, ToLower, Missing;
    EmplaceAllAppend(m.headers, a + b, c);
    EmplaceAllAppend(m.headers, a, b);
    var h1 := Emplace(m.headers, "connection", "keep-alive");
    var h2 := Emplace(h1, "host", host);
    StoredMissing(m, m.headers, "Connection", "keep-alive");
    StoredMissing(m, h1, "Host", host);
    StoredOne(h2, ("Content-Length", v));
    EmplaceNothing(h2);
  }

  lemma StoredMissing(m: Message, h: map<string, string>, name: string, value: string)
    requires ToLower(name) in m.headers <==> ToLower(name) in h
    ensures EmplaceAll(h, Missing(m, name, value)) == Emplace(h, ToLower(name), value)
  {
    hide ToLower, EmplaceAll;
    EmplaceNothing(h);
    StoredOne(h, (name, value));
  }

  lemma StoredOne(h: map<string, string>, p: Pair)
    ensures EmplaceAll(h, [p]) == Emplace(h, ToLower(p.0), p.1)
  {
    assert [p][..0] == [];
  }

  // --- reading the printed header back ---

  lemma LengthOfCompleted(m: Message, host: string, n: nat)
    requires Printable(m, host) && n < TWO_64
    ensures "content-length" in Completed(m, host, n) <==> m.body != ""
    ensures m.body != "" ==> Completed(m, host, n)["content-length"] == Print(n, 10)
    ensures Stoull(Print(n, 10), 10) == Some(n)
  {
    hide Print, Stoull, PairOk, LowerKeys, ArgOk, NoHttp, UriOk, Known;
    StoullPrint(n);
  }

  lemma CompletedLength(m: Message, host: string, n: nat, st: Request)
    requires Printable(m, host) && n < TWO_64 && st.http.headers == Completed(m, host, n) && st.contentLength == 0
    ensures StoreLength(st) == (true, st.(contentLength := if m.body == "" then 0 else n))
  {
    LengthOfCompleted(m, host, n);
    hide Completed, Stoull, Print, Printable;
  }

  function HeadTextOf(m: Message, host: string, o: Orders): string
    requires OrdersOf(o, m)
  {
    HeaderText(HeadLines(FirstLine(m, o), HeaderPairs(m, host, o)))
  }

  /** What the header text of a printed request leaves in a new object. */
  function Recovered(m: Message, host: string, n: nat): Message {
    FRESH.(headers := Completed(m, host, n), get := m.get, kind := PrintedKind(m), uri := m.uri, version := m.version)
  }

  lemma UriAndKind(m: Message, host: string)
    requires Printable(m, host)
    ensures UriOk(m.uri) && Known(PrintedKind(m))
  {
  }

  lemma KindPrints(m: Message, o: Orders)
    requires OrdersOf(o, m)
    ensures FirstLine(m, o) == RequestText(PrintedKind(m), m.uri, PairsOf(o.get, m.get), m.version)
  {
  }

  /** The header text gives back type, URI, arguments, version and the completed headers. */
  lemma HeadedOfConstructed(m: Message, host: string, o: Orders)
    requires Printable(m, host) && OrdersOf(o, m) && |BodyText(m, o)| <= MAX_HTTP_BODY_SIZE
    ensures var n := |BodyText(m, o)|;
            Headed(NEW, HeadTextOf(m, host, o))
            == (true, Request(Recovered(m, host, n), true, if m.body == "" then 0 else n))
  {
    var n := |BodyText(m, o)|;
    assert n < TWO_64;
    var ps, args, t := HeaderPairs(m, host, o), PairsOf(o.get, m.get), PrintedKind(m);
    FirstLineOk(m, host, o);
    AllPairsBack(m, host, o);
    PairsAreOk(ps);
    StoredPairs(m, host, o);
    QueryPairsOk(m, host, o);
    UriAndKind(m, host);
    KindPrints(m, o);
    RecoveredForm(m, host, n);
    HeadTextIs(m, host, o);
    RecoveredAsRead(m, host, n, args, ps);
    hide *;
    FirstLineStarts(t, m.uri, args, m.version);
    HeadedOfText(t, m.uri, args, Protocol(m.version), ps);
    CompletedLength(m, host, n, Request(Recovered(m, host, n), true, 0));
  }

  lemma HeadTextIs(m: Message, host: string, o: Orders)
    requires OrdersOf(o, m)
    ensures HeadTextOf(m, host, o) == HeaderText(HeadLines(FirstLine(m, o), HeaderPairs(m, host, o)))
  {
  }

  lemma RecoveredAsRead(m: Message, host: string, n: nat, args: seq<Pair>, ps: seq<Pair>)
    requires EmplaceAll(map[], args) == m.get && EmplaceAll(map[], ps) == Completed(m, host, n) && EncodingsIn(ps) == {}
    ensures Request(Recovered(m, host, n), true, 0) == ReadHead(PrintedKind(m), m.uri, args, Protocol(m.version), ps)
  {
    ProtocolBack(m.version, "");
    assert Protocol(m.version) + "" == Protocol(m.version);
    hide Completed, EmplaceAll, EncodingsIn, PrintedKind, Protocol;
  }

  lemma FirstLineStarts(t: RequestType, uri: string, args: seq<Pair>, v: Version)
    ensures RequestLineOf(t, uri, args, Protocol(v)) == TypeName(t) + " " + uri + QueryText(args) + " " + Protocol(v)
    ensures Known(t) ==> RequestText(t, uri, args, v) == RequestLineOf(t, uri, args, Protocol(v))
    ensures "HTTP" <= Protocol(v) && Without(Protocol(v), '?')
  {
    hide TypeName, QueryText;
  }

  lemma PairsAreOk(ps: seq<Pair>)
    requires forall i :: 0 <= i < |ps| ==> PairComesBack(ps[i])
    ensures (forall i :: 0 <= i < |ps| ==> PairOk(ps[i])) && EncodingsIn(ps) == {}
  {
    hide PairOk, ToLower, EncodingsIn;
    OtherHeaders(ps);
  }

  lemma RecoveredForm(m: Message, host: string, n: nat)
    ensures Recovered(m, host, n).post == map[] && Recovered(m, host, n).kind == PrintedKind(m)
    ensures Recovered(m, host, n).headers == Completed(m, host, n)
  {
  }

  /** The printed header is a good one, and the form and the body stand behind it. */
  lemma HeadOfConstructedOk(m: Message, host: string, o: Orders)
    requires Printable(m, host) && OrdersOf(o, m) && |BodyText(m, o)| <= MAX_HTTP_BODY_SIZE
    requires |HeadTextOf(m, host, o)| + 3 <= MAX_HTTP_HEADER_SIZE
    ensures HeadOk(HeadTextOf(m, host, o))
    ensures Constructed(m, host, o) == HeadTextOf(m, host, o) + "\r\n\r\n" + BodyText(m, o)
  {
    OrdersIn(o, m);
    hide *;
    var first, ps, text, t := FirstLine(m, o), HeaderPairs(m, host, o), HeadTextOf(m, host, o), PrintedKind(m);
    var lines := HeadLines(first, ps);
    FirstLineOk(m, host, o);
    AllPairsBack(m, host, o);
    PairsAreOk(ps);
    LinesOfPairs(first, ps);
    HeadTextForm(m, host, o);
    HeaderEndOfPrinted(lines, "");
    HeadedOfConstructed(m, host, o);
    UriAndKind(m, host);
    FirstLineForm(m, o);
    TextStarts(lines, t, m.uri + QueryText(PairsOf(o.get, m.get)) + " " + Protocol(m.version));
    TypeIs(text + "\r\n\r\n", t);
    HeadOkIs(text, t);
  }

  lemma OrdersIn(o: Orders, m: Message)
    requires OrdersOf(o, m)
    ensures Enumerates(o.post, m.post)
    ensures forall i :: 0 <= i < |o.headers| ==> o.headers[i] in m.headers
    ensures forall i :: 0 <= i < |o.get| ==> o.get[i] in m.get
    ensures forall i :: 0 <= i < |o.post| ==> o.post[i] in m.post
  {
  }

  lemma HeadTextForm(m: Message, host: string, o: Orders)
    requires OrdersOf(o, m)
    ensures var lines, text := HeadLines(FirstLine(m, o), HeaderPairs(m, host, o)), HeadTextOf(m, host, o);
            && lines != [] && lines[0] == FirstLine(m, o) && text == HeaderText(lines)
            && Emit(lines) + "\r\n" == text + "\r\n\r\n"
            && Constructed(m, host, o) == text + "\r\n\r\n" + BodyText(m, o)
  {
    hide HeaderPairs, FirstLine, PairLines, Emit, HeaderText, FormText;
    var lines, text := HeadLines(FirstLine(m, o), HeaderPairs(m, host, o)), HeadTextOf(m, host, o);
    var form := FormText(PairsOf(o.post, m.post));
    assert Emit(lines) == text + "\r\n";
    assert text + "\r\n" + "\r\n" == text + "\r\n\r\n";
    assert text + "\r\n\r\n" + form + m.body == text + "\r\n\r\n" + (form + m.body);
  }

  lemma FirstLineForm(m: Message, o: Orders)
    requires OrdersOf(o, m)
    ensures FirstLine(m, o)
         == TypeName(PrintedKind(m)) + " " + (m.uri + QueryText(PairsOf(o.get, m.get)) + " " + Protocol(m.version))
  {
    hide TypeName, QueryText, Protocol;
  }

  lemma HeadOkIs(text: string, t: RequestType)
    requires TypeOf(text + "\r\n\r\n") == t && Known(t) && Headed(NEW, text).0
    requires Find(text + "\r\n\r\n", "\r\n\r\n", 0) == |text| && Find(text + "\r\n\r\n", "\n\n", 0) == NPOS
    requires |text| + 3 <= MAX_HTTP_HEADER_SIZE
    ensures HeadOk(text)
  {
    hide Find, Headed, TypeOf;
  }

  lemma TextStarts(lines: seq<string>, t: RequestType, more: string)
    requires Known(t) && LinesOk(lines) && lines[0] == TypeName(t) + " " + more
    ensures TypeName(t) <= HeaderText(lines) + "\r\n\r\n"
  {
    hide TypeName;
    assert lines[0] <= HeaderText(lines);
  }

  /** The object that has received a printed request. Only behind the header of a POST request a form is looked
      for. */
  function Arrived(m: Message, host: string, o: Orders): Request
    requires OrdersOf(o, m)
  {
    var raw := BodyText(m, o);
    Request(Recovered(m, host, |raw|).(
              body := raw,
              post := if PrintedKind(m) == Post then StoreAll(map[], FormOf(raw)) else map[]), true, |raw|)
  }

  /** Printing and then parsing a request, for every way the three maps are iterated over and every way the text is
      cut up: the parser succeeds, only with the last byte, and gives back type, URI, version, arguments and the
      completed headers; what has been printed behind the header is the body. A request with a form and no body is
      left out: no length is printed for it. */
  lemma ConstructedParses(m: Message, host: string, o: Orders, frags: seq<string>)
    requires Printable(m, host) && OrdersOf(o, m) && (m.body == "" ==> m.post == map[])
    requires |HeadTextOf(m, host, o)| + 3 <= MAX_HTTP_HEADER_SIZE && |BodyText(m, o)| <= MAX_HTTP_BODY_SIZE
    requires Concat(frags) == Constructed(m, host, o)
    ensures Feed(Parsed, NEW, frags) == (Arrived(m, host, o), Success)
    ensures Patient(Parsed, NEW, Concat(frags))
  {
    hide *;
    var text, raw := HeadTextOf(m, host, o), BodyText(m, o);
    HeadOfConstructedOk(m, host, o);
    HeadedOfConstructed(m, host, o);
    LengthOfBody(m, o);
    SizedMessage(text, raw, frags);
    BodyStored(Recovered(m, host, |raw|), raw);
    RecoveredForm(m, host, |raw|);
    BodyFinished(Recovered(m, host, |raw|).(body := raw), |raw|);
    ArrivedForm(m, host, o);
  }

  lemma LengthOfBody(m: Message, o: Orders)
    requires OrdersOf(o, m) && (m.body == "" ==> m.post == map[])
    ensures |BodyText(m, o)| == if m.body == "" then 0 else |BodyText(m, o)|
    ensures m.post == map[] ==> BodyText(m, o) == m.body
  {
    if m.post == map[] {
      NoForm(m, o);
    }
    hide FormText;
  }

  lemma ArrivedForm(m: Message, host: string, o: Orders)
    requires OrdersOf(o, m)
    ensures var raw := BodyText(m, o);
            var r := Recovered(m, host, |raw|).(body := raw);
            && r.post == map[] && r.kind == PrintedKind(m)
            && Arrived(m, host, o)
               == Request(r.(post := if r.kind == Post then StoreAll(map[], FormOf(r.body)) else map[]), true, |raw|)
  {
    hide FormOf, StoreAll, Completed, FormText;
  }

  /** Part of a printed request has no other result than to be waited for. */
  lemma PrintedArrives(m: Message, host: string, o: Orders, frags: seq<string>, rest: string)
    requires Printable(m, host) && OrdersOf(o, m) && (m.body == "" ==> m.post == map[])
    requires |HeadTextOf(m, host, o)| + 3 <= MAX_HTTP_HEADER_SIZE && |BodyText(m, o)| <= MAX_HTTP_BODY_SIZE
    requires Concat(frags) + rest == Constructed(m, host, o) && Feed(Parsed, NEW, frags).1 != NotEnoughData
    ensures rest == "" && Feed(Parsed, NEW, frags) == (Arrived(m, host, o), Success)
  {
    hide *;
    if rest == "" {
      assert Concat(frags) + "" == Concat(frags);
      ConstructedParses(m, host, o, frags);
    } else {
      HeadOfConstructedOk(m, host, o);
      HeadedOfConstructed(m, host, o);
      LengthOfBody(m, o);
      PartialMessage(HeadTextOf(m, host, o), BodyText(m, o), frags, rest);
    }
  }

  lemma BodyFinished(m: Message, n: nat)
    requires m.post == map[]
    ensures Finished(Request(m, true, n))
         == Request(m.(post := if m.kind == Post then StoreAll(map[], FormOf(m.body)) else map[]), true, n)
  {
    hide FormOf;
  }

  lemma BodyStored(m: Message, body: string)
    ensures WithBody(Request(m, true, |body|), body) == Request(m.(body := body), true, |body|)
  {
  }

  // --- forms ---

  /** Forms that come back: besides what arguments ask for, keys without line ends, and no key that starts with the
      question mark that the parser drops. */
  ghost predicate FormOk(post: map<string, string>) {
    && post != map[] && LowerKeys(post)
    && forall k :: k in post ==>
         && ArgOk((k, post[k])) && Without(k, '\n') && Without(post[k], '\n') && Unended(post[k])
         && (k == "" || (k[0] != '?' && k[0] != '\r'))
  }

  predicate FormPairsOk(ps: seq<Pair>) {
    && ps != [] && ArgsOk(ps) && (ps[0].0 == "" || (ps[0].0[0] != '?' && ps[0].0[0] != '\r'))
    && forall i :: 0 <= i < |ps| ==> Without(ps[i].0, '\n') && Without(ps[i].1, '\n')
  }

  lemma NotEmpty(order: seq<string>, m: map<string, string>)
    requires Enumerates(order, m)
    ensures order == [] ==> m == map[]
  {
  }

  lemma FormPairs(post: map<string, string>, order: seq<string>)
    requires FormOk(post) && Enumerates(order, post)
    ensures FormPairsOk(PairsOf(order, post))
  {
    hide Without, LowerKeys;
    var ps := PairsOf(order, post);
    forall i | 0 <= i < |ps|
      ensures ArgOk(ps[i]) && Without(ps[i].0, '\n') && Without(ps[i].1, '\n') && Unended(ps[i].1)
      ensures ps[i].0 == "" || (ps[i].0[0] != '?' && ps[i].0[0] != '\r')
    {
      assert order[i] in post;
    }
    NotEmpty(order, post);
  }

  lemma {:induction false} JoinPlain(ps: seq<Pair>, c: char)
    requires c != '=' && c != '&'
    requires forall i :: 0 <= i < |ps| ==> Without(ps[i].0, c) && Without(ps[i].1, c)
    ensures Without(Join(ps), c)
  {
    if |ps| > 1 {
      JoinPlain(ps[1..], c);
    }
  }

  /** What may end a form: nothing, a line end, or an empty line. */
  predicate FormEnd(end: string) {
    end == "" || end == "\r\n" || end == "\r\n\r\n" || end == "\n\n"
  }

  /** The last empty line is the one behind the form, unless there is none, or only one before it. */
  lemma EmptyLines(lead: string, form: string, end: string)
    requires LineEnds(lead) && Without(form, '\n') && form != "" && !IsLineEnd(form[0]) && Unended(form) && FormEnd(end)
    ensures var s, at := lead + form + end, |lead + form|;
            && (end == "\r\n\r\n" ==> RFind(s, "\r\n\r\n") == at)
            && (RFind(s, "\r\n\r\n") < |lead| || RFind(s, "\r\n\r\n") == at)
            && (RFind(s, "\n\n") < |lead| || RFind(s, "\n\n") == at)
            && (end == "\n\n" ==> RFind(s, "\n\n") == at)
  {
    var s, at := lead + form + end, |lead + form|;
    forall i: int | i >= |lead| && i != at
      ensures !At(s, "\r\n\r\n", i) && !At(s, "\n\n", i)
    {
      NoEmptyLine(lead, form, end, i);
    }
    assert s[at..] == end;
    assert end == "\r\n\r\n" ==> At(s, "\r\n\r\n", at);
    assert end == "\n\n" ==> At(s, "\n\n", at);
  }

  lemma NoEmptyLine(lead: string, form: string, end: string, i: int)
    requires Without(form, '\n') && form != "" && Unended(form) && FormEnd(end)
    requires i >= |lead| && i != |lead + form|
    ensures var s := lead + form + end; !At(s, "\r\n\r\n", i) && !At(s, "\n\n", i)
  {
    var s, at := lead + form + end, |lead + form|;
    assert forall k :: |lead| <= k < at ==> s[k] == form[k - |lead|];
    assert forall k :: at <= k < |s| ==> s[k] == end[k - at];
    AtCrLf(s, i);
  }

  lemma FormStarts(lead: string, s: string)
    requires LineEnds(lead) && s != "" && !IsLineEnd(s[0])
    ensures FindNotIn(lead + s, {'\r', '\n'}, 0) == |lead|
  {
    FindNotInIs(lead + s, {'\r', '\n'}, 0, |lead|);
  }

  lemma FormRange(lead: string, form: string, end: string)
    requires LineEnds(lead) && Without(form, '\n') && form != "" && !IsLineEnd(form[0]) && Unended(form) && FormEnd(end)
    ensures FormOf(lead + form + end) == ArgumentList(form) || FormOf(lead + form + end) == ArgumentList(form + end)
  {
    hide FindNotIn, RFind, Without, LineEnds, ArgumentList, Substr, FormEnd;
    EmptyLines(lead, form, end);
    assert lead + form + end == lead + (form + end);
    FormStarts(lead, form + end);
    FormSlices(lead, form, end);
  }

  /** end starts with the last empty line behind a form, whatever follows it: one with CRLF, or one with LF if there
      is none with CRLF. */
  predicate LastLine(lead: string, end: string) {
    RFind(end, "\r\n\r\n") == 0
    || (RFind(lead, "\r\n\r\n") == RFind(end, "\r\n\r\n") == NPOS && RFind(end, "\n\n") == 0)
  }

  /** An empty line stands in front of a form or behind it. */
  lemma EmptyOutside(lead: string, form: string, end: string, empty: string, i: int)
    requires Without(form, '\n') && form != "" && !IsLineEnd(form[0]) && Unended(form)
    requires empty == "\r\n\r\n" || empty == "\n\n"
    ensures var at := |lead + form|;
            At(lead + form + end, empty, i) <==> At(lead, empty, i) || At(end, empty, i - at)
  {
    var s, at := lead + form + end, |lead + form|;
    if i >= at {
      assert s[at..] == end;
      assert At(s, empty, i) ==> s[i..i + |empty|] == end[i - at..i - at + |empty|];
    } else if 0 <= i <= |lead| - |empty| {
      assert s[i..i + |empty|] == lead[i..i + |empty|];
    } else if i >= 0 {
      NoneAcross(lead, form, end, empty, i);
    }
  }

  lemma NoneAcross(lead: string, form: string, end: string, empty: string, i: int)
    requires Without(form, '\n') && form != "" && !IsLineEnd(form[0]) && Unended(form)
    requires empty == "\r\n\r\n" || empty == "\n\n"
    requires |lead| - |empty| < i < |lead + form|
    ensures !At(lead + form + end, empty, i)
  {
    var s, at := lead + form + end, |lead + form|;
    assert forall k :: |lead| <= k < at ==> s[k] == form[k - |lead|];
    if At(s, empty, i) {
      EmptyAt(s, empty, i, if i < |lead| then |lead| - i else if i == at - 1 then 0 else 1);
    }
  }

  lemma EmptyAt(s: string, empty: string, i: int, k: nat)
    requires At(s, empty, i) && k < |empty|
    ensures s[i + k] == empty[k]
  {
    assert s[i..i + |empty|][k] == empty[k];
  }

  lemma EmptyFound(lead: string, form: string, end: string)
    requires Without(form, '\n') && form != "" && !IsLineEnd(form[0]) && Unended(form) && LastLine(lead, end)
    ensures var s := lead + form + end;
            |lead + form| == if RFind(s, "\r\n\r\n") != NPOS then RFind(s, "\r\n\r\n") else RFind(s, "\n\n")
  {
    var s, at := lead + form + end, |lead + form|;
    forall i: int, empty | empty == "\r\n\r\n" || empty == "\n\n"
      ensures At(s, empty, i) <==> At(lead, empty, i) || At(end, empty, i - at)
    {
      EmptyOutside(lead, form, end, empty, i);
    }
    hide At, Without;
    if RFind(end, "\r\n\r\n") == 0 {
      LastAt(lead, end, s, "\r\n\r\n", at);
    } else {
      LastAt(lead, end, s, "\n\n", at);
    }
  }

  lemma LastAt(lead: string, end: string, s: string, empty: string, at: nat)
    requires |lead| <= at && empty != "" && RFind(end, empty) == 0
    requires forall i :: At(s, empty, i) <==> At(lead, empty, i) || At(end, empty, i - at)
    ensures RFind(s, empty) == at
  {
    assert At(s, empty, at) by { assert At(end, empty, at - at); }
    forall i: int | i > at ensures !At(s, empty, i) {
      assert !At(end, empty, i - at);
    }
  }

  lemma FormCut(lead: string, form: string, end: string)
    requires LineEnds(lead) && Without(form, '\n') && form != "" && !IsLineEnd(form[0]) && Unended(form)
    requires LastLine(lead, end)
    ensures FormOf(lead + form + end) == ArgumentList(form)
  {
    EmptyFound(lead, form, end);
    hide FindNotIn, RFind, Without, LineEnds, ArgumentList, Substr, LastLine;
    assert lead + form + end == lead + (form + end);
    FormStarts(lead, form + end);
    FormSlices(lead, form, end);
  }

  /** parse_post_body reads a form from its first character on to the last empty line, or to the end. */
  lemma FormRead(ps: seq<Pair>, lead: string, end: string)
    requires FormPairsOk(ps) && LineEnds(lead) && (FormEnd(end) || LastLine(lead, end))
    ensures FormOf(lead + Join(ps) + end) == ps
  {
    var j := Join(ps);
    FormPlain(ps, end);
    hide *;
    JoinPlain(ps, '\n');
    JoinFirst(ps);
    JoinLast(ps);
    ArgsOfJoin(ps, "");
    assert j + "" == j;
    ListPlain(j);
    if LastLine(lead, end) {
      FormCut(lead, j, end);
    } else {
      FormRange(lead, j, end);
      ArgsOfJoin(ps, end);
      ListPlain(j + end);
    }
  }

  lemma FormPlain(ps: seq<Pair>, end: string)
    requires FormPairsOk(ps)
    ensures ps != [] && ArgsOk(ps) && forall i :: 0 <= i < |ps| ==> Without(ps[i].0, '\n') && Without(ps[i].1, '\n')
    ensures (FormEnd(end) ==> LineEnds(end)) && LineEnds("")
  {
    hide Without, ArgOk;
  }

  lemma FormSlices(lead: string, form: string, end: string)
    ensures var s := lead + form + end;
            Substr(s, |lead|, |form|) == form && forall n: int :: n < 0 ==> Substr(s, |lead|, n) == form + end
  {
    assert lead + form + end == lead + (form + end);
  }

  lemma ListPlain(s: string)
    requires s != "" && s[0] != '?'
    ensures ArgumentList(s) == Args(s)
  {
  }

  lemma {:induction false} JoinLast(ps: seq<Pair>)
    requires ps != [] && ArgsOk(ps)
    ensures Unended(Join(ps)) && Join(ps) != ""
  {
    hide ArgOk;
    if |ps| > 1 {
      JoinLast(ps[1..]);
    } else {
      assert Join(ps) == ps[0].0 + "=" + ps[0].1 + "";
      assert ps[0].0 + "=" + ps[0].1 + "" == ps[0].0 + "=" + ps[0].1;
    }
  }

  /** A POST request with a form behind its header, with or without an empty line behind it: on the message as a
      whole, the form ends up in the fields, the last value of a key winning. */
  lemma FormMessage(text: string, ps: seq<Pair>, lead: string, end: string)
    requires HeadOk(text) && FormPairsOk(ps) && LineEnds(lead) && (FormEnd(end) || LastLine(lead, end))
    requires Headed(NEW, text).1.http.kind == Post
    requires var raw := lead + Join(ps) + end;
             Headed(NEW, text).1.contentLength <= |raw| <= MAX_HTTP_BODY_SIZE
    ensures var raw, st := lead + Join(ps) + end, Headed(NEW, text).1;
            Parsed(NEW, text + "\r\n\r\n" + raw)
            == (st.(http := st.http.(body := raw, post := StoreAll(map[], ps))), Success)
  {
    FormRead(ps, lead, end);
    HeadedPost(text);
    hide HeadOk, Headed, Parsed, ParseBody, FormOf, StoreAll, FormPairsOk, LineEnds, FormEnd, LastLine;
    LongerMessage(text, lead + Join(ps) + end);
  }

  lemma HeadedPost(text: string)
    ensures Headed(NEW, text).1.http.post == map[]
  {
    var lines, st := Fields(text, '\n', false), Request(FRESH, true, 0);
    HeadedForm(text);
    hide Fields, AddHeaders, StoreLength, HeaderType, Known, StoreUri;
    if lines != [] {
      var m := FRESH.(kind := HeaderType(lines[0]));
      StoreUriHeaders(m, lines[0]);
      if StoreUri(m, lines[0]).Some? {
        var got := StoreUri(m, lines[0]).value;
        AddHeadersKeeps(got, got.body, lines[1..]);
        StoreLengthHeaders(st.(http := AddHeaders(got, lines[1..])));
      }
    }
  }

  /** Storing a form: the last value of a key stays, and other keys are left alone. */
  lemma {:induction false} LastStays(m: map<string, string>, ps: seq<Pair>, i: nat)
    requires i < |ps| && forall j :: i < j < |ps| ==> ToLower(ps[j].0) != ToLower(ps[i].0)
    ensures ToLower(ps[i].0) in StoreAll(m, ps) && StoreAll(m, ps)[ToLower(ps[i].0)] == ps[i].1
    ensures forall k :: (forall j :: 0 <= j < |ps| ==> ToLower(ps[j].0) != k) ==>
              (k in StoreAll(m, ps) <==> k in m) && (k in m ==> StoreAll(m, ps)[k] == m[k])
  {
    hide ToLower;
    OthersStay(m, ps);
    if i < |ps| - 1 {
      LastStays(m, ps[..|ps| - 1], i);
    }
  }

  lemma {:induction false} OthersStay(m: map<string, string>, ps: seq<Pair>)
    ensures forall k :: (forall j :: 0 <= j < |ps| ==> ToLower(ps[j].0) != k) ==>
              (k in StoreAll(m, ps) <==> k in m) && (k in m ==> StoreAll(m, ps)[k] == m[k])
  {
    hide ToLower;
    if ps != [] {
      OthersStay(m, ps[..|ps| - 1]);
    }
  }

  /** parse_post_body undoes the printed form. */
  lemma FormBack(ps: seq<Pair>)
    requires FormPairsOk(ps)
    ensures FormOf(FormText(ps)) == ps
  {
    FormRead(ps, "", "\r\n");
    assert "" + Join(ps) + "\r\n" == Join(ps) + "\r\n";
    hide FormOf, Join;
  }

  lemma JoinFirst(ps: seq<Pair>)
    requires FormPairsOk(ps)
    ensures Join(ps) != "" && !IsLineEnd(Join(ps)[0]) && Join(ps)[0] != '?'
  {
    var k := ps[0].0;
    assert Join(ps)[0] == (k + "=")[0];
    if k != "" {
      assert k[0] in k;
    }
  }

  lemma {:induction false} StorePrefix(order: seq<string>, m: map<string, string>, n: nat)
    requires Enumerates(order, m) && LowerKeys(m) && n <= |order|
    ensures StoreAll(map[], PairsOf(order, m)[..n]) == map k | k in m && k in order[..n] :: m[k]
  {
    if n > 0 {
      StorePrefix(order, m, n - 1);
      var k := order[n - 1];
      assert ToLower(k) == k;
      StoreNext(PairsOf(order, m), n);
      hide ToLower, LowerKeys, StoreAll;
      assert order[..n] == order[..n - 1] + [k];
    }
  }

  lemma StoreNext(ps: seq<Pair>, n: nat)
    requires 0 < n <= |ps|
    ensures StoreAll(map[], ps[..n]) == StoreAll(map[], ps[..n - 1])[ToLower(ps[n - 1].0) := ps[n - 1].1]
  {
    assert ps[..n][..n - 1] == ps[..n - 1];
  }

  lemma StoreOrder(order: seq<string>, m: map<string, string>)
    requires Enumerates(order, m) && LowerKeys(m)
    ensures StoreAll(map[], PairsOf(order, m)) == m
  {
    StorePrefix(order, m, |order|);
    assert PairsOf(order, m)[..|order|] == PairsOf(order, m);
    assert order[..|order|] == order;
  }

  /** A printed form, in one call: no length is printed for it, so it is taken to end with what has arrived. The
      fields of a POST request come back; the text of the form is left in the body. */
  lemma FormParses(m: Message, host: string, o: Orders)
    requires Printable(m, host) && OrdersOf(o, m) && m.body == "" && FormOk(m.post)
    requires |HeadTextOf(m, host, o)| + 3 <= MAX_HTTP_HEADER_SIZE
    requires |FormText(PairsOf(o.post, m.post))| <= MAX_HTTP_BODY_SIZE
    ensures Parsed(NEW, Constructed(m, host, o))
         == (Request(Recovered(m, host, 0).(
                       body := FormText(PairsOf(o.post, m.post)),
                       post := if PrintedKind(m) == Post then m.post else map[]), true, 0), Success)
  {
    OrdersIn(o, m);
    FormAlone(m, host, o);
    hide *;
    var text, form := HeadTextOf(m, host, o), FormText(PairsOf(o.post, m.post));
    HeadOfConstructedOk(m, host, o);
    HeadedOfConstructed(m, host, o);
    FormPairs(m.post, o.post);
    FormBack(PairsOf(o.post, m.post));
    LowerForm(m.post);
    StoreOrder(o.post, m.post);
    RecoveredForm(m, host, 0);
    FormFinished(Recovered(m, host, 0), form, m.post, PairsOf(o.post, m.post));
    HeadParses(text, form);
    LongerBody(Request(Recovered(m, host, 0), true, 0), form);
  }

  lemma FormAlone(m: Message, host: string, o: Orders)
    requires OrdersOf(o, m) && m.body == ""
    ensures BodyText(m, o) == FormText(PairsOf(o.post, m.post))
    ensures forall n: nat :: Recovered(m, host, n) == Recovered(m, host, 0)
  {
    hide FormText;
  }

  lemma LowerForm(post: map<string, string>)
    requires FormOk(post)
    ensures LowerKeys(post)
  {
  }

  lemma LongerBody(st: Request, body: string)
    requires st.contentLength == 0 && |body| <= MAX_HTTP_BODY_SIZE
    ensures ParseBody(WithBody(st, body)) == (Finished(WithBody(st, body)), Success)
  {
    hide Finished;
  }

  lemma FormFinished(m: Message, form: string, post: map<string, string>, ps: seq<Pair>)
    requires m.post == map[] && FormOf(form) == ps && StoreAll(map[], ps) == post
    ensures Finished(WithBody(Request(m, true, 0), form))
         == Request(m.(body := form, post := if m.kind == Post then post else map[]), true, 0)
  {
    hide FormOf;
  }

  // --- the object ---

  lemma {:induction false} JoinSnoc(ps: seq<Pair>, p: Pair)
    ensures Join(ps + [p]) == (if ps == [] then "" else Join(ps) + "&") + p.0 + "=" + p.1
  {
    hide Join;
    JoinStart(ps + [p]);
    if ps == [] {
      assert [] + [p] == [p];
    } else {
      assert (ps + [p])[1..] == ps[1..] + [p];
      JoinSnoc(ps[1..], p);
      JoinStart(ps);
      var q, rest := ps[0].0 + "=" + ps[0].1, Join(ps[1..]);
      if |ps| == 1 {
        Regrouped(q + "&", "", "", p);
      } else {
        Regrouped(q + "&", rest, "&", p);
      }
    }
  }

  lemma Regrouped(a: string, b: string, c: string, p: Pair)
    ensures a + (b + c + p.0 + "=" + p.1) == a + b + c + p.0 + "=" + p.1
    ensures a + ("" + p.0 + "=" + p.1) == a + p.0 + "=" + p.1
  {
    Regroup(a, b + c, p.0 + "=" + p.1);
    Regroup(a, b, c);
    assert b + c + p.0 + "=" + p.1 == (b + c) + (p.0 + "=" + p.1);
    assert a + b + c + (p.0 + "=" + p.1) == a + b + c + p.0 + "=" + p.1;
  }

  lemma JoinNothing(ps: seq<Pair>)
    ensures Join(ps[..0]) + "" == ""
  {
  }

  lemma EmptyOrder(order: seq<string>, m: map<string, string>)
    requires Enumerates(order, m)
    ensures order == [] <==> m == map[]
  {
    SomeElement(order);
    NotEmpty(order, m);
  }

  lemma StartPrinted(m: Message, o: Orders, getText: string)
    requires OrdersOf(o, m)
    requires getText == if m.get == map[] then "" else "?" + Join(PairsOf(o.get, m.get))
    ensures TypeName(PrintedKind(m)) + " " + m.uri + getText
            + (if m.version == V1 then " HTTP/1.0\r\n" else " HTTP/1.1\r\n")
         == HeadOf(FirstLine(m, o), [])
  {
    EmptyOrder(o.get, m.get);
    hide Join, TypeName, HeadOf, Enumerates;
    var front := TypeName(PrintedKind(m)) + " " + m.uri + getText;
    assert FirstLine(m, o) == front + " " + Protocol(m.version);
    OneLine(FirstLine(m, o));
    LineEnd(front, m.version);
  }

  lemma OneLine(first: string)
    ensures HeadOf(first, []) == first + "\r\n"
  {
    hide Emit;
    assert HeadLines(first, []) == [first];
    EmitOne(first);
  }

  lemma LineEnd(front: string, v: Version)
    ensures front + (if v == V1 then " HTTP/1.0\r\n" else " HTTP/1.1\r\n") == front + " " + Protocol(v) + "\r\n"
  {
    assert (if v == V1 then " HTTP/1.0\r\n" else " HTTP/1.1\r\n") == " " + Protocol(v) + "\r\n";
  }

  lemma FormPrinted(ps: seq<Pair>)
    ensures FormText(ps) == if Join(ps) == "" then "" else Join(ps) + "\r\n"
  {
    if ps != [] {
      assert Join(ps)[|ps[0].0|] == '=';
    }
  }

  function MissingText(m: Message, name: string, text: string): string {
    if name in m.headers then "" else text
  }

  lemma HeadMissing(m: Message, first: string, ps: seq<Pair>, name: string, value: string)
    ensures HeadOf(first, ps + Missing(m, name, value))
         == HeadOf(first, ps) + MissingText(m, ToLower(name), name + ": " + value + "\r\n")
  {
    hide HeadOf, ToLower;
    if ToLower(name) in m.headers {
      assert ps + [] == ps;
    } else {
      HeadPair(first, ps, (name, value));
    }
  }

  /** The text of the added headers, in the order in which construct adds them. */
  lemma HeadDefaults(m: Message, host: string, o: Orders)
    requires OrdersOf(o, m)
    ensures var form := FormText(PairsOf(o.post, m.post));
            Constructed(m, host, o)
            == HeadOf(FirstLine(m, o), PairsOf(o.headers, m.headers))
               + MissingText(m, "connection", "Connection: keep-alive\r\n")
               + MissingText(m, "host", "Host: " + host + "\r\n")
               + (if m.body == "" then "" else "Content-Length: " + Print(|m.body| + |form|, 10) + "\r\n")
               + "\r\n" + form + m.body
  {
    OrdersIn(o, m);
    ConnectionBack();
    HostBack(host);
    hide *;
    var first, own, form := FirstLine(m, o), PairsOf(o.headers, m.headers), FormText(PairsOf(o.post, m.post));
    var v := Print(|m.body| + |form|, 10);
    var a, b := Missing(m, "Connection", "keep-alive"), Missing(m, "Host", host);
    ConstructedForm(m, host, o);
    DefaultTexts(host);
    HeadMissing(m, first, own, "Connection", "keep-alive");
    HeadMissing(m, first, own + a, "Host", host);
    HeadLength(first, own + a + b, m.body == "", v);
  }

  lemma DefaultTexts(host: string)
    ensures "Connection" + ": " + "keep-alive" + "\r\n" == "Connection: keep-alive\r\n"
    ensures "Host" + ": " + host + "\r\n" == "Host: " + host + "\r\n"
  {
    assert "Host" + ": " == "Host: ";
  }

  /** How the first line begins: a request whose type is not known is sent as GET. */
  function FirstWord(kind: RequestType): string {
    match kind
    case Post => "POST "
    case Put => "PUT "
    case Delete => "DELETE "
    case Patch => "PATCH "
    case Get | Unknown => "GET "
    case _ => "UNKNOWN "
  }

  /** The text of a request without headers, arguments and form. */
  lemma BareRequest(m: Message, host: string)
    requires m.headers == m.get == m.post == map[]
    ensures Constructed(m, host, Orders([], [], []))
         == FirstWord(m.kind) + m.uri + (if m.version == V1 then " HTTP/1.0\r\n" else " HTTP/1.1\r\n")
            + "Connection: keep-alive\r\n" + ("Host: " + host + "\r\n")
            + (if m.body == "" then "" else "Content-Length: " + Print(|m.body|, 10) + "\r\n")
            + "\r\n" + m.body
  {
    var o := Orders([], [], []);
    HeadDefaults(m, host, o);
    BareLine(m, o);
    assert PairsOf([], m.headers) == [] && PairsOf([], m.get) == [] && PairsOf([], m.post) == [];
    assert HeadLines(FirstLine(m, o), []) == [FirstLine(m, o)];
    EmitOne(FirstLine(m, o));
    hide Print, Constructed, Emit, FirstLine, FirstWord;
  }

  lemma VersionText(v: Version)
    ensures " " + Protocol(v) + "\r\n" == if v == V1 then " HTTP/1.0\r\n" else " HTTP/1.1\r\n"
  {
  }

  lemma WordIs(kind: RequestType)
    ensures TypeName(if kind == Unknown then Get else kind) + " " == FirstWord(kind)
  {
    match kind
    case Post => assert "POST" + " " == "POST ";
    case Put => assert "PUT" + " " == "PUT ";
    case Delete => assert "DELETE" + " " == "DELETE ";
    case Patch => assert "PATCH" + " " == "PATCH ";
    case Get | Unknown => assert "GET" + " " == "GET ";
    case _ => assert "UNKNOWN" + " " == "UNKNOWN ";
  }

  lemma BareLine(m: Message, o: Orders)
    requires OrdersOf(o, m) && o.get == []
    ensures FirstLine(m, o) + "\r\n"
         == FirstWord(m.kind) + m.uri + (if m.version == V1 then " HTTP/1.0\r\n" else " HTTP/1.1\r\n")
  {
    assert PairsOf(o.get, m.get) == [];
    var v := if m.version == V1 then "HTTP/1.0" else "HTTP/1.1";
    WordIs(m.kind);
    hide FirstWord, TypeName, OrdersOf, PairsOf;
    VersionText(m.version);
    assert FirstWord(m.kind) + m.uri + "" + " " + v + "\r\n" == FirstWord(m.kind) + m.uri + (" " + v + "\r\n");
  }

  lemma ConstructedForm(m: Message, host: string, o: Orders)
    requires OrdersOf(o, m)
    ensures var own, form := PairsOf(o.headers, m.headers), FormText(PairsOf(o.post, m.post));
            var a, b := Missing(m, "Connection", "keep-alive"), Missing(m, "Host", host);
            var c := if m.body == "" then [] else [("Content-Length", Print(|m.body| + |form|, 10))];
            Constructed(m, host, o) == HeadOf(FirstLine(m, o), own + a + b + c) + "\r\n" + form + m.body
  {
    hide HeadOf, Missing, Print, FormText, FirstLine;
    var own, form := PairsOf(o.headers, m.headers), FormText(PairsOf(o.post, m.post));
    var a, b := Missing(m, "Connection", "keep-alive"), Missing(m, "Host", host);
    var c := if m.body == "" then [] else [("Content-Length", Print(|m.body| + |form|, 10))];
    assert own + (a + b + c) == own + a + b + c;
  }

  lemma HeadLength(first: string, ps: seq<Pair>, none: bool, v: string)
    ensures HeadOf(first, ps + (if none then [] else [("Content-Length", v)]))
         == HeadOf(first, ps) + (if none then "" else "Content-Length: " + v + "\r\n")
  {
    hide HeadOf;
    if none {
      assert ps + [] == ps;
    } else {
      HeadPair(first, ps, ("Content-Length", v));
      assert "Content-Length" + ": " + v + "\r\n" == "Content-Length: " + v + "\r\n";
    }
  }

  class HttpRequest {
    const http: Http
    var headerEnded: bool
    var contentLength: nat

    function View(): Request
      reads this, http
    {
      Request(http.View(), headerEnded, contentLength)
    }

    constructor ()
      ensures View() == NEW && fresh(http)
    {
      http := new Http();
      headerEnded, contentLength := false, 0;
    }

    method ParseHeaderType(str: string) returns (kind: RequestType)
      ensures kind == HeaderType(str)
    {
      hide TypeOf, FindChar;
      var typeEnd := FindChar(str, ' ', 0);
      if typeEnd != NPOS {
        kind := StringToRequestType(str[..typeEnd]);
      } else {
        kind := Unknown;
      }
    }

    /** parse_header_uri; ok is false if it throws. */
    method ParseHeaderUri(str: string) returns (ok: bool)
      modifies http
      ensures ok <==> StoreUri(old(http.View()), str).Some?
      ensures http.View() == if ok then StoreUri(old(http.View()), str).value else old(http.View())
    {
      hide FindChar, Find, Substr, ArgumentList;
      var uriBegin, uriEnd := FindChar(str, '/', 0), Find(str, "HTTP", 0);
      if uriBegin == NPOS || uriEnd == NPOS {
        return false;
      }
      uriEnd := uriEnd - 1;
      var getBegin := FindChar(str, '?', 0);
      if getBegin != NPOS {
        var getVars := ParseArgumentList(Substr(str, getBegin, uriEnd - getBegin));
        StoreArguments(getVars);
        StoreUriText(Substr(str, uriBegin, getBegin - uriBegin));
      } else {
        StoreUriText(Substr(str, uriBegin, uriEnd - uriBegin));
      }
      http.version := if Substr(str, uriEnd + 1, 8) == "HTTP/1.0" then V1 else V1_1;
      return true;
    }

    /** The loop over the arguments: emplace, so the first value of a key stays. */
    method StoreArguments(getVars: seq<Pair>)
      modifies http`getData
      ensures http.getData == EmplaceAll(old(http.getData), getVars)
    {
      hide ToLower;
      for i := 0 to |getVars|
        invariant http.getData == EmplaceAll(old(http.getData), getVars[..i])
      {
        assert getVars[..i + 1][..i] == getVars[..i];
        http.getData := Emplace(http.getData, ToLower(getVars[i].0), getVars[i].1);
      }
      assert getVars[..|getVars|] == getVars;
    }

    /** set_uri. */
    method StoreUriText(str: string)
      modifies http`uri
      ensures http.View() == SetUri(old(http.View()), str)
    {
      if str == "" {
        return;
      }
      if str[0] == '/' {
        http.uri := str;
      } else {
        http.uri := "/" + str;
      }
    }

    method ParseHeader(headerEndPos: nat) returns (ok: bool)
      requires headerEndPos <= |http.body|
      modifies this, http
      ensures (ok, View()) == HeaderParsed(old(View()), old(http.body)[..headerEndPos])
    {
      hide Fields, HeaderType, StoreUri, Stoull, AddHeader, Known;
      var headerLines := SplitString(http.body[..headerEndPos], '\n', false);
      if headerLines == [] {
        return true;
      }
      http.requestType := ParseHeaderType(headerLines[0]);
      if !Known(http.requestType) {
        return false;
      }
      var hasUri := ParseHeaderUri(headerLines[0]);
      if !hasUri {
        return false;
      }
      ghost var st := View();
      for line := 1 to |headerLines|
        invariant View() == st.(http := AddHeaders(st.http, headerLines[1..line]))
      {
        NextLine(headerLines, line);
        http.ParseHeaderLine(headerLines[line]);
      }
      assert headerLines[1..|headerLines|] == headerLines[1..];
      if "content-length" in http.headerData {
        var length := Stoull(http.headerData["content-length"], 10);
        if length.None? {
          return false;
        }
        contentLength := length.value;
      }
      return true;
    }

    method ParsePostBody()
      modifies http`postData
      ensures http.postData == StoreAll(old(http.postData), FormOf(http.body))
    {
      hide FindNotIn, RFind, Substr, ArgumentList, ToLower;
      var postBegin := FindNotIn(http.body, {'\r', '\n'}, 0);
      if postBegin == NPOS {
        postBegin := FindNotIn(http.body, {'\n'}, 0);
      }
      var postEnd := RFind(http.body, "\r\n\r\n");
      if postEnd == NPOS {
        postEnd := RFind(http.body, "\n\n");
      }
      if postBegin == postEnd || postBegin == NPOS {
        return;
      }
      var post := ParseArgumentList(Substr(http.body, postBegin, |http.body| - postBegin - (|http.body| - postEnd)));
      hide FormOf;
      for i := 0 to |post|
        invariant http.postData == StoreAll(old(http.postData), post[..i])
      {
        assert post[..i + 1][..i] == post[..i];
        http.postData := http.postData[ToLower(post[i].0) := post[i].1];
      }
      assert post[..|post|] == post;
    }

    method Parse(request: string) returns (r: Status)
      modifies this, http
      ensures (View(), r) == Parsed(old(View()), request)
    {
      hide HeaderEnd, HeaderParsed, ParseBody, Find, TypeOf;
      http.body := http.body + request;
      if !headerEnded {
        var kind := StringToRequestType(http.body);
        if http.body != "" && kind == Unknown {
          return ParseError;
        }
        var headerEndSize := 4;
        var headerEnd := Find(http.body, "\r\n\r\n", 0);
        if headerEnd == NPOS {
          headerEnd := Find(http.body, "\n\n", 0);
          headerEndSize := 2;
        }
        HeaderEndForm(http.body);
        headerEnded := headerEnd != NPOS;
        if (!headerEnded && |http.body| > MAX_HTTP_HEADER_SIZE)
           || (headerEnded && headerEnd > MAX_HTTP_HEADER_SIZE) {
          return HttpHeaderTooBig;
        }
        if !headerEnded {
          return NotEnoughData;
        }
        HeaderEndWithin(http.body);
        HeaderParsedKeeps(View(), http.body, http.body[..headerEnd]);
        var ok := ParseHeader(headerEnd);
        if !ok {
          return ParseError;
        }
        http.body := http.body[headerEnd + headerEndSize..];
      }
      r := FinishParse();
    }

    /** The end of parse: the header is known to be over. */
    method FinishParse() returns (r: Status)
      modifies http`postData
      ensures (View(), r) == ParseBody(old(View()))
    {
      hide FormOf, StoreAll;
      if |http.body| > MAX_HTTP_BODY_SIZE {
        return HttpBodyTooBig;
      }
      if |http.body| >= contentLength {
        if http.requestType == Post {
          ParsePostBody();
        }
        return Success;
      }
      return NotEnoughData;
    }

    /** The two loops that print a map as arguments. The one over the form compares with the end of the other map,
        which is the same null pointer. */
    method PrintArguments(order: seq<string>, data: map<string, string>) returns (text: string)
      requires Enumerates(order, data)
      ensures text == Join(PairsOf(order, data))
    {
      hide Join;
      ghost var ps := PairsOf(order, data);
      JoinNothing(ps);
      text := "";
      for i := 0 to |order|
        invariant text == Join(ps[..i]) + (if 0 < i < |order| then "&" else "")
      {
        assert ps[..i + 1] == ps[..i] + [ps[i]];
        JoinSnoc(ps[..i], ps[i]);
        text := text + (order[i] + "=" + data[order[i]]);
        if i + 1 != |order| {
          text := text + "&";
        }
      }
      assert ps[..|order|] == ps;
    }

    method PrintFirstLine(o: Orders) returns (request: string)
      requires OrdersOf(o, http.View())
      ensures request == HeadOf(FirstLine(http.View(), o), [])
    {
      hide Join, TypeName, HeadOf, FirstLine;
      var getText := "";
      if http.getData != map[] {
        getText := PrintArguments(o.get, http.getData);
        getText := "?" + getText;
      }
      StartPrinted(http.View(), o, getText);
      request := TypeName(if http.requestType == Unknown then Get else http.requestType) + " " + http.uri + getText;
      request := request + (if http.version == V1 then " HTTP/1.0\r\n" else " HTTP/1.1\r\n");
    }

    method PrintForm(o: Orders) returns (postString: string)
      requires OrdersOf(o, http.View())
      ensures postString == FormText(PairsOf(o.post, http.postData))
    {
      postString := PrintArguments(o.post, http.postData);
      if postString != "" {
        postString := postString + "\r\n";
      }
      FormPrinted(PairsOf(o.post, http.postData));
    }

    method AppendMissing(text: string, name: string, line: string) returns (r: string)
      ensures r == text + MissingText(http.View(), name, line)
    {
      r := text;
      if name !in http.headerData {
        r := r + line;
      }
    }

    /** construct, for some order in which the maps are iterated over. */
    method Construct(host: string, o: Orders) returns (request: string)
      requires OrdersOf(o, http.View())
      ensures request == Constructed(http.View(), host, o)
    {
      hide Print, MissingText, FormText, HeadOf, FirstLine, Constructed;
      ghost var m := http.View();
      request := PrintFirstLine(o);
      ghost var first, ps := FirstLine(m, o), PairsOf(o.headers, m.headers);
      for i := 0 to |o.headers|
        invariant request == HeadOf(first, ps[..i])
      {
        assert ps[..i + 1] == ps[..i] + [ps[i]];
        HeadPair(first, ps[..i], ps[i]);
        var data := o.headers[i] + ": " + http.headerData[o.headers[i]] + "\r\n";
        request := request + data;
      }
      assert ps[..|o.headers|] == ps;
      var postString := PrintForm(o);
      HeadDefaults(m, host, o);
      request := AppendMissing(request, "connection", "Connection: keep-alive\r\n");
      request := AppendMissing(request, "host", "Host: " + host + "\r\n");
      var length := "";
      if http.body != "" {
        length := "Content-Length: " + Print(|http.body| + |postString|, 10) + "\r\n";
      }
      request := request + length + "\r\n" + postString + http.body;
    }
  }
}
