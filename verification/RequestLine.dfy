/** The first line of a request: request types by name (include/frnetlib/Http.h:312-351), and parse_header_type and
    parse_header_uri (src/HttpRequest.cpp:189-230) with the line that construct prints. */
module RequestLine {
  import opened Arguments
  import opened Http
  import opened Options
  import opened Text

  // --- the type ---

  function TypeName(t: RequestType): string {
    match t
    case Get => "GET"
    case Post => "POST"
    case Put => "PUT"
    case Delete => "DELETE"
    case Patch => "PATCH"
    case _ => "UNKNOWN"
  }

  const TYPES := [Get, Post, Put, Delete, Patch]

  predicate Known(t: RequestType) {
    t == Get || t == Post || t == Put || t == Delete || t == Patch
  }

  /** s comes before t in the dictionary. */
  predicate Less(s: string, t: string) {
    t != "" && (s == "" || s[0] < t[0] || (s[0] == t[0] && Less(s[1..], t[1..])))
  }

  /** Shorter than the name and before it: it may still become the name, though it need not. */
  predicate Unfinished(s: string, t: RequestType) {
    |s| < |TypeName(t)| && Less(s, TypeName(t))
  }

  function TypeOf(s: string): RequestType {
    if TypeName(Get) <= s then Get
    else if TypeName(Post) <= s then Post
    else if TypeName(Put) <= s then Put
    else if TypeName(Delete) <= s then Delete
    else if TypeName(Patch) <= s then Patch
    else if Unfinished(s, Get) || Unfinished(s, Post) || Unfinished(s, Put)
            || Unfinished(s, Delete) || Unfinished(s, Patch) then Partial
    else Unknown
  }

  /** No name begins with another one. */
  lemma OneName(s: string, t: RequestType, u: RequestType)
    requires Known(t) && Known(u) && TypeName(t) <= s && TypeName(u) <= s
    ensures t == u
  {
    assert s[0] == TypeName(t)[0] == TypeName(u)[0] && s[1] == TypeName(t)[1] == TypeName(u)[1];
  }

  lemma TypeIs(s: string, t: RequestType)
    requires Known(t) && TypeName(t) <= s
    ensures TypeOf(s) == t
  {
    forall u | Known(u) && TypeName(u) <= s
      ensures u == t
    {
      OneName(s, t, u);
    }
    hide TypeName, Unfinished;
  }

  /** The names of the types. */
  lemma TypeNames(s: string)
    ensures TypeOf(s) == Get <==> "GET" <= s
    ensures TypeOf(s) == Post <==> "POST" <= s
    ensures TypeOf(s) == Put <==> "PUT" <= s
    ensures TypeOf(s) == Delete <==> "DELETE" <= s
    ensures TypeOf(s) == Patch <==> "PATCH" <= s
  {
    Recognised(s, Get);
    Recognised(s, Post);
    Recognised(s, Put);
    Recognised(s, Delete);
    Recognised(s, Patch);
    hide TypeOf;
  }

  lemma Recognised(s: string, t: RequestType)
    requires Known(t)
    ensures TypeOf(s) == t <==> TypeName(t) <= s
  {
    hide TypeName, Unfinished;
    if TypeName(t) <= s {
      TypeIs(s, t);
    }
  }

  /** One letter may still become a name if it does not come after all of their first letters, whether or not it is
      one of them. */
  lemma OneLetter(c: char)
    ensures TypeOf([c]) == Partial <==> c <= 'P'
    ensures TypeOf([c]) == Unknown <==> c > 'P'
  {
    LetterLess(c, "GET");
    LetterLess(c, "POST");
    LetterLess(c, "PUT");
    LetterLess(c, "DELETE");
    LetterLess(c, "PATCH");
    hide Less;
  }

  lemma LetterLess(c: char, name: string)
    requires |name| > 1
    ensures Less([c], name) <==> c <= name[0]
  {
    assert [c][1..] == "" && Less("", name[1..]);
  }

  method StringToRequestType(str: string) returns (kind: RequestType)
    ensures kind == TypeOf(str)
  {
    hide Less;
    kind := Unknown;
    for a := 0 to |TYPES|
      invariant forall i :: 0 <= i < a ==> !(TypeName(TYPES[i]) <= str)
      invariant kind == if exists i :: 0 <= i < a && Unfinished(str, TYPES[i]) then Partial else Unknown
    {
      var name := TypeName(TYPES[a]);
      var front := if |str| < |name| then str else str[..|name|];
      if front == name {
        TypeIs(str, TYPES[a]);
        return TYPES[a];
      }
      if |str| < |name| && Less(front, name) {
        kind := Partial;
      }
      if kind != Partial && |str| < |name| && !Less(front, name) {
        kind := Unknown;
      }
    }
    assert TYPES[0] == Get && TYPES[1] == Post && TYPES[2] == Put && TYPES[3] == Delete && TYPES[4] == Patch;
  }

  /** However little of it is there, a text that begins with the name of a type is never taken for an unknown one:
      it is Partial until the whole name is there. */
  lemma PrefixesOfKnown(t: RequestType, s: string, n: nat)
    requires Known(t) && TypeName(t) <= s && n <= |s|
    ensures TypeOf(s[..n]) == if n < |TypeName(t)| then Partial else t
  {
    var name := TypeName(t);
    if n < |name| {
      assert s[..n] == name[..n];
      LessThanWhole(name, n);
      forall u | Known(u)
        ensures !(TypeName(u) <= name[..n])
      {
        ShortOfName(t, n, u);
      }
    } else {
      TypeIs(s[..n], t);
    }
  }

  lemma ShortOfName(t: RequestType, n: nat, u: RequestType)
    requires Known(t) && Known(u) && n < |TypeName(t)|
    ensures !(TypeName(u) <= TypeName(t)[..n])
  {
    if TypeName(u) <= TypeName(t)[..n] {
      OneName(TypeName(t), t, u);
    }
  }

  lemma {:induction false} LessThanWhole(name: string, n: nat)
    requires n < |name|
    ensures Less(name[..n], name)
  {
    if n > 0 {
      LessThanWhole(name[1..], n - 1);
      assert name[..n][1..] == name[1..][..n - 1];
    }
  }

  /** A type that has been recognised stays what it is, and six bytes decide. */
  lemma TypeStays(s: string, more: string)
    ensures Known(TypeOf(s)) ==> TypeOf(s + more) == TypeOf(s) && TypeName(TypeOf(s)) <= s
    ensures |s| >= 6 && TypeOf(s) != Unknown ==> Known(TypeOf(s))
  {
    hide Less;
    if Known(TypeOf(s)) {
      TypeIs(s + more, TypeOf(s));
    }
  }

  // --- the rest of the line ---

  function SetUri(m: Message, s: string): Message {
    if s == "" then m else m.(uri := if s[0] == '/' then s else "/" + s)
  }

  function HeaderType(line: string): RequestType {
    var end := FindChar(line, ' ', 0);
    if end == NPOS then Unknown else TypeOf(line[..end])
  }

  /** Arguments, URI and version; None is the exception. */
  function StoreUri(m: Message, line: string): Option<Message> {
    var begin, http, question := FindChar(line, '/', 0), Find(line, "HTTP", 0), FindChar(line, '?', 0);
    if begin == NPOS || http == NPOS then None
    else
      var m1 := m.(version := if Substr(line, http, 8) == "HTTP/1.0" then V1 else V1_1);
      if question == NPOS then Some(SetUri(m1, Substr(line, begin, http - 1 - begin)))
      else
        var ps := ArgumentList(Substr(line, question, http - 1 - question));
        Some(SetUri(m1.(get := EmplaceAll(m.get, ps)), Substr(line, begin, question - begin)))
  }

  /** Without a slash, or without HTTP, a line has no URI. */
  lemma NoUri(m: Message, line: string)
    ensures StoreUri(m, line) == None <==> Without(line, '/') || Find(line, "HTTP", 0) == NPOS
  {
    CharFirst(line, '/');
    hide Find, FindChar, ArgumentList, Substr, EmplaceAll, Without;
  }

  // --- printing it ---

  function QueryText(ps: seq<Pair>): string {
    if ps == [] then "" else "?" + Join(ps)
  }

  function Protocol(v: Version): string {
    if v == V1 then "HTTP/1.0" else "HTTP/1.1"
  }

  function RequestText(t: RequestType, uri: string, ps: seq<Pair>, v: Version): string {
    TypeName(if t == Unknown then Get else t) + " " + uri + QueryText(ps) + " " + Protocol(v)
  }

  predicate NoHttp(s: string) {
    Find(s, "HTTP", 0) == NPOS
  }

  /** URIs and arguments that come back from a printed line. */
  predicate UriOk(uri: string) {
    uri != "" && uri[0] == '/' && NoHttp(uri) && Without(uri, '?')
  }

  predicate QueryOk(ps: seq<Pair>) {
    ArgsOk(ps) && forall i :: 0 <= i < |ps| ==> NoHttp(ps[i].0) && NoHttp(ps[i].1)
  }

  lemma NotAcross(s: string, i: int, k: nat)
    requires k < |s| && s[k] != 'H' && s[k] != 'T' && s[k] != 'P' && i <= k < i + 4
    ensures !At(s, "HTTP", i)
  {
    if 0 <= i && i + 4 <= |s| {
      assert s[i..i + 4][k - i] == s[k];
    }
  }

  /** No occurrence runs across a separator. */
  lemma NoHttpApart(a: string, mark: string, b: string)
    requires NoHttp(a) && NoHttp(b)
    requires |mark| == 1 && mark[0] != 'H' && mark[0] != 'T' && mark[0] != 'P'
    ensures NoHttp(a + mark + b)
  {
    var s := a + mark + b;
    forall i | 0 <= i
      ensures !At(s, "HTTP", i)
    {
      NotInApart(a, mark, b, i);
    }
    FindNone(s, "HTTP", 0);
  }

  lemma NotInApart(a: string, mark: string, b: string, i: nat)
    requires NoHttp(a) && NoHttp(b)
    requires |mark| == 1 && mark[0] != 'H' && mark[0] != 'T' && mark[0] != 'P'
    ensures !At(a + mark + b, "HTTP", i)
  {
    var s := a + mark + b;
    if i + 4 <= |a| {
      assert s == a + (mark + b);
      AtPrefix(a, mark + b, "HTTP", i);
    } else if i > |a| {
      Shifted(a + mark, b, "HTTP", i - |a| - 1);
    } else {
      NotAcross(s, i, |a|);
    }
  }

  /** The version is the first place where HTTP stands. */
  lemma HttpPlace(front: string, back: string)
    requires NoHttp(front) && "HTTP" <= back
    ensures Find(front + " " + back, "HTTP", 0) == |front| + 1
  {
    var s := front + " " + back;
    forall i | 0 <= i < |front| + 1
      ensures !At(s, "HTTP", i)
    {
      if i + 4 <= |front| {
        assert s == front + (" " + back);
        AtPrefix(front, " " + back, "HTTP", i);
      } else {
        NotAcross(s, i, |front|);
      }
    }
    assert s[|front| + 1..|front| + 5] == back[..4];
    FindIs(s, "HTTP", 0, |front| + 1);
  }

  lemma {:induction false} NoHttpInJoin(ps: seq<Pair>)
    requires QueryOk(ps)
    ensures NoHttp(Join(ps))
  {
    hide ArgOk, NoHttp, Join;
    if ps == [] {
      NoHttpInNothing();
    } else {
      JoinStart(ps);
      NoHttpApart(ps[0].0, "=", ps[0].1);
      if |ps| > 1 {
        NoHttpInJoin(ps[1..]);
        NoHttpApart(ps[0].0 + "=" + ps[0].1, "&", Join(ps[1..]));
      }
    }
  }

  lemma NoHttpInNothing()
    ensures NoHttp("") && NoHttp(Join([]))
  {
  }

  lemma JoinStart(ps: seq<Pair>)
    requires ps != []
    ensures Join(ps) == if |ps| == 1 then ps[0].0 + "=" + ps[0].1 else ps[0].0 + "=" + ps[0].1 + "&" + Join(ps[1..])
  {
    JoinForm(ps);
    hide *;
    var first := ps[0].0 + "=" + ps[0].1;
    Regroup(first, "", "");
    Regroup(first, "&", Join(ps[1..]));
  }

  lemma JoinForm(ps: seq<Pair>)
    requires ps != []
    ensures Join(ps) == ps[0].0 + "=" + ps[0].1 + (if |ps| == 1 then "" else "&" + Join(ps[1..]))
  {
  }

  /** Where the parts of a printed line begin. */
  lemma LinePlaces(t: RequestType, uri: string, ps: seq<Pair>, back: string)
    requires Known(t) && UriOk(uri) && QueryOk(ps) && "HTTP" <= back && Without(back, '?')
    ensures var name, q := TypeName(t), QueryText(ps);
            var line := name + " " + uri + q + " " + back;
            && FindChar(line, ' ', 0) == |name| && FindChar(line, '/', 0) == |name| + 1
            && FindChar(line, '?', 0) == (if ps == [] then NPOS else |name| + 1 + |uri|)
            && Find(line, "HTTP", 0) == |name| + 1 + |uri| + |q| + 1
  {
    var name, q := TypeName(t), QueryText(ps);
    var line := name + " " + uri + q + " " + back;
    NamePlain(t);
    FrontPlain(t, uri);
    FrontNoHttp(t, uri, ps);
    HttpPlace(name + " " + uri + q, back);
    hide NoHttp, QueryOk, Join, FindChar, Find, TypeName, Without, QueryText;
    SpaceAndSlash(name, uri, q + " " + back);
    assert line == name + " " + uri + (q + " " + back);
    QuestionPlace(name + " " + uri, ps, back);
  }

  lemma FrontPlain(t: RequestType, uri: string)
    requires Known(t) && UriOk(uri)
    ensures Without(TypeName(t) + " " + uri, '?')
  {
    NamePlain(t);
    hide NoHttp, TypeName;
  }

  lemma NamePlain(t: RequestType)
    requires Known(t)
    ensures var name := TypeName(t);
            NoHttp(name) && Without(name, ' ') && Without(name, '/') && Without(name, '?')
  {
    forall i | 0 <= i && i + 4 <= |TypeName(t)|
      ensures !At(TypeName(t), "HTTP", i)
    {
      assert TypeName(t)[i..i + 4][0] == TypeName(t)[i];
    }
    FindNone(TypeName(t), "HTTP", 0);
  }

  lemma FrontNoHttp(t: RequestType, uri: string, ps: seq<Pair>)
    requires Known(t) && UriOk(uri) && QueryOk(ps)
    ensures NoHttp(TypeName(t) + " " + uri + QueryText(ps))
  {
    NamePlain(t);
    NoHttpInJoin(ps);
    hide NoHttp, QueryOk, Join, TypeName, Without;
    var front := TypeName(t) + " " + uri;
    NoHttpApart(TypeName(t), " ", uri);
    if ps != [] {
      NoHttpApart(front, "?", Join(ps));
      assert front + QueryText(ps) == front + "?" + Join(ps);
    } else {
      assert front + QueryText(ps) == front;
    }
  }

  lemma SpaceAndSlash(name: string, uri: string, rest: string)
    requires Without(name, ' ') && Without(name, '/') && uri != "" && uri[0] == '/'
    ensures FindChar(name + " " + uri + rest, ' ', 0) == |name|
    ensures FindChar(name + " " + uri + rest, '/', 0) == |name| + 1
  {
    var behind := uri + rest;
    assert name + " " + uri + rest == name + (" " + behind) == (name + " ") + behind;
    CharBehind(name, " " + behind, ' ');
    CharFirst(" " + behind, ' ');
    CharBehind(name + " ", behind, '/');
    CharFirst(behind, '/');
  }

  lemma QuestionPlace(front: string, ps: seq<Pair>, back: string)
    requires Without(front, '?') && Without(back, '?')
    ensures FindChar(front + QueryText(ps) + " " + back, '?', 0) == if ps == [] then NPOS else |front|
  {
    if ps == [] {
      assert Without(front + QueryText(ps) + " " + back, '?');
      CharFirst(front + QueryText(ps) + " " + back, '?');
    } else {
      var behind := "?" + (Join(ps) + " " + back);
      assert front + QueryText(ps) + " " + back == front + behind;
      CharBehind(front, behind, '?');
      CharFirst(behind, '?');
    }
  }

  /** What is cut out of a printed line, for the places above. */
  lemma LinePieces(name: string, uri: string, q: string, back: string)
    ensures var line := name + " " + uri + q + " " + back;
            var http := |name| + 1 + |uri| + |q| + 1;
            && line[..|name|] == name
            && Substr(line, |name| + 1, |uri|) == uri
            && Substr(line, |name| + 1 + |uri|, |q|) == q
            && Substr(line, http, 8) == Substr(back, 0, 8)
  {
    var line := name + " " + uri + q + " " + back;
    assert line == name + (" " + uri + q + " " + back);
    assert line == name + " " + (uri + (q + " " + back));
    assert line == (name + " " + uri) + (q + (" " + back));
    assert line == (name + " " + uri + q + " ") + back;
    SubstrBehind(name + " " + uri + q + " ", back, 8);
  }

  /** A line as it is received: type, URI, arguments, and what begins with HTTP. Any version but 1.0 counts as 1.1. */
  lemma LineRead(m: Message, t: RequestType, uri: string, ps: seq<Pair>, back: string)
    requires Known(t) && UriOk(uri) && QueryOk(ps) && "HTTP" <= back && Without(back, '?')
    ensures var line := TypeName(t) + " " + uri + QueryText(ps) + " " + back;
            HeaderType(line) == t
            && StoreUri(m, line) == Some(m.(get := EmplaceAll(m.get, ps), uri := uri,
                                            version := if "HTTP/1.0" <= back then V1 else V1_1))
  {
    hide *;
    var name, q := TypeName(t), QueryText(ps);
    var line := name + " " + uri + q + " " + back;
    LinePlaces(t, uri, ps, back);
    LinePieces(name, uri, q, back);
    TypeIs(name, t);
    ListOfQuery(ps);
    EmplaceNothing(m.get);
    UriStarts(uri);
    QuerySize(ps);
    TypeAt(line, |name|, name);
    VersionOf(back);
    UriAt(m, line, |name| + 1, |name| + 1 + |uri|, |q|, uri, Substr(back, 0, 8));
  }

  lemma VersionOf(back: string)
    ensures Substr(back, 0, 8) == "HTTP/1.0" <==> "HTTP/1.0" <= back
  {
  }

  /** Parsing undoes printing: type, URI, arguments and version come back, whatever follows the version. */
  lemma LineRoundTrip(m: Message, t: RequestType, uri: string, ps: seq<Pair>, v: Version, tail: string)
    requires Known(t) && UriOk(uri) && QueryOk(ps) && Without(tail, '?')
    ensures var line := RequestText(t, uri, ps, v) + tail;
            HeaderType(line) == t
            && StoreUri(m, line) == Some(m.(get := EmplaceAll(m.get, ps), uri := uri, version := v))
  {
    hide *;
    LineForm(t, uri, ps, v, tail);
    ProtocolBack(v, tail);
    LineRead(m, t, uri, ps, Protocol(v) + tail);
  }

  lemma SubstrBehind(a: string, b: string, n: nat)
    ensures Substr(a + b, |a|, n) == Substr(b, 0, n)
  {
  }

  lemma LineForm(t: RequestType, uri: string, ps: seq<Pair>, v: Version, tail: string)
    requires Known(t)
    ensures RequestText(t, uri, ps, v) + tail == TypeName(t) + " " + uri + QueryText(ps) + " " + (Protocol(v) + tail)
  {
    hide TypeName, QueryText, Protocol;
  }

  lemma UriStarts(uri: string)
    requires UriOk(uri)
    ensures uri != "" && uri[0] == '/'
  {
  }

  lemma QuerySize(ps: seq<Pair>)
    ensures |QueryText(ps)| == 0 <==> ps == []
  {
  }

  lemma TypeAt(line: string, space: nat, name: string)
    requires FindChar(line, ' ', 0) == space && line[..space] == name
    ensures HeaderType(line) == TypeOf(name)
  {
    hide FindChar, TypeOf;
  }

  lemma UriAt(m: Message, line: string, begin: nat, end: nat, len: nat, uri: string, proto: string)
    requires FindChar(line, '/', 0) == begin && Find(line, "HTTP", 0) == end + len + 1 && begin <= end
    requires FindChar(line, '?', 0) == if len == 0 then NPOS else end
    requires Substr(line, begin, end - begin) == uri && uri != "" && uri[0] == '/'
    requires Substr(line, end + len + 1, 8) == proto
    ensures StoreUri(m, line)
         == Some(m.(get := if len == 0 then m.get else EmplaceAll(m.get, ArgumentList(Substr(line, end, len))),
                    uri := uri, version := if proto == "HTTP/1.0" then V1 else V1_1))
  {
    hide FindChar, Find, Substr, EmplaceAll, ArgumentList;
  }

  lemma ProtocolBack(v: Version, tail: string)
    requires Without(tail, '?')
    ensures var back := Protocol(v) + tail;
            "HTTP" <= back && Without(back, '?') && ("HTTP/1.0" <= back <==> v == V1)
  {
    assert (Protocol(v) + tail)[..8] == Protocol(v);
    assert Protocol(V1)[7] != Protocol(V1_1)[7];
  }

  lemma ListOfQuery(ps: seq<Pair>)
    requires QueryOk(ps)
    ensures QueryText(ps) != "" ==> ArgumentList(QueryText(ps)) == ps
    ensures QueryText(ps) == "" <==> ps == []
  {
    if ps != [] {
      assert QueryText(ps)[1..] == Join(ps);
      assert Join(ps) + "" == Join(ps);
      hide Join, NoHttp, Args;
      ArgsOfJoin(ps, "");
    }
  }

  lemma EmplaceNothing(m: map<string, string>)
    ensures EmplaceAll(m, []) == m
  {
  }
}
