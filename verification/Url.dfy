/** URL (src/URL.cpp, include/frnetlib/URL.h): parsing, printing, and when the one undoes the other. */
module Url {
  import opened Options
  import opened Text

  datatype Scheme = HTTP | HTTPS | FTP | MAILTO | IRC | SFTP | Unknown

  /** The fields of a URL. */
  datatype Parts =
    Parts(scheme: Scheme, host: string, port: string, path: string, query: string, fragment: string)

  const FRESH := Parts(Unknown, "", "", "", "", "")

  /** scheme_string_map. The key "sftp" is listed twice; the first entry stays. */
  const SCHEMES: map<string, Scheme> :=
    map["http" := HTTP, "https" := HTTPS, "sftp" := FTP, "mailto" := MAILTO, "irc" := IRC, "unknown" := Unknown]

  function StringToScheme(name: string): Scheme {
    var lower := ToLower(name);
    if lower in SCHEMES then SCHEMES[lower] else Unknown
  }

  /** None is the exception that scheme_to_string throws. */
  function SchemeToString(scheme: Scheme): Option<string> {
    match scheme
    case HTTP => Some("http")
    case HTTPS => Some("https")
    case FTP => Some("sftp")
    case MAILTO => Some("mailto")
    case IRC => Some("irc")
    case SFTP => None
    case Unknown => Some("unknown")
  }

  /** Names and schemes are one to one, save that SFTP has no name and that every other text is Unknown. */
  lemma SchemeNames(scheme: Scheme, name: string)
    requires scheme != Unknown
    ensures StringToScheme(name) == scheme <==> SchemeToString(scheme) == Some(ToLower(name))
  {
    hide ToLower;
  }

  /** The port that is guessed when none is given. */
  function GuessPort(scheme: Scheme, port: string): string {
    match scheme
    case HTTP => "80"
    case HTTPS => "443"
    case IRC => "6697"
    case FTP => "21"
    case SFTP => "25"
    case _ => port
  }

  // --- printing ---

  function UriOf(u: Parts): string {
    u.path + Marked("?", u.query) + Marked("#", u.fragment)
  }

  /** A mark and a text, or nothing if there is no text. */
  function Marked(mark: string, text: string): string {
    if text == "" then "" else mark + text
  }

  function UrlOf(u: Parts): Option<string> {
    if u.host == "" then Some(UriOf(u))
    else if u.scheme == Unknown then Some(u.host + Marked(":", u.port) + UriOf(u))
    else
      match SchemeToString(u.scheme)
      case None => None
      case Some(name) => Some(name + "://" + u.host + Marked(":", u.port) + UriOf(u))
  }

  /** All the marks at once. */
  lemma PrintedMarks()
    ensures UrlOf(Parts(HTTP, "a.b", "81", "/c", "d=e", "f")) == Some("http://a.b:81/c?d=e#f")
    ensures UrlOf(Parts(Unknown, "a.b", "", "/c", "", "f")) == Some("a.b/c#f")
    ensures UrlOf(Parts(HTTP, "", "81", "/c", "d=e", "")) == Some("/c?d=e")
  {
    assert "http" + "://" + "a.b" + (":" + "81") == "http://a.b:81";
    assert "http://a.b:81" + ("/c" + ("?" + "d=e") + ("#" + "f")) == "http://a.b:81/c?d=e#f";
    assert "a.b" + "" + ("/c" + "" + ("#" + "f")) == "a.b/c#f";
    assert "/c" + ("?" + "d=e") + "" == "/c?d=e";
  }

  // --- parsing ---

  /** The first '/', or else the first '?', or else the first '#'. */
  function HostEnd(text: string): int {
    var slash, question := FindChar(text, '/', 0), FindChar(text, '?', 0);
    if slash != NPOS then slash else if question != NPOS then question else FindChar(text, '#', 0)
  }

  /** Host and port, from the text behind the scheme, and what is left for the path; the character at which the
      host or the port ends is dropped. */
  function ParseHost(u: Parts, text: string, hasScheme: bool): (Parts, string) {
    var colon := FindChar(text, ':', 0);
    if colon != NPOS then
      var slash := FindChar(text, '/', colon);
      var end := if slash == NPOS then |text| else slash;
      (u.(host := text[..colon], port := text[colon + 1..end]), if slash == NPOS then "" else text[slash + 1..])
    else
      var v, end := u.(port := GuessPort(u.scheme, u.port)), HostEnd(text);
      if end != NPOS then (v.(host := text[..end]), text[end + 1..])
      else if hasScheme then (v.(host := text), "")
      else (v, text)
  }

  function WithPath(u: Parts, text: string): Parts {
    u.(path := u.path + "/" + text)
  }

  /** Path, query and fragment: the path ends at the first '?', wherever that is, or else at the first '#'. */
  function ParseTail(u: Parts, text: string): Parts {
    var question, hash := FindChar(text, '?', 0), FindChar(text, '#', 0);
    if text == "" then u
    else if question != NPOS then ParseQuery(WithPath(u, text[..question]), text[question + 1..])
    else if hash != NPOS then WithPath(u, text[..hash]).(fragment := text[hash + 1..])
    else WithPath(u, text)
  }

  function ParseQuery(u: Parts, text: string): Parts {
    var hash := FindChar(text, '#', 0);
    if hash != NPOS then u.(query := text[..hash], fragment := text[hash + 1..])
    else if text == "" then u
    else u.(query := text)
  }

  function Parsed(u: Parts, url: string): Parts {
    var pos := Find(url, "://", 0);
    var scheme := if pos == NPOS then Unknown else StringToScheme(url[..pos]);
    var text := if pos == NPOS then url else url[pos + 3..];
    var (v, rest) := ParseHost(u.(scheme := scheme), text, pos != NPOS);
    ParseTail(v, rest)
  }

  // --- the object ---

  lemma HostWithPort(u: Parts, url: string, off: nat, hasScheme: bool)
    requires off <= |url| && FindChar(url, ':', off) != NPOS
    ensures var pos := FindChar(url, ':', off);
            var slash := FindChar(url, '/', pos);
            var end := if slash == NPOS then |url| else slash;
            pos < end <= |url|
            && ParseHost(u, url[off..], hasScheme)
               == (u.(host := url[off..pos], port := url[pos + 1..end]), After(url, end + 1))
  {
    hide FindChar;
    var pos := FindChar(url, ':', off);
    var slash := FindChar(url, '/', pos);
    CharShift(url, ':', off, 0);
    CharShift(url, '/', off, pos - off);
    assert slash != pos by {
      CharFound(url, ':', off);
      if slash != NPOS {
        CharFound(url, '/', pos);
      }
    }
    var end := if slash == NPOS then |url| else slash;
    Slices(url, off, 0, pos - off);
    Slices(url, off, pos - off + 1, end - off);
    if slash != NPOS {
      Slices(url, off, 0, slash - off + 1);
    }
  }

  lemma HostWithoutPort(u: Parts, url: string, off: nat, hasScheme: bool)
    requires off <= |url| && FindChar(url, ':', off) == NPOS
    ensures var slash, question := FindChar(url, '/', off), FindChar(url, '?', off);
            var pos := if slash != NPOS then slash else if question != NPOS then question else FindChar(url, '#', off);
            var end := if pos != NPOS then pos else |url|;
            var v := u.(port := GuessPort(u.scheme, u.port));
            off <= end <= |url|
            && ParseHost(u, url[off..], hasScheme)
               == if pos != NPOS || hasScheme then (v.(host := url[off..end]), After(url, end + 1)) else (v, url[off..])
  {
    hide FindChar, GuessPort;
    CharShift(url, ':', off, 0);
    CharShift(url, '/', off, 0);
    CharShift(url, '?', off, 0);
    CharShift(url, '#', off, 0);
    var pos := HostEnd(url[off..]);
    if pos != NPOS {
      Slices(url, off, 0, pos);
      Slices(url, off, 0, pos + 1);
    } else {
      assert url[off..|url|] == url[off..];
    }
  }

  /** Where the path ends that starts at off. */
  function PathEnd(url: string, off: nat): (end: nat)
    requires off <= |url|
    ensures off <= end <= |url|
  {
    var question, hash := FindChar(url, '?', off), FindChar(url, '#', off);
    if question != NPOS then question else if hash != NPOS then hash else |url|
  }

  lemma TailParts(u: Parts, url: string, off: nat)
    requires off < |url|
    ensures var question, hash := FindChar(url, '?', off), FindChar(url, '#', off);
            var v := WithPath(u, url[off..PathEnd(url, off)]);
            ParseTail(u, url[off..])
            == if question != NPOS then ParseQuery(v, url[question + 1..])
               else if hash != NPOS then v.(fragment := url[hash + 1..])
               else v
  {
    hide FindChar, ParseQuery, WithPath;
    CharShift(url, '?', off, 0);
    CharShift(url, '#', off, 0);
    var question, hash := FindChar(url[off..], '?', 0), FindChar(url[off..], '#', 0);
    if question != NPOS {
      Slices(url, off, 0, question);
      Slices(url, off, 0, question + 1);
    } else if hash != NPOS {
      Slices(url, off, 0, hash);
      Slices(url, off, 0, hash + 1);
    } else {
      assert url[off..|url|] == url[off..];
    }
  }

  /** One character early is the question mark. */
  lemma QueryParts(u: Parts, url: string, off: nat)
    requires 0 < off <= |url| && Stands(url, '?', off - 1)
    ensures QueryAt(u, url, off) == ParseQuery(u, url[off..])
  {
    assert FindChar(url, '#', off - 1) == FindChar(url, '#', off);
    CharShift(url, '#', off, 0);
    hide FindChar;
    var hash := FindChar(url[off..], '#', 0);
    if hash != NPOS {
      Slices(url, off, 0, hash);
      Slices(url, off, 0, hash + 1);
    }
  }

  /** One character early is the '#' at which the path ended, or the end. */
  lemma NoQuery(u: Parts, url: string, pos: nat)
    requires pos == |url| || Stands(url, '#', pos)
    ensures QueryAt(u, url, pos + 1) == if pos == |url| then u else u.(fragment := url[pos + 1..])
  {
    assert pos < |url| ==> FindChar(url, '#', pos) == pos;
  }

  /** The path, then the search from the character at which it ended. */
  lemma PathThenQuery(u: Parts, url: string, off: nat)
    requires off < |url|
    ensures var end := PathEnd(url, off);
            ParseTail(u, url[off..]) == QueryAt(WithPath(u, url[off..end]), url, end + 1)
  {
    hide FindChar, ParseTail, ParseQuery, QueryAt, WithPath, Stands;
    var question, hash, end := FindChar(url, '?', off), FindChar(url, '#', off), PathEnd(url, off);
    var v := WithPath(u, url[off..end]);
    TailParts(u, url, off);
    if question != NPOS {
      assert end == question;
      CharFound(url, '?', off);
      QueryParts(v, url, end + 1);
    } else if hash != NPOS {
      assert end == hash;
      CharFound(url, '#', off);
      NoQuery(v, url, end);
    } else {
      assert end == |url|;
      NoQuery(v, url, end);
    }
  }

  class URL {
    var scheme: Scheme
    var host: string
    var port: string
    var path: string
    var query: string
    var fragment: string

    constructor (url: string)
      ensures View() == Parsed(FRESH, url)
    {
      scheme, host, port, path, query, fragment := Unknown, "", "", "", "", "";
      new;
      Parse(url);
    }

    ghost function View(): Parts
      reads this
    {
      Parts(scheme, host, port, path, query, fragment)
    }

    /** operator==. */
    predicate Equals(o: URL)
      reads this, o
      ensures Equals(o) <==> View() == o.View()
    {
      scheme == o.scheme && host == o.host && port == o.port && path == o.path && query == o.query
      && fragment == o.fragment
    }

    method GetUri() returns (result: string)
      ensures result == UriOf(View())
    {
      result := path;
      if query != "" {
        result := result + ("?" + query);
      }
      if fragment != "" {
        result := result + ("#" + fragment);
      }
    }

    method GetUrl() returns (ret: Option<string>)
      ensures ret == UrlOf(View())
    {
      var text := "";
      if host != "" {
        if scheme != Unknown {
          var name := SchemeToString(scheme);
          if name.None? {
            return None;
          }
          text := name.value + "://";
        }
        text := text + host;
        ghost var front := text;
        if port != "" {
          text := text + (":" + port);
        }
        assert text == front + Marked(":", port);
        assert "" + host == host;
      }
      var uri := GetUri();
      ret := Some(text + uri);
      assert "" + uri == uri;
    }

    method Parse(url: string)
      modifies this
      ensures View() == Parsed(old(View()), url)
    {
      hide FindChar, StringToScheme, ParseHost, ParseTail;
      scheme := Unknown;
      var parseOffset := 0;
      var pos := Find(url, "://", 0);
      if pos != NPOS {
        scheme := StringToScheme(url[..pos]);
        parseOffset := pos + 3;
      }
      assert url[0..] == url;
      parseOffset := ParseAuthority(url, parseOffset);
      if parseOffset >= |url| {
        assert After(url, parseOffset) == "";
        TailOfNothing(View());
        return;
      }
      ParsePath(url, parseOffset);
    }

    /** Host and port; the result is where the path starts, one too far if the text ends there. */
    method ParseAuthority(url: string, offset: nat) returns (parseOffset: nat)
      requires offset <= |url|
      modifies this`host, this`port
      ensures (View(), After(url, parseOffset)) == ParseHost(old(View()), url[offset..], offset != 0)
    {
      hide FindChar, ParseHost, GuessPort;
      parseOffset := offset;
      var pos := FindChar(url, ':', parseOffset);
      if pos != NPOS {
        HostWithPort(View(), url, offset, offset != 0);
        host := url[parseOffset..pos];
        parseOffset := parseOffset + |host|;
        var portEnd := FindChar(url, '/', parseOffset);
        portEnd := if portEnd == NPOS then |url| else portEnd;
        port := url[pos + 1..portEnd];
        parseOffset := portEnd + 1;
      } else {
        HostWithoutPort(View(), url, offset, offset != 0);
        pos := FindChar(url, '/', parseOffset);
        pos := if pos != NPOS then pos else FindChar(url, '?', parseOffset);
        pos := if pos != NPOS then pos else FindChar(url, '#', parseOffset);
        if pos != NPOS || parseOffset != 0 {
          pos := if pos != NPOS then pos else |url|;
          host := url[parseOffset..pos];
          parseOffset := pos + 1;
        }
        SetGuessedPort();
      }
    }

    /** The switch over the schemes. */
    method SetGuessedPort()
      modifies this`port
      ensures port == GuessPort(scheme, old(port))
    {
      match scheme
      case HTTP => port := "80";
      case HTTPS => port := "443";
      case IRC => port := "6697";
      case FTP => port := "21";
      case SFTP => port := "25";
      case _ =>
    }

    /** Path, query and fragment. */
    method ParsePath(url: string, offset: nat)
      requires offset < |url|
      modifies this`path, this`query, this`fragment
      ensures View() == ParseTail(old(View()), url[offset..])
    {
      hide FindChar, ParseTail, QueryAt, WithPath;
      PathThenQuery(View(), url, offset);
      var parseOffset: nat := offset;
      var pos := FindChar(url, '?', parseOffset);
      if pos == NPOS {
        pos := FindChar(url, '#', parseOffset);
        pos := if pos != NPOS then pos else FindChar(url, '?', parseOffset);
        pos := if pos != NPOS then pos else |url|;
      }
      assert pos == PathEnd(url, offset);
      AppendPath(url[parseOffset..pos]);
      parseOffset := pos + 1;
      ParseQueryAt(url, parseOffset);
    }

    method AppendPath(text: string)
      modifies this`path
      ensures View() == WithPath(old(View()), text)
    {
      path := path + "/" + text;
    }

    method ParseQueryAt(url: string, parseOffset: nat)
      requires 0 < parseOffset <= |url| + 1
      modifies this`query, this`fragment
      ensures View() == QueryAt(old(View()), url, parseOffset)
    {
      hide FindChar;
      var pos := FindChar(url, '#', parseOffset - 1);
      if pos != NPOS {
        if pos + 1 != parseOffset {
          query := url[parseOffset..pos];
        }
        fragment := url[pos + 1..];
      } else {
        if parseOffset >= |url| {
          return;
        }
        query := url[parseOffset..];
      }
    }
  }

  /** Query and fragment as the code looks for them, starting one character early. */
  function QueryAt(u: Parts, url: string, off: nat): Parts
    requires 0 < off <= |url| + 1
  {
    var pos := FindChar(url, '#', off - 1);
    if pos == off - 1 then u.(fragment := url[pos + 1..])
    else if pos != NPOS then u.(query := url[off..pos], fragment := url[pos + 1..])
    else if off >= |url| then u
    else u.(query := url[off..])
  }

  lemma TailOfNothing(u: Parts)
    ensures ParseTail(u, "") == u
  {
  }

  // --- the parser undoes the printer ---

  /** The components are what they are called: each is free of the characters that end it. */
  predicate WellFormed(u: Parts) {
    && Without(u.host, ':') && Without(u.host, '/') && Without(u.host, '?') && Without(u.host, '#')
    && Without(u.port, '/')
    && (u.path == "" || u.path[0] == '/') && Without(u.path, '?') && Without(u.path, '#')
    && Without(u.query, '#')
  }

  /** No colon behind the host that could be taken for that of a port; a path, unless nothing follows; more than a
      bare slash, unless something follows; and no question mark in the fragment, unless one comes before it. */
  predicate Recoverable(u: Parts) {
    && (u.port == "" ==> Without(UriOf(u), ':'))
    && (u.path == "" ==> u.query == "" && u.fragment == "")
    && (u.path == "/" ==> u.query != "" || u.fragment != "")
    && (u.query == "" ==> Without(u.fragment, '?'))
  }

  function Completed(u: Parts): Parts {
    if u.port == "" then u.(port := GuessPort(u.scheme, "")) else u
  }

  /** Query and fragment, behind a question mark. */
  lemma QueryOfPrinted(v: Parts, query: string, fragment: string)
    requires Without(query, '#') && query != "" && v.fragment == ""
    ensures ParseQuery(v, query + Marked("#", fragment)) == v.(query := query, fragment := fragment)
  {
    var f := Marked("#", fragment);
    CharBehind(query, f, '#');
    CharFirst(f, '#');
    hide FindChar, Without;
    if fragment == "" {
      assert query + f == query;
    } else {
      Pieces(query, "#", fragment);
    }
  }

  lemma TailWithQuery(v: Parts, p: string, query: string, fragment: string)
    requires Without(p, '?') && Without(query, '#') && query != "" && v.path == v.query == v.fragment == ""
    ensures ParseTail(v, p + ("?" + (query + Marked("#", fragment))))
         == v.(path := "/" + p, query := query, fragment := fragment)
  {
    var rest := query + Marked("#", fragment);
    CharBehind(p, "?" + rest, '?');
    CharFirst("?" + rest, '?');
    PathOfFresh(v, p);
    QueryOfPrinted(WithPath(v, p), query, fragment);
    hide FindChar, ParseQuery, Marked, Without, WithPath;
    Pieces(p, "?", rest);
  }

  lemma TailWithFragment(v: Parts, p: string, fragment: string)
    requires Without(p, '?') && Without(p, '#') && v.path == v.query == v.fragment == ""
    ensures var w := ParseTail(v, p + ("#" + fragment));
            if Without(fragment, '?') then w == v.(path := "/" + p, fragment := fragment) else w.path != "/" + p
  {
    var text := p + ("#" + fragment);
    CharBehind(p, "#" + fragment, '?');
    CharBehind(p, "#" + fragment, '#');
    CharBehind("#", fragment, '?');
    CharFirst("#" + fragment, '#');
    CharFirst(fragment, '?');
    PathOfFresh(v, p);
    hide FindChar;
    var question := FindChar(text, '?', 0);
    if question != NPOS {
      assert question > |p|;
      PathOfFresh(v, text[..question]);
      PathOfQuery(WithPath(v, text[..question]), text[question + 1..]);
    }
    hide FindChar, Without, WithPath, ParseQuery;
    Pieces(p, "#", fragment);
  }

  lemma PathOfFresh(v: Parts, p: string)
    requires v.path == ""
    ensures WithPath(v, p) == v.(path := "/" + p)
  {
    assert "" + "/" == "/";
  }

  lemma PathOfQuery(v: Parts, text: string)
    ensures ParseQuery(v, text).path == v.path
  {
  }

  lemma TailAlone(v: Parts, p: string)
    requires Without(p, '?') && Without(p, '#') && v.path == ""
    ensures ParseTail(v, p) == if p == "" then v else v.(path := "/" + p)
  {
    CharFirst(p, '?');
    CharFirst(p, '#');
    PathOfFresh(v, p);
    hide FindChar, WithPath;
  }

  /** What follows the first slash of the path. */
  function Behind(u: Parts): string
    requires u.path != ""
  {
    u.path[1..] + (Marked("?", u.query) + Marked("#", u.fragment))
  }

  lemma TailOfPrinted(v: Parts, u: Parts)
    requires WellFormed(u) && u.path != "" && v == Completed(u).(path := "", query := "", fragment := "")
    requires u.port == "" ==> Without(UriOf(u), ':')
    ensures ParseTail(v, Behind(u)) == Completed(u) <==> Recoverable(u)
  {
    var p := u.path[1..];
    assert u.path == "/" + p && |u.path| == 1 + |p|;
    assert Without(p, '?') && Without(p, '#');
    hide ParseTail;
    if u.query != "" {
      assert Behind(u) == p + ("?" + (u.query + Marked("#", u.fragment)));
      TailWithQuery(v, p, u.query, u.fragment);
    } else if u.fragment != "" {
      assert Behind(u) == p + ("#" + u.fragment);
      TailWithFragment(v, p, u.fragment);
    } else {
      assert Behind(u) == p;
      TailAlone(v, p);
    }
  }

  lemma SchemeName(scheme: Scheme)
    requires scheme != Unknown && scheme != SFTP
    ensures var name := SchemeToString(scheme).value;
            Without(name, ':') && StringToScheme(name) == scheme
  {
    var name := SchemeToString(scheme).value;
    assert ToLower(name) == name;
  }

  lemma FindMark(name: string, rest: string)
    requires Without(name, ':')
    ensures var url := name + ("://" + rest);
            Find(url, "://", 0) == |name| && url[..|name|] == name && url[|name| + 3..] == rest
  {
    var url := name + ("://" + rest);
    forall i | 0 <= i < |name|
      ensures !At(url, "://", i)
    {
      assert name[i] in name;
      assert url[i..i + 3][0] == name[i];
    }
    assert ("://" + rest)[..3] == "://" && ("://" + rest)[3..] == rest;
    assert url[|name|..|name| + 3] == ("://" + rest)[..3];
    assert url[|name| + 3..] == ("://" + rest)[3..];
    FindIs(url, "://", 0, |name|);
  }

  lemma PortEnd(port: string, uri: string)
    requires Without(port, '/')
    ensures var r := FindChar(":" + (port + uri), '/', 0);
            && (uri == "" ==> r == NPOS)
            && (uri != "" && uri[0] == '/' ==> r == 1 + |port|)
            && (uri != "" && uri[0] != '/' ==> r == NPOS || r > 1 + |port|)
  {
    CharBehind(":", port + uri, '/');
    CharBehind(port, uri, '/');
    CharFirst(uri, '/');
    assert uri != "" && uri[0] != '/' ==> FindChar(uri, '/', 0) != 0;
  }

  lemma ParseHostAt(v: Parts, text: string, colon: nat, slash: int)
    requires FindChar(text, ':', 0) == colon && FindChar(text, '/', colon) == slash && colon != slash
    ensures var end := if slash == NPOS then |text| else slash;
            ParseHost(v, text, true)
            == (v.(host := text[..colon], port := text[colon + 1..end]),
                if slash == NPOS then "" else text[slash + 1..])
  {
    hide FindChar;
  }

  /** The port ends at the first slash behind the host. */
  lemma HostPlaces(host: string, port: string, uri: string)
    requires Without(host, ':') && Without(port, '/')
    ensures var text, r := host + (":" + (port + uri)), FindChar(":" + (port + uri), '/', 0);
            && FindChar(text, ':', 0) == |host|
            && FindChar(text, '/', |host|) == if r == NPOS then NPOS else |host| + r
  {
    var t := ":" + (port + uri);
    CharBehind(host, t, ':');
    CharFirst(t, ':');
    CharShift(host + t, '/', |host|, 0);
    assert (host + t)[|host|..] == t;
  }

  lemma HostAndPort(v: Parts, host: string, port: string, uri: string)
    requires Without(host, ':') && Without(port, '/')
    ensures var r := ParseHost(v, host + (":" + (port + uri)), true);
            && (uri == "" ==> r == (v.(host := host, port := port), ""))
            && (uri != "" && uri[0] == '/' ==> r == (v.(host := host, port := port), uri[1..]))
            && (uri != "" && uri[0] != '/' ==> r.0.port != port)
  {
    var t := port + uri;
    var text := host + (":" + t);
    HostPlaces(host, port, uri);
    PortEnd(port, uri);
    var slash := FindChar(text, '/', |host|);
    ParseHostAt(v, text, |host|, slash);
    hide FindChar, Without, ParseHost;
    var e := if slash == NPOS then |t| else slash - |host| - 1;
    Middle(host, t, e);
    if uri == "" {
      assert t == port && t[..|t|] == t;
    } else if uri[0] == '/' {
      assert t[..|port|] == port && t[|port| + 1..] == uri[1..];
    } else {
      assert |t[..e]| > |port|;
    }
  }

  lemma HostAlone(v: Parts, host: string, uri: string)
    requires Without(host, ':') && Without(host, '/') && Without(host, '?') && Without(host, '#') && Without(uri, ':')
    ensures var w, r := v.(port := GuessPort(v.scheme, v.port)), ParseHost(v, host + uri, true);
            && (uri == "" ==> r == (w.(host := host), ""))
            && (uri != "" && uri[0] == '/' ==> r == (w.(host := host), uri[1..]))
            && (uri != "" && uri[0] != '/' ==> r.0.host != host || r == (w.(host := host), uri[1..]))
  {
    var text := host + uri;
    CharBehind(host, uri, ':');
    CharBehind(host, uri, '/');
    CharBehind(host, uri, '?');
    CharBehind(host, uri, '#');
    CharFirst(uri, ':');
    CharFirst(uri, '/');
    CharFirst(uri, '?');
    CharFirst(uri, '#');
    hide FindChar, Without, GuessPort;
    var end := HostEnd(text);
    assert end != NPOS ==> |host| <= end;
    assert text[..|host|] == host && (uri != "" ==> text[|host| + 1..] == uri[1..]);
    assert uri == "" ==> text == host;
  }

  /** Without a port the host is taken up to a colon further back. */
  lemma HostToColon(v: Parts, host: string, uri: string)
    requires Without(host, ':') && !Without(uri, ':') && uri[0] != ':'
    ensures |ParseHost(v, host + uri, true).0.host| > |host|
  {
    var text := host + uri;
    CharBehind(host, uri, ':');
    CharFirst(uri, ':');
    CharFound(uri, ':', 0);
    HostIsTo(v, text, FindChar(text, ':', 0));
  }

  lemma HostIsTo(v: Parts, text: string, colon: int)
    requires FindChar(text, ':', 0) == colon && colon != NPOS
    ensures ParseHost(v, text, true).0.host == text[..colon]
  {
    hide FindChar;
  }

  /** For well-formed components exactly the recoverable ones come back; a port that was left open comes back as
      the one that is guessed for the scheme. */
  lemma UrlRoundTrip(u: Parts)
    requires WellFormed(u) && u.host != "" && u.scheme != Unknown && u.scheme != SFTP
    ensures UrlOf(u).Some?
    ensures Parsed(FRESH, UrlOf(u).value) == Completed(u) <==> Recoverable(u)
  {
    hide *;
    NamedText(u);
    var name, text := SchemeToString(u.scheme).value, HostText(u);
    SchemeName(u.scheme);
    ParsedNamed(FRESH, name, text);
    HostOfPrinted(FRESH.(scheme := u.scheme), u);
  }

  lemma NamedText(u: Parts)
    requires u.host != "" && u.scheme != Unknown && u.scheme != SFTP
    ensures SchemeToString(u.scheme).Some? && UrlOf(u) == Some(SchemeToString(u.scheme).value + ("://" + HostText(u)))
  {
    var name, uri := SchemeToString(u.scheme).value, UriOf(u);
    assert u.host + "" == u.host;
    hide SchemeToString, UriOf;
    assert name + "://" + u.host + "" + uri == name + ("://" + (u.host + uri));
    assert name + "://" + u.host + (":" + u.port) + uri == name + ("://" + (u.host + (":" + (u.port + uri))));
  }

  lemma ParsedNamed(u: Parts, name: string, text: string)
    requires Without(name, ':')
    ensures var (v, rest) := ParseHost(u.(scheme := StringToScheme(name)), text, true);
            Parsed(u, name + ("://" + text)) == ParseTail(v, rest)
  {
    FindMark(name, text);
    hide Find, ParseHost, ParseTail, StringToScheme;
  }

  /** Without a scheme, and perhaps without a host, no port is guessed; and a host alone is taken for a path. */
  lemma RelativeRoundTrip(u: Parts)
    requires WellFormed(u) && u.scheme == Unknown && (u.host == "" ==> u.port == "")
    requires UrlOf(u).Some? && Find(UrlOf(u).value, "://", 0) == NPOS
    ensures Parsed(FRESH, UrlOf(u).value) == u
       <==> Recoverable(u) && (u.host != "" && u.port == "" ==> UriOf(u) != "")
  {
    var text := HostText(u);
    RelativeText(u);
    HostOfPrinted(FRESH, u);
    UnguessedPort(u);
    if u.port == "" && UriOf(u) == "" {
      HostOnly(u.host);
    } else {
      HostEnds(u);
      hide *;
      SchemeIgnored(FRESH, text);
      ParsedPlain(FRESH, text);
    }
  }

  lemma RelativeText(u: Parts)
    requires WellFormed(u) && u.scheme == Unknown && (u.host == "" ==> u.port == "")
    ensures UrlOf(u) == Some(HostText(u))
    ensures FRESH == FRESH.(scheme := u.scheme)
  {
    var uri := UriOf(u);
    hide UriOf;
    assert "" + uri == uri && u.host + "" + uri == u.host + uri;
    assert u.host + (":" + u.port) + uri == u.host + (":" + (u.port + uri));
  }

  lemma UnguessedPort(u: Parts)
    requires u.scheme == Unknown
    ensures Completed(u) == u
  {
  }

  /** A colon, or a mark behind the host. */
  lemma HostEnds(u: Parts)
    requires WellFormed(u) && (u.port == "" ==> UriOf(u) != "")
    ensures FindChar(HostText(u), ':', 0) != NPOS || HostEnd(HostText(u)) != NPOS
  {
    var uri, text := UriOf(u), HostText(u);
    if u.port == "" {
      assert uri[0] == '/' || uri[0] == '?' || uri[0] == '#';
      assert text[|u.host|] == uri[0];
    } else {
      assert text[|u.host|] == ':';
    }
    hide UriOf;
    CharFirst(text, ':');
    CharFirst(text, '/');
    CharFirst(text, '?');
    CharFirst(text, '#');
  }

  lemma SchemeIgnored(u: Parts, text: string)
    requires FindChar(text, ':', 0) != NPOS || HostEnd(text) != NPOS
    ensures ParseHost(u, text, false) == ParseHost(u, text, true)
  {
    hide FindChar;
  }

  lemma ParsedPlain(u: Parts, url: string)
    requires Find(url, "://", 0) == NPOS && u.scheme == Unknown
    ensures Parsed(u, url) == ParseTail(ParseHost(u, url, false).0, ParseHost(u, url, false).1)
  {
    hide Find, ParseHost, ParseTail;
  }

  lemma HostOnly(host: string)
    requires Without(host, ':') && Without(host, '/') && Without(host, '?') && Without(host, '#')
    requires Find(host, "://", 0) == NPOS
    ensures host + "" == host
    ensures Parsed(FRESH, host) == if host == "" then FRESH else FRESH.(path := "/" + host)
  {
    ParsedPlain(FRESH, host);
    CharFirst(host, ':');
    CharFirst(host, '/');
    CharFirst(host, '?');
    CharFirst(host, '#');
    TailAlone(FRESH, host);
    hide Find, FindChar, ParseTail, WithPath;
  }

  /** The names of the schemes, in any case. */
  lemma SchemeTable(name: string)
    ensures StringToScheme(name) == HTTP <==> ToLower(name) == "http"
    ensures StringToScheme(name) == HTTPS <==> ToLower(name) == "https"
    ensures StringToScheme(name) == FTP <==> ToLower(name) == "sftp"
    ensures StringToScheme(name) == MAILTO <==> ToLower(name) == "mailto"
    ensures StringToScheme(name) == IRC <==> ToLower(name) == "irc"
    ensures StringToScheme(name) != SFTP
  {
    hide ToLower;
  }

  /** The ports that are guessed; for any other scheme the port stays what it was. */
  lemma BareHost(u: Parts, name: string, host: string)
    requires Without(name, ':')
    requires Without(host, ':') && Without(host, '/') && Without(host, '?') && Without(host, '#')
    ensures var lower, v := ToLower(name), Parsed(u, name + ("://" + host));
            && v == u.(scheme := StringToScheme(name), host := host, port := v.port)
            && v.port == (if lower == "http" then "80" else if lower == "https" then "443"
                          else if lower == "irc" then "6697" else if lower == "sftp" then "21" else u.port)
  {
    FindMark(name, host);
    var w := u.(scheme := StringToScheme(name));
    HostAlone(w, host, "");
    assert host + "" == host;
    TailOfNothing(w.(port := GuessPort(w.scheme, w.port), host := host));
    SchemeTable(name);
    hide Find, ParseHost, ParseTail, StringToScheme;
  }

  /** A path is appended to the one that is there; the same URL parsed by a fresh object gives the part that is new. */
  lemma PathAppended(u: Parts, url: string)
    ensures Parsed(u, url).path == u.path + Parsed(FRESH, url).path
    ensures Parsed(u, url).scheme == Parsed(FRESH, url).scheme
  {
    var pos := Find(url, "://", 0);
    var scheme := if pos == NPOS then Unknown else StringToScheme(url[..pos]);
    var text := if pos == NPOS then url else url[pos + 3..];
    HostKeepsPath(u.(scheme := scheme), FRESH.(scheme := scheme), text, pos != NPOS);
    var (v, rest) := ParseHost(u.(scheme := scheme), text, pos != NPOS);
    var (w, rest') := ParseHost(FRESH.(scheme := scheme), text, pos != NPOS);
    hide Find, StringToScheme, ParseHost;
    TailAppends(v, w, rest);
  }

  lemma HostKeepsPath(u: Parts, v: Parts, text: string, hasScheme: bool)
    requires u.scheme == v.scheme
    ensures var (a, rest) := ParseHost(u, text, hasScheme);
            var (b, rest') := ParseHost(v, text, hasScheme);
            rest == rest' && a.path == u.path && b.path == v.path && a.scheme == b.scheme == u.scheme
  {
    hide FindChar;
  }

  lemma TailAppends(u: Parts, v: Parts, text: string)
    requires v.path == ""
    ensures ParseTail(u, text).path == u.path + ParseTail(v, text).path
    ensures ParseTail(u, text).scheme == u.scheme && ParseTail(v, text).scheme == v.scheme
  {
    hide FindChar;
    assert forall p: string :: u.path + ("" + "/" + p) == u.path + "/" + p;
  }

  /** Host and port as they are printed, and the rest. */
  function HostText(u: Parts): string {
    u.host + (if u.port == "" then UriOf(u) else ":" + (u.port + UriOf(u)))
  }

  /** Behind the scheme: an open port needs a rest without a colon; then with a path the rest is as good as the tail
      is, and without one there has to be nothing. */
  lemma HostOfPrinted(v: Parts, u: Parts)
    requires WellFormed(u) && v == FRESH.(scheme := u.scheme)
    ensures var (w, text) := ParseHost(v, HostText(u), true);
            ParseTail(w, text) == Completed(u) <==> Recoverable(u)
  {
    var uri := UriOf(u);
    UriStart(u);
    if u.port == "" && !Without(uri, ':') {
      HostToColon(v, u.host, uri);
    } else if u.port == "" {
      HostAlone(v, u.host, uri);
    } else {
      HostAndPort(v, u.host, u.port, uri);
    }
    var (w, text) := ParseHost(v, u.host + (if u.port == "" then uri else ":" + (u.port + uri)), true);
    hide ParseHost, ParseTail, UriOf, WellFormed;
    TailKeepsHost(w, text);
    if u.path != "" && (u.port == "" ==> Without(uri, ':')) {
      TailOfPrinted(w, u);
    }
  }

  lemma UriStart(u: Parts)
    requires WellFormed(u)
    ensures u.path != "" ==> UriOf(u) != "" && UriOf(u)[0] == '/' && UriOf(u)[1..] == Behind(u)
    ensures UriOf(u) != "" ==> UriOf(u)[0] != ':' && (u.path == "" ==> UriOf(u)[0] != '/')
    ensures u.path == "" ==> (UriOf(u) == "" <==> u.query == "" && u.fragment == "")
  {
  }

  lemma TailKeepsHost(u: Parts, text: string)
    ensures ParseTail(u, text).host == u.host && ParseTail(u, text).port == u.port
    ensures text == "" ==> ParseTail(u, text) == u
    ensures text != "" ==> ParseTail(u, text).path != ""
  {
    hide FindChar;
  }
}
