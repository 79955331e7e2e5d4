/** Http::parse_argument_list (src/Http.cpp:194-232), and the "key=value" lists joined with '&' that construct
    prints (src/HttpRequest.cpp:111-139). */
module Arguments {
  import opened Http
  import opened Text

  /** Without the CR and LF at the end. */
  function TrimEnd(s: string): (r: string)
    ensures |r| <= |s|
  {
    if s != "" && (s[|s| - 1] == '\r' || s[|s| - 1] == '\n') then TrimEnd(s[..|s| - 1]) else s
  }

  /** A pair, for the places of the first '=' and the first '&': the value of the last pair takes all that is left,
      and so does that of a pair whose '&' stands before its '='. */
  function PairAt(t: string, eq: nat, amp: int): Pair
    requires eq < |t| && amp < |t|
  {
    (t[..eq], if amp == NPOS then After(TrimEnd(t), eq + 1) else if amp <= eq then t[eq + 1..] else t[eq + 1..amp])
  }

  function Args(t: string): seq<Pair>
    decreases |t|
  {
    var eq, amp := FindChar(t, '=', 0), FindChar(t, '&', 0);
    if eq == NPOS then []
    else if amp == NPOS then [PairAt(t, eq, amp)]
    else [PairAt(t, eq, amp)] + Args(t[amp + 1..])
  }

  /** A question mark in front is dropped. */
  function ArgumentList(s: string): seq<Pair> {
    if s != "" && s[0] == '?' then Args(s[1..]) else Args(s)
  }

  // --- the loop ---

  lemma {:induction false} TrimEndOfRest(s: string, at: nat, eq: nat)
    requires at <= eq && Stands(s, '=', eq)
    ensures After(TrimEnd(s[at..]), eq - at + 1) == After(TrimEnd(s), eq + 1)
  {
    var n := |s| - 1;
    if s[n] == '\r' || s[n] == '\n' {
      TrimEndOfRest(s[..n], at, eq);
      assert s[at..][..|s[at..]| - 1] == s[..n][at..];
    } else {
      SlicesOfRest(s, at, eq + 1, eq + 1);
    }
  }

  /** The pair the code takes out of str is the one at the front of the rest. */
  lemma LastPair(str: string, at: nat, eq: nat)
    requires at <= eq < |str| && Stands(str, '=', eq)
    ensures PairAt(str[at..], eq - at, NPOS) == (str[at..eq], After(TrimEnd(str), eq + 1))
  {
    TrimEndOfRest(str, at, eq);
    hide TrimEnd, After, Stands;
    SlicesOfRest(str, at, at, eq);
  }

  lemma NextPair(str: string, at: nat, eq: nat, amp: nat)
    requires at <= eq < |str| && at <= amp < |str| && amp != eq
    ensures PairAt(str[at..], eq - at, amp - at) == (str[at..eq], Substr(str, eq + 1, amp - eq - 1))
  {
    SlicesOfRest(str, at, at, eq);
    if amp > eq {
      SlicesOfRest(str, at, eq + 1, amp);
    } else {
      SlicesOfRest(str, at, eq + 1, eq + 1);
    }
  }

  lemma NotBoth(str: string, at: nat)
    requires FindChar(str, '=', at) != NPOS
    ensures FindChar(str, '=', at) != FindChar(str, '&', at)
  {
    if FindChar(str, '&', at) != NPOS {
      CharFound(str, '=', at);
      CharFound(str, '&', at);
    }
  }

  lemma ArgsNext(str: string, at: nat)
    requires at <= |str|
    ensures var eq, amp := FindChar(str, '=', at), FindChar(str, '&', at);
            && (eq != NPOS ==> eq != amp && Stands(str, '=', eq))
            && Args(str[at..])
               == if eq == NPOS then []
                  else if amp == NPOS then [PairAt(str[at..], eq - at, NPOS)]
                  else [PairAt(str[at..], eq - at, amp - at)] + Args(str[amp + 1..])
  {
    hide FindChar, PairAt, Stands;
    var eq, amp := FindChar(str, '=', at), FindChar(str, '&', at);
    CharShift(str, '=', at, 0);
    CharShift(str, '&', at, 0);
    if eq != NPOS {
      CharFound(str, '=', at);
      NotBoth(str, at);
      if amp != NPOS {
        SlicesOfRest(str, at, amp + 1, amp + 1);
      }
    }
  }

  /** The loop has read str[..at]. */
  ghost predicate Listed(str: string, at: nat, list: seq<Pair>) {
    at <= |str| && list + Args(str[at..]) == ArgumentList(str)
  }

  lemma ListedStart(str: string)
    ensures Listed(str, if str != "" && str[0] == '?' then 1 else 0, [])
    ensures str == "" ==> ArgumentList(str) == []
  {
    assert str[0..] == str;
  }

  lemma ListedEnd(str: string, at: nat, list: seq<Pair>)
    requires Listed(str, at, list)
    ensures var eq := FindChar(str, '=', at);
            && (eq == NPOS ==> list == ArgumentList(str))
            && (eq != NPOS && FindChar(str, '&', at) == NPOS ==>
                  Stands(str, '=', eq) && list + [(str[at..eq], After(TrimEnd(str), eq + 1))] == ArgumentList(str))
  {
    hide FindChar, Args, TrimEnd, ArgumentList, After, Stands, PairAt;
    ArgsNext(str, at);
    if FindChar(str, '=', at) != NPOS {
      LastPair(str, at, FindChar(str, '=', at));
    }
  }

  lemma ListedNext(str: string, at: nat, list: seq<Pair>)
    requires Listed(str, at, list) && FindChar(str, '=', at) != NPOS && FindChar(str, '&', at) != NPOS
    ensures var eq, amp := FindChar(str, '=', at), FindChar(str, '&', at);
            Listed(str, amp + 1, list + [(str[at..eq], Substr(str, eq + 1, amp - eq - 1))])
  {
    hide FindChar, Args, TrimEnd, ArgumentList, After, Stands, PairAt, Substr;
    var eq, amp := FindChar(str, '=', at), FindChar(str, '&', at);
    ArgsNext(str, at);
    NextPair(str, at, eq, amp);
    Regroup(list, [(str[at..eq], Substr(str, eq + 1, amp - eq - 1))], Args(str[amp + 1..]));
  }

  /** readIndex strictly grows, so the loop ends. */
  method ParseArgumentList(str: string) returns (list: seq<Pair>)
    ensures list == ArgumentList(str)
  {
    hide FindChar, Listed, TrimEnd, ArgumentList, After, Stands, Substr;
    ListedStart(str);
    list := [];
    if str == "" {
      return;
    }
    var readIndex: nat := 0;
    if str[0] == '?' {
      readIndex := readIndex + 1;
    }
    while true
      invariant readIndex <= |str| && Listed(str, readIndex, list)
      decreases |str| - readIndex
    {
      ListedEnd(str, readIndex, list);
      var equalPos := FindChar(str, '=', readIndex);
      if equalPos == NPOS {
        break;
      }
      var andPos := FindChar(str, '&', readIndex);
      if andPos == NPOS {
        var strSize := TrimmedSize(str, equalPos);
        list := list + [(str[readIndex..equalPos], str[equalPos + 1..strSize])];
        break;
      }
      ListedNext(str, readIndex, list);
      list := list + [(str[readIndex..equalPos], Substr(str, equalPos + 1, andPos - equalPos - 1))];
      readIndex := andPos + 1;
    }
  }

  /** The inner loop; the '=' stops it. */
  method TrimmedSize(str: string, equalPos: nat) returns (strSize: nat)
    requires Stands(str, '=', equalPos)
    ensures equalPos < strSize <= |str|
    ensures str[equalPos + 1..strSize] == After(TrimEnd(str), equalPos + 1)
  {
    strSize := |str|;
    assert str[..|str|] == str;
    while str[strSize - 1] == '\n' || str[strSize - 1] == '\r'
      invariant equalPos < strSize <= |str|
      invariant TrimEnd(str) == TrimEnd(str[..strSize])
      decreases strSize
    {
      assert str[..strSize][..strSize - 1] == str[..strSize - 1];
      strSize := strSize - 1;
    }
    assert TrimEnd(str) == str[..strSize];
  }

  // --- printed lists ---

  function Join(ps: seq<Pair>): string {
    if ps == [] then ""
    else ps[0].0 + "=" + ps[0].1 + (if |ps| == 1 then "" else "&" + Join(ps[1..]))
  }

  /** Keys and values that come back from a printed list. */
  predicate ArgOk(p: Pair) {
    Without(p.0, '=') && Without(p.0, '&') && Without(p.1, '&')
  }

  predicate IsLineEnd(c: char) {
    c == '\r' || c == '\n'
  }

  predicate LineEnds(s: string) {
    forall i :: 0 <= i < |s| ==> IsLineEnd(s[i])
  }

  predicate Unended(s: string) {
    s == "" || !IsLineEnd(s[|s| - 1])
  }

  /** The line ends behind the last value are dropped, and with them those that it ends in. */
  predicate ArgsOk(ps: seq<Pair>) {
    (forall i :: 0 <= i < |ps| ==> ArgOk(ps[i])) && (ps != [] ==> Unended(ps[|ps| - 1].1))
  }

  lemma {:induction false} TrimEndOf(s: string, tail: string)
    requires s != "" && !IsLineEnd(s[|s| - 1]) && LineEnds(tail)
    ensures TrimEnd(s + tail) == s
  {
    if tail == "" {
      assert s + tail == s;
    } else {
      assert (s + tail)[..|s + tail| - 1] == s + tail[..|tail| - 1];
      TrimEndOf(s, tail[..|tail| - 1]);
    }
  }

  lemma LastArg(p: Pair, tail: string)
    requires ArgsOk([p]) && LineEnds(tail)
    ensures Args(p.0 + "=" + p.1 + tail) == [p]
  {
    var s := p.0 + ("=" + p.1);
    assert p.0 + "=" + p.1 + tail == s + tail;
    LastPlaces(p, tail);
    LastTrimmed(p, tail);
    LastPieces(p.0, p.1, tail);
    hide *;
    ArgsFrontLast(s + tail, |p.0|, s);
  }

  lemma LastPlaces(p: Pair, tail: string)
    requires ArgsOk([p]) && LineEnds(tail)
    ensures FindChar(p.0 + ("=" + p.1) + tail, '=', 0) == |p.0|
    ensures FindChar(p.0 + ("=" + p.1) + tail, '&', 0) == NPOS
  {
    var s := p.0 + ("=" + p.1);
    assert s + tail == p.0 + ("=" + p.1 + tail);
    CharBehind(p.0, "=" + p.1 + tail, '=');
    CharFirst("=" + p.1 + tail, '=');
    assert Without(s + tail, '&');
    CharFirst(s + tail, '&');
  }

  lemma LastTrimmed(p: Pair, tail: string)
    requires ArgsOk([p]) && LineEnds(tail)
    ensures TrimEnd(p.0 + ("=" + p.1) + tail) == p.0 + ("=" + p.1)
  {
    TrimEndOf(p.0 + ("=" + p.1), tail);
  }

  lemma LastPieces(k: string, v: string, tail: string)
    ensures var s := k + ("=" + v);
            (s + tail)[..|k|] == k && s[|k| + 1..] == v
  {
  }

  lemma ArgsFrontLast(t: string, eq: nat, s: string)
    requires FindChar(t, '=', 0) == eq && FindChar(t, '&', 0) == NPOS && TrimEnd(t) == s && eq < |s|
    ensures Args(t) == [(t[..eq], s[eq + 1..])]
  {
    hide FindChar, TrimEnd;
  }

  lemma FirstArg(p: Pair, rest: string)
    requires ArgOk(p)
    ensures Args(p.0 + "=" + p.1 + "&" + rest) == [p] + Args(rest)
  {
    var k, v := p.0, p.1;
    var t := v + ("&" + rest);
    var s := k + ("=" + t);
    assert p.0 + "=" + p.1 + "&" + rest == s == (k + ("=" + v)) + ("&" + rest);
    CharBehind(k, "=" + t, '=');
    CharFirst("=" + t, '=');
    assert Without(k + ("=" + v), '&');
    CharBehind(k + ("=" + v), "&" + rest, '&');
    CharFirst("&" + rest, '&');
    hide FindChar, TrimEnd, Without, Args;
    ArgsFront(s, |k|, |k| + 1 + |v|);
    ArgPieces(k, v, rest);
  }

  lemma ArgPieces(k: string, v: string, rest: string)
    ensures var s, amp := k + ("=" + (v + ("&" + rest))), |k| + 1 + |v|;
            s[..|k|] == k && s[|k| + 1..amp] == v && s[amp + 1..] == rest
  {
  }

  lemma ArgsFront(s: string, eq: nat, amp: nat)
    requires FindChar(s, '=', 0) == eq && FindChar(s, '&', 0) == amp && eq < amp
    ensures Args(s) == [(s[..eq], s[eq + 1..amp])] + Args(s[amp + 1..])
  {
    hide FindChar;
  }

  /** Parsing undoes joining, whatever line ends follow. */
  lemma {:induction false} ArgsOfJoin(ps: seq<Pair>, tail: string)
    requires ArgsOk(ps) && LineEnds(tail)
    ensures Args(Join(ps) + tail) == ps
  {
    hide ArgOk, Args, FindChar;
    if ps == [] {
      assert Join(ps) + tail == tail;
      ArgsOfTail(tail);
    } else if |ps| == 1 {
      assert Join(ps) + tail == ps[0].0 + "=" + ps[0].1 + tail;
      LastArg(ps[0], tail);
    } else {
      assert Join(ps) + tail == ps[0].0 + "=" + ps[0].1 + "&" + (Join(ps[1..]) + tail);
      FirstArg(ps[0], Join(ps[1..]) + tail);
      ArgsOfJoin(ps[1..], tail);
      assert ps == [ps[0]] + ps[1..];
    }
  }

  lemma ArgsOfTail(tail: string)
    requires LineEnds(tail)
    ensures Args(tail) == []
  {
    assert Without(tail, '=');
    CharFirst(tail, '=');
  }

  /** Text without an equals sign holds no argument; a word without one runs into the key behind it, which is then
      read a second time. */
  lemma WordsWithout(word: string, p: Pair)
    requires Without(word, '=') && Without(word, '&') && ArgsOk([p])
    ensures Args(word) == [] && Args(word + "&" + (p.0 + "=" + p.1)) == [(word + "&" + p.0, p.1), p]
  {
    hide *;
    var rest := p.0 + "=" + p.1;
    KeyPlain(p);
    WordPlaces(word, p.0, p.1);
    WordPieces(word, p.0, p.1);
    NoArgs(word);
    assert rest + "" == rest;
    LastArg(p, "");
    ArgsCrossed(word + "&" + rest, |word| + 1 + |p.0|, |word|);
  }

  lemma KeyPlain(p: Pair)
    requires ArgsOk([p])
    ensures Without(p.0, '=') && LineEnds("")
  {
    assert ArgOk([p][0]);
  }

  lemma NoArgs(word: string)
    requires Without(word, '=')
    ensures Args(word) == []
  {
    CharFirst(word, '=');
  }

  lemma WordPlaces(word: string, key: string, value: string)
    requires Without(word, '=') && Without(word, '&') && Without(key, '=')
    ensures var s := word + "&" + (key + "=" + value);
            FindChar(s, '=', 0) == |word| + 1 + |key| && FindChar(s, '&', 0) == |word|
  {
    hide FindChar;
    var s, front := word + "&" + (key + "=" + value), word + "&" + key;
    assert s == word + ("&" + (key + "=" + value)) && s == front + ("=" + value);
    CharBehind(word, "&" + (key + "=" + value), '&');
    CharFirst("&" + (key + "=" + value), '&');
    assert Without(front, '=');
    CharBehind(front, "=" + value, '=');
    CharFirst("=" + value, '=');
  }

  lemma WordPieces(word: string, key: string, value: string)
    ensures var s, eq := word + "&" + (key + "=" + value), |word| + 1 + |key|;
            s[..eq] == word + "&" + key && s[eq + 1..] == value && s[|word| + 1..] == key + "=" + value
  {
  }

  lemma ArgsCrossed(s: string, eq: nat, amp: nat)
    requires FindChar(s, '=', 0) == eq && FindChar(s, '&', 0) == amp && amp < eq < |s|
    ensures Args(s) == [(s[..eq], s[eq + 1..])] + Args(s[amp + 1..])
  {
    hide FindChar;
  }
}
