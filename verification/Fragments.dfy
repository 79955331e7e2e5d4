/** A parser that is fed fragment by fragment, whatever its fields are: when it may be fed a stream in any pieces. */
module Fragments {
  import opened Http

  /** Feeding fragments one by one until something other than NotEnoughData comes back. */
  function Feed<S>(parse: (S, string) -> (S, Status), st: S, frags: seq<string>): (S, Status)
    decreases |frags|
  {
    if frags == [] then (st, NotEnoughData)
    else
      var (s, r) := parse(st, frags[0]);
      if r == NotEnoughData then Feed(parse, s, frags[1..]) else (s, r)
  }

  lemma FeedNothing<S>(parse: (S, string) -> (S, Status), st: S)
    ensures Feed(parse, st, []) == (st, NotEnoughData)
  {
  }

  lemma {:induction false} FeedMore<S>(parse: (S, string) -> (S, Status), st: S, frags: seq<string>, frag: string)
    requires Feed(parse, st, frags).1 == NotEnoughData
    ensures Feed(parse, st, frags + [frag]) == parse(Feed(parse, st, frags).0, frag)
    decreases |frags|
  {
    if frags == [] {
      assert [] + [frag] == [frag] && [frag][1..] == [];
      FeedNothing(parse, parse(st, frag).0);
    } else {
      assert (frags + [frag])[1..] == frags[1..] + [frag];
      FeedMore(parse, parse(st, frags[0]).0, frags[1..], frag);
    }
  }

  /** Every strict prefix of the stream asks for more. */
  ghost predicate Patient<S>(parse: (S, string) -> (S, Status), st: S, stream: string) {
    forall n :: 0 <= n < |stream| ==> parse(st, stream[..n]).1 == NotEnoughData
  }

  /** Two calls on the stream, the first of which asks for more, are one. */
  ghost predicate Joins<S>(parse: (S, string) -> (S, Status), st: S, stream: string) {
    forall i, j :: 0 <= i <= j <= |stream| && parse(st, stream[..i]).1 == NotEnoughData ==>
      parse(parse(st, stream[..i]).0, stream[i..j]) == parse(st, stream[..j])
  }

  /** Then any fragments of a stream whose strict prefixes ask for more end as one call on the stream does. */
  lemma {:induction false} FeedFrom<S>(parse: (S, string) -> (S, Status), st0: S, done: string, st: S,
                                       frags: seq<string>)
    requires Patient(parse, st0, done + Concat(frags)) && Joins(parse, st0, done + Concat(frags))
    requires parse(st0, done) == (st, NotEnoughData)
    ensures Feed(parse, st, frags) == parse(st0, done + Concat(frags))
    decreases |frags|
  {
    var stream := done + Concat(frags);
    if frags == [] {
      assert stream == done;
    } else {
      var now := done + frags[0];
      assert stream == now + Concat(frags[1..]);
      assert stream[..|done|] == done && stream[..|now|] == now && stream[|done|..|now|] == frags[0];
      assert parse(st, frags[0]) == parse(st0, now);
      if |now| < |stream| {
        assert parse(st0, stream[..|now|]).1 == NotEnoughData;
      } else {
        assert now == stream;
      }
      if parse(st0, now).1 == NotEnoughData {
        FeedFrom(parse, st0, now, parse(st0, now).0, frags[1..]);
      } else {
        assert Concat(frags[1..]) == "";
      }
    }
  }

  lemma FeedWhole<S>(parse: (S, string) -> (S, Status), st: S, frags: seq<string>)
    requires Patient(parse, st, Concat(frags)) && Joins(parse, st, Concat(frags))
    requires parse(st, "") == (st, NotEnoughData)
    ensures Feed(parse, st, frags) == parse(st, Concat(frags))
  {
    hide Feed;
    assert "" + Concat(frags) == Concat(frags);
    FeedFrom(parse, st, "", st, frags);
  }

  /** As long as something is missing at the end, more is asked for. */
  lemma FeedPart<S>(parse: (S, string) -> (S, Status), st: S, frags: seq<string>, rest: string)
    requires Patient(parse, st, Concat(frags) + rest) && Joins(parse, st, Concat(frags) + rest)
    requires parse(st, "") == (st, NotEnoughData) && rest != ""
    ensures Feed(parse, st, frags).1 == NotEnoughData
  {
    hide Feed;
    var part := Concat(frags);
    var stream := part + rest;
    assert forall j :: 0 <= j <= |part| ==> part[..j] == stream[..j];
    assert forall i, j :: 0 <= i <= j <= |part| ==> part[i..j] == stream[i..j];
    assert part == stream[..|part|];
    FeedWhole(parse, st, frags);
  }
}
