/** Packet (include/frnetlib/Packet.h): values of nested types written one behind the other into a buffer, read back
    through a cursor, and the buffer sent and received as one message. */
module Packet {
  import opened NetworkEncoding
  import opened Options
  import opened Sockets
  import opened Widths

  // --- types and values ---

  /** What can be packed. Unsigned(1), (2), (4) and (8) are the unsigned integers; Unsigned(4) is also an enum and,
      as a bit pattern, a float, and Unsigned(8) a double. The entries of a map are pairs. */
  datatype Type =
    | Flag
    | Unsigned(width: nat)
    | Signed(width: nat)
    | Text
    | Pair(first: Type, second: Type)
    | Vector(item: Type)
    | Map(entry: Type)

  /** Items are the elements of a vector, or the entries of a map in the order in which the container yields them. */
  datatype Value =
    | Bool(b: bool)
    | Number(n: int)
    | Chars(bytes: seq<Byte>)
    | Both(first: Value, second: Value)
    | Items(items: seq<Value>)

  predicate Proper(t: Type) {
    match t
    case Pair(first, second) => Proper(first) && Proper(second)
    case Vector(item) => Proper(item)
    case Map(entry) => entry.Pair? && Proper(entry)
    case _ => true
  }

  predicate HasType(t: Type, v: Value)
    decreases t, 0
  {
    match t
    case Flag => v.Bool?
    case Unsigned(width) => v.Number? && 0 <= v.n < Pow256(width)
    case Signed(width) => v.Number? && 0 <= 2 * v.n + Pow256(width) < 2 * Pow256(width)
    case Text => v.Chars?
    case Pair(first, second) => v.Both? && HasType(first, v.first) && HasType(second, v.second)
    case Vector(item) => v.Items? && AllHaveType(item, v.items)
    case Map(entry) => v.Items? && AllHaveType(entry, v.items) && AllPairs(v.items) && DistinctKeys(v.items)
  }

  predicate AllHaveType(t: Type, vs: seq<Value>)
    decreases t, 1
  {
    forall v :: v in vs ==> HasType(t, v)
  }

  predicate AllPairs(vs: seq<Value>) {
    forall v :: v in vs ==> v.Both?
  }

  predicate DistinctKeys(es: seq<Value>)
    requires AllPairs(es)
  {
    forall i, j :: 0 <= i < j < |es| ==> es[i].first != es[j].first
  }

  /** Every length that goes into 32 bits does fit. */
  predicate Fits(v: Value) {
    match v
    case Chars(bytes) => |bytes| < TWO_32
    case Both(first, second) => Fits(first) && Fits(second)
    case Items(items) => |items| < TWO_32 && forall x :: x in items ==> Fits(x)
    case _ => true
  }

  /** A default-constructed variable. */
  function Fresh(t: Type): (v: Value)
    requires Proper(t)
    ensures HasType(t, v)
  {
    match t
    case Flag => Bool(false)
    case Unsigned(_) => Number(0)
    case Signed(_) => Number(0)
    case Text => Chars([])
    case Pair(first, second) => Both(Fresh(first), Fresh(second))
    case Vector(_) => Items([])
    case Map(_) => Items([])
  }

  // --- writing ---

  function Length(n: nat): seq<Byte> {
    NetworkBytes(n % TWO_32, 4)
  }

  /** Two's complement. */
  function Unsign(n: int, width: nat): nat
    requires n + Pow256(width) >= 0
  {
    if n < 0 then n + Pow256(width) else n
  }

  function Sign(x: nat, width: nat): int {
    if 2 * x >= Pow256(width) then x - Pow256(width) else x
  }

  function Write(t: Type, v: Value): seq<Byte>
    requires HasType(t, v)
    decreases t, 0
  {
    match t
    case Flag => [if v.b then 1 else 0]
    case Unsigned(width) => NetworkBytes(v.n, width)
    case Signed(width) => NetworkBytes(Unsign(v.n, width), width)
    case Text => Length(|v.bytes|) + v.bytes
    case Pair(first, second) => Write(first, v.first) + Write(second, v.second)
    case Vector(item) => WriteList(item, v.items)
    case Map(entry) => WriteList(entry, v.items)
  }

  /** What a vector, a map and add_range have in common: a length, then the items. */
  function WriteList(t: Type, vs: seq<Value>): seq<Byte>
    requires AllHaveType(t, vs)
    decreases t, |vs| + 1
  {
    Length(|vs|) + WriteItems(t, vs)
  }

  function WriteItems(t: Type, vs: seq<Value>): seq<Byte>
    requires AllHaveType(t, vs)
    decreases t, |vs|
  {
    if vs == [] then [] else Write(t, vs[0]) + WriteItems(t, vs[1..])
  }

  lemma LengthForm(n: nat)
    ensures Length(n) == BigEndian(n % TWO_32, 4)
  {
    NetworkIsBigEndian(n % TWO_32, 4);
  }

  /** What values look like in the buffer: one byte for a flag, integers with the highest byte first, negative ones
      in two's complement, and a 32-bit length in front of text and of items. */
  lemma WireFormat(t: Type, v: Value)
    requires HasType(t, v)
    ensures match t
            case Flag => Write(t, v) == [if v.b then 1 else 0]
            case Unsigned(width) => Write(t, v) == BigEndian(v.n, width)
            case Signed(width) => Write(t, v) == BigEndian(if v.n < 0 then v.n + Pow256(width) else v.n, width)
            case Text => Write(t, v) == BigEndian(|v.bytes| % TWO_32, 4) + v.bytes
            case Pair(first, second) => Write(t, v) == Write(first, v.first) + Write(second, v.second)
            case Vector(item) => Write(t, v) == BigEndian(|v.items| % TWO_32, 4) + WriteItems(item, v.items)
            case Map(entry) => Write(t, v) == BigEndian(|v.items| % TWO_32, 4) + WriteItems(entry, v.items)
  {
    hide NetworkBytes, BigEndian, Length, WriteItems;
    match t
    case Unsigned(width) =>
      NetworkIsBigEndian(v.n, width);
    case Signed(width) =>
      NetworkIsBigEndian(Unsign(v.n, width), width);
    case Text =>
      LengthForm(|v.bytes|);
    case Vector(_) =>
      LengthForm(|v.items|);
    case Map(_) =>
      LengthForm(|v.items|);
    case _ =>
  }

  lemma {:induction false} WriteItemsSnoc(t: Type, vs: seq<Value>, v: Value)
    requires AllHaveType(t, vs) && HasType(t, v)
    ensures AllHaveType(t, vs + [v])
    ensures WriteItems(t, vs + [v]) == WriteItems(t, vs) + Write(t, v)
  {
    hide HasType, Write;
    if vs == [] {
      assert [] + [v] == [v] && [v][1..] == [];
    } else {
      WriteItemsSnoc(t, vs[1..], v);
      assert (vs + [v])[1..] == vs[1..] + [v];
    }
  }

  lemma WriteItemsNext(t: Type, vs: seq<Value>, i: nat)
    requires AllHaveType(t, vs) && i < |vs|
    ensures HasType(t, vs[i])
    ensures WriteItems(t, vs[..i + 1]) == WriteItems(t, vs[..i]) + Write(t, vs[i])
  {
    hide HasType, Write;
    assert vs[..i + 1] == vs[..i] + [vs[i]];
    WriteItemsSnoc(t, vs[..i], vs[i]);
  }

  // --- reading ---

  /** What an extraction gives and where it leaves the cursor; Thrown is the out_of_range exception. */
  datatype Reading<+T> = Got(value: T, at: nat) | Thrown(at: nat)

  /** n bytes at the cursor. */
  function Raw(n: nat, s: seq<Byte>, at: nat): (r: Reading<seq<Byte>>)
    requires at <= |s|
    ensures r.Got? <==> at + n <= |s|
    ensures r.Got? ==> |r.value| == n && r.at == at + n
    ensures r.Thrown? ==> r.at == at
  {
    if at + n > |s| then Thrown(at) else Got(s[at..at + n], at + n)
  }

  function ReadLength(s: seq<Byte>, at: nat): (r: Reading<nat>)
    requires at <= |s|
    ensures at <= r.at <= |s|
    ensures r.Got? ==> r.value < TWO_32
  {
    var raw := Raw(4, s, at);
    if raw.Thrown? then Thrown(raw.at)
    else
      NetworkOnto(raw.value);
      PowersUsed();
      Got(FromNetwork(raw.value), raw.at)
  }

  lemma PowersUsed()
    ensures Pow256(1) == 256 && Pow256(4) == TWO_32
  {
    assert Pow256(2) == 256 * Pow256(1) && Pow256(3) == 256 * Pow256(2);
  }

  /** std::map::emplace: an entry whose key is there already is dropped. */
  function Emplace(entries: seq<Value>, e: Value): (r: seq<Value>)
    requires AllPairs(entries) && e.Both?
    ensures AllPairs(r)
    ensures DistinctKeys(entries) ==> DistinctKeys(r)
    ensures r == entries || r == entries + [e]
  {
    if exists x :: x in entries && x.first == e.first then entries else entries + [e]
  }

  function EmplaceAll(entries: seq<Value>, more: seq<Value>): (r: seq<Value>)
    requires AllPairs(entries) && AllPairs(more)
    ensures AllPairs(r)
    ensures DistinctKeys(entries) ==> DistinctKeys(r)
    ensures |r| <= |entries| + |more|
    decreases |more|
  {
    if more == [] then entries else EmplaceAll(Emplace(entries, more[0]), more[1..])
  }

  /** Extraction of a value of type t into a variable that holds old. The cursor never leaves the buffer, and what
      comes out has the type that was asked for, whatever the bytes are. */
  function Read(t: Type, into: Value, s: seq<Byte>, at: nat): (r: Reading<Value>)
    requires Proper(t) && HasType(t, into) && at <= |s|
    ensures at <= r.at <= |s|
    ensures r.Got? ==> HasType(t, r.value)
    decreases t, 0
  {
    match t
    case Flag =>
      var raw := Raw(1, s, at);
      if raw.Thrown? then Thrown(at) else Got(Bool(raw.value[0] != 0), raw.at)
    case Unsigned(width) =>
      var raw := Raw(width, s, at);
      if raw.Thrown? then Thrown(at)
      else
        NetworkOnto(raw.value);
        Got(Number(FromNetwork(raw.value)), raw.at)
    case Signed(width) =>
      var raw := Raw(width, s, at);
      if raw.Thrown? then Thrown(at)
      else
        NetworkOnto(raw.value);
        Got(Number(Sign(FromNetwork(raw.value), width)), raw.at)
    case Text =>
      var n := ReadLength(s, at);
      if n.Thrown? then Thrown(n.at)
      else
        var raw := Raw(n.value, s, n.at);
        if raw.Thrown? then Thrown(n.at) else Got(Chars(raw.value), raw.at)
    case Pair(first, second) =>
      var a := Read(first, into.first, s, at);
      if a.Thrown? then a
      else
        var b := Read(second, into.second, s, a.at);
        if b.Thrown? then b else Got(Both(a.value, b.value), b.at)
    case Vector(item) =>
      var xs := ReadList(item, into.items, s, at);
      if xs.Thrown? then Thrown(xs.at) else Got(Items(xs.value), xs.at)
    case Map(entry) =>
      var xs := ReadList(entry, [], s, at);
      if xs.Thrown? then Thrown(xs.at)
      else
        EmplaceAllTyped(entry, into.items, xs.value);
        Got(Items(EmplaceAll(into.items, xs.value)), xs.at)
  }

  function ReadList(t: Type, olds: seq<Value>, s: seq<Byte>, at: nat): (r: Reading<seq<Value>>)
    requires Proper(t) && AllHaveType(t, olds) && at <= |s|
    ensures at <= r.at <= |s|
    ensures r.Got? ==> |r.value| < TWO_32 && AllHaveType(t, r.value) && (t.Pair? ==> AllPairs(r.value))
    decreases t, TWO_32
  {
    var n := ReadLength(s, at);
    if n.Thrown? then Thrown(n.at) else ReadItems(t, Resized(t, olds, n.value), s, n.at)
  }

  /** std::vector::resize. */
  function Resized(t: Type, olds: seq<Value>, n: nat): (r: seq<Value>)
    requires Proper(t) && AllHaveType(t, olds)
    ensures |r| == n && AllHaveType(t, r)
    ensures forall i :: 0 <= i < n ==> r[i] == if i < |olds| then olds[i] else Fresh(t)
  {
    if n <= |olds| then olds[..n] else olds + seq(n - |olds|, i => Fresh(t))
  }

  /** One item after the other, each into its target. */
  function ReadItems(t: Type, targets: seq<Value>, s: seq<Byte>, at: nat): (r: Reading<seq<Value>>)
    requires Proper(t) && AllHaveType(t, targets) && at <= |s|
    ensures at <= r.at <= |s|
    ensures r.Got? ==> |r.value| == |targets| && AllHaveType(t, r.value) && (t.Pair? ==> AllPairs(r.value))
    decreases t, |targets|
  {
    if targets == [] then Got([], at)
    else
      var x := Read(t, targets[0], s, at);
      if x.Thrown? then Thrown(x.at)
      else
        var xs := ReadItems(t, targets[1..], s, x.at);
        if xs.Thrown? then xs else Got([x.value] + xs.value, xs.at)
  }

  lemma {:induction false} EmplaceAllTyped(t: Type, entries: seq<Value>, more: seq<Value>)
    requires AllPairs(entries) && AllPairs(more)
    requires AllHaveType(t, entries) && AllHaveType(t, more)
    ensures AllHaveType(t, EmplaceAll(entries, more))
    decreases |more|
  {
    hide HasType;
    if more != [] {
      assert more[0] in more;
      EmplaceAllTyped(t, Emplace(entries, more[0]), more[1..]);
    }
  }

  // --- the round trip ---

  /** What a variable holding into becomes: v, save that the maps in it keep the entries they had. */
  function Merged(t: Type, into: Value, v: Value): Value
    requires Proper(t) && HasType(t, into) && HasType(t, v)
    decreases t, 0
  {
    match t
    case Pair(first, second) => Both(Merged(first, into.first, v.first), Merged(second, into.second, v.second))
    case Vector(item) => Items(MergedItems(item, Resized(item, into.items, |v.items|), v.items))
    case Map(_) => Items(EmplaceAll(into.items, v.items))
    case _ => v
  }

  function MergedItems(t: Type, targets: seq<Value>, vs: seq<Value>): (r: seq<Value>)
    requires Proper(t) && AllHaveType(t, targets) && AllHaveType(t, vs) && |targets| == |vs|
    ensures |r| == |vs|
    decreases t, |vs|
  {
    if vs == [] then [] else [Merged(t, targets[0], vs[0])] + MergedItems(t, targets[1..], vs[1..])
  }

  /** Entries with distinct keys all get in. */
  lemma {:induction false} EmplaceDistinct(entries: seq<Value>, more: seq<Value>)
    requires AllPairs(entries) && AllPairs(more) && AllPairs(entries + more) && DistinctKeys(entries + more)
    ensures EmplaceAll(entries, more) == entries + more
    decreases |more|
  {
    if more == [] {
      assert entries + more == entries;
    } else {
      forall x | x in entries
        ensures x.first != more[0].first
      {
        var i :| 0 <= i < |entries| && entries[i] == x;
        assert (entries + more)[i] == x && (entries + more)[|entries|] == more[0];
      }
      assert entries + more == (entries + [more[0]]) + more[1..];
      EmplaceDistinct(entries + [more[0]], more[1..]);
    }
  }

  lemma FreshTargets(t: Type, n: nat)
    requires Proper(t) && n > 0
    ensures Resized(t, [], n)[0] == Fresh(t) && Resized(t, [], n)[1..] == Resized(t, [], n - 1)
  {
  }

  lemma TailTyped(t: Type, vs: seq<Value>)
    requires AllHaveType(t, vs) && vs != []
    ensures HasType(t, vs[0]) && AllHaveType(t, vs[1..])
  {
  }

  /** A fresh variable ends up holding exactly v. */
  lemma {:induction false} MergedFresh(t: Type, v: Value)
    requires Proper(t) && HasType(t, v)
    ensures Merged(t, Fresh(t), v) == v
    decreases t, 0
  {
    match t
    case Pair(first, second) =>
      MergedFresh(first, v.first);
      MergedFresh(second, v.second);
    case Vector(item) =>
      MergedItemsFresh(item, v.items);
    case Map(_) =>
      assert [] + v.items == v.items;
      EmplaceDistinct([], v.items);
    case _ =>
  }

  lemma {:induction false} MergedItemsFresh(t: Type, vs: seq<Value>)
    requires Proper(t) && AllHaveType(t, vs)
    ensures MergedItems(t, Resized(t, [], |vs|), vs) == vs
    decreases t, |vs|
  {
    hide HasType, Merged, Fresh;
    if vs != [] {
      MergedFresh(t, vs[0]);
      FreshTargets(t, |vs|);
      MergedItemsFresh(t, vs[1..]);
    }
  }

  lemma RawWritten(bytes: seq<Byte>, s: seq<Byte>, at: nat)
    requires at <= |s| && bytes <= s[at..]
    ensures Raw(|bytes|, s, at) == Got(bytes, at + |bytes|)
  {
    assert s[at..at + |bytes|] == s[at..][..|bytes|] == bytes;
  }

  lemma ReadLengthWritten(n: nat, s: seq<Byte>, at: nat)
    requires at <= |s| && Length(n) <= s[at..]
    ensures ReadLength(s, at) == Got(n % TWO_32, at + 4)
  {
    PowersUsed();
    hide Pow256, NetworkBytes, FromNetwork, Raw;
    RawWritten(Length(n), s, at);
    NetworkInverse(n % TWO_32, 4);
  }

  lemma LengthSize(n: nat)
    ensures |Length(n)| == 4
  {
  }

  /** The second of two pieces that stand at a position. */
  lemma Behind(a: seq<Byte>, b: seq<Byte>, s: seq<Byte>, at: nat)
    requires at <= |s| && a + b <= s[at..]
    ensures a <= s[at..] && at + |a| <= |s| && b <= s[at + |a|..]
  {
    assert (a + b)[..|a|] == a && (a + b)[|a|..] == b;
    assert s[at..][..|a|] == (a + b)[..|a|];
    assert s[at + |a|..] == s[at..][|a|..];
    assert s[at..][|a|..][..|b|] == s[at..][..|a| + |b|][|a|..];
  }

  lemma NumberWritten(t: Type, v: Value, into: Value, s: seq<Byte>, at: nat)
    requires t.Unsigned? || t.Signed?
    requires HasType(t, into) && HasType(t, v)
    requires at <= |s| && Write(t, v) <= s[at..]
    ensures Read(t, into, s, at) == Got(v, at + |Write(t, v)|)
  {
    hide NetworkBytes, FromNetwork, Pow256, Raw;
    RawWritten(Write(t, v), s, at);
    if t.Unsigned? {
      NetworkInverse(v.n, t.width);
    } else {
      NetworkInverse(Unsign(v.n, t.width), t.width);
    }
  }

  lemma TextWritten(v: Value, into: Value, s: seq<Byte>, at: nat)
    requires into.Chars? && v.Chars? && Fits(v)
    requires at <= |s| && Write(Text, v) <= s[at..]
    ensures Read(Text, into, s, at) == Got(v, at + |Write(Text, v)|)
  {
    hide Raw, ReadLength, Length, HasType;
    LengthSize(|v.bytes|);
    Behind(Length(|v.bytes|), v.bytes, s, at);
    ReadLengthWritten(|v.bytes|, s, at);
    RawWritten(v.bytes, s, at + 4);
  }

  lemma FlagWritten(v: Value, into: Value, s: seq<Byte>, at: nat)
    requires into.Bool? && v.Bool?
    requires at <= |s| && Write(Flag, v) <= s[at..]
    ensures Read(Flag, into, s, at) == Got(v, at + |Write(Flag, v)|)
  {
    hide Raw;
    RawWritten(Write(Flag, v), s, at);
  }

  lemma PairPieces(first: Type, second: Type, v: Value, s: seq<Byte>, at: nat)
    requires HasType(Pair(first, second), v) && at <= |s| && Write(Pair(first, second), v) <= s[at..]
    ensures var a, b := Write(first, v.first), Write(second, v.second);
            && a <= s[at..] && at + |a| <= |s| && b <= s[at + |a|..]
            && |Write(Pair(first, second), v)| == |a| + |b|
  {
    Behind(Write(first, v.first), Write(second, v.second), s, at);
  }

  lemma PairRead(first: Type, second: Type, into: Value, s: seq<Byte>, at: nat)
    requires var t := Pair(first, second); Proper(t) && HasType(t, into) && at <= |s|
    ensures var a := Read(first, into.first, s, at);
            Read(Pair(first, second), into, s, at)
            == if a.Thrown? then a
               else
                 var b := Read(second, into.second, s, a.at);
                 if b.Thrown? then b else Got(Both(a.value, b.value), b.at)
  {
    hide HasType, Raw, ReadLength, ReadList, EmplaceAll, FromNetwork;
  }

  lemma PairWritten(first: Type, second: Type, into: Value, v: Value, s: seq<Byte>, at: nat)
    requires var t := Pair(first, second);
             Proper(t) && HasType(t, into) && HasType(t, v) && at + |Write(first, v.first)| <= |s|
    requires Read(first, into.first, s, at) == Got(Merged(first, into.first, v.first), at + |Write(first, v.first)|)
    requires var mid := at + |Write(first, v.first)|;
             Read(second, into.second, s, mid)
             == Got(Merged(second, into.second, v.second), mid + |Write(second, v.second)|)
    ensures var t := Pair(first, second); Read(t, into, s, at) == Got(Merged(t, into, v), at + |Write(t, v)|)
  {
    hide *;
    PairRead(first, second, into, s, at);
    PairParts(first, second, into, v);
  }

  lemma PairParts(first: Type, second: Type, into: Value, v: Value)
    requires var t := Pair(first, second); Proper(t) && HasType(t, into) && HasType(t, v)
    ensures var t := Pair(first, second);
            && |Write(t, v)| == |Write(first, v.first)| + |Write(second, v.second)|
            && Merged(t, into, v) == Both(Merged(first, into.first, v.first), Merged(second, into.second, v.second))
  {
    hide HasType, NetworkBytes, Length, WriteList, MergedItems, Resized, EmplaceAll;
  }

  lemma ListRead(t: Type, into: Value, v: Value, s: seq<Byte>, at: nat)
    requires (t.Vector? || t.Map?) && Proper(t) && HasType(t, into) && HasType(t, v) && at <= |s|
    ensures t.Vector? ==> Write(t, v) == WriteList(t.item, v.items)
    ensures t.Vector? ==>
              Merged(t, into, v) == Items(MergedItems(t.item, Resized(t.item, into.items, |v.items|), v.items))
    ensures t.Vector? && ReadList(t.item, into.items, s, at).Got? ==>
              var xs := ReadList(t.item, into.items, s, at); Read(t, into, s, at) == Got(Items(xs.value), xs.at)
    ensures t.Map? ==> Write(t, v) == WriteList(t.entry, v.items)
    ensures t.Map? ==> Merged(t, into, v) == Items(EmplaceAll(into.items, v.items))
    ensures t.Map? && ReadList(t.entry, [], s, at).Got? ==>
              var xs := ReadList(t.entry, [], s, at);
              Read(t, into, s, at) == Got(Items(EmplaceAll(into.items, xs.value)), xs.at)
  {
    hide ReadList, WriteList, Resized, EmplaceAll, MergedItems;
  }

  /** Whatever stands before and behind it, a written value is read back, and the cursor stops right behind it. */
  lemma {:induction false} ReadWritten(t: Type, into: Value, v: Value, s: seq<Byte>, at: nat)
    requires Proper(t) && HasType(t, into) && HasType(t, v) && Fits(v)
    requires at <= |s| && Write(t, v) <= s[at..]
    ensures Read(t, into, s, at) == Got(Merged(t, into, v), at + |Write(t, v)|)
    decreases t, 0
  {
    hide NetworkBytes, FromNetwork, Read, ReadList, Write, WriteList, Resized, EmplaceAll, MergedItems;
    match t
    case Flag =>
      FlagWritten(v, into, s, at);
    case Unsigned(_) =>
      NumberWritten(t, v, into, s, at);
    case Signed(_) =>
      NumberWritten(t, v, into, s, at);
    case Text =>
      TextWritten(v, into, s, at);
    case Pair(first, second) =>
      PairPieces(first, second, v, s, at);
      ReadWritten(first, into.first, v.first, s, at);
      ReadWritten(second, into.second, v.second, s, at + |Write(first, v.first)|);
      PairWritten(first, second, into, v, s, at);
    case Vector(item) =>
      ListRead(t, into, v, s, at);
      ListWritten(item, into.items, v.items, s, at);
    case Map(entry) =>
      ListRead(t, into, v, s, at);
      ListWritten(entry, [], v.items, s, at);
      MergedItemsFresh(entry, v.items);
  }

  lemma {:induction false} ListWritten(t: Type, olds: seq<Value>, vs: seq<Value>, s: seq<Byte>, at: nat)
    requires Proper(t) && AllHaveType(t, olds) && AllHaveType(t, vs) && forall v :: v in vs ==> Fits(v)
    requires |vs| < TWO_32
    requires at <= |s| && WriteList(t, vs) <= s[at..]
    ensures ReadList(t, olds, s, at) == Got(MergedItems(t, Resized(t, olds, |vs|), vs), at + |WriteList(t, vs)|)
    decreases t, |vs| + 1
  {
    hide ReadLength, HasType, Fits, Resized, AllHaveType, Length, ReadItems, WriteItems;
    LengthSize(|vs|);
    Behind(Length(|vs|), WriteItems(t, vs), s, at);
    ReadLengthWritten(|vs|, s, at);
    ReadItemsWritten(t, Resized(t, olds, |vs|), vs, s, at + 4);
  }

  lemma {:induction false} ReadItemsWritten(t: Type, targets: seq<Value>, vs: seq<Value>, s: seq<Byte>, at: nat)
    requires Proper(t) && AllHaveType(t, targets) && AllHaveType(t, vs) && |targets| == |vs|
    requires at <= |s| && WriteItems(t, vs) <= s[at..] && forall v :: v in vs ==> Fits(v)
    ensures ReadItems(t, targets, s, at) == Got(MergedItems(t, targets, vs), at + |WriteItems(t, vs)|)
    decreases t, |vs|
  {
    hide HasType, Merged, Fresh, Read, Write, Fits;
    if vs != [] {
      Behind(Write(t, vs[0]), WriteItems(t, vs[1..]), s, at);
      ReadWritten(t, targets[0], vs[0], s, at);
      ReadItemsWritten(t, targets[1..], vs[1..], s, at + |Write(t, vs[0])|);
    }
  }

  lemma {:induction false} EmplaceCounts(entries: seq<Value>, more: seq<Value>)
    requires AllPairs(entries) && AllPairs(more)
    requires |EmplaceAll(entries, more)| == |entries| + |more|
    ensures EmplaceAll(entries, more) == entries + more
    decreases |more|
  {
    hide Emplace, DistinctKeys, AllPairs;
    if more == [] {
      assert entries + more == entries;
    } else {
      assert AllPairs(more[1..]) && more[0].Both? by { TailPairs(more); }
      var grown, tail := Emplace(entries, more[0]), more[1..];
      assert grown == entries + [more[0]];
      EmplaceCounts(grown, tail);
      assert (entries + [more[0]]) + tail == entries + more;
    }
  }

  lemma TailPairs(vs: seq<Value>)
    requires AllPairs(vs) && vs != []
    ensures vs[0].Both? && AllPairs(vs[1..])
  {
  }

  /** Any byte but zero is read as true. */
  lemma FlagRead(into: Value, s: seq<Byte>, at: nat)
    requires into.Bool? && at < |s|
    ensures Read(Flag, into, s, at) == Got(Bool(s[at] != 0), at + 1)
  {
  }

  /** Extraction into a map keeps the entries that are there, and their values, and brings in every other key that is
      read. */
  lemma MapKeeps(entry: Type, into: Value, s: seq<Byte>, at: nat)
    requires var t := Map(entry); Proper(t) && HasType(t, into) && at <= |s|
    ensures var r, xs := Read(Map(entry), into, s, at), ReadList(entry, [], s, at);
            r.Got? <==> xs.Got?
    ensures var r, xs := Read(Map(entry), into, s, at), ReadList(entry, [], s, at);
            r.Got? ==> into.items <= r.value.items && forall e :: e in xs.value ==> HasKey(r.value.items, e.first)
  {
    var xs := ReadList(entry, [], s, at);
    hide ReadList, HasType, EmplaceAll, DistinctKeys, HasKey;
    if xs.Got? {
      EmplacedKeys(into.items, xs.value);
    }
  }

  ghost predicate HasKey(es: seq<Value>, key: Value)
    requires AllPairs(es)
  {
    exists x :: x in es && x.first == key
  }

  lemma {:induction false} EmplacedKeys(entries: seq<Value>, more: seq<Value>)
    requires AllPairs(entries) && AllPairs(more)
    ensures entries <= EmplaceAll(entries, more)
    ensures forall e :: e in more ==> HasKey(EmplaceAll(entries, more), e.first)
    decreases |more|
  {
    hide DistinctKeys;
    if more != [] {
      var grown := Emplace(entries, more[0]);
      EmplacedKeys(grown, more[1..]);
      EmplacedKey(entries, more[0]);
      KeyStays(grown, EmplaceAll(grown, more[1..]), more[0].first);
    }
  }

  lemma EmplacedKey(entries: seq<Value>, e: Value)
    requires AllPairs(entries) && e.Both?
    ensures HasKey(Emplace(entries, e), e.first)
  {
    assert (entries + [e])[|entries|] == e;
  }

  lemma KeyStays(es: seq<Value>, fs: seq<Value>, key: Value)
    requires AllPairs(es) && AllPairs(fs) && es <= fs && HasKey(es, key)
    ensures HasKey(fs, key)
  {
    var i :| 0 <= i < |es| && es[i].first == key;
    assert fs[i] == es[i];
  }

  // --- truncated input ---

  /** From at on s holds a strict prefix of w, and then it ends. */
  predicate Cut(w: seq<Byte>, s: seq<Byte>, at: nat) {
    at <= |s| && |s| - at < |w| && s[at..] <= w
  }

  lemma CutPieces(a: seq<Byte>, b: seq<Byte>, s: seq<Byte>, at: nat)
    requires Cut(a + b, s, at)
    ensures Cut(a, s, at) || (at + |a| <= |s| && a <= s[at..] && Cut(b, s, at + |a|))
  {
    var part := s[at..];
    assert part == (a + b)[..|part|];
    if |part| >= |a| {
      assert part[..|a|] == a && s[at + |a|..] == part[|a|..] == b[..|part| - |a|];
    }
  }

  lemma LengthCut(n: nat, s: seq<Byte>, at: nat)
    requires Cut(Length(n), s, at)
    ensures ReadLength(s, at) == Thrown(at)
  {
    LengthSize(n);
    hide Length;
  }

  /** A number that is cut leaves the cursor where it was; so does text that is cut in its length, while text that is
      cut behind it leaves the cursor there. */
  lemma AtomCut(t: Type, v: Value, into: Value, s: seq<Byte>, at: nat)
    requires t.Flag? || t.Unsigned? || t.Signed? || t.Text?
    requires HasType(t, into) && HasType(t, v) && Fits(v) && Cut(Write(t, v), s, at)
    ensures Read(t, into, s, at) == Thrown(if t.Text? && |s| - at >= 4 then at + 4 else at)
  {
    hide NetworkBytes, FromNetwork, Length, ReadLength;
    if t.Text? {
      CutPieces(Length(|v.bytes|), v.bytes, s, at);
      LengthSize(|v.bytes|);
      if Cut(Length(|v.bytes|), s, at) {
        LengthCut(|v.bytes|, s, at);
      } else {
        ReadLengthWritten(|v.bytes|, s, at);
      }
    }
  }

  /** Whatever is missing at the end of a written value, reading it throws. */
  lemma {:induction false} ReadCut(t: Type, into: Value, v: Value, s: seq<Byte>, at: nat)
    requires Proper(t) && HasType(t, into) && HasType(t, v) && Fits(v) && Cut(Write(t, v), s, at)
    ensures Read(t, into, s, at).Thrown?
    decreases t, 0
  {
    hide Read, ReadList, WriteList, Cut;
    match t
    case Pair(first, second) =>
      CutPieces(Write(first, v.first), Write(second, v.second), s, at);
      CutRange(Write(t, v), s, at);
      PairRead(first, second, into, s, at);
      if Cut(Write(first, v.first), s, at) {
        ReadCut(first, into.first, v.first, s, at);
      } else {
        ReadWritten(first, into.first, v.first, s, at);
        ReadCut(second, into.second, v.second, s, at + |Write(first, v.first)|);
      }
    case Vector(item) =>
      CutRange(Write(t, v), s, at);
      ListCut(item, into.items, v.items, s, at);
      ListThrows(t, into, s, at);
    case Map(entry) =>
      CutRange(Write(t, v), s, at);
      ListCut(entry, [], v.items, s, at);
      ListThrows(t, into, s, at);
    case _ =>
      AtomCut(t, v, into, s, at);
  }

  lemma CutRange(w: seq<Byte>, s: seq<Byte>, at: nat)
    requires Cut(w, s, at)
    ensures at <= |s|
  {
  }

  lemma ListThrows(t: Type, into: Value, s: seq<Byte>, at: nat)
    requires (t.Vector? || t.Map?) && Proper(t) && HasType(t, into) && at <= |s|
    requires if t.Vector? then ReadList(t.item, into.items, s, at).Thrown? else ReadList(t.entry, [], s, at).Thrown?
    ensures Read(t, into, s, at).Thrown?
  {
    hide ReadList, EmplaceAll, DistinctKeys;
  }

  lemma {:induction false} ListCut(t: Type, olds: seq<Value>, vs: seq<Value>, s: seq<Byte>, at: nat)
    requires Proper(t) && AllHaveType(t, olds) && AllHaveType(t, vs) && forall v :: v in vs ==> Fits(v)
    requires |vs| < TWO_32 && Cut(WriteList(t, vs), s, at)
    ensures ReadList(t, olds, s, at).Thrown?
    decreases t, |vs| + 1
  {
    hide ReadLength, HasType, Fits, Resized, AllHaveType, Length, ReadItems, WriteItems, Cut;
    CutRange(WriteList(t, vs), s, at);
    CutPieces(Length(|vs|), WriteItems(t, vs), s, at);
    LengthSize(|vs|);
    if Cut(Length(|vs|), s, at) {
      LengthCut(|vs|, s, at);
    } else {
      ReadLengthWritten(|vs|, s, at);
      ItemsCut(t, Resized(t, olds, |vs|), vs, s, at + 4);
    }
  }

  lemma {:induction false} ItemsCut(t: Type, targets: seq<Value>, vs: seq<Value>, s: seq<Byte>, at: nat)
    requires Proper(t) && AllHaveType(t, targets) && AllHaveType(t, vs) && |targets| == |vs|
    requires (forall v :: v in vs ==> Fits(v)) && Cut(WriteItems(t, vs), s, at)
    ensures ReadItems(t, targets, s, at).Thrown?
    decreases t, |vs|
  {
    hide HasType, Read, Write, Fits;
    if vs != [] {
      CutPieces(Write(t, vs[0]), WriteItems(t, vs[1..]), s, at);
      hide Cut;
      if Cut(Write(t, vs[0]), s, at) {
        ReadCut(t, targets[0], vs[0], s, at);
      } else {
        ReadWritten(t, targets[0], vs[0], s, at);
        ItemsCut(t, targets[1..], vs[1..], s, at + |Write(t, vs[0])|);
      }
    }
  }

  // --- lengths that do not fit ---

  lemma TextOverflows(v: Value, s: seq<Byte>, at: nat)
    requires v.Chars? && !Fits(v) && at <= |s| && Write(Text, v) <= s[at..]
    ensures var r := Read(Text, Fresh(Text), s, at); r.Got? ==> r.value != v
  {
    hide Raw, ReadLength, Length, NetworkBytes;
    LengthSize(|v.bytes|);
    Behind(Length(|v.bytes|), v.bytes, s, at);
    ReadLengthWritten(|v.bytes|, s, at);
  }

  lemma MapOverflows(entry: Type, v: Value, s: seq<Byte>, at: nat)
    requires var t := Map(entry); Proper(t) && HasType(t, v) && at <= |s|
    requires var xs := ReadList(entry, [], s, at); xs.Got? ==> xs.value != v.items && |xs.value| <= |v.items|
    ensures var r := Read(Map(entry), Fresh(Map(entry)), s, at); r.Got? ==> r.value != v
  {
    hide ReadList, HasType, EmplaceAll, DistinctKeys;
    var xs := ReadList(entry, [], s, at);
    if xs.Got? && |EmplaceAll([], xs.value)| == |xs.value| {
      EmplaceCounts([], xs.value);
      assert [] + xs.value == xs.value;
    }
  }

  lemma VectorOverflows(item: Type, v: Value, s: seq<Byte>, at: nat)
    requires var t := Vector(item); Proper(t) && HasType(t, v) && at <= |s|
    requires var xs := ReadList(item, [], s, at); xs.Got? ==> xs.value != v.items
    ensures var r := Read(Vector(item), Fresh(Vector(item)), s, at); r.Got? ==> r.value != v
  {
    hide ReadList, HasType;
  }

  /** A length that does not fit is not read back. */
  lemma {:induction false} Overflows(t: Type, v: Value, s: seq<Byte>, at: nat)
    requires Proper(t) && HasType(t, v) && !Fits(v)
    requires at <= |s| && Write(t, v) <= s[at..]
    ensures Read(t, Fresh(t), s, at).Got? ==> Read(t, Fresh(t), s, at).value != v
    decreases t, 0
  {
    hide Read, ReadList, WriteList, NetworkBytes, Length;
    match t
    case Text =>
      TextOverflows(v, s, at);
    case Pair(first, second) =>
      PairPieces(first, second, v, s, at);
      PairRead(first, second, Fresh(t), s, at);
      if Fits(v.first) {
        ReadWritten(first, Fresh(first), v.first, s, at);
        Overflows(second, v.second, s, at + |Write(first, v.first)|);
      } else {
        Overflows(first, v.first, s, at);
      }
    case Vector(item) =>
      ListOverflows(item, v.items, s, at);
      VectorOverflows(item, v, s, at);
    case Map(entry) =>
      ListOverflows(entry, v.items, s, at);
      MapOverflows(entry, v, s, at);
    case _ =>
  }

  lemma {:induction false} ItemsOverflow(t: Type, vs: seq<Value>, s: seq<Byte>, at: nat)
    requires Proper(t) && AllHaveType(t, vs) && exists v :: v in vs && !Fits(v)
    requires at <= |s| && WriteItems(t, vs) <= s[at..]
    ensures var r := ReadItems(t, Resized(t, [], |vs|), s, at);
            r.Got? ==> r.value != vs
    decreases t, |vs|
  {
    hide HasType, Merged, Fresh, Read, Write, Fits, Resized, AllHaveType;
    TailTyped(t, vs);
    Behind(Write(t, vs[0]), WriteItems(t, vs[1..]), s, at);
    FreshTargets(t, |vs|);
    if Fits(vs[0]) {
      ReadWritten(t, Fresh(t), vs[0], s, at);
      MergedFresh(t, vs[0]);
      ItemsOverflow(t, vs[1..], s, at + |Write(t, vs[0])|);
    } else {
      Overflows(t, vs[0], s, at);
    }
  }

  lemma {:induction false} ListOverflows(t: Type, vs: seq<Value>, s: seq<Byte>, at: nat)
    requires Proper(t) && AllHaveType(t, vs) && !Fits(Items(vs))
    requires at <= |s| && WriteList(t, vs) <= s[at..]
    ensures ReadList(t, [], s, at).Got? ==> ReadList(t, [], s, at).value != vs
    ensures ReadList(t, [], s, at).Got? ==> |ReadList(t, [], s, at).value| <= |vs|
    decreases t, |vs| + 1
  {
    hide ReadLength, HasType, ReadItems, Resized, AllHaveType, Length, WriteItems;
    LengthSize(|vs|);
    Behind(Length(|vs|), WriteItems(t, vs), s, at);
    ReadLengthWritten(|vs|, s, at);
    if |vs| < TWO_32 {
      ItemsOverflow(t, vs, s, at + 4);
    }
  }

  /** Exactly the values whose lengths fit into 32 bits come back equal. */
  lemma RoundTrip(t: Type, v: Value, s: seq<Byte>, at: nat)
    requires Proper(t) && HasType(t, v)
    requires at <= |s| && Write(t, v) <= s[at..]
    ensures Read(t, Fresh(t), s, at) == Got(v, at + |Write(t, v)|) <==> Fits(v)
  {
    hide Read, Write, Merged;
    if Fits(v) {
      ReadWritten(t, Fresh(t), v, s, at);
      MergedFresh(t, v);
    } else {
      Overflows(t, v, s, at);
    }
  }

  // --- several values ---

  predicate Typed(ts: seq<Type>, vs: seq<Value>) {
    |ts| == |vs| && forall i :: 0 <= i < |ts| ==> Proper(ts[i]) && HasType(ts[i], vs[i])
  }

  function WriteAll(ts: seq<Type>, vs: seq<Value>): seq<Byte>
    requires Typed(ts, vs)
  {
    if ts == [] then [] else Write(ts[0], vs[0]) + WriteAll(ts[1..], vs[1..])
  }

  function ReadAll(ts: seq<Type>, s: seq<Byte>, at: nat): Reading<seq<Value>>
    requires at <= |s| && forall t :: t in ts ==> Proper(t)
  {
    if ts == [] then Got([], at)
    else
      var x := Read(ts[0], Fresh(ts[0]), s, at);
      if x.Thrown? then Thrown(x.at)
      else
        var xs := ReadAll(ts[1..], s, x.at);
        if xs.Thrown? then xs else Got([x.value] + xs.value, xs.at)
  }

  /** Values of any types come back in the order in which they were put in. */
  lemma {:induction false} ReadAllWritten(ts: seq<Type>, vs: seq<Value>, s: seq<Byte>, at: nat)
    requires Typed(ts, vs) && forall v :: v in vs ==> Fits(v)
    requires at <= |s| && WriteAll(ts, vs) <= s[at..]
    ensures ReadAll(ts, s, at) == Got(vs, at + |WriteAll(ts, vs)|)
  {
    hide Read, Write, Merged, Fresh, HasType, Fits;
    if ts == [] {
      assert vs == [];
    } else {
      assert vs == [vs[0]] + vs[1..];
      Behind(Write(ts[0], vs[0]), WriteAll(ts[1..], vs[1..]), s, at);
      RoundTrip(ts[0], vs[0], s, at);
      ReadAllWritten(ts[1..], vs[1..], s, at + |Write(ts[0], vs[0])|);
    }
  }

  // --- messages ---

  /** What goes over the wire: the length of the content in network order, then the content. */
  function Message(content: seq<Byte>): seq<Byte> {
    Length(|content|) + content
  }

  datatype Arrival = Arrived(buffer: seq<Byte>, rest: seq<Byte>) | TooBig | Incomplete

  /** A message from the front of a stream, received into a packet that holds buffer already. */
  function Arrive(buffer: seq<Byte>, s: seq<Byte>, maxSize: nat): Arrival
    requires |buffer| >= 4
  {
    if |s| < 4 then Incomplete
    else
      var n := FromNetwork(s[..4]);
      if maxSize != 0 && n > maxSize then TooBig
      else if |s| < 4 + n then Incomplete
      else Arrived(Overwritten(buffer, s[4..4 + n]), s[4 + n..])
  }

  /** The content behind the header; what was in the buffer beyond it stays. */
  function Overwritten(buffer: seq<Byte>, content: seq<Byte>): seq<Byte>
    requires |buffer| >= 4
  {
    buffer[..4] + content + (if 4 + |content| < |buffer| then buffer[4 + |content|..] else [])
  }

  lemma ArriveLength(buffer: seq<Byte>, header: seq<Byte>, rest: seq<Byte>, maxSize: nat)
    requires |buffer| >= 4 && |header| == 4
    ensures (header + rest)[..4] == header
    ensures maxSize != 0 && FromNetwork(header) > maxSize ==> Arrive(buffer, header + rest, maxSize) == TooBig
  {
    hide FromNetwork;
    assert (header + rest)[..4] == header;
  }

  lemma HeaderValue(n: nat)
    requires n >= 4
    ensures (n % TWO_32 - 4) % TWO_32 == (n - 4) % TWO_32
  {
  }

  lemma ArriveOf(buffer: seq<Byte>, header: seq<Byte>, content: seq<Byte>, rest: seq<Byte>, maxSize: nat)
    requires |buffer| >= 4 && |header| == 4 && |content| == FromNetwork(header)
    requires maxSize == 0 || |content| <= maxSize
    ensures Arrive(buffer, header + content + rest, maxSize)
         == Arrived(Overwritten(buffer, content), rest)
  {
    hide FromNetwork;
    var s, n := header + content + rest, |content|;
    assert s[..4] == header && s[4..4 + n] == content && s[4 + n..] == rest;
  }

  /** A message that is sent arrives whatever follows it. The buffer never shrinks, so its content is what was sent
      exactly if it was not longer before. */
  lemma MessageArrives(buffer: seq<Byte>, content: seq<Byte>, rest: seq<Byte>, maxSize: nat)
    requires |buffer| >= 4 && |content| < TWO_32 && (maxSize == 0 || |content| <= maxSize)
    ensures var a := Arrive(buffer, Message(content) + rest, maxSize);
            && a.Arrived? && a.rest == rest && |a.buffer| >= 4
            && a.buffer[..4] == buffer[..4] && content <= a.buffer[4..]
            && (a.buffer[4..] == content <==> |buffer| <= 4 + |content|)
  {
    var s, n := Message(content) + rest, |content|;
    PowersUsed();
    hide Pow256, NetworkBytes, FromNetwork;
    NetworkInverse(n, 4);
    ArriveOf(buffer, Length(n), content, rest, maxSize);
    var b := Arrive(buffer, s, maxSize).buffer;
    assert b[4..] == content + (if 4 + n < |buffer| then buffer[4 + n..] else []);
  }

  /** A message above the limit is refused, and part of one is waited for. */
  lemma MessageRefused(buffer: seq<Byte>, content: seq<Byte>, rest: seq<Byte>, maxSize: nat)
    requires |buffer| >= 4 && |content| < TWO_32 && maxSize != 0 && |content| > maxSize
    ensures Arrive(buffer, Message(content) + rest, maxSize) == TooBig
  {
    PowersUsed();
    hide Pow256, NetworkBytes, FromNetwork;
    NetworkInverse(|content|, 4);
    assert Message(content) + rest == Length(|content|) + (content + rest);
    ArriveLength(buffer, Length(|content|), content + rest, maxSize);
  }

  lemma MessagePart(buffer: seq<Byte>, content: seq<Byte>, p: seq<Byte>, q: seq<Byte>, maxSize: nat)
    requires |buffer| >= 4 && |content| < TWO_32 && (maxSize == 0 || |content| <= maxSize)
    requires p + q == Message(content) && q != []
    ensures Arrive(buffer, p, maxSize) == Incomplete
  {
    PowersUsed();
    hide Pow256, NetworkBytes, FromNetwork, Overwritten;
    NetworkInverse(|content|, 4);
    if |p| >= 4 {
      assert p[..4] == (p + q)[..4] == Length(|content|);
    }
  }

  lemma MessageForm(content: seq<Byte>)
    ensures Message(content) == BigEndian(|content| % TWO_32, 4) + content
  {
    LengthForm(|content|);
  }

  /** From end to end: values packed by one side and sent come out on the other side, in order, of a packet that is
      new or cleared. */
  lemma Delivered(ts: seq<Type>, vs: seq<Value>, header: seq<Byte>, rest: seq<Byte>, maxSize: nat)
    requires Typed(ts, vs) && forall v :: v in vs ==> Fits(v)
    requires var n := |WriteAll(ts, vs)|; n < TWO_32 && (maxSize == 0 || n <= maxSize)
    requires |header| == 4
    ensures var a := Arrive(header, Message(WriteAll(ts, vs)) + rest, maxSize);
            && a == Arrived(header + WriteAll(ts, vs), rest)
            && ReadAll(ts, a.buffer, 4) == Got(vs, |a.buffer|)
  {
    hide HasType, Fits, ReadAll;
    var content := WriteAll(ts, vs);
    hide WriteAll;
    MessageArrives(header, content, rest, maxSize);
    var b := Arrive(header, Message(content) + rest, maxSize).buffer;
    hide Arrive;
    assert b == b[..4] + b[4..];
    assert content <= b[4..];
    ReadAllWritten(ts, vs, b, 4);
  }

  // --- the object ---

  /** A loop has read some items and has r still to read. */
  function Continued(done: seq<Value>, r: Reading<seq<Value>>): Reading<seq<Value>> {
    if r.Thrown? then r else Got(done + r.value, r.at)
  }

  lemma ReadsStart(t: Type, targets: seq<Value>, s: seq<Byte>, at: nat)
    requires Proper(t) && AllHaveType(t, targets) && at <= |s|
    ensures ReadItems(t, targets, s, at) == Continued([], ReadItems(t, targets[0..], s, at))
  {
    hide ReadItems;
    assert targets[0..] == targets;
    var r := ReadItems(t, targets, s, at);
    assert r.Got? ==> [] + r.value == r.value;
  }

  lemma ReadsNext(t: Type, targets: seq<Value>, i: nat, done: seq<Value>, s: seq<Byte>, at: nat)
    requires Proper(t) && AllHaveType(t, targets) && at <= |s| && i < |targets|
    ensures HasType(t, targets[i])
    ensures var x := Read(t, targets[i], s, at);
            Continued(done, ReadItems(t, targets[i..], s, at))
            == if x.Thrown? then Thrown(x.at)
               else Continued(done + [x.value], ReadItems(t, targets[i + 1..], s, x.at))
  {
    hide Read, HasType;
    var left, x := targets[i..], Read(t, targets[i], s, at);
    assert left[0] == targets[i] && left[1..] == targets[i + 1..];
    if x.Got? {
      var r := ReadItems(t, left[1..], s, x.at);
      assert r.Got? ==> done + ([x.value] + r.value) == done + [x.value] + r.value;
    }
  }

  lemma ReadsEnd(t: Type, targets: seq<Value>, done: seq<Value>, s: seq<Byte>, at: nat)
    requires Proper(t) && AllHaveType(t, targets) && at <= |s|
    ensures Continued(done, ReadItems(t, targets[|targets|..], s, at)) == Got(done, at)
  {
    assert done + [] == done;
  }

  class Packet {
    var buffer: seq<Byte>
    var cursor: nat

    /** The four bytes kept for the header are the digit 0. */
    constructor ()
      ensures Valid() && buffer == [48, 48, 48, 48] && cursor == 4
    {
      buffer, cursor := [48, 48, 48, 48], 4;
    }

    predicate Valid()
      reads this
    {
      4 <= cursor <= |buffer|
    }

    method Clear()
      modifies this
      ensures Valid() && buffer == [0, 0, 0, 0] && cursor == 4
    {
      buffer := [];
      buffer := buffer + [0, 0, 0, 0];
      cursor := 4;
    }

    method Put(t: Type, v: Value)
      requires HasType(t, v)
      modifies this`buffer
      ensures buffer == old(buffer) + Write(t, v)
      decreases t, 0
    {
      match t
      case Flag =>
        buffer := buffer + [if v.b then 1 else 0];
      case Unsigned(width) =>
        buffer := buffer + NetworkBytes(v.n, width);
      case Signed(width) =>
        buffer := buffer + NetworkBytes(Unsign(v.n, width), width);
      case Text =>
        buffer := buffer + Length(|v.bytes|);
        buffer := buffer + v.bytes;
      case Pair(first, second) =>
        Put(first, v.first);
        Put(second, v.second);
      case Vector(item) =>
        PutList(item, v.items);
      case Map(entry) =>
        PutList(entry, v.items);
    }

    method PutList(t: Type, vs: seq<Value>)
      requires AllHaveType(t, vs)
      modifies this`buffer
      ensures buffer == old(buffer) + WriteList(t, vs)
      decreases t, 1
    {
      hide HasType, Write, Length;
      buffer := buffer + Length(|vs|);
      ghost var start := buffer;
      assert WriteItems(t, vs[..0]) == [];
      hide WriteItems;
      for i := 0 to |vs|
        invariant buffer == start + WriteItems(t, vs[..i])
      {
        WriteItemsNext(t, vs, i);
        Put(t, vs[i]);
      }
      assert vs[..|vs|] == vs;
    }

    /** add_raw. */
    method PutRaw(data: seq<Byte>)
      modifies this`buffer
      ensures buffer == old(buffer) + data
    {
      buffer := buffer + data;
    }

    /** assert_bytes_remaining: the sum with the cursor wraps around at 64 bits, so the check is right if and only if
        it does not, and if it does, too much is let through. */
    method AssertBytesRemaining(n: nat) returns (enough: bool)
      requires Valid() && |buffer| < TWO_64 && n < TWO_64
      ensures enough <==> n <= BytesRemaining() || cursor + n >= TWO_64
      ensures (enough <==> n <= BytesRemaining()) <==> cursor + n < TWO_64
    {
      enough := !((cursor + n) % TWO_64 > |buffer|);
    }

    /** extract_raw; None is a copy from beyond the buffer, which the check has let through. */
    method ExtractRaw(n: nat) returns (r: Option<Reading<seq<Byte>>>)
      requires Valid() && |buffer| < TWO_64 && n < TWO_64
      modifies this`cursor
      ensures r.None? <==> old(cursor) + n >= TWO_64
      ensures r.Some? ==> Valid() && r.value == Raw(n, buffer, old(cursor)) && cursor == r.value.at
    {
      var enough := AssertBytesRemaining(n);
      if !enough {
        return Some(Thrown(cursor));
      }
      if n > BytesRemaining() {
        return None;
      }
      r := Some(Got(buffer[cursor..cursor + n], cursor + n));
      cursor := cursor + n;
    }

    /** The same for the size of a value, which is a width or a 32-bit length: there the sum does not wrap. */
    method Take(n: nat) returns (r: Reading<seq<Byte>>)
      requires Valid()
      modifies this`cursor
      ensures Valid() && r == Raw(n, buffer, old(cursor)) && cursor == r.at
    {
      if cursor + n > |buffer| {
        return Thrown(cursor);
      }
      r := Got(buffer[cursor..cursor + n], cursor + n);
      cursor := cursor + n;
    }

    method ExtractLength() returns (r: Reading<nat>)
      requires Valid()
      modifies this`cursor
      ensures Valid() && r == ReadLength(buffer, old(cursor)) && cursor == r.at
    {
      var raw := Take(4);
      r := if raw.Thrown? then Thrown(raw.at) else Got(FromNetwork(raw.value), raw.at);
    }

    method Extract(t: Type, into: Value) returns (r: Reading<Value>)
      requires Valid() && Proper(t) && HasType(t, into)
      modifies this`cursor
      ensures Valid() && r == Read(t, into, buffer, old(cursor)) && cursor == r.at
      decreases t, 0
    {
      match t
      case Flag =>
        var raw := Take(1);
        r := if raw.Thrown? then Thrown(raw.at) else Got(Bool(raw.value[0] != 0), raw.at);
      case Unsigned(width) =>
        var raw := Take(width);
        r := if raw.Thrown? then Thrown(raw.at) else Got(Number(FromNetwork(raw.value)), raw.at);
      case Signed(width) =>
        var raw := Take(width);
        r := if raw.Thrown? then Thrown(raw.at) else Got(Number(Sign(FromNetwork(raw.value), width)), raw.at);
      case Text =>
        var n := ExtractLength();
        if n.Thrown? {
          return Thrown(n.at);
        }
        var raw := Take(n.value);
        r := if raw.Thrown? then Thrown(raw.at) else Got(Chars(raw.value), raw.at);
      case Pair(first, second) =>
        r := Extract(first, into.first);
        if r.Thrown? {
          return;
        }
        var b := Extract(second, into.second);
        r := if b.Thrown? then b else Got(Both(r.value, b.value), b.at);
      case Vector(item) =>
        var xs := ExtractVector(item, into.items);
        r := if xs.Thrown? then Thrown(xs.at) else Got(Items(xs.value), xs.at);
      case Map(entry) =>
        var xs := ExtractMap(entry, into.items);
        r := if xs.Thrown? then Thrown(xs.at) else Got(Items(xs.value), xs.at);
    }

    method ExtractVector(t: Type, olds: seq<Value>) returns (r: Reading<seq<Value>>)
      requires Valid() && Proper(t) && AllHaveType(t, olds)
      modifies this`cursor
      ensures Valid() && r == ReadList(t, olds, buffer, old(cursor)) && cursor == r.at
      decreases t, 1
    {
      hide Read, HasType, ReadLength;
      var n := ExtractLength();
      if n.Thrown? {
        return Thrown(n.at);
      }
      var vec := Resized(t, olds, n.value);
      ghost var targets := vec;
      ghost var whole := ReadItems(t, targets, buffer, cursor);
      ReadsStart(t, targets, buffer, cursor);
      hide ReadItems, Continued, Resized;
      for i := 0 to |vec|
        invariant Valid() && |vec| == |targets| && vec[i..] == targets[i..]
        invariant whole == Continued(vec[..i], ReadItems(t, targets[i..], buffer, cursor))
      {
        assert vec[i] == vec[i..][0] == targets[i..][0] == targets[i];
        ReadsNext(t, targets, i, vec[..i], buffer, cursor);
        var x := Extract(t, vec[i]);
        if x.Thrown? {
          return Thrown(x.at);
        }
        SetNext(vec, targets, i, x.value);
        vec := vec[i := x.value];
      }
      ReadsEnd(t, targets, vec, buffer, cursor);
      assert vec[..|vec|] == vec;
      r := Got(vec, cursor);
    }

    method ExtractMap(t: Type, entries: seq<Value>) returns (r: Reading<seq<Value>>)
      requires Valid() && Proper(t) && t.Pair? && AllPairs(entries)
      modifies this`cursor
      ensures Valid() && cursor == r.at
      ensures var xs := ReadList(t, [], buffer, old(cursor));
              r == if xs.Thrown? then Thrown(xs.at) else Got(EmplaceAll(entries, xs.value), xs.at)
      decreases t, 1
    {
      hide Read, HasType, ReadLength;
      var n := ExtractLength();
      if n.Thrown? {
        return Thrown(n.at);
      }
      var m := entries;
      ghost var done: seq<Value> := [];
      ghost var targets := Resized(t, [], n.value);
      ghost var whole := ReadItems(t, targets, buffer, cursor);
      ReadsStart(t, targets, buffer, cursor);
      hide ReadItems, Continued, EmplaceAll, DistinctKeys;
      EmplaceNone(entries);
      for a := 0 to n.value
        invariant Valid() && AllPairs(m) && AllPairs(done)
        invariant m == EmplaceAll(entries, done)
        invariant whole == Continued(done, ReadItems(t, targets[a..], buffer, cursor))
      {
        ReadsNext(t, targets, a, done, buffer, cursor);
        var pair := Extract(t, Fresh(t));
        if pair.Thrown? {
          return Thrown(pair.at);
        }
        PairsAreBoth(t, pair.value);
        EmplaceSnoc(entries, done, pair.value);
        m := Emplace(m, pair.value);
        done := done + [pair.value];
      }
      ReadsEnd(t, targets, done, buffer, cursor);
      r := Got(m, cursor);
    }

    /** set_cursor: an absolute position, behind the header and at most at the end. Adding the header wraps around
        at 64 bits, so the cursor is a good one unless the position is one of the four highest. */
    method SetCursor(pos: nat)
      requires 4 <= |buffer| < TWO_64 && pos < TWO_64
      modifies this`cursor
      ensures Valid() <==> pos + 4 < TWO_64
      ensures Valid() ==> cursor == Min(4 + pos, |buffer|)
      ensures !Valid() ==> cursor == pos + 4 - TWO_64
    {
      cursor := (4 + pos) % TWO_64;
      if cursor > |buffer| {
        cursor := |buffer|;
      }
    }

    function GetCursor(): (pos: nat)
      requires Valid()
      reads this
      ensures pos <= Size()
      ensures BytesRemaining() == Size() - pos
    {
      cursor - 4
    }

    /** seek_cursor: as far as it goes in either direction. */
    method SeekCursor(pos: int)
      requires Valid()
      modifies this`cursor
      ensures Valid()
      ensures var to := old(GetCursor()) + pos;
              GetCursor() == if to < 0 then 0 else if to > Size() then Size() else to
    {
      var newOffset := cursor + pos;
      if newOffset < 4 {
        newOffset := 4;
      }
      if newOffset > |buffer| {
        newOffset := |buffer|;
      }
      cursor := newOffset;
    }

    function BytesRemaining(): nat
      requires Valid()
      reads this
    {
      |buffer| - cursor
    }

    function Size(): nat
      reads this
    {
      if |buffer| <= 4 then 0 else |buffer| - 4
    }

    /** send: the length goes into the header, and the peer gets the message once, or a strict prefix of it if the
        connection fails. */
    method Send(socket: TcpSocket<Byte>) returns (r: Status, ghost sent: nat)
      requires |buffer| >= 4
      modifies this`buffer, socket`accepted, socket`sends
      ensures buffer == Message(old(buffer)[4..]) && sent <= |buffer|
      ensures socket.accepted == old(socket.accepted) + buffer[..sent]
      ensures r == Success || r == Timeout || r == SendError
      ensures r == Success <==> sent == |buffer|
      ensures r != Success ==> Stopped(r, socket.isBlocking, Halt(!socket.isBlocking, old(socket.sends)))
      ensures old(socket.CanSend(|buffer|)) ==> r == Success
    {
      hide NetworkBytes;
      var length := NetworkBytes((|buffer| % TWO_32 - 4) % TWO_32, 4);
      HeaderValue(|buffer|);
      buffer := length + buffer[4..];
      r, sent := socket.SendBuffer(buffer);
    }

    /** The buffer is made long enough, never shorter, and the content is read to where it belongs. */
    method ReceiveContent(socket: TcpSocket<Byte>, packetLength: nat) returns (r: Status, ghost content: seq<Byte>)
      requires |buffer| >= 4
      modifies this`buffer, socket`incoming, socket`recvs
      ensures r == Success || r == Disconnected || r == ReceiveError
      ensures |content| == packetLength && |buffer| >= |old(buffer)|
      ensures buffer == Overwritten(old(buffer), content)
      ensures r == Success ==> old(socket.incoming) == content + socket.incoming
      ensures packetLength > 0 ==> RefusedLater(r, Awake(!socket.isBlocking, old(socket.recvs)))
      ensures old(socket.CanRead(packetLength)) ==> r == Success
    {
      if packetLength + 4 > |buffer| {
        buffer := buffer + seq(packetLength + 4 - |buffer|, i => 0);
      }
      var bytes := buffer[4..4 + packetLength];
      var region := new Byte[packetLength](i requires 0 <= i < packetLength => bytes[i]);
      r := socket.ReceiveRest(region);
      content := region[..];
      buffer := buffer[..4] + region[..] + buffer[4 + packetLength..];
    }

    /** receive. Success: exactly the message at the front of the stream has been consumed and is in the buffer.
        WouldBlock and Timeout: nothing has been consumed and the buffer is what it was. */
    method Receive(socket: TcpSocket<Byte>) returns (r: Status)
      requires |buffer| >= 4
      modifies this`buffer, socket`incoming, socket`recvs
      ensures |buffer| >= |old(buffer)|
      ensures r != SendError && r != Error
      ensures r == Success ==>
                Arrive(old(buffer), old(socket.incoming), socket.maxReceiveSize) == Arrived(buffer, socket.incoming)
      ensures r == MaxPacketSizeExceeded ==>
                Arrive(old(buffer), old(socket.incoming), socket.maxReceiveSize) == TooBig
      ensures r == WouldBlock || r == Timeout || r == MaxPacketSizeExceeded ==> buffer == old(buffer)
      ensures r == WouldBlock || r == Timeout ==> socket.incoming == old(socket.incoming)
      ensures Refused(r, socket.isBlocking, Awake(false, old(socket.recvs)))
      ensures old(socket.CanRead(Needs(socket.incoming, socket.maxReceiveSize))) ==> r == Success || r == WouldBlock
    {
      hide FromNetwork, Overwritten;
      ghost var was, s, max := buffer, socket.incoming, socket.maxReceiveSize;
      var header := new Byte[4];
      r := socket.ReceiveAll(header);
      if r != Success {
        return;
      }
      assert s == header[..] + socket.incoming;
      ArriveLength(was, header[..], socket.incoming, max);
      var packetLength := FromNetwork(header[..]);
      if socket.maxReceiveSize != 0 && packetLength > socket.maxReceiveSize {
        return MaxPacketSizeExceeded;
      }
      ghost var content;
      r, content := ReceiveContent(socket, packetLength);
      if r == Success {
        assert s == header[..] + content + socket.incoming;
        ArriveOf(was, header[..], content, socket.incoming, max);
      }
    }
  }

  /** How many bytes the message at the front of s takes; for one that is refused, more than there are. */
  function Needs(s: seq<Byte>, maxSize: nat): int {
    if |s| < 4 then 4
    else
      var n := FromNetwork(s[..4]);
      if maxSize != 0 && n > maxSize then |s| + 1 else 4 + n
  }

  lemma SetNext(vec: seq<Value>, targets: seq<Value>, i: nat, x: Value)
    requires |vec| == |targets| && i < |vec| && vec[i..] == targets[i..]
    ensures vec[i := x][..i + 1] == vec[..i] + [x]
    ensures vec[i := x][i + 1..] == targets[i + 1..]
  {
    assert vec[i := x][i + 1..] == vec[i..][1..] && targets[i + 1..] == targets[i..][1..];
  }

  lemma PairsAreBoth(t: Type, v: Value)
    requires t.Pair? && HasType(t, v)
    ensures v.Both?
  {
  }

  lemma EmplaceNone(entries: seq<Value>)
    requires AllPairs(entries)
    ensures EmplaceAll(entries, []) == entries
  {
  }

  lemma {:induction false} EmplaceSnoc(entries: seq<Value>, more: seq<Value>, e: Value)
    requires AllPairs(entries) && AllPairs(more) && e.Both?
    ensures AllPairs(more + [e])
    ensures EmplaceAll(entries, more + [e]) == Emplace(EmplaceAll(entries, more), e)
    decreases |more|
  {
    hide DistinctKeys;
    if more == [] {
      assert [] + [e] == [e] && [e][1..] == [];
    } else {
      assert (more + [e])[1..] == more[1..] + [e];
      EmplaceSnoc(Emplace(entries, more[0]), more[1..], e);
    }
  }
}
