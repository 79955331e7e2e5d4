/** Integers as bytes (include/frnetlib/NetworkEncoding.h). The host is little-endian; htons, htonl and fr_htonll
    reverse the bytes of an integer, and so do ntohs, ntohl and fr_ntohll. */
module NetworkEncoding {

  type Byte = b: int | 0 <= b < 256

  function Pow256(n: nat): (p: nat)
    ensures p > 0
  {
    if n == 0 then 1 else 256 * Pow256(n - 1)
  }

  /** The n bytes of x in the memory of the host. */
  function HostBytes(x: nat, n: nat): (r: seq<Byte>)
    ensures |r| == n
  {
    if n == 0 then [] else [x % 256] + HostBytes(x / 256, n - 1)
  }

  /** The integer a piece of host memory stands for. */
  function FromHost(bs: seq<Byte>): nat {
    if bs == [] then 0 else bs[0] + 256 * FromHost(bs[1..])
  }

  function Reverse(bs: seq<Byte>): (r: seq<Byte>)
    ensures |r| == |bs|
  {
    if bs == [] then [] else Reverse(bs[1..]) + [bs[0]]
  }

  /** htons and its family, on an integer of n bytes. */
  function ByteSwap(x: nat, n: nat): nat {
    FromHost(Reverse(HostBytes(x, n)))
  }

  /** What is appended to a buffer for x: the memory of the swapped integer. */
  function NetworkBytes(x: nat, n: nat): (r: seq<Byte>)
    ensures |r| == n
  {
    HostBytes(ByteSwap(x, n), n)
  }

  /** What is read back: the bytes are copied into an integer, which is swapped. */
  function FromNetwork(bs: seq<Byte>): nat {
    ByteSwap(FromHost(bs), |bs|)
  }

  /** Most significant byte first. */
  function BigEndian(x: nat, n: nat): seq<Byte> {
    if n == 0 then [] else BigEndian(x / 256, n - 1) + [x % 256]
  }

  lemma {:induction false} HostBytesInverse(x: nat, n: nat)
    requires x < Pow256(n)
    ensures FromHost(HostBytes(x, n)) == x
  {
    if n > 0 {
      HostBytesInverse(x / 256, n - 1);
      assert HostBytes(x, n)[1..] == HostBytes(x / 256, n - 1);
    }
  }

  lemma LowByte(b: Byte, high: nat)
    ensures (b + 256 * high) % 256 == b && (b + 256 * high) / 256 == high
  {
  }

  lemma {:induction false} FromHostInverse(bs: seq<Byte>)
    ensures FromHost(bs) < Pow256(|bs|) && HostBytes(FromHost(bs), |bs|) == bs
  {
    if bs != [] {
      var b, high := bs[0], FromHost(bs[1..]);
      FromHostInverse(bs[1..]);
      LowByte(b, high);
      assert bs == [b] + bs[1..];
    }
  }

  lemma {:induction false} ReverseSnoc(bs: seq<Byte>, b: Byte)
    ensures Reverse(bs + [b]) == [b] + Reverse(bs)
  {
    if bs != [] {
      assert (bs + [b])[1..] == bs[1..] + [b];
      ReverseSnoc(bs[1..], b);
    }
  }

  lemma {:induction false} ReverseTwice(bs: seq<Byte>)
    ensures Reverse(Reverse(bs)) == bs
  {
    if bs != [] {
      ReverseTwice(bs[1..]);
      ReverseSnoc(Reverse(bs[1..]), bs[0]);
    }
  }

  lemma {:induction false} ReverseHostBytes(x: nat, n: nat)
    ensures Reverse(HostBytes(x, n)) == BigEndian(x, n)
  {
    if n > 0 {
      ReverseHostBytes(x / 256, n - 1);
      assert HostBytes(x, n)[1..] == HostBytes(x / 256, n - 1);
    }
  }

  /** Network order is big-endian. */
  lemma NetworkIsBigEndian(x: nat, n: nat)
    ensures NetworkBytes(x, n) == BigEndian(x, n)
  {
    FromHostInverse(Reverse(HostBytes(x, n)));
    ReverseHostBytes(x, n);
  }

  /** What is sent is read back, for every integer that fits. */
  lemma NetworkInverse(x: nat, n: nat)
    requires x < Pow256(n)
    ensures FromNetwork(NetworkBytes(x, n)) == x
  {
    FromHostInverse(Reverse(HostBytes(x, n)));
    ReverseTwice(HostBytes(x, n));
    HostBytesInverse(x, n);
  }

  /** And every piece of n bytes is the encoding of what is read from it. */
  lemma NetworkOnto(bs: seq<Byte>)
    ensures FromNetwork(bs) < Pow256(|bs|) && NetworkBytes(FromNetwork(bs), |bs|) == bs
  {
    FromHostInverse(bs);
    FromHostInverse(Reverse(bs));
    ReverseTwice(bs);
  }
}
