/** TcpSocket::send_raw, TcpSocket::receive_raw (src/TcpSocket.cpp) and Socket::receive_all (src/Socket.cpp). The
    kernel is two finite schedules of what ::send and ::recv will do, one entry a call; a schedule that has run
    out means a connection that is gone. T is the type of a byte. */
module Sockets {

  datatype Status =
    | Success
    | Disconnected
    | WouldBlock
    | Timeout
    | SendError
    | ReceiveError
    | Error
    | MaxPacketSizeExceeded

  /** ::recv hands over up to n bytes (at least one), would block, is interrupted, sees the end, or fails. */
  datatype RecvEvent = Deliver(n: nat) | RecvBlocks | RecvInterrupted | PeerClosed | RecvFails

  /** ::send takes up to n bytes, would block, is interrupted, or fails. */
  datatype SendEvent = Take(n: nat) | SendBlocks | SendInterrupted | SendFails

  function Min(a: nat, b: nat): nat {
    if a < b then a else b
  }

  /** How many calls of ::recv will deliver something. */
  function Reads(es: seq<RecvEvent>): nat {
    if es == [] then 0 else (if es[0].Deliver? then 1 else 0) + Reads(es[1..])
  }

  /** Nothing ends the connection, and a blocking socket is never made to time out. */
  predicate Calm(isBlocking: bool, es: seq<RecvEvent>) {
    forall e :: e in es ==> !e.PeerClosed? && !e.RecvFails? && (isBlocking ==> !e.RecvBlocks?)
  }

  /** How many bytes ::send will take. */
  function Room(es: seq<SendEvent>): nat {
    if es == [] then 0 else (if es[0].Take? then es[0].n else 0) + Room(es[1..])
  }

  predicate CalmSend(isBlocking: bool, es: seq<SendEvent>) {
    forall e :: e in es ==> !e.SendFails? && (isBlocking ==> !e.SendBlocks?)
  }

  // --- what a schedule answers ---

  /** The schedule without the interrupted calls in front; if those that only would block are tried again, without
      them as well. */
  function Awake(again: bool, es: seq<RecvEvent>): seq<RecvEvent> {
    if es != [] && (es[0].RecvInterrupted? || (again && es[0].RecvBlocks?)) then Awake(again, es[1..]) else es
  }

  predicate First<E(==)>(es: seq<E>, e: E) {
    es != [] && es[0] == e
  }

  predicate Delivers(es: seq<RecvEvent>) {
    es != [] && es[0].Deliver?
  }

  /** What a first read answers when there is nothing for it: a timeout only to a socket that blocks, and a lost
      connection only if it is lost. */
  predicate Refused(r: Status, isBlocking: bool, es: seq<RecvEvent>) {
    && (First(es, RecvBlocks) ==> r == if isBlocking then Timeout else WouldBlock)
    && (First(es, RecvFails) ==> r == ReceiveError)
    && (First(es, PeerClosed) || es == [] ==> r == Disconnected)
  }

  /** What a later read answers instead. */
  predicate RefusedLater(r: Status, es: seq<RecvEvent>) {
    Delivers(es) || r == if First(es, RecvFails) then ReceiveError else Disconnected
  }

  lemma {:induction false} AwakeTwice(again: bool, es: seq<RecvEvent>)
    ensures Awake(again, es) == Awake(again, Awake(false, es))
  {
    if es != [] && es[0].RecvInterrupted? {
      AwakeTwice(again, es[1..]);
    }
  }

  lemma {:induction false} AwakeFirst(again: bool, es: seq<RecvEvent>)
    ensures !First(Awake(again, es), RecvInterrupted) && (again ==> !First(Awake(again, es), RecvBlocks))
  {
    if es != [] {
      AwakeFirst(again, es[1..]);
    }
  }

  /** One read, and then perhaps another one. */
  lemma AwakeAgain(again: bool, es: seq<RecvEvent>)
    ensures var a := Awake(false, es);
            Awake(again, es) == if again && First(a, RecvBlocks) then Awake(again, a[1..]) else a
    ensures !First(Awake(again, es), RecvInterrupted) && (again ==> !First(Awake(again, es), RecvBlocks))
  {
    AwakeTwice(again, es);
    AwakeFirst(false, es);
    AwakeFirst(again, es);
  }

  /** The schedule from the first call on that takes nothing and is not interrupted. */
  function Halt(again: bool, es: seq<SendEvent>): seq<SendEvent> {
    if es != [] && !es[0].SendFails? && (es[0].SendBlocks? ==> again) then Halt(again, es[1..]) else es
  }

  /** What sending answers if it does not get through: a timeout where the kernel takes nothing from a socket that
      blocks, an error where the connection fails or is gone. */
  predicate Stopped(r: Status, isBlocking: bool, es: seq<SendEvent>) {
    && (First(es, SendBlocks) ==> r == if isBlocking then Timeout else WouldBlock)
    && (First(es, SendFails) || es == [] ==> r == SendError)
  }

  lemma {:induction false} HaltAgain(again: bool, es: seq<SendEvent>)
    ensures var a := Halt(false, es);
            && (a == [] || a[0].SendBlocks? || a[0].SendFails?)
            && Halt(again, es) == if again && First(a, SendBlocks) then Halt(again, a[1..]) else a
  {
    if es != [] {
      HaltAgain(again, es[1..]);
    }
  }

  class TcpSocket<T> {
    const isBlocking: bool
    /** 0 stands for no limit. */
    var maxReceiveSize: nat
    /** The bytes the peer has sent and recv has not yet handed over. */
    var incoming: seq<T>
    var recvs: seq<RecvEvent>
    /** The bytes the kernel has taken from us, in order. */
    var accepted: seq<T>
    var sends: seq<SendEvent>

    constructor (isBlocking: bool, maxReceiveSize: nat, incoming: seq<T>, recvs: seq<RecvEvent>, sends: seq<SendEvent>)
      ensures this.isBlocking == isBlocking && this.maxReceiveSize == maxReceiveSize
      ensures this.incoming == incoming && this.recvs == recvs && this.sends == sends && accepted == []
    {
      this.isBlocking, this.maxReceiveSize := isBlocking, maxReceiveSize;
      this.incoming, this.recvs, this.sends, this.accepted := incoming, recvs, sends, [];
    }

    /** send_raw: sent is passed by reference, so it comes in and goes out. Nothing is sent twice or left out:
        the kernel has taken exactly data[sent0..sent]. */
    method SendRaw(data: seq<T>, sent0: nat) returns (r: Status, sent: nat)
      requires sent0 <= |data|
      modifies this`accepted, this`sends
      ensures sent0 <= sent <= |data| && accepted == old(accepted) + data[sent0..sent]
      ensures r == Success || r == WouldBlock || r == Timeout || r == SendError
      ensures r == Success <==> sent == |data|
      ensures |sends| <= |old(sends)| && (r == WouldBlock ==> !isBlocking && |sends| < |old(sends)|)
      ensures r == Timeout ==> isBlocking
      ensures r != Success ==> Stopped(r, isBlocking, Halt(false, old(sends)))
      ensures r == WouldBlock ==> First(Halt(false, old(sends)), SendBlocks) && sends == Halt(false, old(sends))[1..]
      ensures CalmSend(isBlocking, old(sends)) ==> CalmSend(isBlocking, sends)
      ensures CalmSend(isBlocking, old(sends)) && Room(old(sends)) >= |data| - sent0 ==>
                (r == Success || r == WouldBlock) && Room(sends) >= |data| - sent
    {
      sent := sent0;
      while sent < |data|
        invariant sent0 <= sent <= |data| && accepted == old(accepted) + data[sent0..sent]
        invariant |sends| <= |old(sends)| && Halt(false, sends) == Halt(false, old(sends))
        invariant CalmSend(isBlocking, old(sends)) ==> CalmSend(isBlocking, sends)
        invariant CalmSend(isBlocking, old(sends)) && Room(old(sends)) >= |data| - sent0 ==>
                    Room(sends) >= |data| - sent
        decreases |sends|
      {
        if sends == [] {
          return SendError, sent;
        }
        var event := sends[0];
        sends := sends[1..];
        match event
        case Take(n) =>
          var status := Min(n, |data| - sent);
          assert data[sent0..sent + status] == data[sent0..sent] + data[sent..sent + status];
          accepted := accepted + data[sent..sent + status];
          sent := sent + status;
        case SendBlocks =>
          return if isBlocking then Timeout else WouldBlock, sent;
        case SendInterrupted =>
        case SendFails =>
          return SendError, sent;
      }
      r := Success;
    }

    /** The schedule is good for sending n more bytes. */
    predicate CanSend(n: int)
      reads this
    {
      CalmSend(isBlocking, sends) && Room(sends) >= n
    }

    /** The loop in which every send of the library calls send_raw, sent being zeroed once: either the whole
        buffer has gone out once and in order, or an error is returned after a part of it has. */
    method SendBuffer(data: seq<T>) returns (r: Status, ghost sent: nat)
      modifies this`accepted, this`sends
      ensures sent <= |data| && accepted == old(accepted) + data[..sent]
      ensures r == Success || r == Timeout || r == SendError
      ensures r == Success <==> sent == |data|
      ensures r != Success ==> Stopped(r, isBlocking, Halt(!isBlocking, old(sends)))
      ensures old(CanSend(|data|)) ==> r == Success
    {
      hide Halt, CalmSend, Room;
      HaltAgain(!isBlocking, sends);
      var at;
      r, at := SendRaw(data, 0);
      while r == WouldBlock
        invariant at <= |data| && accepted == old(accepted) + data[..at]
        invariant r == Success || r == WouldBlock || r == Timeout || r == SendError
        invariant r == Success <==> at == |data|
        invariant r == WouldBlock ==> !isBlocking && Halt(true, sends) == Halt(true, old(sends))
        invariant r == Timeout || r == SendError ==> Stopped(r, isBlocking, Halt(!isBlocking, old(sends)))
        invariant CalmSend(isBlocking, old(sends)) ==> CalmSend(isBlocking, sends)
        invariant CalmSend(isBlocking, old(sends)) && Room(old(sends)) >= |data| ==>
                    (r == Success || r == WouldBlock) && Room(sends) >= |data| - at
        decreases |sends|, r == WouldBlock
      {
        ghost var before := at;
        HaltAgain(!isBlocking, sends);
        r, at := SendRaw(data, at);
        assert data[..at] == data[..before] + data[before..at];
      }
      sent := at;
    }

    /** receive_raw: on Success received bytes are taken off the front of the stream and stored from dest[at] on. */
    method ReceiveRaw(dest: array<T>, at: nat, size: nat) returns (r: Status, received: nat)
      requires at + size <= dest.Length
      modifies this`incoming, this`recvs, dest
      ensures received <= size && received <= |old(incoming)| && incoming == old(incoming)[received..]
      ensures dest[..at] == old(dest[..at]) && dest[at + received..] == old(dest[at + received..])
      ensures dest[at..at + received] == old(incoming)[..received]
      ensures r == Success || r == WouldBlock || r == Timeout || r == Disconnected || r == ReceiveError
      ensures r == Success <==> received > 0
      ensures size > 0 ==> Refused(r, isBlocking, Awake(false, old(recvs)))
      ensures size > 0 && Delivers(Awake(false, old(recvs))) ==>
                var n := Awake(false, old(recvs))[0].n;
                && received == Min(Min(if n == 0 then 1 else n, size), |old(incoming)|)
                && (received == 0 ==> r == Disconnected)
      ensures r == Success ==> Delivers(Awake(false, old(recvs)))
      ensures r == WouldBlock ==> First(Awake(false, old(recvs)), RecvBlocks) && recvs == Awake(false, old(recvs))[1..]
      ensures r == WouldBlock ==> !isBlocking
      ensures r == Timeout ==> isBlocking
      ensures |recvs| <= |old(recvs)| && (r == Success || r == WouldBlock ==> |recvs| < |old(recvs)|)
      ensures Calm(isBlocking, old(recvs)) && |old(incoming)| > 0 ==>
                Calm(isBlocking, recvs) && Reads(recvs) + (if r == Success then 1 else 0) >= Reads(old(recvs))
      ensures Calm(isBlocking, old(recvs)) && Reads(old(recvs)) > 0 && size > 0 && |old(incoming)| > 0 ==>
                r == Success || r == WouldBlock
    {
      received := 0;
      while true
        invariant incoming == old(incoming) && dest[..] == old(dest[..]) && received == 0
        invariant |recvs| <= |old(recvs)| && Awake(false, recvs) == Awake(false, old(recvs))
        invariant Calm(isBlocking, old(recvs)) ==> Calm(isBlocking, recvs) && Reads(recvs) >= Reads(old(recvs))
        decreases |recvs|
      {
        if recvs == [] || size == 0 {
          return Disconnected, 0;
        }
        var event := recvs[0];
        recvs := recvs[1..];
        match event
        case Deliver(n) =>
          var status := Min(Min(if n == 0 then 1 else n, size), |incoming|);
          if status == 0 {
            return Disconnected, 0;
          }
          forall i | 0 <= i < status {
            dest[at + i] := incoming[i];
          }
          incoming := incoming[status..];
          return Success, status;
        case RecvBlocks =>
          return if isBlocking then Timeout else WouldBlock, 0;
        case RecvInterrupted =>
        case PeerClosed =>
          return Disconnected, 0;
        case RecvFails =>
          return ReceiveError, 0;
      }
    }

    /** receive_all, dest being the region to fill. Success has filled it with exactly the next bytes of the stream;
        WouldBlock and Timeout have not consumed any. What ends it after a first byte becomes Disconnected. */
    method ReceiveAll(dest: array<T>) returns (r: Status)
      modifies this`incoming, this`recvs, dest
      ensures r == Success || r == WouldBlock || r == Timeout || r == Disconnected || r == ReceiveError
      ensures r == Success ==> Taken(old(incoming), dest[..], incoming)
      ensures r == WouldBlock || r == Timeout || r == ReceiveError ==> incoming == old(incoming)
      ensures Suffix(incoming, old(incoming))
      ensures dest.Length > 0 ==> Refused(r, isBlocking, Awake(false, old(recvs)))
      ensures r == WouldBlock ==> First(Awake(false, old(recvs)), RecvBlocks) && recvs == Awake(false, old(recvs))[1..]
      ensures r == WouldBlock ==> !isBlocking && dest.Length > 0
      ensures r == Timeout ==> isBlocking && dest.Length > 0
      ensures |recvs| <= |old(recvs)| && (r == WouldBlock ==> |recvs| < |old(recvs)|)
      ensures old(CanRead(dest.Length)) ==>
                && (r == Success || r == WouldBlock) && Calm(isBlocking, recvs)
                && Reads(recvs) >= Reads(old(recvs)) - (if r == Success then dest.Length else 0)
    {
      hide Calm, Reads, Awake;
      var bufferSize := dest.Length;
      var bytesRemaining: nat := bufferSize;
      while bytesRemaining > 0
        invariant bytesRemaining <= bufferSize
        invariant var got := bufferSize - bytesRemaining;
                  && got <= |old(incoming)| && incoming == old(incoming)[got..]
                  && dest[..got] == old(incoming)[..got]
                  && (old(CanRead(bufferSize)) ==> Calm(isBlocking, recvs) && Reads(recvs) + got >= Reads(old(recvs)))
        invariant |recvs| <= |old(recvs)|
        invariant if bytesRemaining == bufferSize then recvs == old(recvs) else Delivers(Awake(false, old(recvs)))
        decreases |recvs|, bytesRemaining
      {
        ghost var got := bufferSize - bytesRemaining;
        var status, received := ReceiveRaw(dest, bufferSize - bytesRemaining, bytesRemaining);
        bytesRemaining := bytesRemaining - received;
        Fill(old(incoming), dest[..], got, received);
        if status != Success {
          if bufferSize == bytesRemaining {
            return status;
          }
          if status == WouldBlock {
            continue;
          }
          return Disconnected;
        }
      }
      r := Success;
    }

    /** The schedule and the stream are good for n more bytes. */
    predicate CanRead(n: int)
      reads this
    {
      Calm(isBlocking, recvs) && Reads(recvs) >= n && |incoming| >= n
    }

    /** How every read after the first is made: WouldBlock is tried again, Timeout becomes Disconnected, so that
        neither is reported once bytes of a message have been consumed. */
    method ReceiveRest(dest: array<T>) returns (r: Status)
      modifies this`incoming, this`recvs, dest
      ensures r == Success || r == Disconnected || r == ReceiveError
      ensures r == Success ==> Taken(old(incoming), dest[..], incoming)
      ensures Suffix(incoming, old(incoming)) && (r == ReceiveError ==> incoming == old(incoming))
      ensures dest.Length > 0 ==> RefusedLater(r, Awake(!isBlocking, old(recvs)))
      ensures old(CanRead(dest.Length)) ==>
                r == Success && Calm(isBlocking, recvs) && Reads(recvs) >= Reads(old(recvs)) - dest.Length
    {
      hide Calm, Reads, Awake;
      AwakeAgain(!isBlocking, recvs);
      r := ReceiveAll(dest);
      while r == WouldBlock
        invariant r == Success || r == WouldBlock || r == Timeout || r == Disconnected || r == ReceiveError
        invariant r == WouldBlock || r == ReceiveError ==> incoming == old(incoming)
        invariant r == WouldBlock ==> !isBlocking && Awake(true, recvs) == Awake(true, old(recvs))
        invariant dest.Length > 0 && r != WouldBlock ==>
                    RefusedLater(if r == Timeout then Disconnected else r, Awake(!isBlocking, old(recvs)))
        invariant r == Success ==> Taken(old(incoming), dest[..], incoming)
        invariant Suffix(incoming, old(incoming))
        invariant old(CanRead(dest.Length)) ==>
                    && (r == Success || r == WouldBlock) && Calm(isBlocking, recvs)
                    && Reads(recvs) >= Reads(old(recvs)) - (if r == Success then dest.Length else 0)
        decreases |recvs|, r == WouldBlock
      {
        AwakeAgain(!isBlocking, recvs);
        r := ReceiveAll(dest);
      }
      if r == Timeout {
        r := Disconnected;
      }
    }
  }

  /** data is what was at the front of the stream, rest what is left. */
  ghost predicate Taken<T>(stream: seq<T>, data: seq<T>, rest: seq<T>) {
    |data| <= |stream| && data == stream[..|data|] && rest == stream[|data|..]
  }

  ghost predicate Suffix<T>(rest: seq<T>, stream: seq<T>) {
    |rest| <= |stream| && rest == stream[|stream| - |rest|..]
  }

  lemma Fill<T>(stream: seq<T>, dest: seq<T>, got: nat, more: nat)
    requires got + more <= |stream| && got + more <= |dest|
    requires dest[..got] == stream[..got] && dest[got..got + more] == stream[got..][..more]
    ensures dest[..got + more] == stream[..got + more]
    ensures stream[got..][more..] == stream[got + more..]
  {
    assert dest[..got + more] == dest[..got] + dest[got..got + more];
    assert stream[..got + more] == stream[..got] + stream[got..][..more];
  }
}
