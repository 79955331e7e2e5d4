/** Http::send and Http::receive (src/Http.cpp:981-1019) over a socket that reads and writes in pieces. */
module HttpSocket {
  import opened Fragments
  import opened Http
  import Req = HttpRequest
  import Resp = HttpResponse
  import S = Sockets

  const RECV_CHUNK_SIZE := 4096

  /** receive returns what the socket says or what the parser says. */
  datatype Outcome = Transport(socket: S.Status) | Answer(parser: Status)

  /** The fragments are what has been taken off the front of the stream. */
  ghost predicate Consumed(stream: string, frags: seq<string>, rest: string) {
    stream == Concat(frags) + rest
  }

  lemma {:induction false} ConcatSnoc(frags: seq<string>, frag: string)
    ensures Concat(frags + [frag]) == Concat(frags) + frag
  {
    if frags == [] {
      assert [frag][1..] == [];
    } else {
      assert (frags + [frag])[1..] == frags[1..] + [frag];
      ConcatSnoc(frags[1..], frag);
    }
  }

  lemma ConsumedMore(stream: string, frags: seq<string>, data: string, rest: string)
    requires Consumed(stream, frags, data + rest)
    ensures Consumed(stream, frags + [data], rest)
  {
    ConcatSnoc(frags, data);
    hide Concat;
    Regroup(Concat(frags), data, rest);
  }

  lemma NothingConsumed(stream: string)
    ensures Consumed(stream, [], stream)
  {
    assert "" + stream == stream;
  }

  /** One read into the buffer of receive. */
  method ReceiveFragment(socket: S.TcpSocket<char>, recvBuffer: array<char>) returns (status: S.Status, data: string)
    requires recvBuffer.Length == RECV_CHUNK_SIZE
    modifies socket`incoming, socket`recvs, recvBuffer
    ensures old(socket.incoming) == data + socket.incoming
    ensures status != S.Success ==> socket.incoming == old(socket.incoming)
    ensures status == S.Success <==> data != ""
    ensures |socket.recvs| <= |old(socket.recvs)|
    ensures status == S.Success || status == S.WouldBlock ==> |socket.recvs| < |old(socket.recvs)|
    ensures S.Refused(status, socket.isBlocking, S.Awake(false, old(socket.recvs)))
    ensures status == S.Success ==> S.Delivers(S.Awake(false, old(socket.recvs)))
    ensures old(socket.CanRead(|socket.incoming|)) && old(socket.incoming) != "" ==>
              socket.CanRead(|socket.incoming|) && (status == S.Success || status == S.WouldBlock)
  {
    hide S.Calm, S.Reads, S.Awake;
    var received;
    status, received := socket.ReceiveRaw(recvBuffer, 0, RECV_CHUNK_SIZE);
    data := recvBuffer[..received];
    assert recvBuffer[..received] == recvBuffer[0..received];
  }

  /** receive for a request: the object has been fed fragments that make up what was taken off the stream. The
      answer of the parser is only passed on when it no longer wants more; WouldBlock and Timeout are only passed
      on when nothing has been taken off; and while bytes are left, a calm schedule is not given up. */
  method ReceiveRequest(socket: S.TcpSocket<char>, request: Req.HttpRequest)
    returns (r: Outcome, ghost frags: seq<string>)
    modifies request, request.http, socket`incoming, socket`recvs
    ensures Consumed(old(socket.incoming), frags, socket.incoming)
    ensures (request.View(), if r.Answer? then r.parser else NotEnoughData)
         == Feed(Req.Parsed, old(request.View()), frags)
    ensures r.Answer? ==> r.parser != NotEnoughData
    ensures r.Transport? ==> r.socket != S.Success && (r.socket == S.Disconnected || frags == [])
    ensures if r.Transport? then S.Refused(r.socket, socket.isBlocking, S.Awake(false, old(socket.recvs)))
            else S.Delivers(S.Awake(false, old(socket.recvs)))
    ensures r.Transport? && old(socket.CanRead(|socket.incoming|)) && socket.incoming != "" ==>
              r.socket == S.WouldBlock && frags == []
  {
    hide Feed, Consumed, Req.Parsed;
    ghost var st, stream, calm := request.View(), socket.incoming, socket.CanRead(|socket.incoming|);
    NothingConsumed(stream);
    FeedNothing(Req.Parsed, st);
    frags := [];
    var recvBuffer := new char[RECV_CHUNK_SIZE];
    var totalReceived: nat := 0;
    while true
      invariant Consumed(stream, frags, socket.incoming)
      invariant (request.View(), NotEnoughData) == Feed(Req.Parsed, st, frags)
      invariant totalReceived == 0 <==> frags == []
      invariant if frags == [] then socket.recvs == old(socket.recvs) else S.Delivers(S.Awake(false, old(socket.recvs)))
      invariant calm && socket.incoming != "" ==> socket.CanRead(|socket.incoming|)
      decreases |socket.recvs|
    {
      var status, data := ReceiveFragment(socket, recvBuffer);
      totalReceived := totalReceived + |data|;
      if status != S.Success {
        if totalReceived == 0 {
          return Transport(status), frags;
        }
        if status == S.WouldBlock {
          continue;
        }
        return Transport(S.Disconnected), frags;
      }
      ConsumedMore(stream, frags, data, socket.incoming);
      FeedMore(Req.Parsed, st, frags, data);
      var state := request.Parse(data);
      frags := frags + [data];
      if state != NotEnoughData {
        return Answer(state), frags;
      }
    }
  }

  /** The same for a response. */
  method ReceiveResponse(socket: S.TcpSocket<char>, response: Resp.HttpResponse)
    returns (r: Outcome, ghost frags: seq<string>)
    modifies response, response.http, socket`incoming, socket`recvs
    ensures Consumed(old(socket.incoming), frags, socket.incoming)
    ensures (response.View(), if r.Answer? then r.parser else NotEnoughData)
         == Feed(Resp.Parsed, old(response.View()), frags)
    ensures r.Answer? ==> r.parser != NotEnoughData
    ensures r.Transport? ==> r.socket != S.Success && (r.socket == S.Disconnected || frags == [])
    ensures if r.Transport? then S.Refused(r.socket, socket.isBlocking, S.Awake(false, old(socket.recvs)))
            else S.Delivers(S.Awake(false, old(socket.recvs)))
    ensures r.Transport? && old(socket.CanRead(|socket.incoming|)) && socket.incoming != "" ==>
              r.socket == S.WouldBlock && frags == []
  {
    hide Feed, Consumed, Resp.Parsed;
    ghost var st, stream, calm := response.View(), socket.incoming, socket.CanRead(|socket.incoming|);
    NothingConsumed(stream);
    FeedNothing(Resp.Parsed, st);
    frags := [];
    var recvBuffer := new char[RECV_CHUNK_SIZE];
    var totalReceived: nat := 0;
    while true
      invariant Consumed(stream, frags, socket.incoming)
      invariant (response.View(), NotEnoughData) == Feed(Resp.Parsed, st, frags)
      invariant totalReceived == 0 <==> frags == []
      invariant if frags == [] then socket.recvs == old(socket.recvs) else S.Delivers(S.Awake(false, old(socket.recvs)))
      invariant calm && socket.incoming != "" ==> socket.CanRead(|socket.incoming|)
      decreases |socket.recvs|
    {
      var status, data := ReceiveFragment(socket, recvBuffer);
      totalReceived := totalReceived + |data|;
      if status != S.Success {
        if totalReceived == 0 {
          return Transport(status), frags;
        }
        if status == S.WouldBlock {
          continue;
        }
        return Transport(S.Disconnected), frags;
      }
      ConsumedMore(stream, frags, data, socket.incoming);
      FeedMore(Resp.Parsed, st, frags, data);
      var state := response.Parse(data);
      frags := frags + [data];
      if state != NotEnoughData {
        return Answer(state), frags;
      }
    }
  }

  /** send for a request; the host is the remote address of the socket. */
  method SendRequest(socket: S.TcpSocket<char>, request: Req.HttpRequest, host: string, o: Req.Orders)
    returns (r: S.Status, ghost sent: nat)
    requires Req.OrdersOf(o, request.http.View())
    modifies socket`accepted, socket`sends
    ensures var data := Req.Constructed(request.http.View(), host, o);
            && sent <= |data| && socket.accepted == old(socket.accepted) + data[..sent]
            && (r == S.Success || r == S.Timeout || r == S.SendError)
            && (r == S.Success <==> sent == |data|)
            && (r != S.Success ==> S.Stopped(r, socket.isBlocking, S.Halt(!socket.isBlocking, old(socket.sends))))
            && (old(socket.CanSend(|data|)) ==> r == S.Success)
  {
    hide Req.Constructed;
    var data := request.Construct(host, o);
    r, sent := socket.SendBuffer(data);
  }

  method SendResponse(socket: S.TcpSocket<char>, response: Resp.HttpResponse, order: seq<string>)
    returns (r: S.Status, ghost sent: nat)
    requires Enumerates(order, response.http.headerData)
    modifies socket`accepted, socket`sends
    ensures var data := Resp.Constructed(response.http.View(), order);
            && sent <= |data| && socket.accepted == old(socket.accepted) + data[..sent]
            && (r == S.Success || r == S.Timeout || r == S.SendError)
            && (r == S.Success <==> sent == |data|)
            && (r != S.Success ==> S.Stopped(r, socket.isBlocking, S.Halt(!socket.isBlocking, old(socket.sends))))
            && (old(socket.CanSend(|data|)) ==> r == S.Success)
  {
    hide Resp.Constructed;
    var data := response.Construct(order);
    r, sent := socket.SendBuffer(data);
  }

  // --- a printed message on the stream ---

  /** What is taken off a stream that starts with a printed request is either not all of it, and then more is asked
      for, or all of it, and then the request has arrived. */
  lemma RequestArrives(m: Message, host: string, o: Req.Orders, frags: seq<string>, rest: string)
    requires Req.Printable(m, host) && Req.OrdersOf(o, m) && (m.body == "" ==> m.post == map[])
    requires |Req.HeadTextOf(m, host, o)| + 3 <= MAX_HTTP_HEADER_SIZE && |Req.BodyText(m, o)| <= MAX_HTTP_BODY_SIZE
    requires Consumed(Req.Constructed(m, host, o), frags, rest)
    ensures if rest == "" then Feed(Req.Parsed, Req.NEW, frags) == (Req.Arrived(m, host, o), Success)
            else Feed(Req.Parsed, Req.NEW, frags).1 == NotEnoughData
  {
    assert Concat(frags) + rest == Req.Constructed(m, host, o);
    hide *;
    if rest == "" {
      assert Concat(frags) + "" == Concat(frags);
      Req.ConstructedParses(m, host, o, frags);
    } else if Feed(Req.Parsed, Req.NEW, frags).1 != NotEnoughData {
      Req.PrintedArrives(m, host, o, frags, rest);
    }
  }

  /** The same for a response. */
  lemma ResponseArrives(m: Message, order: seq<string>, frags: seq<string>, rest: string)
    requires Resp.Printable(m) && Enumerates(order, m.headers)
    requires |HeaderText(Resp.Lines(m, order))| + 3 <= MAX_HTTP_HEADER_SIZE
    requires Consumed(Resp.Constructed(m, order), frags, rest)
    ensures if rest == "" then Feed(Resp.Parsed, Resp.NEW, frags) == (Resp.Arrived(m), Success)
            else Feed(Resp.Parsed, Resp.NEW, frags).1 == NotEnoughData
  {
    assert Concat(frags) + rest == Resp.Constructed(m, order);
    hide *;
    if rest == "" {
      assert Concat(frags) + "" == Concat(frags);
      Resp.ConstructedParses(m, order, frags);
    } else if Feed(Resp.Parsed, Resp.NEW, frags).1 != NotEnoughData {
      Resp.PrintedArrives(m, order, frags, rest);
    }
  }
}
