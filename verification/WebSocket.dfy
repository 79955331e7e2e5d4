/** The handshake of WebSocket (include/frnetlib/WebSocket.h): the client's upgrade request, the server's answer to
    it, and the value by which the client knows that the answer is to its own request (sections 4.1 and 4.2.2 of
    RFC 6455). */
module WebSocket {
  import opened Fragments
  import opened Http
  import opened HttpSocket
  import opened RequestLine
  import opened Text
  import opened Widths
  import Base64
  import Fips180
  import NetworkEncoding
  import Req = HttpRequest
  import Resp = HttpResponse
  import S = Sockets
  import Sha1

  const GUID := "258EAFA5-E914-47DA-95CA-C5AB0DC85B11"

  // --- the accept value ---

  /** The bytes of a string, as the hash takes them. */
  function Bits(s: string): (r: seq<bv8>)
    ensures |r| == |s|
  {
    seq(|s|, i requires 0 <= i < |s| => (s[i] as int % 256) as bv8)
  }

  lemma BitsAre(s: string, i: nat)
    requires i < |s| && s[i] as int < 256
    ensures Bits(s)[i] == (s[i] as int) as bv8
  {
    var n := s[i] as int;
    assert n % 256 == n;
  }

  /** The bytes of a digest, as the encoder takes them. */
  function Numbers(bs: seq<bv8>): (r: seq<NetworkEncoding.Byte>)
    ensures |r| == |bs|
  {
    seq(|bs|, i requires 0 <= i < |bs| => bs[i] as int)
  }

  predicate KeyFits(key: string) {
    8 * (|key| + 36) < TWO_64
  }

  /** Section 4.2.2 of RFC 6455: key and GUID, hashed, in base 64. */
  function AcceptOf(key: string): (r: string)
    requires KeyFits(key)
  {
    Base64.Rfc4648(Numbers(Fips180.Hash(Bits(key + GUID))))
  }

  method DeriveKey(key: string) returns (derived: string)
    requires KeyFits(key)
    ensures derived == AcceptOf(key)
  {
    hide Fips180.Hash, Base64.Rfc4648;
    var digest := Sha1.Sha1Digest(Bits(key + GUID));
    derived := Base64.Encode(Numbers(digest));
  }

  /** Text in base 64 can stand in a header. */
  lemma {:induction false} EncodedPrintable(bs: seq<NetworkEncoding.Byte>)
    ensures forall i :: 0 <= i < |Base64.Rfc4648(bs)| ==> 33 <= Base64.Rfc4648(bs)[i] as int <= 126
  {
    hide Base64.Group, Base64.Sextet;
    if |bs| >= 3 {
      EncodedPrintable(bs[3..]);
    }
  }

  lemma AcceptPrintable(key: string)
    requires KeyFits(key)
    ensures |AcceptOf(key)| == 28 && ValueOk(AcceptOf(key))
  {
    hide Fips180.Hash, Base64.Rfc4648, Bits;
    EncodedPrintable(Numbers(Fips180.Hash(Bits(key + GUID))));
    Base64.EncodedLength(Numbers(Fips180.Hash(Bits(key + GUID))));
  }

  // --- the two messages ---

  function JoinComma(protocols: seq<string>): string {
    if protocols == [] then ""
    else if |protocols| == 1 then protocols[0]
    else JoinComma(protocols[..|protocols| - 1]) + ", " + protocols[|protocols| - 1]
  }

  function RequestHeaders(key: string, protocols: seq<string>): map<string, string> {
    var h := map["sec-websocket-key" := key, "sec-websocket-version" := "13",
                 "connection" := "upgrade", "upgrade" := "websocket"];
    if protocols == [] then h else h["sec-websocket-protocol" := JoinComma(protocols)]
  }

  function UpgradeRequest(key: string, path: string, protocols: seq<string>): Message {
    SetUri(FRESH.(headers := RequestHeaders(key, protocols)), path)
  }

  function ResponseHeaders(accept: string): map<string, string> {
    map["upgrade" := "websocket", "connection" := "Upgrade", "sec-websocket-accept" := accept]
  }

  const SWITCHING_PROTOCOLS := 101

  function SwitchingResponse(accept: string): Message {
    FRESH.(status := SWITCHING_PROTOCOLS, headers := ResponseHeaders(accept))
  }

  /** What the server asks of a request. */
  predicate Asks(m: Message) {
    Lookup(m.headers, "Upgrade") == "websocket" && m.kind == Get
  }

  /** What the client asks of a response. */
  predicate Answers(m: Message, key: string)
    requires KeyFits(key)
  {
    m.status == SWITCHING_PROTOCOLS && Lookup(m.headers, "sec-websocket-accept") == AcceptOf(key)
  }

  /** What the request says: GET, the path, and the headers of section 4.1 of RFC 6455. */
  lemma RequestSays(key: string, path: string, protocols: seq<string>)
    ensures var m := UpgradeRequest(key, path, protocols);
            && m.kind == Unknown && m.version == V1_1
            && m.uri == (if path == "" then "/" else if path[0] == '/' then path else "/" + path)
            && Lookup(m.headers, "Upgrade") == "websocket" && Lookup(m.headers, "Connection") == "upgrade"
            && Lookup(m.headers, "Sec-WebSocket-Version") == "13" && Lookup(m.headers, "Sec-WebSocket-Key") == key
            && Lookup(m.headers, "Sec-WebSocket-Protocol") == (if protocols == [] then "" else JoinComma(protocols))
  {
    HeaderNames();
    hide ToLower, JoinComma;
  }

  lemma HeaderNames()
    ensures ToLower("Upgrade") == "upgrade" && ToLower("Connection") == "connection"
    ensures ToLower("Sec-WebSocket-Version") == "sec-websocket-version"
    ensures ToLower("Sec-WebSocket-Key") == "sec-websocket-key"
    ensures ToLower("Sec-WebSocket-Protocol") == "sec-websocket-protocol"
    ensures ToLower("Sec-WebSocket-Accept") == "sec-websocket-accept"
  {
    hide *;
    CapitalNames();
    VersionLower();
    KeyLower();
    ProtocolLower();
    AcceptLower();
  }

  lemma VersionLower()
    ensures ToLower("Sec-WebSocket-Version") == "sec-websocket-version"
  {
  }

  lemma KeyLower()
    ensures ToLower("Sec-WebSocket-Key") == "sec-websocket-key"
  {
  }

  lemma ProtocolLower()
    ensures ToLower("Sec-WebSocket-Protocol") == "sec-websocket-protocol"
  {
  }

  lemma AcceptLower()
    ensures ToLower("Sec-WebSocket-Accept") == "sec-websocket-accept"
  {
  }

  lemma ProtocolsJoined(a: string, b: string)
    ensures JoinComma([a]) == a && JoinComma([a, b]) == a + ", " + b
  {
    assert [a, b][..1] == [a];
  }

  /** What the answer says (section 4.2.2): 101, the upgrade, and the hash of key and GUID. */
  lemma AnswerSays(key: string)
    requires KeyFits(key)
    ensures var m := SwitchingResponse(AcceptOf(key));
            && m.status == 101 && m.version == V1_1
            && Lookup(m.headers, "Upgrade") == "websocket" && Lookup(m.headers, "Connection") == "Upgrade"
            && Lookup(m.headers, "Sec-WebSocket-Accept")
               == Base64.Rfc4648(Numbers(Fips180.Hash(Bits(key + "258EAFA5-E914-47DA-95CA-C5AB0DC85B11"))))
  {
    HeaderNames();
    hide ToLower, Base64.Rfc4648, Fips180.Hash, Bits, Numbers;
  }

  /** What each end asks of the other, in terms of the stored headers. */
  lemma AskedAndAnswered(m: Message, key: string)
    requires KeyFits(key)
    ensures Asks(m) <==> m.kind == Get && "upgrade" in m.headers && m.headers["upgrade"] == "websocket"
    ensures Answers(m, key) <==>
              m.status == 101
              && AcceptOf(key)
                 == if "sec-websocket-accept" in m.headers then m.headers["sec-websocket-accept"] else ""
  {
    HeaderNames();
    LowerNames();
    hide ToLower, AcceptOf;
  }

  // --- they can be printed ---

  predicate NameOk(name: string) {
    ':' !in name && '\n' !in name && ToLower(name) == name && name != "content-length" && name != "transfer-encoding"
  }

  predicate ValueOk(value: string) {
    value != "" && value[0] != ' ' && forall i :: 0 <= i < |value| ==> 32 <= value[i] as int <= 126
  }

  predicate HeadersOk(m: map<string, string>) {
    forall k :: k in m ==> NameOk(k) && ValueOk(m[k])
  }

  lemma HeadersPrint(m: map<string, string>)
    requires HeadersOk(m)
    ensures LowerKeys(m) && forall k :: k in m ==> PairOk((k, m[k]))
    ensures "content-length" !in m && "transfer-encoding" !in m
  {
    hide ToLower;
  }

  lemma KeyName()
    ensures NameOk("sec-websocket-key")
  {
    KeyNameLower();
    hide ToLower;
  }

  lemma KeyNameLower()
    ensures ToLower("sec-websocket-key") == "sec-websocket-key"
  {
  }

  lemma VersionName()
    ensures NameOk("sec-websocket-version")
  {
    VersionNameLower();
    hide ToLower;
  }

  lemma VersionNameLower()
    ensures ToLower("sec-websocket-version") == "sec-websocket-version"
  {
  }

  lemma ProtocolName()
    ensures NameOk("sec-websocket-protocol")
  {
    ProtocolNameLower();
    hide ToLower;
  }

  lemma ProtocolNameLower()
    ensures ToLower("sec-websocket-protocol") == "sec-websocket-protocol"
  {
  }

  lemma AcceptName()
    ensures NameOk("sec-websocket-accept")
  {
    AcceptNameLower();
    hide ToLower;
  }

  lemma AcceptNameLower()
    ensures ToLower("sec-websocket-accept") == "sec-websocket-accept"
  {
  }

  lemma ConnectionName()
    ensures NameOk("connection")
  {
  }

  lemma UpgradeName()
    ensures NameOk("upgrade")
  {
  }

  lemma FixedValues()
    ensures ValueOk("13") && ValueOk("upgrade") && ValueOk("websocket") && ValueOk("Upgrade")
  {
  }

  lemma RequestHeadersOk(key: string, protocols: seq<string>)
    requires ValueOk(key) && (protocols != [] ==> ValueOk(JoinComma(protocols)))
    ensures HeadersOk(RequestHeaders(key, protocols))
  {
    KeyName();
    VersionName();
    ProtocolName();
    ConnectionName();
    UpgradeName();
    FixedValues();
    hide NameOk, ValueOk, JoinComma;
  }

  lemma ResponseHeadersOk(accept: string)
    requires ValueOk(accept)
    ensures HeadersOk(ResponseHeaders(accept))
  {
    AcceptName();
    ConnectionName();
    UpgradeName();
    FixedValues();
    hide NameOk, ValueOk;
  }

  /** The URI that a path becomes: the root without a path, and otherwise with a slash in front. */
  function UriOf(path: string): string {
    SetUri(FRESH, path).uri
  }

  /** Keys, paths, protocols and hosts with which a request can be printed. */
  predicate CanAsk(key: string, path: string, protocols: seq<string>, host: string) {
    && ValueOk(key) && KeyFits(key)
    && UriOk(UriOf(path)) && Without(UriOf(path), '\n')
    && (protocols != [] ==> ValueOk(JoinComma(protocols)))
    && PairOk(("Host", host))
  }

  lemma RequestPrintable(key: string, path: string, protocols: seq<string>, host: string)
    requires CanAsk(key, path, protocols, host)
    ensures Req.Printable(UpgradeRequest(key, path, protocols), host)
    ensures UpgradeRequest(key, path, protocols).post == map[] && UpgradeRequest(key, path, protocols).body == ""
  {
    RequestHeadersOk(key, protocols);
    HeadersPrint(RequestHeaders(key, protocols));
    hide RequestHeaders, PairOk, LowerKeys, NoHttp, JoinComma, ValueOk, HeadersOk;
  }

  lemma ResponsePrintable(accept: string)
    requires ValueOk(accept)
    ensures Resp.Printable(SwitchingResponse(accept))
  {
    ResponseHeadersOk(accept);
    HeadersPrint(ResponseHeaders(accept));
    hide ResponseHeaders, PairOk, LowerKeys, ValueOk, HeadersOk;
  }

  // --- the handshake ---

  lemma RecoveredAsks(key: string, path: string, protocols: seq<string>, host: string, o: Req.Orders)
    requires CanAsk(key, path, protocols, host) && Req.OrdersOf(o, UpgradeRequest(key, path, protocols))
    ensures var m := Req.Arrived(UpgradeRequest(key, path, protocols), host, o).http;
            Asks(m) && Lookup(m.headers, "sec-websocket-key") == key
  {
    var m := UpgradeRequest(key, path, protocols);
    RequestHeadersAre(key, path, protocols);
    hide RequestHeaders, UpgradeRequest, CanAsk, Req.FormOf, Req.BodyText, ToLower, Emplace;
    KeptHeader(m, host, |Req.BodyText(m, o)|, "sec-websocket-key");
    KeptHeader(m, host, |Req.BodyText(m, o)|, "upgrade");
    ArrivedHeaders(m, host, o);
  }

  lemma ArrivedHeaders(m: Message, host: string, o: Req.Orders)
    requires Req.OrdersOf(o, m)
    ensures var got := Req.Arrived(m, host, o).http;
            got.headers == Req.Completed(m, host, |Req.BodyText(m, o)|) && got.kind == Req.PrintedKind(m)
  {
    hide Req.FormOf, Req.Completed, Req.BodyText;
  }

  lemma KeptHeader(m: Message, host: string, n: nat, name: string)
    requires name in m.headers
    ensures name in Req.Completed(m, host, n) && Req.Completed(m, host, n)[name] == m.headers[name]
  {
    hide Print;
  }

  lemma RequestHeadersAre(key: string, path: string, protocols: seq<string>)
    ensures var m := UpgradeRequest(key, path, protocols);
            && m.kind == Unknown && Req.PrintedKind(m) == Get
            && "sec-websocket-key" in m.headers && m.headers["sec-websocket-key"] == key
            && "upgrade" in m.headers && m.headers["upgrade"] == "websocket"
    ensures ToLower("Upgrade") == "upgrade" && ToLower("sec-websocket-key") == "sec-websocket-key"
  {
    KeyName();
    hide ToLower, JoinComma;
    LowerUpgrade();
  }

  lemma LowerUpgrade()
    ensures ToLower("Upgrade") == "upgrade"
  {
  }

  lemma NoBody(m: Message, o: Req.Orders)
    requires Req.OrdersOf(o, m) && m.post == map[] && m.body == ""
    ensures Req.BodyText(m, o) == ""
  {
    Req.LengthOfBody(m, o);
  }

  lemma RecoveredAnswers(key: string)
    requires KeyFits(key)
    ensures Answers(Resp.Arrived(SwitchingResponse(AcceptOf(key))).http, key)
  {
    AcceptName();
    hide ToLower, AcceptOf;
  }

  /** The server gets what the client asks, and the client gets the answer to it: for every key, path, list of
      protocols and host that can be printed, every order in which the headers are, and every way the network cuts
      the two messages up. While part of its message is missing each end waits; with the last byte the server finds
      a request it accepts, with the client's key in it, and the client finds in the server's answer to that key
      the very value it computes itself. */
  lemma HandshakeCompletes(key: string, path: string, protocols: seq<string>, host: string, o: Req.Orders,
                           order: seq<string>, asked: seq<string>, unasked: string, answered: seq<string>,
                           unanswered: string)
    requires CanAsk(key, path, protocols, host)
    requires var m := UpgradeRequest(key, path, protocols);
             Req.OrdersOf(o, m) && |Req.HeadTextOf(m, host, o)| + 3 <= MAX_HTTP_HEADER_SIZE
             && Consumed(Req.Constructed(m, host, o), asked, unasked)
    requires var m := SwitchingResponse(AcceptOf(key));
             Enumerates(order, m.headers) && Consumed(Resp.Constructed(m, order), answered, unanswered)
    ensures var (st, r) := Feed(Req.Parsed, Req.NEW, asked);
            if unasked != "" then r == NotEnoughData
            else r == Success && Asks(st.http) && Lookup(st.http.headers, "sec-websocket-key") == key
    ensures var (st, r) := Feed(Resp.Parsed, Resp.NEW, answered);
            if unanswered != "" then r == NotEnoughData else r == Success && Answers(st.http, key)
  {
    KeyOfRequest(key, path, protocols, host);
    hide *;
    var accept := AcceptOf(key);
    RequestPrintable(key, path, protocols, host);
    AcceptPrintable(key);
    ResponsePrintable(accept);
    HeadersOfResponse(accept);
    ResponseIsShort(accept, order);
    RecoveredAsks(key, path, protocols, host, o);
    NoBody(UpgradeRequest(key, path, protocols), o);
    RecoveredAnswers(key);
    RequestArrives(UpgradeRequest(key, path, protocols), host, o, asked, unasked);
    ResponseArrives(SwitchingResponse(accept), order, answered, unanswered);
  }

  lemma KeyOfRequest(key: string, path: string, protocols: seq<string>, host: string)
    requires CanAsk(key, path, protocols, host)
    ensures KeyFits(key)
  {
  }

  lemma HeadersOfResponse(accept: string)
    ensures SwitchingResponse(accept).headers == ResponseHeaders(accept)
  {
  }

  lemma {:induction false} EmitSize(lines: seq<string>, n: nat)
    requires forall i :: 0 <= i < |lines| ==> |lines[i]| <= n
    ensures |Emit(lines)| <= |lines| * (n + 2)
  {
    if lines != [] {
      EmitSize(lines[1..], n);
    }
  }

  lemma {:induction false} OrderSize(order: seq<string>, keys: set<string>)
    requires forall i :: 0 <= i < |order| ==> order[i] in keys
    requires forall i, j :: 0 <= i < j < |order| ==> order[i] != order[j]
    ensures |order| <= |keys|
  {
    if order != [] {
      var n := |order| - 1;
      OrderSize(order[..n], keys - {order[n]});
    }
  }

  /** The server's answer is far below the limit on headers. */
  lemma ResponseIsShort(accept: string, order: seq<string>)
    requires |accept| == 28 && Enumerates(order, ResponseHeaders(accept))
    ensures |HeaderText(Resp.Lines(SwitchingResponse(accept), order))| + 3 <= MAX_HTTP_HEADER_SIZE
  {
    ThreeHeaders(accept);
    OrderSize(order, ResponseHeaders(accept).Keys);
    HeadersOfResponse(accept);
    hide *;
    var lines := Resp.Lines(SwitchingResponse(accept), order);
    LineSizes(accept, order);
    EmitSize(lines, 60);
    assert |lines| * 62 <= 7 * 62;
  }

  lemma ThreeHeaders(accept: string)
    ensures |ResponseHeaders(accept).Keys| == 3
    ensures SwitchingResponse(accept).headers == ResponseHeaders(accept)
  {
    assert ResponseHeaders(accept).Keys == {"upgrade", "connection", "sec-websocket-accept"};
  }

  lemma LineSizes(accept: string, order: seq<string>)
    requires |accept| == 28 && Enumerates(order, ResponseHeaders(accept))
    ensures var lines := Resp.Lines(SwitchingResponse(accept), order);
            lines != [] && |lines| <= |order| + 4 && forall i :: 0 <= i < |lines| ==> |lines[i]| <= 60
  {
    var m := SwitchingResponse(accept);
    var ps := PairsOf(order, m.headers) + Resp.Defaults(m);
    StatusSize(m);
    PairSizes(accept, order);
    hide Resp.StatusText, PairLine, Resp.Defaults;
    assert forall i :: 0 <= i < |ps| ==> |PairLines(ps)[i]| <= 60;
  }

  lemma PairSizes(accept: string, order: seq<string>)
    requires |accept| == 28 && Enumerates(order, ResponseHeaders(accept))
    ensures var ps, ds := PairsOf(order, ResponseHeaders(accept)), Resp.Defaults(SwitchingResponse(accept));
            && |ds| <= 3 && (forall i :: 0 <= i < |ps| ==> |PairLine(ps[i])| <= 60)
            && (forall i :: 0 <= i < |ds| ==> |PairLine(ds[i])| <= 60)
  {
  }

  lemma StatusSize(m: Message)
    requires m.status == SWITCHING_PROTOCOLS
    ensures |Resp.StatusText(m)| <= 60
  {
    assert Print(101, 10) == Print(10, 10) + [DigitChar(1)];
  }

  /** A key made by Base64::encode can be sent. */
  lemma KeyPrintable(bs: seq<NetworkEncoding.Byte>)
    requires bs != []
    ensures ValueOk(Base64.Rfc4648(bs))
  {
    EncodedPrintable(bs);
    Base64.EncodedLength(bs);
    hide Base64.Rfc4648;
  }

  /** A key that has been received is not longer than a header may be. */
  lemma ReceivedKeyFits(frags: seq<string>)
    ensures KeyFits(Lookup(Feed(Req.Parsed, Req.NEW, frags).0.http.headers, "sec-websocket-key"))
  {
    hide Feed, ToLower;
    Req.FeedShort(Req.NEW, frags);
  }

  // --- the two ends ---

  /** What a client finds: what the socket or the parser has said instead of a response, or a response, which is
      the one it wants or is not. */
  datatype Connection = NotSent(socket: S.Status) | NotReceived(outcome: Outcome) | HandshakeFailed | Connected

  /** What a socket may say instead of a message: what it says to a first read, or Disconnected later; one that stays
      calm while there are bytes left only that it would block at once. */
  predicate Gave(r: S.Status, isBlocking: bool, recvs: seq<S.RecvEvent>, calm: bool, frags: seq<string>) {
    && S.Refused(r, isBlocking, S.Awake(false, recvs))
    && (r == S.Disconnected || frags == [])
    && (calm ==> r == S.WouldBlock)
  }

  lemma AnyAccept(order: seq<string>, accept: string)
    requires Enumerates(order, ResponseHeaders(""))
    ensures Enumerates(order, ResponseHeaders(accept))
  {
    assert forall k :: k in ResponseHeaders("") <==> k in ResponseHeaders(accept);
  }

  /** connect, once the socket is connected. */
  method Connect(socket: S.TcpSocket<char>, websocketKey: string, path: string, protocols: seq<string>, host: string,
                 o: Req.Orders)
    returns (r: Connection, ghost sent: nat, ghost answered: seq<string>)
    requires KeyFits(websocketKey)
    requires Req.OrdersOf(o, UpgradeRequest(websocketKey, path, protocols))
    modifies socket`accepted, socket`sends, socket`incoming, socket`recvs
    ensures var data := Req.Constructed(UpgradeRequest(websocketKey, path, protocols), host, o);
            && sent <= |data| && socket.accepted == old(socket.accepted) + data[..sent]
            && (if r.NotSent? then S.Stopped(r.socket, socket.isBlocking, S.Halt(!socket.isBlocking, old(socket.sends)))
                else sent == |data|)
            && (old(socket.CanSend(|data|)) ==> !r.NotSent?)
    ensures Consumed(old(socket.incoming), answered, socket.incoming) && (r.NotSent? ==> answered == [])
    ensures r.NotReceived? && r.outcome.Transport? ==>
              Gave(r.outcome.socket, socket.isBlocking, old(socket.recvs),
                   old(socket.CanRead(|socket.incoming|)) && socket.incoming != "", answered)
    ensures var (st, status) := Feed(Resp.Parsed, Resp.NEW, answered);
            && (r.NotReceived? ==> status == if r.outcome.Answer? then r.outcome.parser else NotEnoughData)
            && (r.HandshakeFailed? || r.Connected? <==> !r.NotSent? && status == Success)
            && (r.Connected? ==> Answers(st.http, websocketKey))
            && (r.HandshakeFailed? ==> !Answers(st.http, websocketKey))
  {
    hide Req.Constructed, Feed, AcceptOf, ToLower;
    answered := [];
    NothingConsumed(socket.incoming);
    FeedNothing(Resp.Parsed, Resp.NEW);
    var request := PrepareRequest(websocketKey, path, protocols);
    var status;
    status, sent := SendRequest(socket, request, host, o);
    if status != S.Success {
      return NotSent(status), sent, answered;
    }
    var response := new Resp.HttpResponse();
    var outcome;
    outcome, answered := ReceiveResponse(socket, response);
    if outcome != Answer(Success) {
      return NotReceived(outcome), sent, answered;
    }
    if response.http.status != SWITCHING_PROTOCOLS {
      return HandshakeFailed, sent, answered;
    }
    var derivedKey := response.http.Header("sec-websocket-accept");
    var expected := DeriveKey(websocketKey);
    r := if derivedKey != expected then HandshakeFailed else Connected;
  }

  /** The request of connect. */
  method PrepareRequest(websocketKey: string, path: string, protocols: seq<string>) returns (request: Req.HttpRequest)
    ensures fresh(request) && fresh(request.http)
    ensures request.http.View() == UpgradeRequest(websocketKey, path, protocols)
  {
    LowerNames();
    hide ToLower;
    request := new Req.HttpRequest();
    request.http.SetHeader("sec-websocket-key", websocketKey);
    request.http.SetHeader("sec-websocket-version", "13");
    OfferProtocols(request.http, protocols);
    HeadersInOrder(websocketKey, protocols, request.http.headerData);
    hide RequestHeaders, JoinComma;
    request.http.SetHeader("connection", "upgrade");
    request.http.SetHeader("upgrade", "websocket");
    request.StoreUriText(path);
  }

  lemma HeadersInOrder(key: string, protocols: seq<string>, h: map<string, string>)
    requires var first := map["sec-websocket-key" := key, "sec-websocket-version" := "13"];
             h == if protocols == [] then first else first["sec-websocket-protocol" := JoinComma(protocols)]
    ensures h["connection" := "upgrade"]["upgrade" := "websocket"] == RequestHeaders(key, protocols)
  {
    hide JoinComma;
  }

  /** The protocols, one behind the other in one header. */
  method OfferProtocols(http: Http, protocols: seq<string>)
    modifies http`headerData
    ensures http.headerData == if protocols == [] then old(http.headerData)
                               else old(http.headerData)["sec-websocket-protocol" := JoinComma(protocols)]
  {
    LowerNames();
    hide ToLower;
    if protocols != [] {
      http.SetHeader("sec-websocket-protocol", protocols[0]);
      assert protocols[..1] == [protocols[0]];
      for i := 1 to |protocols|
        invariant http.headerData == old(http.headerData)["sec-websocket-protocol" := JoinComma(protocols[..i])]
      {
        assert protocols[..i + 1][..i] == protocols[..i];
        var listed := http.Header("sec-websocket-protocol");
        http.SetHeader("sec-websocket-protocol", listed + (", " + protocols[i]));
        assert listed + ", " + protocols[i] == listed + (", " + protocols[i]);
      }
      assert protocols[..|protocols|] == protocols;
    }
  }

  lemma LowerNames()
    ensures ToLower("sec-websocket-key") == "sec-websocket-key"
    ensures ToLower("sec-websocket-version") == "sec-websocket-version"
    ensures ToLower("sec-websocket-protocol") == "sec-websocket-protocol"
    ensures ToLower("sec-websocket-accept") == "sec-websocket-accept"
    ensures ToLower("connection") == "connection" && ToLower("upgrade") == "upgrade"
  {
    KeyName();
    VersionName();
    ProtocolName();
    AcceptName();
    ConnectionName();
    UpgradeName();
    hide ToLower;
  }

  lemma CapitalNames()
    ensures ToLower("Upgrade") == "upgrade" && ToLower("Connection") == "connection"
  {
  }

  lemma CapitalAccept()
    ensures ToLower("Sec-WebSocket-Accept") == "sec-websocket-accept"
  {
  }

  /** set_descriptor: the client is answered exactly if a request has been received in which it asks; otherwise an
      exception leaves the method and nothing is sent. */
  method AcceptClient(socket: S.TcpSocket<char>, order: seq<string>)
    returns (ok: bool, ghost asked: seq<string>, ghost sent: nat, ghost outcome: Outcome)
    requires Enumerates(order, ResponseHeaders(""))
    modifies socket`accepted, socket`sends, socket`incoming, socket`recvs
    ensures Consumed(old(socket.incoming), asked, socket.incoming)
    ensures outcome.Transport? ==>
              Gave(outcome.socket, socket.isBlocking, old(socket.recvs),
                   old(socket.CanRead(|socket.incoming|)) && socket.incoming != "", asked)
    ensures var (st, status) := Feed(Req.Parsed, Req.NEW, asked);
            && (status == if outcome.Answer? then outcome.parser else NotEnoughData)
            && (ok <==> status == Success && Asks(st.http))
            && KeyFits(Lookup(st.http.headers, "sec-websocket-key"))
            && (ok ==>
                  var m := SwitchingResponse(AcceptOf(Lookup(st.http.headers, "sec-websocket-key")));
                  && Enumerates(order, m.headers) && sent <= |Resp.Constructed(m, order)|
                  && socket.accepted == old(socket.accepted) + Resp.Constructed(m, order)[..sent]
                  && (old(socket.CanSend(|Resp.Constructed(m, order)|)) ==> sent == |Resp.Constructed(m, order)|))
            && (!ok ==> sent == 0 && socket.accepted == old(socket.accepted))
  {
    hide Feed, Resp.Constructed, AcceptOf, ToLower, Enumerates, KeyFits;
    sent := 0;
    var request := new Req.HttpRequest();
    var heard;
    heard, asked := ReceiveRequest(socket, request);
    ReceivedKeyFits(asked);
    ghost var m := Feed(Req.Parsed, Req.NEW, asked).0.http;
    outcome := heard;
    if heard != Answer(Success) {
      return false, asked, sent, heard;
    }
    var upgrade := request.http.Header("Upgrade");
    if upgrade != "websocket" || request.http.requestType != Get {
      return false, asked, sent, heard;
    }
    var key := request.http.Header("sec-websocket-key");
    OtherHeader(m.headers);
    var derivedKey := DeriveKey(key);
    var response := PrepareResponse(derivedKey);
    AnyAccept(order, derivedKey);
    HeadersOfResponse(derivedKey);
    var status;
    status, sent := SendResponse(socket, response, order);
    ok := true;
  }

  /** Looking a header up has not changed another one. */
  lemma OtherHeader(h: map<string, string>)
    ensures Lookup(h[ToLower("Upgrade") := Lookup(h, "Upgrade")], "sec-websocket-key") == Lookup(h, "sec-websocket-key")
  {
    CapitalNames();
    LowerNames();
    hide ToLower;
  }

  method PrepareResponse(derivedKey: string) returns (response: Resp.HttpResponse)
    ensures fresh(response) && fresh(response.http)
    ensures response.http.View() == SwitchingResponse(derivedKey)
  {
    CapitalNames();
    CapitalAccept();
    hide ToLower;
    response := new Resp.HttpResponse();
    response.http.status := SWITCHING_PROTOCOLS;
    response.http.SetHeader("Upgrade", "websocket");
    response.http.SetHeader("Connection", "Upgrade");
    response.http.SetHeader("Sec-WebSocket-Accept", derivedKey);
    assert response.http.headerData == ResponseHeaders(derivedKey);
  }
}
