/** The per-connection decision of the threaded HTTP server and the
    termination rule of its accept loop. Sockets and threads are replaced by
    what they deliver: the bytes a client sent (or a read failure), whether
    the first send succeeds, and the outcome of each `accept`. */
module TcpServer {
  import opened Text
  import opened AppConfig
  import opened HttpUtils
  import opened Handlers

  // ---------------------------------------------------------------------------
  // One connection

  /** What reading the request produced: the bytes up to end of stream, or a
      read that raised (a timeout, a reset). */
  datatype Arrival = Received(stream: seq<byte>) | ReadFault

  /** The responses the handler tried to send, in order, and whether the
      connection was shut down and closed afterwards. */
  datatype Handling = Handling(attempts: seq<seq<byte>>, closed: bool)

  const PlainTextType: string := PlainType

  const NotAllowedBody: seq<byte> := Latin1Encode("Method Not Allowed")

  const BadRequestBody: seq<byte> := Latin1Encode("Bad Request")

  /** The 405 response, or None when serialising it raises. */
  function NotAllowedReply(): Option<seq<byte>> {
    BuildResponse(405, "Method Not Allowed", [("Content-Type", PlainTextType)], NotAllowedBody)
  }

  /** The 400 response, or None when serialising it raises. */
  function BadRequestReply(): Option<seq<byte>> {
    BuildResponse(400, "Bad Request", [("Content-Type", PlainTextType)], BadRequestBody)
  }

  /** The 400 response's bytes; serialising it never fails. */
  function BadRequestBytes(): seq<byte> {
    BuildsNeverFail();
    BadRequestReply().value
  }

  predicate IsAllowed(verb: string) {
    verb == "GET" || verb == "HEAD"
  }

  /** The headers the handler passes to `build_response` for a routed
      response: the content type, and for HEAD the length of the body a GET
      would have sent. */
  function RoutedFields(verb: string, contentType: string, getLength: nat): Fields {
    [("Content-Type", contentType)]
    + (if verb == "HEAD" then [("Content-Length", NatToString(getLength))] else [])
  }

  /** The bytes the handler sends for a parsed request, or None when
      something raises first: the router (an unreadable file) or
      `build_response`. For HEAD the router runs twice, with two clock reads. */
  function Reply(verb: string, path: string, staticDir: string, fs: FileSystem,
                 now1: Timestamp, now2: Timestamp): Option<seq<byte>>
  {
    if !IsAllowed(verb) then NotAllowedReply()
    else
      match Route(path, staticDir, fs, now1)
      case Raised => None
      case Served(routed) =>
        var response := if verb == "HEAD" then Headify(routed) else routed;
        if verb == "HEAD" then
          match Route(path, staticDir, fs, now2)
          case Raised => None
          case Served(again) =>
            BuildResponse(response.status, response.reason,
                          RoutedFields(verb, response.contentType, |again.body|), response.body)
        else
          BuildResponse(response.status, response.reason,
                        RoutedFields(verb, response.contentType, 0), response.body)
  }

  /** The response the handler sends first: the reply to a parsed request,
      or None when reading, parsing or answering raised. */
  function Primary(cfg: Config, arrival: Arrival, fs: FileSystem,
                   now1: Timestamp, now2: Timestamp): Option<seq<byte>>
  {
    match arrival
    case ReadFault => None
    case Received(stream) =>
      match ParseHttpRequest(stream, cfg.maxRequestLineBytes, cfg.maxHeaderBytes)
      case Err(_) => None
      case Ok(verb, path, _, _) => Reply(verb, path, cfg.staticDir, fs, now1, now2)
  }

  /** `_handle_client`: parse, answer, fall back to 400 on any exception
      (including a failed first send), and always close. A failure to send
      the 400 is swallowed. */
  function HandleClient(cfg: Config, arrival: Arrival, fs: FileSystem,
                        now1: Timestamp, now2: Timestamp, firstSendOk: bool): (h: Handling)
    ensures h.closed
    ensures var p := Primary(cfg, arrival, fs, now1, now2);
      && (p.Some? && firstSendOk ==> h.attempts == [p.value])
      && (p.Some? && !firstSendOk ==> h.attempts == [p.value, BadRequestBytes()])
      && (p.None? ==> h.attempts == [BadRequestBytes()])
  {
    var bad := BadRequestBytes();
    var attempts :=
      match Primary(cfg, arrival, fs, now1, now2)
      case None => [bad]
      case Some(bytes) => if firstSendOk then [bytes] else [bytes, bad];
    Handling(attempts, true)
  }

  // ---------------------------------------------------------------------------
  // Properties of one connection

  /** The fixed 405 and 400 responses always serialise. */
  lemma BuildsNeverFail()
    ensures NotAllowedReply().Some? && BadRequestReply().Some?
  {
    assert IsAscii("Method Not Allowed") && IsAscii("Bad Request");
    PlainTypeIsAscii();
    assert AsciiFields([("Content-Type", PlainTextType)]);
    LengthDefaultIsAscii([("Content-Type", PlainTextType)], |NotAllowedBody|);
    LengthDefaultIsAscii([("Content-Type", PlainTextType)], |BadRequestBody|);
  }

  lemma PlainTypeIsAscii()
    ensures IsAscii(PlainTextType) && IsAscii("Content-Type")
  {
    TxtTypeIsClean();
  }

  /** ASCII entries stay ASCII once the defaults are added. */
  lemma LengthDefaultIsAscii(hs: Fields, bodyLength: nat)
    requires AsciiFields(hs)
    ensures AsciiFields(WithDefaults(hs, bodyLength))
  {
    var r := WithDefaults(hs, bodyLength);
    DefaultEntriesArePlain(bodyLength);
    forall i | 0 <= i < |r| ensures IsAscii(r[i].0) && IsAscii(r[i].1) {
      if i < |hs| {
        assert r[i] == hs[i];
      } else if i == |hs| && !HasNameIgnoringCase(hs, "content-length") {
      } else {
        assert i == |r| - 1 && !HasName(hs, "Connection");
      }
    }
  }

  /** The request the handler answers when reading and parsing succeed. */
  predicate ParsesTo(cfg: Config, arrival: Arrival, verb: string, path: string) {
    && arrival.Received?
    && var p := ParseHttpRequest(arrival.stream, cfg.maxRequestLineBytes, cfg.maxHeaderBytes);
       p.Ok? && p.verb == verb && p.path == path
  }

  /** A read fault, any parse error, or a GET or HEAD whose routing raises
      (on either routing of a HEAD) is answered with 400 and nothing else;
      the send outcome plays no part. */
  lemma FailuresAnswer400(cfg: Config, arrival: Arrival, fs: FileSystem,
                          now1: Timestamp, now2: Timestamp, firstSendOk: bool)
    requires || arrival.ReadFault?
             || ParseHttpRequest(arrival.stream, cfg.maxRequestLineBytes, cfg.maxHeaderBytes).Err?
             || (var p := ParseHttpRequest(arrival.stream, cfg.maxRequestLineBytes, cfg.maxHeaderBytes);
                 IsAllowed(p.verb)
                 && (|| Route(p.path, cfg.staticDir, fs, now1).Raised?
                     || (p.verb == "HEAD" && Route(p.path, cfg.staticDir, fs, now2).Raised?)))
    ensures HandleClient(cfg, arrival, fs, now1, now2, firstSendOk).attempts == [BadRequestBytes()]
  {
    if arrival.Received? {
      var p := ParseHttpRequest(arrival.stream, cfg.maxRequestLineBytes, cfg.maxHeaderBytes);
      if p.Ok? {
        RoutedRepliesSerialise(p.verb, p.path, cfg.staticDir, fs, now1, now2);
      }
    }
  }

  /** A parsed request that is not rejected as above (another method, or a
      GET or HEAD whose routings succeed) gets its reply: the 405 or the
      routed response, sent once when the send succeeds and followed only by
      the 400 when it fails. */
  lemma ServedRequestAnswered(cfg: Config, arrival: Arrival, fs: FileSystem,
                              now1: Timestamp, now2: Timestamp, firstSendOk: bool,
                              verb: string, path: string)
    requires ParsesTo(cfg, arrival, verb, path)
    requires IsAllowed(verb) ==> Route(path, cfg.staticDir, fs, now1).Served?
    requires verb == "HEAD" ==> Route(path, cfg.staticDir, fs, now2).Served?
    ensures var reply := Reply(verb, path, cfg.staticDir, fs, now1, now2);
      && reply.Some?
      && HandleClient(cfg, arrival, fs, now1, now2, firstSendOk).attempts
         == if firstSendOk then [reply.value] else [reply.value, BadRequestBytes()]
  {
    if IsAllowed(verb) {
      RoutedRepliesSerialise(verb, path, cfg.staticDir, fs, now1, now2);
    } else {
      BuildsNeverFail();
    }
  }

  /** A method other than GET and HEAD is answered with 405 before the router
      runs: the reply depends neither on the files nor on the clock. */
  lemma NotAllowedSkipsRouter(verb: string, path: string, dir1: string, dir2: string,
                              fs1: FileSystem, fs2: FileSystem,
                              t1: Timestamp, t2: Timestamp, t3: Timestamp, t4: Timestamp)
    requires !IsAllowed(verb)
    ensures Reply(verb, path, dir1, fs1, t1, t2) == Reply(verb, path, dir2, fs2, t3, t4)
    ensures Reply(verb, path, dir1, fs1, t1, t2) == NotAllowedReply() && NotAllowedReply().Some?
  {
    BuildsNeverFail();
  }

  /** The parser upper-cases the method, so a request is served exactly when
      its method is `get` or `head` in any mix of cases. */
  lemma AcceptedMethods(m: string)
    ensures IsAllowed(Upper(m)) <==> CaseVariantOf(m, "GET") || CaseVariantOf(m, "HEAD")
  {
    UpperMatchesWord(m, "GET");
    UpperMatchesWord(m, "HEAD");
  }

  /** A GET is the routed tuple serialised with its content type. */
  lemma GetReply(path: string, staticDir: string, fs: FileSystem, now1: Timestamp, now2: Timestamp)
    requires Route(path, staticDir, fs, now1).Served?
    ensures var r := Route(path, staticDir, fs, now1).response;
      Reply("GET", path, staticDir, fs, now1, now2)
      == BuildResponse(r.status, r.reason, [("Content-Type", r.contentType)], r.body)
  {
    var r := Route(path, staticDir, fs, now1).response;
    assert "GET" != "HEAD";
    assert RoutedFields("GET", r.contentType, 0) == [("Content-Type", r.contentType)];
  }

  /** A HEAD is the routed status, reason and content type with an empty
      body and the length of the body of a second (GET) routing. */
  lemma HeadReply(path: string, staticDir: string, fs: FileSystem, now1: Timestamp, now2: Timestamp)
    requires Route(path, staticDir, fs, now1).Served? && Route(path, staticDir, fs, now2).Served?
    ensures var r := Route(path, staticDir, fs, now1).response;
            var again := Route(path, staticDir, fs, now2).response;
      Reply("HEAD", path, staticDir, fs, now1, now2)
      == BuildResponse(r.status, r.reason,
                       [("Content-Type", r.contentType), ("Content-Length", NatToString(|again.body|))], [])
  {
    var r := Route(path, staticDir, fs, now1).response;
    var again := Route(path, staticDir, fs, now2).response;
    assert RoutedFields("HEAD", r.contentType, |again.body|)
        == [("Content-Type", r.contentType), ("Content-Length", NatToString(|again.body|))];
  }

  /** With one clock reading for both routings, the HEAD reply is the GET
      reply with the body cut off: same status line, same headers (the
      explicit `Content-Length` of HEAD equals the one GET gets by default). */
  lemma HeadIsGetWithoutBody(path: string, staticDir: string, fs: FileSystem, now: Timestamp)
    requires Route(path, staticDir, fs, now).Served?
    ensures var get := Reply("GET", path, staticDir, fs, now, now);
            var head := Reply("HEAD", path, staticDir, fs, now, now);
      get.Some? && head.Some?
      && get.value == head.value + Route(path, staticDir, fs, now).response.body
  {
    var r := Route(path, staticDir, fs, now).response;
    GetReply(path, staticDir, fs, now, now);
    HeadReply(path, staticDir, fs, now, now);
    RouteValuesAreClean(path, staticDir, fs, now);
    GetIsHeadPlusBody(r.status, r.reason, r.contentType, r.body);
  }

  lemma GetIsHeadPlusBody(status: int, reason: string, contentType: string, body: seq<byte>)
    requires IsAscii(reason) && IsAscii(contentType)
    ensures var get := BuildResponse(status, reason, [("Content-Type", contentType)], body);
            var head := BuildResponse(status, reason,
                          [("Content-Type", contentType), ("Content-Length", NatToString(|body|))], []);
      get.Some? && head.Some? && get.value == head.value + body
  {
    var ct := ("Content-Type", contentType);
    var cl := ("Content-Length", NatToString(|body|));
    var w := WithDefaults([ct], |body|);
    GetHeadFields(contentType, |body|);
    BuiltBytes(status, reason, [ct], body);
    BuiltBytes(status, reason, [ct, cl], []);
    var sl := StatusLine(status, reason);
    var fb := FieldBlock(w);
    BodyIsSuffix(sl, fb, body);
  }

  lemma BodyIsSuffix(sl: seq<byte>, fb: seq<byte>, body: seq<byte>)
    ensures sl + (fb + CRLF + body) == (sl + (fb + CRLF + [])) + body
  {
    assert fb + CRLF + [] == fb + CRLF;
  }

  lemma GetHeadFields(contentType: string, n: nat)
    requires IsAscii(contentType)
    ensures var ct := ("Content-Type", contentType);
            var cl := ("Content-Length", NatToString(n));
      AsciiFields(WithDefaults([ct], n)) && WithDefaults([ct, cl], 0) == WithDefaults([ct], n)
  {
    var ct := ("Content-Type", contentType);
    SameDefaults(ct, ("Content-Length", NatToString(n)), n);
    RoutedBuildSucceeds(0, "", "GET", contentType, 0, []);
    assert RoutedFields("GET", contentType, 0) == [ct];
    LengthDefaultIsAscii([ct], n);
  }

  /** A content type alone and a content type with the body length get the
      same headers once the defaults are added. */
  lemma SameDefaults(ct: (string, string), cl: (string, string), n: nat)
    requires ct.0 == "Content-Type" && cl == ("Content-Length", NatToString(n))
    ensures WithDefaults([ct], n) == WithDefaults([ct, cl], 0)
    ensures WithDefaults([ct], n) == [ct, cl, ("Connection", "close")]
  {
    LowerContentLength();
    assert Lower("Content-Type") != "content-length" by {
      assert Lower("Content-Type")[8] == 't';
    }
    assert !HasNameIgnoringCase([ct], "content-length");
    assert HasNameIgnoringCase([ct, cl], "content-length") by {
      assert Lower([ct, cl][1].0) == "content-length";
    }
    assert !HasName([ct], "Connection") by {
      assert "Content-Type" != "Connection";
    }
    assert !HasName([ct, cl], "Connection") by {
      assert "Content-Type" != "Connection" && "Content-Length" != "Connection";
    }
  }

  /** Served GET and HEAD replies always serialise: the router's reasons and
      content types are ASCII. Only an unreadable file makes them fail. */
  lemma RoutedRepliesSerialise(verb: string, path: string, staticDir: string, fs: FileSystem,
                               now1: Timestamp, now2: Timestamp)
    requires IsAllowed(verb)
    ensures Reply(verb, path, staticDir, fs, now1, now2).None?
        <==> Route(path, staticDir, fs, now1).Raised?
             || (verb == "HEAD" && Route(path, staticDir, fs, now2).Raised?)
  {
    var routed := Route(path, staticDir, fs, now1);
    if routed.Served? {
      RouteValuesAreClean(path, staticDir, fs, now1);
      var r := routed.response;
      if verb == "HEAD" {
        var again := Route(path, staticDir, fs, now2);
        if again.Served? {
          RoutedBuildSucceeds(r.status, r.reason, verb, r.contentType, |again.response.body|, []);
        }
      } else {
        RoutedBuildSucceeds(r.status, r.reason, verb, r.contentType, 0, r.body);
      }
    }
  }

  lemma RoutedBuildSucceeds(status: int, reason: string, verb: string, contentType: string,
                            getLength: nat, body: seq<byte>)
    requires IsAscii(reason) && IsAscii(contentType)
    ensures BuildResponse(status, reason, RoutedFields(verb, contentType, getLength), body).Some?
  {
    var hs := RoutedFields(verb, contentType, getLength);
    var digits := NatToString(getLength);
    assert IsAscii(digits) by {
      assert forall i :: 0 <= i < |digits| ==> '0' <= digits[i] <= '9';
    }
    assert IsAscii("Content-Type") && IsAscii("Content-Length");
    assert AsciiFields(hs);
    LengthDefaultIsAscii(hs, |body|);
  }

  // ---------------------------------------------------------------------------
  // The accept loop

  /** What one `accept` call returns: a client connection, or an OSError
      (the listening socket was closed by `stop`, or failed). */
  datatype AcceptResult = Accepted(client: nat) | AcceptFailed

  /** One turn of `_accept_loop`: the closing flag as the loop condition
      reads it, and what `accept` returns if it is reached. */
  datatype AcceptTurn = AcceptTurn(closing: bool, result: AcceptResult)

  /** A turn after which the loop goes round again. */
  predicate KeepsAccepting(t: AcceptTurn) {
    !t.closing && t.result.Accepted?
  }

  /** How many turns the loop completes before it ends: the first turn that
      sees the closing flag or an accept failure ends it. */
  function CompletedTurns(turns: seq<AcceptTurn>): (n: nat)
    ensures n <= |turns|
    ensures forall j :: 0 <= j < n ==> KeepsAccepting(turns[j])
    ensures n < |turns| ==> !KeepsAccepting(turns[n])
    decreases |turns|
  {
    if turns == [] || !KeepsAccepting(turns[0]) then 0
    else 1 + CompletedTurns(turns[1..])
  }

  /** The clients handed to worker threads, in accept order. */
  function Clients(turns: seq<AcceptTurn>): (clients: seq<nat>)
    requires forall j :: 0 <= j < |turns| ==> turns[j].result.Accepted?
    ensures |clients| == |turns|
    ensures forall j :: 0 <= j < |turns| ==> clients[j] == turns[j].result.client
  {
    seq(|turns|, j requires 0 <= j < |turns| => turns[j].result.client)
  }

  /** `_accept_loop` over a finite run of turns: one worker per accepted
      client, until the closing flag is seen or `accept` fails (or the turns
      run out). */
  method AcceptLoop(turns: seq<AcceptTurn>) returns (workers: seq<nat>, completed: nat)
    ensures completed == CompletedTurns(turns)
    ensures workers == Clients(turns[..completed])
  {
    workers := [];
    completed := 0;
    var stopped := false;
    while completed < |turns| && !stopped
      invariant completed <= |turns|
      invariant forall j :: 0 <= j < completed ==> KeepsAccepting(turns[j])
      invariant stopped ==> completed < |turns| && !KeepsAccepting(turns[completed])
      invariant workers == Clients(turns[..completed])
      decreases |turns| - completed, if stopped then 0 else 1
    {
      var turn := turns[completed];
      if turn.closing {
        stopped := true;
      } else {
        match turn.result
        case AcceptFailed =>
          stopped := true;
        case Accepted(client) =>
          workers := workers + [client];
          completed := completed + 1;
      }
    }
    CompletedTurnsUnique(turns, completed);
  }

  /** The completed-turn count is the only prefix of continuing turns that
      ends at a stopping turn or at the end. */
  lemma CompletedTurnsUnique(turns: seq<AcceptTurn>, n: nat)
    requires n <= |turns|
    requires forall j :: 0 <= j < n ==> KeepsAccepting(turns[j])
    requires n < |turns| ==> !KeepsAccepting(turns[n])
    ensures n == CompletedTurns(turns)
  {
  }

  /** No client is accepted at or after a turn that sees the closing flag or
      an accept failure. */
  lemma AcceptLoopStops(turns: seq<AcceptTurn>, j: nat)
    requires j < |turns| && (turns[j].closing || turns[j].result.AcceptFailed?)
    ensures CompletedTurns(turns) <= j
  {
  }
}
