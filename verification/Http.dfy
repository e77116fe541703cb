/**
 HTTP/1 connections: the connection-reuse handler of
 monolake-services/src/http/handlers/connection_persistence.rs directly under the connection
 loop `h1_svc` of monolake-services/src/http/core.rs.
 */
module ConnectionReuse {
  import opened Wrappers

  datatype Version = Http09 | Http10 | Http11 | Http2 | Http3

  /** A header may occur several times; absent headers are not in the map. */
  type Headers = map<string, seq<string>>

  /** The parts of a request or response that the handler looks at, and an opaque body. */
  datatype Head = Head(version: Version, headers: Headers, payload: string)

  const CONNECTION: string := "connection"
  const CLOSE: string := "close"
  const KEEPALIVE: string := "Keep-Alive"

  /** The inner handler, with its error type left opaque: a response and whether to continue. */
  type Inner = Head -> Result<(Head, bool), string>

  function Lower(c: char): char {
    if 'A' <= c <= 'Z' then (c as int + 32) as char else c
  }

  predicate EqIgnoreCase(a: string, b: string) {
    |a| == |b| && forall k :: 0 <= k < |a| ==> Lower(a[k]) == Lower(b[k])
  }

  /** The two values that matter, letter by letter. */
  lemma InAnyCase(v: string)
    ensures EqIgnoreCase(v, CLOSE) <==>
            |v| == 5 && v[0] in "cC" && v[1] in "lL" && v[2] in "oO" && v[3] in "sS" && v[4] in "eE"
    ensures EqIgnoreCase(v, KEEPALIVE) <==>
            && |v| == 10 && v[0] in "kK" && v[1] in "eE" && v[2] in "eE" && v[3] in "pP" && v[4] == '-'
            && v[5] in "aA" && v[6] in "lL" && v[7] in "iI" && v[8] in "vV" && v[9] in "eE"
  {
  }

  /** The values of all Connection headers. */
  function Connection(h: Headers): seq<string> {
    if CONNECTION in h then h[CONNECTION] else []
  }

  /** `is_conn_keepalive`: only the first Connection header counts, and only as a whole. */
  predicate IsConnKeepalive(h: Headers, version: Version) {
    match version
    case Http10 => Connection(h) != [] && EqIgnoreCase(Connection(h)[0], KEEPALIVE)
    case Http11 => Connection(h) == [] || !EqIgnoreCase(Connection(h)[0], CLOSE)
    case _ => false
  }

  /** The request is HTTP/1.0 or 1.1, the only versions whose persistence the handler manages. */
  predicate Http1(request: Head) {
    request.version.Http10? || request.version.Http11?
  }

  /** Whether a response tells the client that the connection stays open, by the version the client speaks. */
  predicate AnnouncesPersistence(version: Version, response: Head) {
    match version
    case Http10 => Connection(response.headers) == [KEEPALIVE]
    case Http11 => Connection(response.headers) == []
    case _ => false
  }

  predicate Closes(response: Head) {
    exists v :: v in Connection(response.headers) && EqIgnoreCase(v, CLOSE)
  }

  /** The request as the inner handler sees it. */
  function Upgraded(request: Head): (seen: Head)
    ensures Http1(request) ==>
              && seen.version == Http11 && seen.payload == request.payload
              && seen.headers.Keys == request.headers.Keys - {"connection"}
              && forall name :: name in seen.headers ==> seen.headers[name] == request.headers[name]
    ensures !Http1(request) ==> seen == request
  {
    if request.version.Http10? || request.version.Http11?
    then Head(Http11, request.headers - {CONNECTION}, request.payload)
    else request
  }

  /**
   `ConnectionReuseHandler::call`.  For HTTP/1.0 and 1.1 the connection goes on exactly when the
   inner handler and the client both want that, and exactly then the response says so to a client
   that follows the RFC; nothing but the Connection header and, for 1.0, the version of the
   response is touched.  `seen` is the request passed on: HTTP/1.1 without a Connection header.
   */
  method Call(inner: Inner, original: Head) returns (r: Result<(Head, bool), string>, seen: Head)
    ensures var v := original.version;
            if v == Http10 || v == Http11 then
              && seen.version == Http11 && "connection" !in seen.headers && seen.payload == original.payload
              && forall name :: name != "connection" ==>
                   (name in seen.headers <==> name in original.headers)
                   && (name in seen.headers ==> seen.headers[name] == original.headers[name])
            else seen == original
    ensures seen == Upgraded(original)
    ensures inner(seen).Err? ==> r == inner(seen)
    ensures inner(seen).Ok? ==> r.Ok? && Adjusts(original, inner(seen).value, r.value)
    ensures r.Ok? && Http1(original) ==>
              var (response, cont), (answer, wish) := r.value, inner(seen).value;
              && cont == (wish && IsConnKeepalive(original.headers, original.version))
              && cont == RfcPersists(Connection(response.headers), original.version)
              && response.payload == answer.payload
              && response.version == (if original.version == Http10 then Http10 else answer.version)
              && forall name :: name != "connection" ==>
                   (name in response.headers <==> name in answer.headers)
                   && (name in response.headers ==> response.headers[name] == answer.headers[name])
    ensures r.Ok? && !Http1(original) ==> r.value == (inner(seen).value.0, original.version == Http2)
  {
    hide RfcPersists, HasOption;
    seen := original;
    var request := original;
    var version := request.version;
    var keepalive := IsConnKeepalive(request.headers, version);
    match version {
      case Http10 =>
        request := request.(version := Http11);
        request := request.(headers := request.headers - {CONNECTION});
        seen := request;
        var reply := inner(request);
        if reply.Err? {
          return reply, seen;
        }
        var (response, cont) := reply.value;
        cont := cont && keepalive;
        response := response.(headers := response.headers - {CONNECTION});
        if cont {
          response := response.(headers := response.headers[CONNECTION := [KEEPALIVE]]);
        }
        response := response.(version := version);
        r := Ok((response, cont));
        ReplyReads(original, reply.value, r.value);
      case Http11 =>
        request := request.(headers := request.headers - {CONNECTION});
        seen := request;
        var reply := inner(request);
        if reply.Err? {
          return reply, seen;
        }
        var (response, cont) := reply.value;
        cont := cont && keepalive;
        response := response.(headers := response.headers - {CONNECTION});
        if !cont {
          response := response.(headers := response.headers[CONNECTION := [CLOSE]]);
          assert CLOSE in Connection(response.headers);
        }
        r := Ok((response, cont));
        ReplyReads(original, reply.value, r.value);
      case Http2 =>
        var reply := inner(request);
        if reply.Err? {
          return reply, seen;
        }
        r := Ok((reply.value.0, true));
      case _ =>
        var reply := inner(request);
        if reply.Err? {
          return reply, seen;
        }
        r := Ok((reply.value.0, false));
    }
  }

  /** What a client reads off the three Connection lists that a response can carry. */
  lemma AnnouncedOptions()
    ensures !RfcPersists([], Http10) && RfcPersists([], Http11)
    ensures RfcPersists([KEEPALIVE], Http10) && !RfcPersists([CLOSE], Http11)
    ensures HasOption([CLOSE], CLOSE) && !HasOption([KEEPALIVE], CLOSE) && !HasOption([], CLOSE)
  {
    SingleTokenOptions([KEEPALIVE], KEEPALIVE);
    SingleTokenOptions([KEEPALIVE], CLOSE);
    SingleTokenOptions([CLOSE], CLOSE);
  }

  /** How a reply relates to the request and to what the inner handler answered. */
  predicate Adjusts(request: Head, answer: (Head, bool), reply: (Head, bool)) {
    var v := request.version;
    if v.Http10? || v.Http11? then
      && reply.1 == (answer.1 && IsConnKeepalive(request.headers, v))
      && Connection(reply.0.headers) ==
         (if v.Http10? && reply.1 then [KEEPALIVE] else if v.Http11? && !reply.1 then [CLOSE] else [])
      && (AnnouncesPersistence(v, reply.0) <==> reply.1)
      && (Closes(reply.0) <==> v.Http11? && !reply.1)
      && reply.0.headers - {CONNECTION} == answer.0.headers - {CONNECTION}
      && reply.0.payload == answer.0.payload
      && reply.0.version == if v.Http10? then v else answer.0.version
    else
      reply == (answer.0, v.Http2?)
  }

  /** What a client that follows the RFC reads off the reply, and what is left as it was. */
  lemma ReplyReads(request: Head, answer: (Head, bool), reply: (Head, bool))
    requires Http1(request) && Adjusts(request, answer, reply)
    ensures reply.1 == RfcPersists(Connection(reply.0.headers), request.version)
    ensures forall name :: name != "connection" ==>
              (name in reply.0.headers <==> name in answer.0.headers)
              && (name in reply.0.headers ==> reply.0.headers[name] == answer.0.headers[name])
  {
    AnnouncedOptions();
    hide RfcPersists, HasOption;
    var kept := reply.0.headers - {CONNECTION};
    assert kept == answer.0.headers - {CONNECTION};
    forall name | name != "connection"
      ensures name in reply.0.headers <==> name in answer.0.headers
      ensures name in reply.0.headers ==> reply.0.headers[name] == answer.0.headers[name]
    {
      assert name in kept <==> name in reply.0.headers;
    }
  }

  // ----- comparison with section 9.3 of RFC 9112 -----

  function CommaAt(s: string, i: nat): (k: nat)
    requires i <= |s|
    ensures i <= k <= |s| && (k < |s| ==> s[k] == ',') && forall j :: i <= j < k ==> s[j] != ','
    decreases |s| - i
  {
    if i == |s| || s[i] == ',' then i else CommaAt(s, i + 1)
  }

  predicate Blank(c: char) {
    c == ' ' || c == '\t'
  }

  function Trim(s: string): string {
    if s != [] && Blank(s[0]) then Trim(s[1..])
    else if s != [] && Blank(s[|s| - 1]) then Trim(s[..|s| - 1])
    else s
  }

  /** The options of one Connection header value: a comma-separated list with optional blanks. */
  function Options(value: string): seq<string>
    decreases |value|
  {
    var k := CommaAt(value, 0);
    [Trim(value[..k])] + if k < |value| then Options(value[k + 1..]) else []
  }

  predicate HasOption(values: seq<string>, option: string) {
    exists i :: 0 <= i < |values| && exists o :: o in Options(values[i]) && EqIgnoreCase(o, option)
  }

  /**
   Persistence by section 9.3 of RFC 9112: close wins, 1.1 persists by default, 1.0 on request.
   For 1.0 the RFC leaves it to the recipient to honour the request (and excludes forward proxies,
   which a gateway is not), so there this is permission to persist; without it, close is a must.
   */
  predicate RfcPersists(values: seq<string>, version: Version) {
    match version
    case Http11 => !HasOption(values, CLOSE)
    case Http10 => !HasOption(values, CLOSE) && HasOption(values, KEEPALIVE)
    case _ => false
  }

  /** At most one Connection header, holding one option without surrounding blanks. */
  predicate SingleToken(values: seq<string>) {
    values == [] ||
    (|values| == 1 && values[0] != [] && ',' !in values[0]
     && !Blank(values[0][0]) && !Blank(values[0][|values[0]| - 1]))
  }

  lemma SingleTokenOptions(values: seq<string>, option: string)
    requires SingleToken(values)
    ensures HasOption(values, option) <==> values != [] && EqIgnoreCase(values[0], option)
  {
    if values != [] {
      assert CommaAt(values[0], 0) == |values[0]|;
      assert values[0][..|values[0]|] == values[0];
      assert Options(values[0]) == [values[0]];
      assert values[0] in Options(values[0]);
    }
  }

  /** On single-token Connection values the handler decides persistence as the RFC does. */
  lemma SingleTokenFollowsRfc(h: Headers, version: Version)
    requires SingleToken(Connection(h))
    ensures IsConnKeepalive(h, version) == RfcPersists(Connection(h), version)
  {
    SingleTokenOptions(Connection(h), CLOSE);
    SingleTokenOptions(Connection(h), KEEPALIVE);
    if Connection(h) != [] {
      var v := Connection(h)[0];
      if EqIgnoreCase(v, CLOSE) && EqIgnoreCase(v, KEEPALIVE) {
        assert false;
      }
    }
  }

  /** A value with one comma holds the options before and after it. */
  lemma TwoOptions(v: string, k: nat)
    requires k < |v| && v[k] == ',' && ',' !in v[..k] && ',' !in v[k + 1..]
    ensures Options(v) == [Trim(v[..k]), Trim(v[k + 1..])]
  {
    var rest := v[k + 1..];
    assert forall j :: 0 <= j < k ==> v[..k][j] == v[j];
    assert CommaAt(v, 0) == k;
    NoComma(rest);
    assert Options(v) == [Trim(v[..k])] + Options(rest);
  }

  lemma NoComma(v: string)
    requires ',' !in v
    ensures Options(v) == [Trim(v)]
  {
    assert CommaAt(v, 0) == |v| && v[..|v|] == v;
  }

  /** A close option that stands in a list, or in a later header, is not seen. */
  lemma CloseInListIgnored()
    ensures var h: Headers := map["connection" := ["te, close"]];
            IsConnKeepalive(h, Http11) && !RfcPersists(Connection(h), Http11)
  {
    var v := "te, close";
    TwoOptions(v, 2);
    assert " close"[1..] == CLOSE;
    assert v[3..] == " close" && Trim(" close") == CLOSE;
    assert Options(v)[1] == CLOSE && CLOSE in Options(v);
    assert [v][0] == v;
  }

  /** An HTTP/1.0 connection is kept open against a close option in a second header. */
  lemma KeptOpenDespiteClose()
    ensures var h: Headers := map["connection" := ["Keep-Alive", "close"]];
            IsConnKeepalive(h, Http10) && !RfcPersists(Connection(h), Http10)
  {
    var values := ["Keep-Alive", "close"];
    SingleTokenOptions(["close"], CLOSE);
    assert ["close"][0] == values[1];
    assert HasOption(["close"], CLOSE);
    assert HasOption(values, CLOSE);
  }

  /** A request to keep an HTTP/1.0 connection that is declined, since another option stands beside it. */
  lemma ClosedDespiteKeepAlive()
    ensures var h: Headers := map["connection" := ["keep-alive, te"]];
            !IsConnKeepalive(h, Http10) && RfcPersists(Connection(h), Http10)
  {
    var v := "keep-alive, te";
    KeepAliveTe();
    KeepAliveIsItself();
    assert v in [v] && HasOption([v], KEEPALIVE) by {
      assert "keep-alive" in Options([v][0]);
    }
    hide Options, IsConnKeepalive;
    assert !HasOption([v], CLOSE);
  }

  lemma KeepAliveIsItself()
    ensures EqIgnoreCase("keep-alive", KEEPALIVE)
  {
  }

  lemma KeepAliveTe()
    ensures Options("keep-alive, te") == ["keep-alive", "te"]
  {
    var v := "keep-alive, te";
    TwoOptions(v, 10);
    assert v[..10] == "keep-alive" && Trim(v[..10]) == v[..10];
    assert v[11..] == " te" && v[11..][1..] == "te";
  }

  /** A value that is one of the two options as a whole is a single token. */
  lemma OptionIsToken(v: string, option: string)
    requires option == CLOSE || option == KEEPALIVE
    requires EqIgnoreCase(v, option)
    ensures SingleToken([v])
  {
    assert forall k :: 0 <= k < |option| ==> option[k] != ',' && !Blank(option[k]);
    assert forall k :: 0 <= k < |v| ==> Lower(v[k]) == Lower(option[k]);
  }

  /** A first value that is the option as a whole makes the RFC see the option too. */
  lemma WholeFirstValue(values: seq<string>, option: string)
    requires option == CLOSE || option == KEEPALIVE
    requires values != [] && EqIgnoreCase(values[0], option)
    ensures HasOption(values, option)
  {
    OptionIsToken(values[0], option);
    SingleTokenOptions([values[0]], option);
  }

  /**
   The real departure, exactly: a connection is kept open that the RFC requires to be closed.  For
   both versions a close option is there; for HTTP/1.1 it is not the whole of the first value, for
   HTTP/1.0 the first value is Keep-Alive.  The opposite does not happen for HTTP/1.1.
   */
  lemma KeptOpenExactly(h: Headers)
    ensures var c := Connection(h);
            && (IsConnKeepalive(h, Http11) && !RfcPersists(c, Http11)
                <==> HasOption(c, CLOSE) && !EqIgnoreCase(c[0], CLOSE))
            && (IsConnKeepalive(h, Http10) && !RfcPersists(c, Http10)
                <==> HasOption(c, CLOSE) && EqIgnoreCase(c[0], KEEPALIVE))
            && (RfcPersists(c, Http11) ==> IsConnKeepalive(h, Http11))
  {
    var c := Connection(h);
    if c != [] && EqIgnoreCase(c[0], CLOSE) {
      WholeFirstValue(c, CLOSE);
    }
    if c != [] && EqIgnoreCase(c[0], KEEPALIVE) {
      WholeFirstValue(c, KEEPALIVE);
    }
  }

  /**
   Exactly when handler and RFC differ.  For HTTP/1.1: a close option is there but is not the
   whole of the first Connection value.  For HTTP/1.0: the first value is Keep-Alive as a whole and
   a close option follows, or it is not and Keep-Alive stands elsewhere without a close option.
   */
  lemma DiffersFromRfcExactly(h: Headers)
    ensures var c := Connection(h);
            && (IsConnKeepalive(h, Http11) != RfcPersists(c, Http11) <==>
                HasOption(c, CLOSE) && !EqIgnoreCase(c[0], CLOSE))
            && (IsConnKeepalive(h, Http10) != RfcPersists(c, Http10) <==>
                c != [] && if EqIgnoreCase(c[0], KEEPALIVE) then HasOption(c, CLOSE)
                           else HasOption(c, KEEPALIVE) && !HasOption(c, CLOSE))
  {
    var c := Connection(h);
    if c != [] && EqIgnoreCase(c[0], CLOSE) {
      WholeFirstValue(c, CLOSE);
    }
    if c != [] && EqIgnoreCase(c[0], KEEPALIVE) {
      WholeFirstValue(c, KEEPALIVE);
    }
  }
}

module HttpCore {
  import opened Wrappers
  import opened Accompanying
  import opened ConnectionReuse

  datatype Decoded = HeaderTimeout | BadHeader | Eof | Request(head: Head)

  /**
   One turn of the connection as the outside world plays it: what the decoder yields, what the
   inner handler would answer this time, how many polls handler, payload and response take, how
   the latter two end, and the body deadline.
   */
  datatype Turn = Turn(
    decoded: Decoded,
    inner: Inner,
    handlerPolls: nat,
    fillPolls: nat, fill: Result<(), string>,
    sendPolls: nat, send: Result<(), string>,
    deadline: Option<nat>)

  /**
   What happened in one turn: the request, the response chosen for it, whether that was written
   completely, and whether the request body was read to its end after that.
   */
  datatype Round = Round(request: Head, response: Head, written: bool, drained: bool)

  /** `generate_response` with status 500 and the close flag. */
  const INTERNAL_ERROR: Head :=
    Head(Http11, map[CONNECTION := [CLOSE], "content-length" := ["0"]], "500")

  /** A response belongs to its request: it is the handler's reply to it, or the error page if that failed. */
  ghost predicate Answers(inner: Inner, request: Head, response: Head) {
    match inner(Upgraded(request))
    case Ok(answer) => exists cont :: Adjusts(request, answer, (response, cont))
    case Err(_) => response == INTERNAL_ERROR
  }

  /** A round after which the connection may go on. */
  ghost predicate MayContinue(inner: Inner, r: Round) {
    && r.written && r.drained
    && inner(Upgraded(r.request)).Ok?
    && (Http1(r.request) ==>
          AnnouncesPersistence(r.request.version, r.response) && !Closes(r.response)
          && IsConnKeepalive(r.request.headers, r.request.version))
  }

  /**
   The history of a connection: every request gets its own response, in order, and another
   request is decoded only after a response that was written, announced persistence to a client
   that asked for it, and whose request body was drained.  So a response that carries close, the
   error page included, is the last.
   */
  ghost predicate InStep(script: seq<Turn>, log: seq<Round>) {
    && |log| <= |script|
    && (forall i :: 0 <= i < |log| ==> Answers(script[i].inner, log[i].request, log[i].response))
    && (forall i :: 0 <= i < |log| - 1 ==> MayContinue(script[i].inner, log[i]))
  }

  /** Whether the reply to a request asks the connection loop to go on. */
  predicate WantsMore(request: Head, answer: (Head, bool)) {
    if Http1(request) then answer.1 && IsConnKeepalive(request.headers, request.version) else request.version.Http2?
  }

  /** What the outside world's part in a turn makes of it. */
  ghost predicate Plays(turn: Turn, r: Round) {
    && Answers(turn.inner, r.request, r.response)
    && match turn.inner(Upgraded(r.request))
       case Err(_) => r.written == turn.send.Ok? && !r.drained
       case Ok(answer) =>
         && r.written == (turn.send.Ok? && !(turn.deadline.Some? && turn.deadline.value < turn.sendPolls))
         && r.drained == (r.written && WantsMore(r.request, answer) && turn.fill.Ok?)
  }

  /** `h1_svc`; the handler may answer the same request differently every time. */
  method Serve(script: seq<Turn>) returns (log: seq<Round>)
    ensures InStep(script, log)
    ensures forall i :: 0 <= i < |log| ==>
              script[i].decoded == Request(log[i].request) && Plays(script[i], log[i])
    ensures |log| < |script| ==>
              !script[|log|].decoded.Request? || (log != [] && !MayContinue(script[|log| - 1].inner, log[|log| - 1]))
    ensures forall i :: 0 <= i < |log| ==>
              (match script[i].inner(Upgraded(log[i].request))
               case Ok(answer) => log[i].response.payload == answer.0.payload
               case Err(_) =>
                 log[i].response.payload == "500" && HasOption(Connection(log[i].response.headers), "close")
                 && i == |log| - 1)
    ensures forall i :: 0 <= i < |log| ==> i == |log| - 1 || (log[i].written && log[i].drained)
    ensures forall i :: 0 <= i < |log| && Http1(log[i].request) ==>
              i == |log| - 1
              || (&& RfcPersists(Connection(log[i].response.headers), log[i].request.version)
                  && IsConnKeepalive(log[i].request.headers, log[i].request.version)
                  && !HasOption(Connection(log[i].response.headers), "close"))
  {
    hide RfcPersists, HasOption, Adjusts, Closes, IsConnKeepalive, AnnouncesPersistence;
    log := [];
    for k := 0 to |script|
      invariant |log| == k && InStep(script, log)
      invariant forall i :: 0 <= i < k ==>
                  script[i].decoded == Request(log[i].request) && Plays(script[i], log[i])
      invariant log != [] ==> MayContinue(script[k - 1].inner, log[k - 1])
    {
      var turn := script[k];
      if !turn.decoded.Request? {
        break;
      }
      var round, goOn := Exchange(turn.decoded.head, turn);
      log := log + [round];
      if !goOn {
        break;
      }
    }
    forall i | 0 <= i < |log| {
      AnswerShows(script[i].inner, log[i]);
    }
    forall i | 0 <= i < |log| - 1 && Http1(log[i].request) {
      GoesOnOpenly(script[i].inner, log[i]);
    }
  }

  lemma AnswerShows(inner: Inner, r: Round)
    requires Answers(inner, r.request, r.response)
    ensures match inner(Upgraded(r.request))
            case Ok(answer) => r.response.payload == answer.0.payload
            case Err(_) => r.response.payload == "500" && HasOption(Connection(r.response.headers), "close")
  {
    AnnouncedOptions();
  }

  /** What a client that follows the RFC makes of a response after which the connection goes on. */
  lemma GoesOnOpenly(inner: Inner, r: Round)
    requires Answers(inner, r.request, r.response) && MayContinue(inner, r) && Http1(r.request)
    ensures RfcPersists(Connection(r.response.headers), r.request.version)
    ensures !HasOption(Connection(r.response.headers), "close")
  {
    AnnouncedOptions();
  }

  /** The body of the loop once a request has been decoded; `goOn` is false where the source breaks. */
  method Exchange(request: Head, turn: Turn) returns (r: Round, goOn: bool)
    ensures r.request == request && Plays(turn, r)
    ensures goOn <==> MayContinue(turn.inner, r)
    ensures turn.inner(Upgraded(request)).Err? ==>
              && r.response ==
                 Head(Http11, map["connection" := ["close"], "content-length" := ["0"]], "500")
              && HasOption(Connection(r.response.headers), "close")
              && r.written == turn.send.Ok? && !r.drained && !goOn
    ensures turn.inner(Upgraded(request)).Ok? ==>
              var answer := turn.inner(Upgraded(request)).value;
              && r.response.payload == answer.0.payload
              && r.written == (turn.send.Ok? && !(turn.deadline.Some? && turn.deadline.value < turn.sendPolls))
              && goOn == r.drained == (
                   r.written && turn.fill.Ok?
                   && if Http1(request) then answer.1 && IsConnKeepalive(request.headers, request.version)
                      else request.version == Http2)
  {
    AnnouncedOptions();
    var reply, seen := Call(turn.inner, request);
    var handling := new Future(reply, turn.handlerPolls);
    var filling := new Future(turn.fill, turn.fillPolls);
    var pair := new AccompanyPair(handling, filling, None);
    var res := pair.Await(None);
    match res.value {
      case Ok((response, shouldCont)) =>
        r, goOn := Round(request, response, false, false), false;
        var sending := new Future(turn.send, turn.sendPolls);
        var f := pair.Replace(sending);
        var written := f.Await(turn.deadline);
        if written.None? || written.value.Err? {
          return;
        }
        r := r.(written := true);
        if !shouldCont {
          return;
        }
        var rest := f.IntoAccompany();
        var filled := rest.Await();
        if filled.Err? {
          return;
        }
        r, goOn := r.(drained := true), true;
      case Err(_) =>
        r, goOn := Round(request, INTERNAL_ERROR, turn.send.Ok?, false), false;
    }
  }
}
