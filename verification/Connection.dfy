/** One client connection: receive, answer, send; and the end-to-end behaviour of the echo route. */
module Connection {
  import opened Wrappers
  import opened Text
  import opened Fields
  import opened Sections
  import opened ContentLength
  import opened HttpParser
  import opened RequestPrinter
  import opened Receive
  import opened HttpResponse
  import opened Router
  import Server

  // ---- Sending ----

  /** The result of one call of send: some bytes taken, an interruption, or a failure. */
  datatype SendEvent = Sent(n: nat) | SendInterrupted | SendFailed

  /** All sent, given up, or still waiting when the events run out, with the bytes on the wire. */
  datatype SendResult = Done(wire: string) | Broken(wire: string) | Blocked(wire: string)

  /** The length passed to send is an `int`. */
  const INT_RANGE := 0x8000_0000

  /** The loop of `send_all`; a call takes at most what is left, and taking nothing is a failure. */
  method SendAll(data: string, events: seq<SendEvent>) returns (r: SendResult)
    requires |data| < INT_RANGE
    ensures r.Done? ==> r.wire == data
    ensures r.wire <= data
    ensures r == SendFrom(data, 0, events)
  {
    var total, i, wire := 0, 0, "";
    while total < |data|
      invariant 0 <= total <= |data| && 0 <= i <= |events|
      invariant wire == data[..total]
      invariant SendFrom(data, total, events[i..]) == SendFrom(data, 0, events)
      decreases |events| - i
    {
      if i == |events| {
        return Blocked(wire);
      }
      var event := events[i];
      assert events[i..][1..] == events[i + 1..];
      i := i + 1;
      if event.SendFailed? || event == Sent(0) {
        return Broken(wire);
      }
      if event.Sent? {
        var sent := if event.n <= |data| - total then event.n else |data| - total;
        wire := wire + data[total..total + sent];
        total := total + sent;
      }
    }
    assert data[..|data|] == data;
    r := Done(wire);
  }

  ghost function SendFrom(data: string, total: nat, events: seq<SendEvent>): SendResult
    requires total <= |data| < INT_RANGE
    decreases |events|
  {
    if total == |data| then Done(data)
    else if events == [] then Blocked(data[..total])
    else
      match events[0]
      case SendInterrupted => SendFrom(data, total, events[1..])
      case SendFailed => Broken(data[..total])
      case Sent(0) => Broken(data[..total])
      case Sent(n) => SendFrom(data, if n <= |data| - total then total + n else |data|, events[1..])
  }

  /** A send that reports success has put every byte on the wire, in order. */
  lemma {:induction false} SentInFull(data: string, total: nat, events: seq<SendEvent>)
    requires total <= |data| < INT_RANGE
    ensures SendFrom(data, total, events).Done? ==> SendFrom(data, total, events).wire == data
    ensures SendFrom(data, total, events).wire <= data
    decreases |events|
  {
    if total < |data| && events != [] && !events[0].SendFailed? {
      match events[0]
      case SendInterrupted => SentInFull(data, total, events[1..]);
      case Sent(n) => SentInFull(data, if n <= |data| - total then total + n else |data|, events[1..]);
    }
  }

  /** The call failed for good, or reported nothing sent. */
  predicate GivesUp(e: SendEvent) {
    e.SendFailed? || e == Sent(0)
  }

  /** How many bytes the peer is willing to take before the first failure; interruptions take none. */
  function Taken(events: seq<SendEvent>): nat
    decreases |events|
  {
    if events == [] || GivesUp(events[0]) then 0
    else (if events[0].Sent? then events[0].n else 0) + Taken(events[1..])
  }

  /**
   What `send_all` does with any events: it succeeds exactly when the peer takes as many bytes as there
   are before any failure, it gives up exactly when a failure comes first, it waits otherwise; and the
   wire holds exactly as many bytes as were taken.
   */
  lemma {:induction false} SendExactly(data: string, total: nat, events: seq<SendEvent>)
    requires total <= |data| < INT_RANGE
    ensures var r, taken := SendFrom(data, total, events), total + Taken(events);
            && (r.Done? <==> taken >= |data|)
            && (r.Broken? <==> taken < |data| && exists i :: 0 <= i < |events| && GivesUp(events[i]))
            && (r.Blocked? <==> taken < |data| && forall i :: 0 <= i < |events| ==> !GivesUp(events[i]))
            && r.wire == data[..if taken < |data| then taken else |data|]
    decreases |events|
  {
    assert data[..|data|] == data;
    if total < |data| && events != [] {
      if GivesUp(events[0]) {
        assert SendFrom(data, total, events) == Broken(data[..total]);
      } else {
        var step := if events[0].Sent? then events[0].n else 0;
        var next := if step <= |data| - total then total + step else |data|;
        SendExactly(data, next, events[1..]);
        assert forall i :: 1 <= i < |events| ==> events[i] == events[1..][i - 1];
      }
    }
  }

  // ---- Answering ----

  /** The environment a handler runs in: limits, routes, files and the order in which maps are walked. */
  datatype Setup = Setup(maxHeader: nat, maxBody: nat, routes: Routes, file: Option<Response>, order: seq<string>)

  /** The response to a request as received (the body of the try block of `handle_client`). */
  function Respond(raw: string, setup: Setup): Response {
    var parsed := Parse(raw, setup.maxHeader, setup.maxBody);
    match parsed.error
    case Incomplete => Plain(BadRequest, "Incomplete request")
    case Malformed => Plain(BadRequest, "Malformed request")
    case HeaderTooLarge => Plain(PayloadTooLarge, "Payload Too Large")
    case BodyTooLarge => Plain(PayloadTooLarge, "Payload Too Large")
    case NoError => Handle(setup.routes, BuildRequest(parsed), setup.file, setup.order)
  }

  /**
   What `handle_client` sends: nothing when nothing arrived, the 500 answer of the catch block when an
   exception is `raised` before the outcome is recorded, and otherwise the response.
   */
  function Answer(raw: string, setup: Setup, raised: bool): Option<Response> {
    if raised then Some(Plain(InternalError, "Internal Server Error"))
    else if raw == "" then None
    else Some(Respond(raw, setup))
  }

  /** The outcome that `handle_client` records, if any. */
  function RecordedOutcome(raw: string, setup: Setup, raised: bool): Option<Server.Outcome> {
    if raised then Some(Server.ServerError)
    else if raw == "" then None
    else Some(ResponseOutcome(raw, setup))
  }

  function ResponseOutcome(raw: string, setup: Setup): Server.Outcome {
    if Parse(raw, setup.maxHeader, setup.maxBody).error != NoError then Server.ClientError
    else
      var code := Code(Respond(raw, setup).status);
      if 400 <= code < 500 then Server.ClientError
      else if code >= 500 then Server.ServerError
      else Server.Success
  }

  /** The class of a status code (section 15 of RFC 9110). */
  function CodeClass(code: nat): Server.Outcome {
    if code / 100 == 4 then Server.ClientError
    else if code / 100 >= 5 then Server.ServerError
    else Server.Success
  }

  /** The status codes with which a request that does not parse is refused, and the text that goes with them. */
  function RefusalCode(error: Error): nat
    requires error != NoError
  {
    if error == Incomplete || error == Malformed then 400 else 413
  }

  function RefusalText(error: Error): string
    requires error != NoError
  {
    match error
    case Incomplete => "Incomplete request"
    case Malformed => "Malformed request"
    case _ => "Payload Too Large"
  }

  /**
   Whatever bytes arrive, whether or not an exception is raised and however the maps are walked: an
   answer is sent and an outcome recorded except when nothing arrived; the answer reads back as a
   response with one Content-Length, the length of its body; its code is 500 after an exception and
   the refusal code if the request does not parse; the outcome is the class of that code.
   */
  lemma EveryAnswerReadable(raw: string, setup: Setup, raised: bool, walk: seq<string>)
    requires FramedRoutes(setup.routes) && (setup.file.Some? ==> Framed(setup.file.value)) && AllNames(setup.order)
    ensures var answer, outcome := Answer(raw, setup, raised), RecordedOutcome(raw, setup, raised);
            var error := Parse(raw, setup.maxHeader, setup.maxBody).error;
            && (answer.None? <==> raw == "" && !raised)
            && (outcome.None? <==> answer.None?)
            && (answer.Some? && IsOrder(walk, answer.value.headers) ==>
                  var seen := ReadResponse(Serialize(answer.value, walk));
                  && seen.Some? && Delimits(seen.value.headers, seen.value.body)
                  && (raised ==> seen.value.code == 500 && seen.value.body == "Internal Server Error")
                  && (!raised && error != NoError ==>
                        seen.value.code == RefusalCode(error) && seen.value.body == RefusalText(error))
                  && outcome == Some(CodeClass(seen.value.code)))
  {
    hide Parse, Handle, Serialize, ReadResponse, Make, FramedRoutes, BuildRequest, ToDecimal;
    assert OneLine("text/plain");
    FactoriesFrame(InternalError, "Internal Server Error", "text/plain");
    RespondFramed(raw, setup);
    var answer := Answer(raw, setup, raised);
    if answer.Some? && IsOrder(walk, answer.value.headers) {
      ResponseRoundTrip(answer.value, walk);
    }
  }

  lemma RespondFramed(raw: string, setup: Setup)
    requires FramedRoutes(setup.routes) && (setup.file.Some? ==> Framed(setup.file.value)) && AllNames(setup.order)
    ensures Framed(Respond(raw, setup))
    ensures var error := Parse(raw, setup.maxHeader, setup.maxBody).error;
            error != NoError ==>
              Code(Respond(raw, setup).status) == RefusalCode(error) && Respond(raw, setup).body == RefusalText(error)
  {
    hide Parse, Handle, Make, FramedRoutes, BuildRequest, ToDecimal;
    assert OneLine("text/plain");
    FactoriesFrame(BadRequest, "Incomplete request", "text/plain");
    FactoriesFrame(BadRequest, "Malformed request", "text/plain");
    FactoriesFrame(PayloadTooLarge, "Payload Too Large", "text/plain");
    HandleFramed(setup.routes, BuildRequest(Parse(raw, setup.maxHeader, setup.maxBody)), setup.file, setup.order);
  }

  /** The header map of the refusal when the queue is full. */
  function RefusalHeaders(): map<string, string> {
    map["Content-Length" := "19", "Content-Type" := "text/plain", "Connection" := "close", "Retry-After" := "5"]
  }

  lemma RefusalHeadersAre()
    ensures Unavailable().headers == RefusalHeaders()
  {
    assert ToDecimal(19) == ToDecimal(1) + "9" == "19";
    assert |"Service Unavailable"| == 19;
    var headers := Unavailable().headers;
    assert headers["Content-Length"] == "19";
  }

  lemma {:induction false} WalkLength(walk: seq<string>, headers: map<string, string>)
    requires IsOrder(walk, headers)
    ensures |walk| == |headers|
    decreases |walk|
  {
    if walk == [] {
      assert headers == map[] by {
        assert forall k :: k in headers ==> k in walk;
      }
    } else {
      var rest := headers - {walk[0]};
      assert walk[0] in walk;
      forall k ensures k in walk[1..] <==> k in rest {
        assert k in walk[1..] ==> k in walk;
        assert k in walk ==> k == walk[0] || k in walk[1..];
      }
      WalkLength(walk[1..], rest);
      assert headers.Keys == rest.Keys + {walk[0]};
      assert |headers.Keys| == |headers| && |rest.Keys| == |rest|;
    }
  }

  /** Lines of bounded length print to a text of bounded length. */
  lemma {:induction false} TerminatedLength(lines: seq<string>, bound: nat)
    requires forall i :: 0 <= i < |lines| ==> |lines[i]| <= bound
    ensures |Terminated(lines)| <= |lines| * (bound + 2)
  {
    if lines != [] {
      TerminatedLength(lines[1..], bound);
    }
  }

  /** The refusal is short, whatever the order of its headers. */
  lemma RefusalShort(walk: seq<string>)
    requires IsOrder(walk, RefusalHeaders())
    ensures Unavailable().headers == RefusalHeaders() && |Serialize(Unavailable(), walk)| < INT_RANGE
  {
    hide Terminated, Unavailable;
    RefusalHeadersAre();
    var lines := FieldLines(FieldsIn(walk, RefusalHeaders()));
    forall i | 0 <= i < |lines| ensures |lines[i]| <= 30 {
      assert walk[i] in walk;
    }
    TerminatedLength(lines, 30);
    WalkLength(walk, RefusalHeaders());
    RefusalLines();
  }

  lemma RefusalLines()
    ensures |RefusalHeaders()| == 4 && |StatusLine(ServiceUnavailable)| == 32
    ensures Unavailable().status == ServiceUnavailable && |Unavailable().body| == 19
  {
    var headers := RefusalHeaders();
    assert headers.Keys == {"Content-Length", "Content-Type", "Connection", "Retry-After"};
    assert ToDecimal(503) == ToDecimal(50) + "3" && ToDecimal(50) == ToDecimal(5) + "0";
  }

  /** A refused connection is told 503 and when to retry, in any header order and any pieces, if the peer takes them. */
  lemma RefusalOnTheWire(walk: seq<string>, sends: seq<SendEvent>)
    requires IsOrder(walk, RefusalHeaders())
    ensures Unavailable().headers == RefusalHeaders()
    ensures var text := Serialize(Unavailable(), walk);
            && |text| < INT_RANGE
            && (Taken(sends) >= |text| ==>
                  && SendFrom(text, 0, sends).Done?
                  && ReadResponse(SendFrom(text, 0, sends).wire)
                     == Some(Seen(503, "Service Unavailable", RefusalHeaders(), "Service Unavailable")))
  {
    hide ReadResponse, Serialize, SendFrom;
    var r := Unavailable();
    RefusalShort(walk);
    UnavailableFrames();
    ResponseRoundTrip(r, walk);
    SendExactly(Serialize(r, walk), 0, sends);
    SentInFull(Serialize(r, walk), 0, sends);
  }

  /** The header map of the echo answer. */
  function EchoHeaders(body: string): map<string, string> {
    map["Content-Length" := ToDecimal(|body|), "Content-Type" := "text/plain", "Connection" := "close"]
  }

  lemma EmptyIncomplete(maxHeader: nat, maxBody: nat)
    ensures Parse("", maxHeader, maxBody).error == Incomplete
  {
    FindFirst("", BLANK, 0);
  }

  lemma EchoResponse(m: Message, k: nat, raw: string, setup: Setup, page: string -> Handler)
    requires Printable(m) && DeclaresLength(m, k) && m.method_ == "POST" && m.path == "/echo"
    requires |PrintHead(m, m.fields)| + 2 <= setup.maxHeader && |m.body| <= setup.maxBody
    ensures setup.routes == DefaultRoutes(page)
            && Parse(raw, setup.maxHeader, setup.maxBody) == Parse(PrintRequest(m), setup.maxHeader, setup.maxBody)
            ==> Answer(raw, setup, false) == Some(OkResponse(m.body, "text/plain"))
  {
    EmptyIncomplete(setup.maxHeader, setup.maxBody);
    hide Parse, PrintRequest, PrintHead, DefaultRoutes, Make, BuildRequest, DeclaresLength, Printable;
    RequestRoundTrip(m, k, setup.maxHeader, setup.maxBody);
    EchoAnswers(page, Meaning(m), setup.file, setup.order);
  }

  /** Answering `raw`, printing in the order `walk` and sending in the pieces `sends` echoes `body`. */
  ghost predicate Echoes(raw: string, setup: Setup, walk: seq<string>, sends: seq<SendEvent>, body: string) {
    var answer := Answer(raw, setup, false);
    && answer.Some? && answer.value.headers == EchoHeaders(body)
    && (IsOrder(walk, answer.value.headers) ==>
          var text := Serialize(answer.value, walk);
          |text| < INT_RANGE && Taken(sends) >= |text| ==>
            && SendFrom(text, 0, sends).Done?
            && ReadResponse(SendFrom(text, 0, sends).wire) == Some(Seen(200, "OK", EchoHeaders(body), body)))
  }

  lemma OkEchoes(raw: string, setup: Setup, walk: seq<string>, sends: seq<SendEvent>, body: string)
    requires Answer(raw, setup, false) == Some(OkResponse(body, "text/plain"))
    ensures Echoes(raw, setup, walk, sends, body)
  {
    hide Answer, ReadResponse, Serialize, SendFrom, ToDecimal;
    var response := OkResponse(body, "text/plain");
    assert OneLine("text/plain");
    FactoriesFrame(Ok, body, "text/plain");
    assert response.headers == EchoHeaders(body);
    if IsOrder(walk, response.headers) {
      ResponseRoundTrip(response, walk);
      if |Serialize(response, walk)| < INT_RANGE {
        SendExactly(Serialize(response, walk), 0, sends);
        SentInFull(Serialize(response, walk), 0, sends);
      }
    }
  }

  /**
   End to end: a printed POST /echo request, delivered in any chunks (and followed by anything),
   parsed, routed, printed in any header order and sent in any pieces to a peer that takes them all,
   puts on the wire a response that reads back as 200 with the body's length and exactly the body.
   */
  lemma EchoEndToEnd(m: Message, k: nat, setup: Setup, page: string -> Handler,
                     received: seq<Event>, walk: seq<string>, sends: seq<SendEvent>)
    requires Printable(m) && DeclaresLength(m, k) && m.method_ == "POST" && m.path == "/echo"
    requires |PrintHead(m, m.fields)| + 2 <= setup.maxHeader && |m.body| <= setup.maxBody
    ensures setup.routes == DefaultRoutes(page)
            && PrintRequest(m) <= Stream(received) && Unbroken("", setup.maxBody, received)
            ==> var r := RecvRequest(setup.maxHeader, setup.maxBody, received);
                r.Returned? && Echoes(r.request, setup, walk, sends, m.body)
  {
    hide Parse, PrintRequest, PrintHead, DefaultRoutes, DeclaresLength, Printable, RecvRequest, Stream,
         Unbroken, Answer, Echoes, NamesLength;
    if setup.routes == DefaultRoutes(page) && PrintRequest(m) <= Stream(received) && Unbroken("", setup.maxBody, received) {
      PrintedParses(m, k, setup.maxHeader, setup.maxBody);
      CompleteRequestReceived(PrintRequest(m), setup.maxHeader, setup.maxBody, received);
      var raw := RecvRequest(setup.maxHeader, setup.maxBody, received).request;
      EchoResponse(m, k, raw, setup, page);
      OkEchoes(raw, setup, walk, sends, m.body);
    }
  }

  // ---- Files ----

  /** The request, with or without a declared length, fits the limits. */
  ghost predicate Fits(m: Message, k: nat, setup: Setup) {
    && Printable(m) && |PrintHead(m, m.fields)| + 2 <= setup.maxHeader
    && (DeclaresNone(m) || (DeclaresLength(m, k) && |m.body| <= setup.maxBody))
  }

  lemma PrintedAnswer(m: Message, k: nat, setup: Setup)
    requires Fits(m, k, setup)
    ensures Answer(PrintRequest(m), setup, false) == Some(Handle(setup.routes, Meaning(m), setup.file, setup.order))
  {
    hide Parse, PrintRequest, PrintHead, BuildRequest, DeclaresLength, DeclaresNone, Printable, Handle;
    EmptyIncomplete(setup.maxHeader, setup.maxBody);
    if DeclaresNone(m) {
      UndeclaredRoundTrip(m, setup.maxHeader, setup.maxBody);
    } else {
      RequestRoundTrip(m, k, setup.maxHeader, setup.maxBody);
    }
  }

  /**
   From the bytes of a request to the answer, for a path that is not in the table: GET gets the file as
   it is, HEAD its status and headers with no body and length zero, and whatever finds no file, or asks
   with another method, is told 404.
   */
  lemma FilesEndToEnd(m: Message, k: nat, setup: Setup)
    requires Fits(m, k, setup) && m.path !in setup.routes
    ensures var answer := Answer(PrintRequest(m), setup, false);
            && answer.Some?
            && (m.method_ == "GET" && setup.file.Some? ==> answer == setup.file)
            && (m.method_ == "HEAD" && setup.file.Some? ==>
                  && answer.value.status == setup.file.value.status && answer.value.body == ""
                  && answer.value.headers == setup.file.value.headers["Content-Length" := "0"])
            && (setup.file.None? || (m.method_ != "GET" && m.method_ != "HEAD") ==>
                  answer.value.status == NotFound && answer.value.body == "Not Found")
  {
    hide PrintRequest, Fits, Answer, AddFields;
    PrintedAnswer(m, k, setup);
    KindIs(m);
    if setup.file.Some? {
      FileAnswers(setup.routes, Meaning(m), setup.file.value, setup.order);
    }
  }

  // ---- The plainest requests ----

  /** The plainest echo request for a body. */
  function EchoRequest(body: string): Message {
    Message("POST", "/echo", "HTTP/1.1", [Field("Content-Length", ToDecimal(|body|))], body)
  }

  lemma RequestLineHasNoField()
    ensures Find(Lower("POST /echo HTTP/1.1\r\n"), FIELD, 0).None?
  {
    var head := "POST /echo HTTP/1.1\r\n";
    FindFirst(Lower(head), FIELD, 0);
    var found := Find(Lower(head), FIELD, 0);
    assert forall i :: 0 <= i < |head| ==> head[i] != ':';
    if found.Some? {
      ColonFollows(head, found.value);
    }
  }

  lemma LengthFieldPrintable(n: nat)
    ensures PrintableField(Field("Content-Length", ToDecimal(n)))
    ensures Lower("Content-Length") + ":" == FIELD
  {
    hide ToDecimal;
    DigitsClean(n);
    var digits := ToDecimal(n);
    assert IsDigit(digits[0]) && IsDigit(digits[|digits| - 1]);
  }

  /** It meets the conditions of the end-to-end theorem, for every body. */
  lemma EchoRequestPrintable(body: string)
    requires |body| <= UINT64_MAX
    ensures Printable(EchoRequest(body)) && DeclaresLength(EchoRequest(body), 0)
  {
    hide Lower, ToDecimal, Find, PrintableField;
    var m := EchoRequest(body);
    LengthFieldPrintable(|body|);
    RequestLineHasNoField();
    assert NoSpace("POST") && NoSpace("/echo") && NoSpace("HTTP/1.1");
    assert m.fields[..0] == [];
    assert PrintHead(m, []) == "POST /echo HTTP/1.1\r\n";
  }

  /** And it can be delivered: byte by byte, for one. */
  lemma EchoRequestDeliverable(body: string, maxBody: nat)
    ensures var text := PrintRequest(EchoRequest(body));
            text <= Stream(ByteByByte(text, 0)) && Unbroken("", maxBody, ByteByByte(text, 0))
  {
    hide PrintRequest, Stream, ByteByByte;
    var text := PrintRequest(EchoRequest(body));
    ByteByByteDelivers(text, 0, maxBody);
    assert text[..0] == "" && text[0..] == text;
  }
}
