/**
 Receiving a request from a socket.  Each call of recv yields one event; a run of the server
 sees some sequence of them.
 */
module Receive {
  import opened Wrappers
  import opened Text
  import opened ContentLength
  import opened HttpParser

  /** The buffer is 4096 bytes, of which one is kept for a terminator. */
  const CHUNK: nat := 4095

  datatype Event = Data(bytes: string) | Interrupted | Eof | Failed

  /** Either the request as returned, or the bytes so far when the events run out first. */
  datatype Received = Returned(request: string) | Waiting(request: string)

  ghost predicate ValidEvents(events: seq<Event>) {
    forall i :: 0 <= i < |events| && events[i].Data? ==> 1 <= |events[i].bytes| <= CHUNK
  }

  /** The inner loop: read on until `length` or `maxBody` bytes follow the header; any event but data stops it. */
  function ReceiveBody(request: string, header: nat, length: nat, maxBody: nat, events: seq<Event>): Received
    requires header <= |request|
    decreases |events|
  {
    var soFar := |request| - header;
    if soFar >= length || soFar >= maxBody then Returned(request)
    else if events == [] then Waiting(request)
    else if events[0].Data? then ReceiveBody(request + events[0].bytes, header, length, maxBody, events[1..])
    else Returned(request)
  }

  /** What happens once a blank line has arrived. */
  function ReceiveRest(request: string, maxBody: nat, events: seq<Event>): Received
    requires Find(request, BLANK, 0).Some?
  {
    match Declaration(request, 0)
    case Length(n) => ReceiveBody(request, Find(request, BLANK, 0).value + 4, n, maxBody, events)
    case _ => Returned(request)
  }

  /** The outer loop: read until a blank line, the header limit, the end of the stream or an error. */
  function ReceiveHead(request: string, maxHeader: nat, maxBody: nat, events: seq<Event>): Received
    decreases |events|
  {
    if events == [] then Waiting(request)
    else
      match events[0]
      case Interrupted => ReceiveHead(request, maxHeader, maxBody, events[1..])
      case Eof => Returned(request)
      case Failed => Returned(request)
      case Data(bytes) =>
        var more := request + bytes;
        if Find(more, BLANK, 0).Some? then ReceiveRest(more, maxBody, events[1..])
        else if |more| > maxHeader then Returned(more)
        else ReceiveHead(more, maxHeader, maxBody, events[1..])
  }

  /** The whole of `recv_request`. */
  function RecvRequest(maxHeader: nat, maxBody: nat, events: seq<Event>): Received {
    ReceiveHead("", maxHeader, maxBody, events)
  }

  /** The source's nested loops over the stream of events. */
  method RecvRequestLoop(maxHeader: nat, maxBody: nat, events: seq<Event>) returns (r: Received)
    ensures r == RecvRequest(maxHeader, maxBody, events)
  {
    var request, i := "", 0;
    while i < |events|
      invariant 0 <= i <= |events|
      invariant ReceiveHead(request, maxHeader, maxBody, events[i..]) == RecvRequest(maxHeader, maxBody, events)
    {
      var event := events[i];
      assert events[i..][1..] == events[i + 1..];
      i := i + 1;
      if event.Eof? || event.Failed? {
        return Returned(request);
      }
      if event.Data? {
        request := request + event.bytes;
        if Find(request, BLANK, 0).Some? {
          r := FinishReceiving(request, maxBody, events, i);
          return;
        }
        if |request| > maxHeader {
          return Returned(request);
        }
      }
    }
    r := Waiting(request);
  }

  method FinishReceiving(request: string, maxBody: nat, events: seq<Event>, from: nat) returns (r: Received)
    requires Find(request, BLANK, 0).Some? && from <= |events|
    ensures r == ReceiveRest(request, maxBody, events[from..])
  {
    var lower := LowerCase(request);
    var found := Find(lower, FIELD, 0);
    if found == None {
      return Returned(request);
    }
    var colon := Find(request, ":", found.value);
    var eol := if colon.Some? then Find(request, CRLF, colon.value) else None;
    if colon == None || eol == None {
      return Returned(request);
    }
    assert eol.value > colon.value by { SkipPastColon(request, found.value); }
    var value := request[colon.value + 1..eol.value];
    assert FieldValue(request, found.value, 0) == Some(value);
    var number := Stoull(TrimLeft(value));
    if number == None {
      return Returned(request);
    }
    r := ReadOn(request, Find(request, BLANK, 0).value + 4, number.value, maxBody, events, from);
  }

  method ReadOn(start: string, header: nat, length: nat, maxBody: nat, events: seq<Event>, from: nat) returns (r: Received)
    requires header <= |start| && from <= |events|
    ensures r == ReceiveBody(start, header, length, maxBody, events[from..])
  {
    var request, i := start, from;
    while |request| - header < length && |request| - header < maxBody
      invariant from <= i <= |events| && header <= |request|
      invariant ReceiveBody(request, header, length, maxBody, events[i..])
             == ReceiveBody(start, header, length, maxBody, events[from..])
      decreases |events| - i
    {
      if i == |events| {
        return Waiting(request);
      }
      if !events[i].Data? {
        break;
      }
      assert events[i..][1..] == events[i + 1..];
      request := request + events[i].bytes;
      i := i + 1;
    }
    r := Returned(request);
  }

  lemma SkipPastColon(text: string, at: nat)
    requires Find(text, ":", at).Some? && Find(text, CRLF, Find(text, ":", at).value).Some?
    ensures Find(text, CRLF, Find(text, ":", at).value).value > Find(text, ":", at).value
  {
    var colon := Find(text, ":", at).value;
    FindFirst(text, ":", at);
    FindFirst(text, CRLF, colon);
    assert text[colon..colon + 1][0] == ':';
    CrLfChars(text, colon);
  }

  // ---- What is received ----

  /** The bytes the peer delivers before the stream ends or fails. */
  function Stream(events: seq<Event>): string
    decreases |events|
  {
    if events == [] || events[0].Eof? || events[0].Failed? then ""
    else if events[0].Data? then events[0].bytes + Stream(events[1..])
    else Stream(events[1..])
  }

  /** The stream ends or fails somewhere in these events. */
  ghost predicate Ended(events: seq<Event>)
    decreases |events|
  {
    events != [] && (events[0].Eof? || events[0].Failed? || Ended(events[1..]))
  }

  /** A request whose header is complete needs no more bytes: it declares no length, or has them, or is too long. */
  ghost predicate Settled(p: string, maxBody: nat) {
    && Find(p, BLANK, 0).Some?
    && (match Declaration(p, 0)
        case Length(n) => var body := |p| - Find(p, BLANK, 0).value - 4; body >= n || body >= maxBody
        case _ => true)
  }

  /**
   No receive is interrupted while the bytes received, starting with `sofar`, hold a blank line and
   still lack part of the declared body.  Interruptions before the header ends are harmless.
   */
  ghost predicate Unbroken(sofar: string, maxBody: nat, events: seq<Event>)
    decreases |events|
  {
    || events == []
    || (match events[0]
        case Data(bytes) => Unbroken(sofar + bytes, maxBody, events[1..])
        case Interrupted =>
          (Find(sofar, BLANK, 0).None? || Settled(sofar, maxBody)) && Unbroken(sofar, maxBody, events[1..])
        case _ => true)
  }

  /** The blank line and the length that were found stay where they are. */
  lemma FoundStays(request: string, bytes: string)
    requires Find(request, BLANK, 0).Some? && (Declaration(request, 0).Length? || Declaration(request, 0).Bad?)
    ensures Find(request + bytes, BLANK, 0) == Find(request, BLANK, 0)
    ensures Declaration(request + bytes, 0) == Declaration(request, 0)
  {
    hide Declaration, Find;
    FindStable(request, bytes, BLANK, 0);
    DeclarationStable(request, bytes, 0);
  }

  lemma {:induction false} BodyReads(request: string, maxBody: nat, events: seq<Event>)
    requires Find(request, BLANK, 0).Some? && Declaration(request, 0).Length? && Unbroken(request, maxBody, events)
    ensures var r := ReceiveBody(request, Find(request, BLANK, 0).value + 4, Declaration(request, 0).n, maxBody, events);
            var p, w := r.request, request + Stream(events);
            && request <= p <= w
            && (p == w || Settled(p, maxBody))
            && (r.Waiting? ==> p == w && !Settled(p, maxBody) && !Ended(events))
    decreases |events|
  {
    hide Declaration, Find;
    if !Settled(request, maxBody) && events != [] && events[0].Data? {
      var more := request + events[0].bytes;
      FoundStays(request, events[0].bytes);
      BodyReads(more, maxBody, events[1..]);
      assert request + Stream(events) == more + Stream(events[1..]);
    }
  }

  /** Reading on after the blank line stops only at the end of the stream or when nothing more is needed. */
  lemma RestReads(request: string, maxBody: nat, events: seq<Event>)
    requires Find(request, BLANK, 0).Some? && Unbroken(request, maxBody, events)
    ensures var r := ReceiveRest(request, maxBody, events);
            var p, w := r.request, request + Stream(events);
            && request <= p <= w
            && (p == w || Settled(p, maxBody))
            && (r.Waiting? ==> p == w && !Settled(p, maxBody) && !Ended(events))
  {
    hide Declaration, Find;
    if Declaration(request, 0).Length? {
      BodyReads(request, maxBody, events);
    }
  }

  /**
   What `recv_request` returns is a prefix of the stream: all of it, or a header over the limit
   with no blank line in sight, or a request that needs nothing more.
   */
  lemma {:induction false} HeadReads(request: string, maxHeader: nat, maxBody: nat, events: seq<Event>)
    requires Find(request, BLANK, 0).None? && Unbroken(request, maxBody, events)
    ensures var r := ReceiveHead(request, maxHeader, maxBody, events);
            var p, w := r.request, request + Stream(events);
            && p <= w
            && (p == w || (Find(p, BLANK, 0).None? && |p| > maxHeader) || Settled(p, maxBody))
            && (r.Waiting? ==> p == w && !Settled(p, maxBody) && !Ended(events))
    decreases |events|
  {
    hide Declaration, Find;
    if events != [] {
      match events[0]
      case Interrupted => HeadReads(request, maxHeader, maxBody, events[1..]);
      case Data(bytes) =>
        var more := request + bytes;
        assert request + Stream(events) == more + Stream(events[1..]);
        if Find(more, BLANK, 0).Some? {
          RestReads(more, maxBody, events[1..]);
        } else if |more| <= maxHeader {
          HeadReads(more, maxHeader, maxBody, events[1..]);
        }
      case _ =>
    }
  }

  // ---- Chunking does not matter ----

  /** The header block of the stream, if complete, fits the limit and names a length or ends the stream. */
  ghost predicate WellDelimited(w: string, maxHeader: nat) {
    match Find(w, BLANK, 0)
    case None => true
    case Some(end) => end + 4 <= maxHeader && (NamesLength(w) || |w| == end + 4)
  }

  /** The scan of the received bytes reads the same length as the scan of the header block. */
  lemma ScansAgree(p: string)
    requires NamesLength(p)
    ensures var block := p[..Find(p, BLANK, 0).value + 4];
            Declaration(p, 0) == Declaration(block, 1) && (Declaration(block, 1).Bad? || Declaration(block, 1).Length?)
  {
    hide Declaration, ParseHead;
    var end := Find(p, BLANK, 0).value;
    var block := p[..end + 4];
    BlockReadable(p);
    DeclarationStable(block, p[end + 4..], 1);
    assert p == block + p[end + 4..];
    SkipIrrelevant(p);
  }

  /** A settled request whose block names a length has a final parse. */
  lemma SettledIsFinal(p: string, more: string, maxHeader: nat, maxBody: nat)
    requires Settled(p, maxBody) && NamesLength(p)
    ensures Parse(p + more, maxHeader, maxBody) == Parse(p, maxHeader, maxBody)
  {
    hide Declaration, ParseHead;
    ScansAgree(p);
    BlockStable(p, more);
    var end := Find(p, BLANK, 0).value;
    if end + 4 <= maxHeader {
      FinishStable(ParseHead(p[..end]), Declaration(p[..end + 4], 1), p[end + 4..], more, maxBody);
    }
  }

  /** A well delimited stream that goes on after the header names its length in the part received. */
  lemma NamesLengthEarly(p: string, more: string, maxHeader: nat)
    requires Find(p, BLANK, 0).Some? && more != "" && WellDelimited(p + more, maxHeader)
    ensures NamesLength(p)
  {
    hide Find, Lower;
    BlockStable(p, more);
  }

  /** A header that fits the limit cannot end behind more bytes than the limit. */
  lemma NoLateBlank(p: string, more: string, maxHeader: nat)
    requires Find(p, BLANK, 0).None? && |p| > maxHeader && WellDelimited(p + more, maxHeader)
    ensures Find(p + more, BLANK, 0).None?
  {
    hide Find;
    if Find(p + more, BLANK, 0).Some? {
      FindInPrefix(p, more, BLANK, 0);
    }
  }

  lemma NoBlankIncomplete(p: string, maxHeader: nat, maxBody: nat)
    requires Find(p, BLANK, 0).None?
    ensures Parse(p, maxHeader, maxBody) == EMPTY_RESULT.(error := Incomplete)
  {
  }

  lemma ParseAgrees(p: string, w: string, maxHeader: nat, maxBody: nat)
    requires p <= w && WellDelimited(w, maxHeader)
    requires p == w || (Find(p, BLANK, 0).None? && |p| > maxHeader) || Settled(p, maxBody)
    ensures Parse(p, maxHeader, maxBody) == Parse(w, maxHeader, maxBody)
  {
    hide Declaration, Parse, Find, NamesLength, WellDelimited;
    var more := w[|p|..];
    assert w == p + more;
    if p != w {
      if Find(p, BLANK, 0).Some? {
        NamesLengthEarly(p, more, maxHeader);
        SettledIsFinal(p, more, maxHeader, maxBody);
      } else {
        NoLateBlank(p, more, maxHeader);
        NoBlankIncomplete(p, maxHeader, maxBody);
        NoBlankIncomplete(w, maxHeader, maxBody);
      }
    }
  }

  /**
   Chunking does not matter: however a stream that ends is split into receives, with no interruption
   between the header and the end of the declared body, parsing what was received equals parsing the
   whole stream.
   */
  lemma ChunkingIrrelevant(maxHeader: nat, maxBody: nat, events: seq<Event>)
    requires Ended(events) && Unbroken("", maxBody, events) && WellDelimited(Stream(events), maxHeader)
    ensures var r := RecvRequest(maxHeader, maxBody, events);
            r.Returned? && r.request <= Stream(events)
            && Parse(r.request, maxHeader, maxBody) == Parse(Stream(events), maxHeader, maxBody)
  {
    hide Declaration, ParseHead;
    HeadReads("", maxHeader, maxBody, events);
    assert "" + Stream(events) == Stream(events);
    ParseAgrees(RecvRequest(maxHeader, maxBody, events).request, Stream(events), maxHeader, maxBody);
  }

  // ---- The exact condition ----

  /** A run of receives that delivers exactly `w`, in chunks the buffer can hold. */
  ghost predicate Delivers(events: seq<Event>, w: string, maxBody: nat) {
    ValidEvents(events) && Ended(events) && Unbroken("", maxBody, events) && Stream(events) == w
  }

  /** However `w` is delivered, parsing what is received equals parsing `w`. */
  ghost predicate ChunkingSafe(w: string, maxHeader: nat, maxBody: nat) {
    forall events :: Delivers(events, w, maxBody) ==>
      Parse(RecvRequest(maxHeader, maxBody, events).request, maxHeader, maxBody) == Parse(w, maxHeader, maxBody)
  }

  /** One byte at a time from position `i`, then the end of the stream. */
  function ByteByByte(w: string, i: nat): seq<Event>
    requires i <= |w|
    decreases |w| - i
  {
    if i == |w| then [Eof] else [Data([w[i]])] + ByteByByte(w, i + 1)
  }

  lemma {:induction false} ByteByByteDelivers(w: string, i: nat, maxBody: nat)
    requires i <= |w|
    ensures var events := ByteByByte(w, i);
            ValidEvents(events) && Ended(events) && Unbroken(w[..i], maxBody, events) && Stream(events) == w[i..]
    decreases |w| - i
  {
    if i < |w| {
      var events, rest := ByteByByte(w, i), ByteByByte(w, i + 1);
      ByteByByteDelivers(w, i + 1, maxBody);
      assert events[1..] == rest;
      assert w[..i + 1] == w[..i] + [w[i]];
      assert w[i..] == [w[i]] + w[i + 1..];
    }
  }

  /** Byte by byte, a request whose block names no length is returned as soon as the block is complete. */
  lemma {:induction false} ByteByByteStops(w: string, i: nat, maxHeader: nat, maxBody: nat)
    requires Find(w, BLANK, 0).Some? && !NamesLength(w)
    requires i < Find(w, BLANK, 0).value + 4 <= maxHeader
    ensures var block := w[..Find(w, BLANK, 0).value + 4];
            ReceiveHead(w[..i], maxHeader, maxBody, ByteByByte(w, i)) == Returned(block)
    decreases |w| - i
  {
    hide Find;
    var end := Find(w, BLANK, 0).value;
    var more, rest := w[..i + 1], w[i + 1..];
    assert w == more + rest && more == w[..i] + [w[i]];
    assert ByteByByte(w, i)[1..] == ByteByByte(w, i + 1);
    if i + 1 == end + 4 {
      FindInPrefix(more, rest, BLANK, 0);
    } else {
      if Find(more, BLANK, 0).Some? {
        FindStable(more, rest, BLANK, 0);
      }
      ByteByByteStops(w, i + 1, maxHeader, maxBody);
    }
  }

  /** The stream has a complete request head within the limit. */
  ghost predicate HeadFits(w: string, maxHeader: nat) {
    Find(w, BLANK, 0).Some? && Find(w, BLANK, 0).value + 4 <= maxHeader
  }

  /** Without a length the body is everything after the blank line. */
  lemma BodyIsRest(w: string, maxHeader: nat, maxBody: nat)
    requires HeadFits(w, maxHeader) && !NamesLength(w) && ParseHead(w[..Find(w, BLANK, 0).value]).error == NoError
    ensures Parse(w, maxHeader, maxBody).body == w[Find(w, BLANK, 0).value + 4..]
  {
    hide Declaration, ParseHead, Find;
  }

  /** The header alone has no body. */
  lemma HeaderAloneHasNoBody(w: string, maxHeader: nat, maxBody: nat)
    requires HeadFits(w, maxHeader)
    ensures var block := w[..Find(w, BLANK, 0).value + 4];
            Parse(block, maxHeader, maxBody).body == ""
  {
    hide Declaration, ParseHead, Find;
    var header := Find(w, BLANK, 0).value + 4;
    var block := w[..header];
    assert w == block + w[header..];
    FindInPrefix(block, w[header..], BLANK, 0);
  }

  /** So the header alone parses differently when bytes follow it. */
  lemma BodyLost(w: string, maxHeader: nat, maxBody: nat)
    requires HeadFits(w, maxHeader) && !NamesLength(w) && |w| > Find(w, BLANK, 0).value + 4
    requires ParseHead(w[..Find(w, BLANK, 0).value]).error == NoError
    ensures Parse(w[..Find(w, BLANK, 0).value + 4], maxHeader, maxBody) != Parse(w, maxHeader, maxBody)
  {
    hide Declaration, ParseHead, Find, Parse;
    BodyIsRest(w, maxHeader, maxBody);
    HeaderAloneHasNoBody(w, maxHeader, maxBody);
  }

  /** Without a length, and with bytes after the header, receiving byte by byte loses the body. */
  lemma ChunkingUnsafe(w: string, maxHeader: nat, maxBody: nat)
    requires HeadFits(w, maxHeader) && !NamesLength(w) && |w| > Find(w, BLANK, 0).value + 4
    requires ParseHead(w[..Find(w, BLANK, 0).value]).error == NoError
    ensures !ChunkingSafe(w, maxHeader, maxBody)
  {
    hide ParseHead, Find, ByteByByte, Parse, Unbroken, Stream, ReceiveHead, Ended, NamesLength;
    ByteByByteDelivers(w, 0, maxBody);
    ByteByByteStops(w, 0, maxHeader, maxBody);
    assert w[..0] == "" && w[0..] == w;
    assert Delivers(ByteByByte(w, 0), w, maxBody);
    BodyLost(w, maxHeader, maxBody);
  }

  /** A request whose head is malformed is refused alike however it arrives. */
  lemma MalformedHeadSafe(w: string, maxHeader: nat, maxBody: nat)
    requires HeadFits(w, maxHeader) && ParseHead(w[..Find(w, BLANK, 0).value]).error != NoError
    ensures ChunkingSafe(w, maxHeader, maxBody)
  {
    hide Declaration, ParseHead, Find, ReceiveHead, Stream;
    var end := Find(w, BLANK, 0).value;
    forall events | Delivers(events, w, maxBody)
      ensures Parse(RecvRequest(maxHeader, maxBody, events).request, maxHeader, maxBody) == Parse(w, maxHeader, maxBody)
    {
      HeadReads("", maxHeader, maxBody, events);
      assert "" + w == w;
      var p := RecvRequest(maxHeader, maxBody, events).request;
      assert w == p + w[|p|..];
      if Find(p, BLANK, 0).Some? {
        BlockStable(p, w[|p|..]);
      } else {
        FindInPrefix(p, w[|p|..], BLANK, 0);
      }
    }
  }

  /**
   The exact condition, for streams whose header fits the limit: every chunking gives the same parse
   if and only if the block names Content-Length, or nothing follows it, or its head is malformed.
   */
  lemma ChunkingExactCondition(w: string, maxHeader: nat, maxBody: nat)
    requires HeadFits(w, maxHeader)
    ensures var end := Find(w, BLANK, 0).value;
            ChunkingSafe(w, maxHeader, maxBody)
            <==> (NamesLength(w) || |w| == end + 4 || ParseHead(w[..end]).error != NoError)
  {
    hide Declaration, ParseHead, Find, Parse, RecvRequest, NamesLength;
    var end := Find(w, BLANK, 0).value;
    if ParseHead(w[..end]).error != NoError {
      MalformedHeadSafe(w, maxHeader, maxBody);
    } else if NamesLength(w) || |w| == end + 4 {
      forall events | Delivers(events, w, maxBody)
        ensures Parse(RecvRequest(maxHeader, maxBody, events).request, maxHeader, maxBody) == Parse(w, maxHeader, maxBody)
      {
        ChunkingIrrelevant(maxHeader, maxBody, events);
      }
    } else {
      ChunkingUnsafe(w, maxHeader, maxBody);
    }
  }

  // ---- Complete requests ----

  /** However a complete request is continued, its header is well delimited and nothing more is needed. */
  lemma CompleteIsSettled(text: string, more: string, maxHeader: nat, maxBody: nat)
    requires NamesLength(text)
    ensures var w := text + more;
            Parse(text, maxHeader, maxBody).error == NoError ==>
              && Settled(w, maxBody) && WellDelimited(w, maxHeader)
              && Parse(w, maxHeader, maxBody) == Parse(text, maxHeader, maxBody)
  {
    hide Declaration, ParseHead;
    var w := text + more;
    if Parse(text, maxHeader, maxBody).error == NoError {
      ParseStable(text, more, maxHeader, maxBody);
      BlockStable(text, more);
      assert NamesLength(w);
      BodyHasDeclaredLength(w, maxHeader, maxBody);
      ScansAgree(w);
      BodyFits(w, maxHeader, maxBody);
    }
  }

  /** The body of a successful parse was there to be taken. */
  lemma BodyFits(w: string, maxHeader: nat, maxBody: nat)
    ensures var r := Parse(w, maxHeader, maxBody);
            r.error == NoError ==> Find(w, BLANK, 0).Some? && |r.body| <= |w| - Find(w, BLANK, 0).value - 4
  {
    hide Declaration, ParseHead;
  }

  /**
   A complete request is enough: if the stream starts with `text`, whose parse succeeds and whose
   block names a length, the receive returns without waiting and parses to the same result.
   */
  lemma CompleteRequestReceived(text: string, maxHeader: nat, maxBody: nat, events: seq<Event>)
    requires text <= Stream(events) && Unbroken("", maxBody, events)
    ensures var r := RecvRequest(maxHeader, maxBody, events);
            NamesLength(text) && Parse(text, maxHeader, maxBody).error == NoError ==>
              r.Returned? && Parse(r.request, maxHeader, maxBody) == Parse(text, maxHeader, maxBody)
  {
    hide Declaration, Parse, NamesLength;
    if NamesLength(text) && Parse(text, maxHeader, maxBody).error == NoError {
      var w := Stream(events);
      assert w == text + w[|text|..] && "" + w == w;
      CompleteIsSettled(text, w[|text|..], maxHeader, maxBody);
      HeadReads("", maxHeader, maxBody, events);
      ParseAgrees(RecvRequest(maxHeader, maxBody, events).request, w, maxHeader, maxBody);
    }
  }

  // ---- Interruptions in the body ----

  /**
   What a receive that is cut short costs: with a declared length, the part received parses like the
   whole if and only if it needed nothing more or the whole is refused too.
   */
  lemma InterruptedBodyIsCut(p: string, more: string, maxHeader: nat, maxBody: nat)
    requires NamesLength(p)
    ensures Parse(p, maxHeader, maxBody) == Parse(p + more, maxHeader, maxBody)
            <==> Settled(p, maxBody) || Parse(p + more, maxHeader, maxBody).error != NoError
  {
    hide Declaration, ParseHead, Find;
    if Settled(p, maxBody) {
      SettledIsFinal(p, more, maxHeader, maxBody);
    } else {
      ScansAgree(p);
      BlockStable(p, more);
    }
  }

  /** A settled request stays settled, so no later interruption matters. */
  lemma {:induction false} SettledUnbroken(request: string, maxBody: nat, events: seq<Event>)
    requires Settled(request, maxBody)
    requires Declaration(request, 0).Length? || Declaration(request, 0).Bad? || Stream(events) == ""
    ensures Unbroken(request, maxBody, events)
    decreases |events|
  {
    hide Declaration, Find;
    if events != [] {
      match events[0]
      case Data(bytes) =>
        if bytes == "" {
          assert request + bytes == request;
        } else {
          FoundStays(request, bytes);
        }
        SettledUnbroken(request + bytes, maxBody, events[1..]);
      case Interrupted => SettledUnbroken(request, maxBody, events[1..]);
      case _ =>
    }
  }

  /** The receive returned at an interruption, with part of the declared body missing. */
  ghost predicate CutShort(r: Received, w: string, maxBody: nat) {
    r.Returned? && r.request <= w && Find(r.request, BLANK, 0).Some? && !Settled(r.request, maxBody)
  }

  lemma {:induction false} BodyCut(request: string, maxBody: nat, events: seq<Event>)
    requires Find(request, BLANK, 0).Some? && Declaration(request, 0).Length? && !Unbroken(request, maxBody, events)
    ensures var r := ReceiveBody(request, Find(request, BLANK, 0).value + 4, Declaration(request, 0).n, maxBody, events);
            CutShort(r, request + Stream(events), maxBody)
    decreases |events|
  {
    hide Declaration, Find;
    if Settled(request, maxBody) {
      SettledUnbroken(request, maxBody, events);
    } else if events[0].Data? {
      var more := request + events[0].bytes;
      FoundStays(request, events[0].bytes);
      BodyCut(more, maxBody, events[1..]);
      assert request + Stream(events) == more + Stream(events[1..]);
    }
  }

  /** With the blank line in hand, an interruption that matters is the one at which the receive returns. */
  lemma RestCut(request: string, maxHeader: nat, maxBody: nat, events: seq<Event>)
    requires Find(request, BLANK, 0).Some? && !Unbroken(request, maxBody, events)
    requires WellDelimited(request + Stream(events), maxHeader)
    ensures CutShort(ReceiveRest(request, maxBody, events), request + Stream(events), maxBody)
  {
    hide Declaration, Find, NamesLength;
    if Declaration(request, 0).Length? {
      BodyCut(request, maxBody, events);
    } else {
      if Stream(events) != "" {
        NamesLengthEarly(request, Stream(events), maxHeader);
        ScansAgree(request);
      }
      SettledUnbroken(request, maxBody, events);
    }
  }

  /** A header over the limit with no blank line in sight: none comes later, so no interruption matters. */
  lemma {:induction false} BlanklessUnbroken(request: string, maxBody: nat, events: seq<Event>)
    requires Find(request + Stream(events), BLANK, 0).None?
    ensures Unbroken(request, maxBody, events)
    decreases |events|
  {
    hide Find;
    if events != [] {
      match events[0]
      case Data(bytes) =>
        assert request + Stream(events) == request + bytes + Stream(events[1..]);
        BlanklessUnbroken(request + bytes, maxBody, events[1..]);
      case Interrupted =>
        if Find(request, BLANK, 0).Some? {
          FindStable(request, Stream(events), BLANK, 0);
        }
        BlanklessUnbroken(request, maxBody, events[1..]);
      case _ =>
    }
  }

  lemma {:induction false} HeadCut(request: string, maxHeader: nat, maxBody: nat, events: seq<Event>)
    requires Find(request, BLANK, 0).None? && !Unbroken(request, maxBody, events)
    requires WellDelimited(request + Stream(events), maxHeader)
    ensures CutShort(ReceiveHead(request, maxHeader, maxBody, events), request + Stream(events), maxBody)
    decreases |events|
  {
    hide Declaration, Find, NamesLength, WellDelimited;
    match events[0]
    case Interrupted => HeadCut(request, maxHeader, maxBody, events[1..]);
    case Data(bytes) =>
      var more := request + bytes;
      assert request + Stream(events) == more + Stream(events[1..]);
      if Find(more, BLANK, 0).Some? {
        RestCut(more, maxHeader, maxBody, events[1..]);
      } else if |more| > maxHeader {
        NoLateBlank(more, Stream(events[1..]), maxHeader);
        BlanklessUnbroken(more, maxBody, events[1..]);
      } else {
        HeadCut(more, maxHeader, maxBody, events[1..]);
      }
  }

  /** A well delimited request with part of its declared body missing does name that length. */
  lemma UnsettledNamesLength(p: string, more: string, maxHeader: nat, maxBody: nat)
    requires Find(p, BLANK, 0).Some? && !Settled(p, maxBody) && WellDelimited(p + more, maxHeader)
    ensures NamesLength(p)
  {
    hide Find, Lower;
    if more != "" {
      NamesLengthEarly(p, more, maxHeader);
    } else {
      assert p + more == p;
      assert |p| == Find(p, BLANK, 0).value + 4 ==> p[..Find(p, BLANK, 0).value + 4] == p;
    }
  }

  /**
   The exact condition, for interruptions anywhere: parsing what was received equals parsing the
   whole stream if and only if no interruption falls between the header and the end of the declared
   body, or the whole stream is refused as well.
   */
  lemma InterruptionsExactCondition(maxHeader: nat, maxBody: nat, events: seq<Event>)
    requires Ended(events) && WellDelimited(Stream(events), maxHeader)
    ensures var r, w := RecvRequest(maxHeader, maxBody, events), Stream(events);
            && r.Returned? && r.request <= w
            && (Parse(r.request, maxHeader, maxBody) == Parse(w, maxHeader, maxBody)
                <==> Unbroken("", maxBody, events) || Parse(w, maxHeader, maxBody).error != NoError)
  {
    hide Declaration, Parse, Find, NamesLength, WellDelimited;
    var w := Stream(events);
    if Unbroken("", maxBody, events) {
      ChunkingIrrelevant(maxHeader, maxBody, events);
    } else {
      assert "" + w == w;
      assert Find("", BLANK, 0).None? by { FindFirst("", BLANK, 0); }
      HeadCut("", maxHeader, maxBody, events);
      var p := RecvRequest(maxHeader, maxBody, events).request;
      var more := w[|p|..];
      assert w == p + more;
      UnsettledNamesLength(p, more, maxHeader, maxBody);
      InterruptedBodyIsCut(p, more, maxHeader, maxBody);
    }
  }

  /** However `w` is delivered, with interruptions anywhere, parsing what is received equals parsing `w`. */
  ghost predicate InterruptionSafe(w: string, maxHeader: nat, maxBody: nat) {
    forall events :: ValidEvents(events) && Ended(events) && Stream(events) == w ==>
      Parse(RecvRequest(maxHeader, maxBody, events).request, maxHeader, maxBody) == Parse(w, maxHeader, maxBody)
  }

  /** Whatever happens, what is received is the whole stream, too long a header, or holds the blank line. */
  lemma {:induction false} SomethingReceived(request: string, maxHeader: nat, maxBody: nat, events: seq<Event>)
    requires Ended(events)
    ensures var p, w := ReceiveHead(request, maxHeader, maxBody, events).request, request + Stream(events);
            p <= w && (p == w || |p| > maxHeader || Find(p, BLANK, 0).Some?)
    decreases |events|
  {
    hide Declaration, Find;
    match events[0]
    case Interrupted => SomethingReceived(request, maxHeader, maxBody, events[1..]);
    case Data(bytes) =>
      var more := request + bytes;
      assert request + Stream(events) == more + Stream(events[1..]);
      if Find(more, BLANK, 0).Some? {
        if Declaration(more, 0).Length? {
          BodyPrefix(more, Find(more, BLANK, 0).value + 4, Declaration(more, 0).n, maxBody, events[1..]);
          var p := ReceiveRest(more, maxBody, events[1..]).request;
          assert p == more + p[|more|..];
          FindStable(more, p[|more|..], BLANK, 0);
        }
      } else if |more| <= maxHeader {
        SomethingReceived(more, maxHeader, maxBody, events[1..]);
      }
    case _ =>
  }

  lemma {:induction false} BodyPrefix(request: string, header: nat, length: nat, maxBody: nat, events: seq<Event>)
    requires header <= |request|
    ensures request <= ReceiveBody(request, header, length, maxBody, events).request <= request + Stream(events)
    decreases |events|
  {
    if |request| - header < length && |request| - header < maxBody && events != [] && events[0].Data? {
      BodyPrefix(request + events[0].bytes, header, length, maxBody, events[1..]);
      assert request + Stream(events) == request + events[0].bytes + Stream(events[1..]);
    }
  }

  /** A part that holds the blank line of a request that is refused, or has no body, parses like the whole. */
  lemma PartParsesAlike(p: string, more: string, maxHeader: nat, maxBody: nat)
    requires Find(p, BLANK, 0).Some?
    requires var r := Parse(p + more, maxHeader, maxBody); r.error != NoError || r.body == ""
    ensures Parse(p, maxHeader, maxBody) == Parse(p + more, maxHeader, maxBody)
  {
    hide Declaration, ParseHead, Find, Finish;
    BlockStable(p, more);
    BlockReadable(p);
    var end := Find(p, BLANK, 0).value;
    if end + 4 <= maxHeader {
      FinishPart(ParseHead(p[..end]), Declaration(p[..end + 4], 1), p[end + 4..], more, maxBody);
    }
  }

  lemma FinishPart(head: ParseResult, declared: Declared, rest: string, more: string, maxBody: nat)
    requires !declared.Cut? && head.body == ""
    requires var r := Finish(head, declared, rest + more, maxBody); r.error != NoError || r.body == ""
    ensures Finish(head, declared, rest, maxBody) == Finish(head, declared, rest + more, maxBody)
  {
  }

  /** The bytes from `i` to `at` one at a time, an interruption there, then the rest. */
  function InterruptAt(w: string, i: nat, at: nat): seq<Event>
    requires i <= at <= |w|
    decreases at - i
  {
    if i == at then [Interrupted] + ByteByByte(w, at) else [Data([w[i]])] + InterruptAt(w, i + 1, at)
  }

  lemma {:induction false} InterruptAtDelivers(w: string, i: nat, at: nat)
    requires i <= at <= |w|
    ensures var events := InterruptAt(w, i, at); ValidEvents(events) && Ended(events) && Stream(events) == w[i..]
    decreases at - i
  {
    var events := InterruptAt(w, i, at);
    if i == at {
      ByteByByteDelivers(w, at, 0);
      assert events[1..] == ByteByByte(w, at);
    } else {
      InterruptAtDelivers(w, i + 1, at);
      assert events[1..] == InterruptAt(w, i + 1, at);
      assert w[i..] == [w[i]] + w[i + 1..];
    }
  }

  /** Interrupted right after the header, the receive returns the header alone. */
  lemma {:induction false} InterruptAtStops(w: string, i: nat, maxHeader: nat, maxBody: nat)
    requires HeadFits(w, maxHeader) && i < Find(w, BLANK, 0).value + 4
    ensures var header := Find(w, BLANK, 0).value + 4;
            ReceiveHead(w[..i], maxHeader, maxBody, InterruptAt(w, i, header)) == Returned(w[..header])
    decreases |w| - i
  {
    hide Find, Declaration;
    var header := Find(w, BLANK, 0).value + 4;
    var more, rest := w[..i + 1], w[i + 1..];
    assert w == more + rest && more == w[..i] + [w[i]];
    var events := InterruptAt(w, i, header);
    assert events[1..] == InterruptAt(w, i + 1, header);
    if i + 1 == header {
      FindInPrefix(more, rest, BLANK, 0);
      assert InterruptAt(w, header, header)[0] == Interrupted;
    } else {
      if Find(more, BLANK, 0).Some? {
        FindStable(more, rest, BLANK, 0);
      }
      InterruptAtStops(w, i + 1, maxHeader, maxBody);
    }
  }

  /**
   The exact condition on the stream, for a header that fits: it survives every chunking with
   interruptions anywhere if and only if it is refused or carries no body.
   */
  lemma InterruptionSafeExactly(w: string, maxHeader: nat, maxBody: nat)
    requires HeadFits(w, maxHeader)
    ensures InterruptionSafe(w, maxHeader, maxBody)
            <==> Parse(w, maxHeader, maxBody).error != NoError || Parse(w, maxHeader, maxBody).body == ""
  {
    hide Parse, Find, Stream, Ended, ReceiveHead, InterruptAt;
    var whole := Parse(w, maxHeader, maxBody);
    if whole.error != NoError || whole.body == "" {
      forall events | ValidEvents(events) && Ended(events) && Stream(events) == w
        ensures Parse(RecvRequest(maxHeader, maxBody, events).request, maxHeader, maxBody) == whole
      {
        SomethingReceived("", maxHeader, maxBody, events);
        assert "" + w == w;
        var p := RecvRequest(maxHeader, maxBody, events).request;
        assert w == p + w[|p|..];
        if Find(p, BLANK, 0).None? && p != w {
          FindInPrefix(p, w[|p|..], BLANK, 0);
        }
        PartParsesAlike(p, w[|p|..], maxHeader, maxBody);
      }
    } else {
      var header := Find(w, BLANK, 0).value + 4;
      var events := InterruptAt(w, 0, header);
      InterruptAtDelivers(w, 0, header);
      InterruptAtStops(w, 0, maxHeader, maxBody);
      assert w[..0] == "" && w[0..] == w;
      HeaderAloneHasNoBody(w, maxHeader, maxBody);
    }
  }

  // ---- What any sequence of events yields ----

  /** The bytes gathered by the first `i` events, on top of `request`. */
  function Gathered(request: string, events: seq<Event>, i: nat): string
    requires i <= |events|
  {
    request + Stream(events[..i])
  }

  /**
   The receive ends with the bytes `d` when they are all there is to wait for, or when the next event
   ends it: before the blank line an end or a failure, after it anything but data.
   */
  ghost predicate Stops(d: string, next: Option<Event>, maxHeader: nat, maxBody: nat) {
    if Find(d, BLANK, 0).None? then |d| > maxHeader || next == Some(Eof) || next == Some(Failed)
    else Settled(d, maxBody) || (next.Some? && !next.value.Data?)
  }

  ghost predicate StopsAt(request: string, events: seq<Event>, i: nat, maxHeader: nat, maxBody: nat)
    requires i <= |events|
  {
    Stops(Gathered(request, events, i), if i < |events| then Some(events[i]) else None, maxHeader, maxBody)
  }

  ghost predicate FirstStop(request: string, events: seq<Event>, i: nat, maxHeader: nat, maxBody: nat)
    requires i <= |events|
  {
    && StopsAt(request, events, i, maxHeader, maxBody)
    && forall j :: 0 <= j < i ==> !StopsAt(request, events, j, maxHeader, maxBody)
  }

  /** The bytes of the first stop are returned; with no stop the receive still waits, with all bytes in hand. */
  ghost predicate AsEventsSay(r: Received, request: string, events: seq<Event>, maxHeader: nat, maxBody: nat) {
    && (forall i :: 0 <= i <= |events| && FirstStop(request, events, i, maxHeader, maxBody) ==>
          r == Returned(Gathered(request, events, i)))
    && ((forall j :: 0 <= j <= |events| ==> !StopsAt(request, events, j, maxHeader, maxBody))
        ==> r == Waiting(Gathered(request, events, |events|)))
  }

  function Extended(request: string, e: Event): string {
    if e.Data? then request + e.bytes else request
  }

  lemma GatheredShift(request: string, events: seq<Event>, i: nat)
    requires i < |events| && (events[0].Data? || events[0].Interrupted?)
    ensures Gathered(request, events, i + 1) == Gathered(Extended(request, events[0]), events[1..], i)
  {
    assert events[..i + 1][1..] == events[1..][..i];
  }

  lemma StopsNow(request: string, events: seq<Event>, maxHeader: nat, maxBody: nat)
    requires Stops(request, if events != [] then Some(events[0]) else None, maxHeader, maxBody)
    ensures AsEventsSay(Returned(request), request, events, maxHeader, maxBody)
  {
    hide Stops;
    assert Gathered(request, events, 0) == request;
    assert StopsAt(request, events, 0, maxHeader, maxBody);
  }

  /** The first event does not stop the receive, and the later ones do so with it as without it. */
  ghost predicate GoesOn(request: string, events: seq<Event>, maxHeader: nat, maxBody: nat) {
    events != [] && !Stops(request, Some(events[0]), maxHeader, maxBody)
  }

  lemma StopShift(request: string, events: seq<Event>, i: nat, maxHeader: nat, maxBody: nat)
    requires GoesOn(request, events, maxHeader, maxBody) && i < |events|
    ensures !StopsAt(request, events, 0, maxHeader, maxBody)
    ensures Gathered(request, events, i + 1) == Gathered(Extended(request, events[0]), events[1..], i)
    ensures StopsAt(request, events, i + 1, maxHeader, maxBody)
            <==> StopsAt(Extended(request, events[0]), events[1..], i, maxHeader, maxBody)
  {
    assert events[0].Data? || events[0].Interrupted?;
    hide Stops, Gathered;
    GatheredNothing(request, events);
    GatheredShift(request, events, i);
  }

  lemma FirstStopShift(request: string, events: seq<Event>, i: nat, maxHeader: nat, maxBody: nat)
    requires GoesOn(request, events, maxHeader, maxBody)
    requires i <= |events| && FirstStop(request, events, i, maxHeader, maxBody)
    ensures i > 0 && FirstStop(Extended(request, events[0]), events[1..], i - 1, maxHeader, maxBody)
    ensures Gathered(request, events, i) == Gathered(Extended(request, events[0]), events[1..], i - 1)
  {
    hide StopsAt, Stops, Gathered;
    StopShift(request, events, 0, maxHeader, maxBody);
    StopShift(request, events, i - 1, maxHeader, maxBody);
    forall j | 0 <= j < i - 1 ensures !StopsAt(Extended(request, events[0]), events[1..], j, maxHeader, maxBody) {
      StopShift(request, events, j, maxHeader, maxBody);
    }
  }

  lemma StopsLater(r: Received, request: string, events: seq<Event>, maxHeader: nat, maxBody: nat)
    requires GoesOn(request, events, maxHeader, maxBody)
    requires AsEventsSay(r, Extended(request, events[0]), events[1..], maxHeader, maxBody)
    ensures AsEventsSay(r, request, events, maxHeader, maxBody)
  {
    hide StopsAt, FirstStop, Gathered, Extended, Stops;
    var more, rest := Extended(request, events[0]), events[1..];
    forall i | 0 <= i <= |events| && FirstStop(request, events, i, maxHeader, maxBody)
      ensures r == Returned(Gathered(request, events, i))
    {
      FirstStopShift(request, events, i, maxHeader, maxBody);
    }
    if forall j :: 0 <= j <= |events| ==> !StopsAt(request, events, j, maxHeader, maxBody) {
      forall j | 0 <= j <= |rest| ensures !StopsAt(more, rest, j, maxHeader, maxBody) {
        StopShift(request, events, j, maxHeader, maxBody);
        assert !StopsAt(request, events, j + 1, maxHeader, maxBody);
      }
      StopShift(request, events, |rest|, maxHeader, maxBody);
    }
  }

  lemma GatheredNothing(request: string, events: seq<Event>)
    ensures Gathered(request, events, 0) == request
  {
  }

  lemma WaitsForever(request: string, maxHeader: nat, maxBody: nat)
    requires !Stops(request, None, maxHeader, maxBody)
    ensures AsEventsSay(Waiting(request), request, [], maxHeader, maxBody)
  {
    hide Stops;
    assert Gathered(request, [], 0) == request;
    assert !StopsAt(request, [], 0, maxHeader, maxBody);
  }

  lemma {:induction false} BodyExactly(request: string, maxHeader: nat, maxBody: nat, events: seq<Event>)
    requires Find(request, BLANK, 0).Some? && Declaration(request, 0).Length?
    ensures var r := ReceiveBody(request, Find(request, BLANK, 0).value + 4, Declaration(request, 0).n, maxBody, events);
            AsEventsSay(r, request, events, maxHeader, maxBody)
    decreases |events|
  {
    hide Declaration, Find, AsEventsSay;
    if Settled(request, maxBody) {
      StopsNow(request, events, maxHeader, maxBody);
    } else if events == [] {
      WaitsForever(request, maxHeader, maxBody);
    } else if events[0].Data? {
      FoundStays(request, events[0].bytes);
      var more := request + events[0].bytes;
      BodyExactly(more, maxHeader, maxBody, events[1..]);
      StopsLater(ReceiveBody(more, Find(more, BLANK, 0).value + 4, Declaration(more, 0).n, maxBody, events[1..]),
                 request, events, maxHeader, maxBody);
    } else {
      StopsNow(request, events, maxHeader, maxBody);
    }
  }

  lemma RestExactly(request: string, maxHeader: nat, maxBody: nat, events: seq<Event>)
    requires Find(request, BLANK, 0).Some?
    ensures AsEventsSay(ReceiveRest(request, maxBody, events), request, events, maxHeader, maxBody)
  {
    hide Declaration, Find, AsEventsSay;
    if Declaration(request, 0).Length? {
      BodyExactly(request, maxHeader, maxBody, events);
    } else {
      StopsNow(request, events, maxHeader, maxBody);
    }
  }

  lemma {:induction false} HeadExactly(request: string, maxHeader: nat, maxBody: nat, events: seq<Event>)
    requires Find(request, BLANK, 0).None? && |request| <= maxHeader
    ensures AsEventsSay(ReceiveHead(request, maxHeader, maxBody, events), request, events, maxHeader, maxBody)
    decreases |events|
  {
    hide Declaration, Find, AsEventsSay, ReceiveRest;
    if events == [] {
      WaitsForever(request, maxHeader, maxBody);
    } else if events[0].Eof? || events[0].Failed? {
      StopsNow(request, events, maxHeader, maxBody);
    } else {
      var more, rest := Extended(request, events[0]), events[1..];
      if Find(more, BLANK, 0).Some? {
        RestExactly(more, maxHeader, maxBody, rest);
      } else if |more| > maxHeader {
        StopsNow(more, rest, maxHeader, maxBody);
      } else {
        HeadExactly(more, maxHeader, maxBody, rest);
      }
      StopsLater(ReceiveHead(request, maxHeader, maxBody, events), request, events, maxHeader, maxBody);
    }
  }

  /**
   What `recv_request` returns for any sequence of events, without its loops: the bytes gathered up to
   the first event at which it stops, or all of them while it still waits.
   */
  lemma ReceivesExactly(maxHeader: nat, maxBody: nat, events: seq<Event>)
    ensures AsEventsSay(RecvRequest(maxHeader, maxBody, events), "", events, maxHeader, maxBody)
  {
    hide AsEventsSay, ReceiveHead;
    FindFirst("", BLANK, 0);
    HeadExactly("", maxHeader, maxBody, events);
  }

  // ---- Bound and progress ----

  lemma {:induction false} BodyBound(request: string, header: nat, length: nat, maxBody: nat, events: seq<Event>)
    requires header <= |request| && ValidEvents(events)
    ensures var n := |ReceiveBody(request, header, length, maxBody, events).request|;
            n <= |request| || n <= header + maxBody + CHUNK
    decreases |events|
  {
    if |request| - header < length && |request| - header < maxBody && events != [] && events[0].Data? {
      assert 1 <= |events[0].bytes| <= CHUNK;
      BodyBound(request + events[0].bytes, header, length, maxBody, events[1..]);
    }
  }

  lemma {:induction false} HeadBound(request: string, maxHeader: nat, maxBody: nat, events: seq<Event>)
    requires |request| <= maxHeader && ValidEvents(events)
    ensures |ReceiveHead(request, maxHeader, maxBody, events).request| <= maxHeader + maxBody + 2 * CHUNK
    decreases |events|
  {
    hide Declaration;
    if events != [] {
      match events[0]
      case Interrupted => HeadBound(request, maxHeader, maxBody, events[1..]);
      case Data(bytes) =>
        assert 1 <= |events[0].bytes| <= CHUNK;
        var more := request + bytes;
        var end := Find(more, BLANK, 0);
        if end.Some? {
          var d := Declaration(more, 0);
          if d.Length? {
            BodyBound(more, end.value + 4, d.n, maxBody, events[1..]);
          }
        } else if |more| <= maxHeader {
          HeadBound(more, maxHeader, maxBody, events[1..]);
        }
      case _ =>
    }
  }

  /** How many events carry data. */
  function DataCount(events: seq<Event>): nat
    decreases |events|
  {
    if events == [] then 0 else (if events[0].Data? then 1 else 0) + DataCount(events[1..])
  }

  lemma {:induction false} WaitingBody(request: string, header: nat, length: nat, maxBody: nat, events: seq<Event>)
    requires header <= |request| && ValidEvents(events)
    requires ReceiveBody(request, header, length, maxBody, events).Waiting?
    ensures !Ended(events)
    ensures |request| + DataCount(events) <= |ReceiveBody(request, header, length, maxBody, events).request|
    decreases |events|
  {
    if events != [] {
      assert 1 <= |events[0].bytes|;
      WaitingBody(request + events[0].bytes, header, length, maxBody, events[1..]);
    }
  }

  lemma {:induction false} WaitingHead(request: string, maxHeader: nat, maxBody: nat, events: seq<Event>)
    requires ValidEvents(events) && ReceiveHead(request, maxHeader, maxBody, events).Waiting?
    ensures !Ended(events)
    ensures |request| + DataCount(events) <= |ReceiveHead(request, maxHeader, maxBody, events).request|
    decreases |events|
  {
    hide Declaration;
    if events != [] {
      match events[0]
      case Interrupted => WaitingHead(request, maxHeader, maxBody, events[1..]);
      case Data(bytes) =>
        assert 1 <= |events[0].bytes|;
        var more := request + bytes;
        var end := Find(more, BLANK, 0);
        if end.Some? {
          WaitingBody(more, end.value + 4, Declaration(more, 0).n, maxBody, events[1..]);
        } else {
          WaitingHead(more, maxHeader, maxBody, events[1..]);
        }
    }
  }

  /**
   The buffer is bounded for every sequence of events, and the receive cannot wait forever: it has
   returned once the stream ends or fails, or once more data events came than the bound allows.
   */
  lemma ReceiveBounded(maxHeader: nat, maxBody: nat, events: seq<Event>)
    requires ValidEvents(events)
    ensures var r := RecvRequest(maxHeader, maxBody, events);
            && |r.request| <= maxHeader + maxBody + 2 * 4095
            && (Ended(events) || DataCount(events) > maxHeader + maxBody + 2 * 4095 ==> r.Returned?)
  {
    HeadBound("", maxHeader, maxBody, events);
    if RecvRequest(maxHeader, maxBody, events).Waiting? {
      WaitingHead("", maxHeader, maxBody, events);
    }
  }
}
