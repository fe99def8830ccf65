/** Building a response, printing it, and reading it back. */
module HttpResponse {
  import opened Wrappers
  import opened Text
  import opened Fields
  import opened Sections

  datatype Status =
    | Ok | BadRequest | Forbidden | NotFound | MethodNotAllowed | PayloadTooLarge
    | InternalError | NotImplemented | ServiceUnavailable

  function Code(s: Status): (n: nat)
    ensures 200 <= n < 600
  {
    match s
    case Ok => 200
    case BadRequest => 400
    case Forbidden => 403
    case NotFound => 404
    case MethodNotAllowed => 405
    case PayloadTooLarge => 413
    case InternalError => 500
    case NotImplemented => 501
    case ServiceUnavailable => 503
  }

  function Reason(s: Status): string {
    match s
    case Ok => "OK"
    case BadRequest => "Bad Request"
    case Forbidden => "Forbidden"
    case NotFound => "Not Found"
    case MethodNotAllowed => "Method Not Allowed"
    case PayloadTooLarge => "Payload Too Large"
    case InternalError => "Internal Server Error"
    case NotImplemented => "Not Implemented"
    case ServiceUnavailable => "Service Unavailable"
  }

  datatype Response = Response(status: Status, headers: map<string, string>, body: string)

  const LENGTH := "Content-Length"

  // ---- Building ----

  function SetHeader(r: Response, key: string, value: string): Response {
    r.(headers := r.headers[key := value])
  }

  function SetBody(r: Response, body: string): Response {
    SetHeader(r.(body := body), LENGTH, ToDecimal(|body|))
  }

  function New(status: Status, body: string): Response {
    SetBody(Response(status, map[], ""), body)
  }

  /** What every factory does: a body, its type, and the promise to close the connection. */
  function Make(status: Status, body: string, contentType: string): Response {
    SetHeader(SetHeader(New(status, body), "Content-Type", contentType), "Connection", "close")
  }

  function OkResponse(body: string, contentType: string): Response {
    Make(Ok, body, contentType)
  }

  function Plain(status: Status, body: string): Response {
    Make(status, body, "text/plain")
  }

  function NotAllowed(allow: string): Response {
    var r := Plain(MethodNotAllowed, "Method Not Allowed");
    if allow == "" then r else SetHeader(r, "Allow", allow)
  }

  function Unavailable(): Response {
    SetHeader(Plain(ServiceUnavailable, "Service Unavailable"), "Retry-After", "5")
  }

  ghost predicate CleanName(name: string) {
    OneLine(name) && forall i :: 0 <= i < |name| ==> name[i] != ':'
  }

  /** Header names and values that survive printing. */
  ghost predicate Legible(r: Response) {
    forall k :: k in r.headers ==> CleanName(k) && OneLine(r.headers[k])
  }

  /** The key spells Content-Length in some casing (names are case-insensitive, section 5.1 of RFC 9110). */
  ghost predicate SpellsLength(key: string) {
    Lower(key) == Lower(LENGTH)
  }

  /** Exactly one header spells Content-Length, and it is the body's length (section 8.6 of RFC 9110). */
  ghost predicate Delimits(headers: map<string, string>, body: string) {
    && LENGTH in headers && headers[LENGTH] == ToDecimal(|body|)
    && forall k :: k in headers && SpellsLength(k) ==> k == LENGTH
  }

  ghost predicate Framed(r: Response) {
    Legible(r) && Delimits(r.headers, r.body)
  }

  /** The header says nothing about the length of `body`, or says it in the usual spelling and truly. */
  ghost predicate Truthful(key: string, value: string, body: string) {
    SpellsLength(key) ==> key == LENGTH && value == ToDecimal(|body|)
  }

  /** A clean header keeps the response framed exactly when it does not contradict the body's length. */
  lemma SetHeaderKeepsFramed(r: Response, key: string, value: string)
    requires Framed(r) && CleanName(key) && OneLine(value)
    ensures Framed(SetHeader(r, key, value)) <==> Truthful(key, value, r.body)
  {
    var headers := SetHeader(r, key, value).headers;
    assert key in headers && headers[key] == value;
  }

  /** A name of another length does not spell Content-Length. */
  lemma OtherName(key: string)
    requires |key| != |LENGTH|
    ensures !SpellsLength(key)
  {
  }

  lemma SetOtherHeader(r: Response, key: string, value: string)
    requires Framed(r) && CleanName(key) && OneLine(value) && |key| != |LENGTH|
    ensures Framed(SetHeader(r, key, value))
  {
    OtherName(key);
    SetHeaderKeepsFramed(r, key, value);
  }

  /** Setting the body frames the response whatever its Content-Length was before. */
  lemma SetBodyFrames(r: Response, body: string)
    requires Legible(r) && forall k :: k in r.headers && SpellsLength(k) ==> k == LENGTH
    ensures Framed(SetBody(r, body))
  {
    DigitsClean(|body|);
  }

  /** Every factory yields a framed response with the given status and body. */
  lemma FactoriesFrame(status: Status, body: string, contentType: string)
    requires OneLine(contentType)
    ensures var r := Make(status, body, contentType); Framed(r) && r.status == status && r.body == body
  {
    SetBodyFrames(Response(status, map[], ""), body);
    SetOtherHeader(New(status, body), "Content-Type", contentType);
    SetOtherHeader(SetHeader(New(status, body), "Content-Type", contentType), "Connection", "close");
  }

  lemma NotAllowedFrames(allow: string)
    requires OneLine(allow)
    ensures Framed(NotAllowed(allow))
  {
    hide Make;
    FactoriesFrame(MethodNotAllowed, "Method Not Allowed", "text/plain");
    SetOtherHeader(Plain(MethodNotAllowed, "Method Not Allowed"), "Allow", allow);
  }

  lemma UnavailableFrames()
    ensures Framed(Unavailable())
  {
    hide Make;
    FactoriesFrame(ServiceUnavailable, "Service Unavailable", "text/plain");
    SetOtherHeader(Plain(ServiceUnavailable, "Service Unavailable"), "Retry-After", "5");
  }

  // ---- Any sequence of setter calls ----

  datatype Setter = SetsStatus(status: Status) | SetsHeader(key: string, value: string) | SetsBody(body: string)

  function Apply(r: Response, call: Setter): Response {
    match call
    case SetsStatus(status) => r.(status := status)
    case SetsHeader(key, value) => SetHeader(r, key, value)
    case SetsBody(body) => SetBody(r, body)
  }

  function ApplyAll(r: Response, calls: seq<Setter>): Response
    decreases |calls|
  {
    if calls == [] then r else ApplyAll(Apply(r, calls[0]), calls[1..])
  }

  ghost predicate CleanCalls(calls: seq<Setter>) {
    forall i :: 0 <= i < |calls| && calls[i].SetsHeader? ==> CleanName(calls[i].key) && OneLine(calls[i].value)
  }

  /** No call sets a Content-Length, in any casing, that contradicts the body set last before it. */
  ghost predicate TruthfulCalls(body: string, calls: seq<Setter>)
    decreases |calls|
  {
    || calls == []
    || (match calls[0]
        case SetsStatus(_) => TruthfulCalls(body, calls[1..])
        case SetsHeader(key, value) => Truthful(key, value, body) && TruthfulCalls(body, calls[1..])
        case SetsBody(b) => TruthfulCalls(b, calls[1..]))
  }

  /** The response is framed before and after each call. */
  ghost predicate AlwaysFramed(r: Response, calls: seq<Setter>)
    decreases |calls|
  {
    Framed(r) && (calls == [] || AlwaysFramed(Apply(r, calls[0]), calls[1..]))
  }

  /** The exact condition: a framed response stays framed throughout if and only if no call contradicts the body. */
  lemma {:induction false} SettersExactCondition(r: Response, calls: seq<Setter>)
    requires Framed(r) && CleanCalls(calls)
    ensures AlwaysFramed(r, calls) <==> TruthfulCalls(r.body, calls)
    decreases |calls|
  {
    hide ToDecimal, Truthful;
    if calls != [] {
      match calls[0] {
        case SetsStatus(status) => assert Framed(r.(status := status));
        case SetsHeader(key, value) => SetHeaderKeepsFramed(r, key, value);
        case SetsBody(body) => SetBodyFrames(r, body);
      }
      if Framed(Apply(r, calls[0])) {
        SettersExactCondition(Apply(r, calls[0]), calls[1..]);
      }
    }
  }

  function LastStatus(status: Status, calls: seq<Setter>): Status
    decreases |calls|
  {
    if calls == [] then status
    else LastStatus(if calls[0].SetsStatus? then calls[0].status else status, calls[1..])
  }

  function LastBody(body: string, calls: seq<Setter>): string
    decreases |calls|
  {
    if calls == [] then body else LastBody(if calls[0].SetsBody? then calls[0].body else body, calls[1..])
  }

  /** Of several settings of one thing the last counts. */
  lemma {:induction false} LastSettingWins(r: Response, calls: seq<Setter>)
    ensures ApplyAll(r, calls).status == LastStatus(r.status, calls)
    ensures ApplyAll(r, calls).body == LastBody(r.body, calls)
    decreases |calls|
  {
    hide ToDecimal;
    if calls != [] {
      LastSettingWins(Apply(r, calls[0]), calls[1..]);
    }
  }

  /** A header that no call sets keeps its value. */
  lemma {:induction false} HeaderStays(r: Response, calls: seq<Setter>, key: string)
    requires key != LENGTH && forall i :: 0 <= i < |calls| && calls[i].SetsHeader? ==> calls[i].key != key
    ensures key in ApplyAll(r, calls).headers <==> key in r.headers
    ensures key in r.headers ==> ApplyAll(r, calls).headers[key] == r.headers[key]
    decreases |calls|
  {
    hide ToDecimal;
    if calls != [] {
      HeaderStays(Apply(r, calls[0]), calls[1..], key);
    }
  }

  /** A header has the value given to it by the last call that sets it. */
  lemma {:induction false} LastHeaderWins(r: Response, calls: seq<Setter>, i: nat)
    requires i < |calls| && calls[i].SetsHeader? && calls[i].key != LENGTH
    requires forall j :: i < j < |calls| && calls[j].SetsHeader? ==> calls[j].key != calls[i].key
    ensures var h := ApplyAll(r, calls).headers; calls[i].key in h && h[calls[i].key] == calls[i].value
    decreases |calls|
  {
    hide ToDecimal;
    if i == 0 {
      HeaderStays(Apply(r, calls[0]), calls[1..], calls[0].key);
    } else {
      LastHeaderWins(Apply(r, calls[0]), calls[1..], i - 1);
    }
  }

  lemma {:induction false} FramedAtEnd(r: Response, calls: seq<Setter>)
    requires AlwaysFramed(r, calls)
    ensures Framed(ApplyAll(r, calls))
    decreases |calls|
  {
    hide Framed, Apply;
    if calls != [] {
      FramedAtEnd(Apply(r, calls[0]), calls[1..]);
    }
  }

  // ---- Printing ----

  /** `order` visits every key of the map once, as iterating an unordered map does. */
  ghost predicate IsOrder(order: seq<string>, headers: map<string, string>) {
    && (forall i, j :: 0 <= i < j < |order| ==> order[i] != order[j])
    && (forall k :: k in order <==> k in headers)
  }

  function FieldsIn(order: seq<string>, headers: map<string, string>): (fields: seq<Field>)
    requires forall k :: k in order ==> k in headers
    ensures |fields| == |order|
    ensures forall i :: 0 <= i < |order| ==> fields[i] == Field(order[i], headers[order[i]])
  {
    seq(|order|, i requires 0 <= i < |order| => assert order[i] in order; Field(order[i], headers[order[i]]))
  }

  function StatusLine(s: Status): string {
    "HTTP/1.1 " + ToDecimal(Code(s)) + " " + Reason(s)
  }

  function Serialize(r: Response, order: seq<string>): string
    requires forall k :: k in order ==> k in r.headers
  {
    StatusLine(r.status) + CRLF + Terminated(FieldLines(FieldsIn(order, r.headers))) + CRLF + r.body
  }

  // ---- Reading back ----

  /** A response as its receiver sees it. */
  datatype Seen = Seen(code: nat, reason: string, headers: map<string, string>, body: string)

  function SplitLines(s: string): (lines: seq<string>)
    ensures lines != []
    decreases |s|
  {
    match Find(s, CRLF, 0)
    case None => [s]
    case Some(i) => [s[..i]] + SplitLines(s[i + 2..])
  }

  function ReadFields(headers: map<string, string>, lines: seq<string>): Option<map<string, string>>
    decreases |lines|
  {
    if lines == [] then Some(headers)
    else
      match Find(lines[0], ": ", 0)
      case None => None
      case Some(i) => ReadFields(headers[lines[0][..i] := lines[0][i + 2..]], lines[1..])
  }

  /** Read the status line by words and each field at its first ": ". */
  function ReadMessage(lines: seq<string>, body: string): Option<Seen>
    requires lines != []
  {
    var (version, afterVersion) := NextWord(lines[0]);
    var (code, afterCode) := NextWord(afterVersion);
    match (Stoull(code), ReadFields(map[], lines[1..]))
    case (Some(number), Some(headers)) =>
      if version != "HTTP/1.1" || afterCode == "" then None
      else Some(Seen(number, afterCode[1..], headers, body))
    case _ => None
  }

  /** Split at the first blank line and read the two halves. */
  function ReadResponse(text: string): Option<Seen> {
    match Find(text, BLANK, 0)
    case None => None
    case Some(end) => ReadMessage(SplitLines(text[..end]), text[end + 4..])
  }

  lemma {:induction false} SplitSection(lines: seq<string>)
    requires lines != [] && Clean(lines)
    ensures SplitLines(Section(lines)) == lines
  {
    var l := lines[0];
    assert CleanLine(l);
    if |lines| == 1 {
      NoCrLf(l);
      assert lines == [l];
    } else {
      var rest := Section(lines[1..]);
      var s := Section(lines);
      EndOfLine(l, rest);
      assert s[..|l|] == l && s[|l| + 2..] == rest;
      SplitSection(lines[1..]);
      assert lines == [l] + lines[1..];
    }
  }

  lemma NoCrLf(line: string)
    requires OneLine(line)
    ensures Find(line, CRLF, 0) == None
  {
    FindFirst(line, CRLF, 0);
    var r := Find(line, CRLF, 0);
    if r.Some? {
      CrLfChars(line, r.value);
    }
  }

  /** A colon-free name ends at the first ": " of its line, whatever the value holds. */
  lemma SeparatorAfterName(f: Field)
    requires CleanName(f.name)
    ensures Find(FieldLine(f), ": ", 0) == Some(|f.name|)
    ensures FieldLine(f)[..|f.name|] == f.name && FieldLine(f)[|f.name| + 2..] == f.value
  {
    var s := FieldLine(f);
    assert s[|f.name|..|f.name| + 2] == ": ";
    forall j | 0 <= j < |f.name| ensures !MatchAt(s, ": ", j) {
      assert s[j] == f.name[j];
      assert s[j..j + 2][0] == s[j];
    }
    FindIs(s, ": ", 0, |f.name|);
  }

  lemma {:induction false} ReadPrintedFields(headers: map<string, string>, fields: seq<Field>)
    requires forall i :: 0 <= i < |fields| ==> CleanName(fields[i].name)
    ensures ReadFields(headers, FieldLines(fields)) == Some(AddFields(headers, fields))
    decreases |fields|
  {
    if fields != [] {
      SeparatorAfterName(fields[0]);
      assert FieldLines(fields)[1..] == FieldLines(fields[1..]);
      ReadPrintedFields(headers[fields[0].name := fields[0].value], fields[1..]);
    }
  }

  /** Whatever the order, the printed fields stand for the map they came from. */
  lemma OrderIrrelevant(order: seq<string>, headers: map<string, string>)
    requires IsOrder(order, headers)
    ensures AddFields(map[], FieldsIn(order, headers)) == headers
  {
    var fields := FieldsIn(order, headers);
    AddFieldsExact(map[], fields);
    var r := AddFields(map[], fields);
    forall k | k in headers ensures k in r && r[k] == headers[k] {
      assert k in order;
      var i :| 0 <= i < |order| && order[i] == k;
      assert fields[i].name == k;
    }
  }

  function ResponseLines(r: Response, order: seq<string>): (lines: seq<string>)
    requires forall k :: k in order ==> k in r.headers
    ensures lines != []
  {
    [StatusLine(r.status)] + FieldLines(FieldsIn(order, r.headers))
  }

  lemma ReasonClean(s: Status)
    ensures OneLine(Reason(s))
  {
    match s
    case Ok => assert OneLine("OK");
    case BadRequest => assert OneLine("Bad Request");
    case Forbidden => assert OneLine("Forbidden");
    case NotFound => assert OneLine("Not Found");
    case MethodNotAllowed => assert OneLine("Method Not Allowed");
    case PayloadTooLarge => assert OneLine("Payload Too Large");
    case InternalError => assert OneLine("Internal Server Error");
    case NotImplemented => assert OneLine("Not Implemented");
    case ServiceUnavailable => assert OneLine("Service Unavailable");
  }

  lemma DigitsClean(n: nat)
    ensures OneLine(ToDecimal(n)) && NoSpace(ToDecimal(n))
  {
    var digits := ToDecimal(n);
    forall i | 0 <= i < |digits| ensures digits[i] != '\r' && digits[i] != '\n' && !IsSpace(digits[i]) {
      assert IsDigit(digits[i]);
    }
  }

  lemma StatusLineClean(s: Status)
    ensures CleanLine(StatusLine(s))
  {
    hide Code, Reason, ToDecimal;
    ReasonClean(s);
    DigitsClean(Code(s));
  }

  lemma ResponseLinesClean(r: Response, order: seq<string>)
    requires Legible(r) && IsOrder(order, r.headers)
    ensures Clean(ResponseLines(r, order))
  {
    var lines := ResponseLines(r, order);
    StatusLineClean(r.status);
    forall i | 0 <= i < |lines| ensures CleanLine(lines[i]) {
      if i > 0 {
        var k := order[i - 1];
        assert k in order;
        assert lines[i] == FieldLine(Field(k, r.headers[k]));
      }
    }
  }

  lemma SerializedAsSection(r: Response, order: seq<string>)
    requires forall k :: k in order ==> k in r.headers
    ensures Serialize(r, order) == Section(ResponseLines(r, order)) + BLANK + r.body
  {
    var lines := ResponseLines(r, order);
    assert lines[1..] == FieldLines(FieldsIn(order, r.headers));
    SectionTerminated(lines);
    assert Section(lines) + BLANK == (Section(lines) + CRLF) + CRLF;
  }

  lemma StatusLineReads(s: Status)
    ensures var (version, afterVersion) := NextWord(StatusLine(s));
            var (code, afterCode) := NextWord(afterVersion);
            version == "HTTP/1.1" && Stoull(code) == Some(Code(s)) && afterCode == " " + Reason(s)
  {
    hide Code, Reason, ToDecimal, Stoull, NextWord;
    var digits := ToDecimal(Code(s));
    DigitsClean(Code(s));
    var afterCode := " " + Reason(s);
    var afterVersion := " " + digits + afterCode;
    assert StatusLine(s) == "HTTP/1.1" + afterVersion;
    NextWordIs("HTTP/1.1", afterVersion);
    NextWordIs(digits, afterCode);
    StoullOfDecimal(Code(s));
  }

  lemma ReadPrinted(r: Response, order: seq<string>)
    requires Legible(r) && IsOrder(order, r.headers)
    ensures ReadMessage(ResponseLines(r, order), r.body) == Some(Seen(Code(r.status), Reason(r.status), r.headers, r.body))
  {
    hide NextWord, Stoull, StatusLine, Code, Reason, ReadFields, AddFields;
    var lines, fields := ResponseLines(r, order), FieldsIn(order, r.headers);
    StatusLineReads(r.status);
    assert lines[1..] == FieldLines(fields);
    forall i | 0 <= i < |fields| ensures CleanName(fields[i].name) {
      assert order[i] in order;
    }
    ReadPrintedFields(map[], fields);
    OrderIrrelevant(order, r.headers);
    assert (" " + Reason(r.status))[1..] == Reason(r.status);
  }

  /**
   Round trip: for every order in which the header map is walked, reading the printed text gives
   back the status, the same header map and the exact body, even one that holds blank lines.
   */
  lemma ResponseRoundTrip(r: Response, order: seq<string>)
    requires Legible(r) && IsOrder(order, r.headers)
    ensures ReadResponse(Serialize(r, order)) == Some(Seen(Code(r.status), Reason(r.status), r.headers, r.body))
  {
    hide ReadMessage, Section, Serialize, SplitLines, ResponseLines;
    var lines, text := ResponseLines(r, order), Serialize(r, order);
    ResponseLinesClean(r, order);
    SerializedAsSection(r, order);
    BlankCloses(lines, r.body);
    var section := Section(lines);
    assert text[..|section|] == section && text[|section| + 4..] == r.body;
    SplitSection(lines);
    ReadPrinted(r, order);
  }

  /** Every status as its receiver sees it, written out (section 15 of RFC 9110). */
  lemma StatusOnTheWire(r: Response, order: seq<string>)
    requires Legible(r) && IsOrder(order, r.headers)
    ensures var seen := ReadResponse(Serialize(r, order));
            && seen.Some?
            && (r.status == Ok ==> seen.value.code == 200 && seen.value.reason == "OK")
            && (r.status == BadRequest ==> seen.value.code == 400 && seen.value.reason == "Bad Request")
            && (r.status == Forbidden ==> seen.value.code == 403 && seen.value.reason == "Forbidden")
            && (r.status == NotFound ==> seen.value.code == 404 && seen.value.reason == "Not Found")
            && (r.status == MethodNotAllowed ==> seen.value.code == 405 && seen.value.reason == "Method Not Allowed")
            && (r.status == PayloadTooLarge ==> seen.value.code == 413 && seen.value.reason == "Payload Too Large")
            && (r.status == InternalError ==> seen.value.code == 500 && seen.value.reason == "Internal Server Error")
            && (r.status == NotImplemented ==> seen.value.code == 501 && seen.value.reason == "Not Implemented")
            && (r.status == ServiceUnavailable ==> seen.value.code == 503 && seen.value.reason == "Service Unavailable")
  {
    hide ReadResponse, Serialize;
    ResponseRoundTrip(r, order);
  }

  /** The three headers that every factory sets. */
  function FactoryHeaders(body: string, contentType: string): map<string, string> {
    map["Content-Length" := ToDecimal(|body|), "Content-Type" := contentType, "Connection" := "close"]
  }

  /** What the receiver sees of a response made by a factory, in any order of its headers. */
  lemma MadeOnTheWire(status: Status, body: string, contentType: string, order: seq<string>)
    requires OneLine(contentType)
    ensures var r := Make(status, body, contentType);
            && r.headers == FactoryHeaders(body, contentType)
            && (IsOrder(order, r.headers) ==>
                  ReadResponse(Serialize(r, order))
                  == Some(Seen(Code(status), Reason(status), FactoryHeaders(body, contentType), body)))
  {
    hide ReadResponse, Serialize, ToDecimal, Code, Reason;
    FactoriesFrame(status, body, contentType);
    var r := Make(status, body, contentType);
    assert r.headers == FactoryHeaders(body, contentType);
    if IsOrder(order, r.headers) {
      ResponseRoundTrip(r, order);
    }
  }

  /**
   So whatever setters are called after a factory, in whatever order the map is walked: if the headers
   are clean and none contradicts the body's length, the receiver sees the status and the body set
   last, and one Content-Length, which is that body's.
   */
  lemma BuiltRoundTrip(status: Status, body: string, contentType: string, calls: seq<Setter>, order: seq<string>)
    requires OneLine(contentType) && CleanCalls(calls) && TruthfulCalls(body, calls)
    ensures var r := ApplyAll(Make(status, body, contentType), calls);
            var code, last := LastStatus(status, calls), LastBody(body, calls);
            && Delimits(r.headers, last)
            && (IsOrder(order, r.headers) ==>
                  ReadResponse(Serialize(r, order)) == Some(Seen(Code(code), Reason(code), r.headers, last)))
  {
    hide ReadResponse, Serialize, ApplyAll, Make, Delimits, Code, Reason, AlwaysFramed, TruthfulCalls;
    var start := Make(status, body, contentType);
    FactoriesFrame(status, body, contentType);
    SettersExactCondition(start, calls);
    FramedAtEnd(start, calls);
    LastSettingWins(start, calls);
    if IsOrder(order, ApplyAll(start, calls).headers) {
      ResponseRoundTrip(ApplyAll(start, calls), order);
    }
  }

  // ---- The class ----

  class HttpResponse {
    var status: Status
    var headers: map<string, string>
    var body: string

    ghost function Value(): Response
      reads this
    {
      Response(status, headers, body)
    }

    constructor (status: Status, body: string)
      ensures Value() == New(status, body)
    {
      this.status, this.body := status, body;
      headers := map[LENGTH := ToDecimal(|body|)];
    }

    method SetStatus(code: Status)
      modifies this
      ensures Value() == old(Value()).(status := code)
    {
      status := code;
    }

    method SetHeaderField(key: string, value: string)
      modifies this
      ensures Value() == SetHeader(old(Value()), key, value)
      ensures old(Framed(Value())) && CleanName(key) && OneLine(value) ==>
                (Framed(Value()) <==> Truthful(key, value, body))
    {
      ghost var before := Value();
      headers := headers[key := value];
      if Framed(before) && CleanName(key) && OneLine(value) {
        SetHeaderKeepsFramed(before, key, value);
      }
    }

    method ReplaceBody(text: string)
      modifies this
      ensures Value() == SetBody(old(Value()), text)
      ensures old(Framed(Value())) ==> Framed(Value())
    {
      ghost var before := Value();
      body := text;
      SetHeaderField(LENGTH, ToDecimal(|text|));
      if Framed(before) {
        SetBodyFrames(before, text);
      }
    }

    /** The text built in the order in which the map is walked. */
    method Print(order: seq<string>) returns (text: string)
      requires IsOrder(order, headers)
      ensures text == Serialize(Value(), order)
    {
      hide FieldLines, FieldsIn, Code, Reason, ToDecimal;
      text := "HTTP/1.1 " + ToDecimal(Code(status)) + " " + Reason(status) + CRLF;
      ghost var fields := FieldsIn(order, headers);
      ghost var start := text;
      for i := 0 to |order|
        invariant text == start + Terminated(FieldLines(fields[..i]))
      {
        assert order[i] in order;
        ghost var before, line := Terminated(FieldLines(fields[..i])), FieldLine(fields[i]);
        text := text + order[i] + ": " + headers[order[i]] + CRLF;
        assert text == start + (before + (line + CRLF));
        PrintOneMore(fields, i);
      }
      assert fields[..|order|] == fields;
      text := text + CRLF + body;
    }
  }

  lemma PrintOneMore(fields: seq<Field>, i: nat)
    requires i < |fields|
    ensures Terminated(FieldLines(fields[..i + 1])) == Terminated(FieldLines(fields[..i])) + (FieldLine(fields[i]) + CRLF)
  {
    var line := FieldLine(fields[i]);
    assert FieldLines(fields[..i + 1]) == FieldLines(fields[..i]) + [line];
    TerminatedConcat(FieldLines(fields[..i]), [line]);
    assert [line][1..] == [];
    assert Terminated([line]) == line + CRLF + Terminated([]);
  }

  /** The factory for successful responses, as a sequence of setter calls. */
  method MakeOk(body: string, contentType: string) returns (r: HttpResponse)
    ensures fresh(r) && r.Value() == OkResponse(body, contentType)
  {
    r := new HttpResponse(Ok, body);
    r.SetHeaderField("Content-Type", contentType);
    r.SetHeaderField("Connection", "close");
  }
}
