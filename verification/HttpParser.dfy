/** The request parser: splitting a buffered request into its parts and building the request. */
module HttpParser {
  import opened Wrappers
  import opened Text
  import opened ContentLength

  datatype Error = NoError | Incomplete | Malformed | HeaderTooLarge | BodyTooLarge

  datatype ParseResult = ParseResult(
    error: Error, method_: string, path: string, version: string, headersRaw: string, body: string, hasHeaders: bool)

  datatype Method = Get | Post | Head | Unknown

  datatype Request = Request(
    kind: Method, method_: string, path: string, version: string, headers: map<string, string>, body: string)

  const EMPTY_RESULT := ParseResult(NoError, "", "", "", "", "", false)

  // ---- Parsing ----

  /** The header lines up to the first empty one, without carriage returns, each ended by a line feed. */
  function HeaderLines(s: string): string
    decreases |s|
  {
    if s == "" then ""
    else
      var (line, rest) := GetLine(s);
      if StripCr(line) == "" then "" else StripCr(line) + "\n" + HeaderLines(rest)
  }

  /** Request line and header lines; the error is `Malformed` or `NoError`. */
  function ParseHead(section: string): (r: ParseResult)
    ensures r.error == NoError || r.error == Malformed
    ensures r.error == NoError <==> r.hasHeaders
    ensures r.body == ""
  {
    if section == "" then EMPTY_RESULT.(error := Malformed)
    else
      var (line, rest) := GetLine(section);
      var (method_, afterMethod) := NextWord(StripCr(line));
      var (path, afterPath) := NextWord(afterMethod);
      var (version, _) := NextWord(afterPath);
      var words := EMPTY_RESULT.(method_ := method_, path := path, version := version);
      if version == "" || !("HTTP/" <= version) then words.(error := Malformed)
      else words.(hasHeaders := true, headersRaw := HeaderLines(rest))
  }

  /** The whole parse.  Everything but the body depends on the bytes up to the blank line only. */
  function Parse(raw: string, maxHeader: nat, maxBody: nat): ParseResult {
    match Find(raw, BLANK, 0)
    case None => EMPTY_RESULT.(error := Incomplete)
    case Some(end) =>
      if end + 4 > maxHeader then EMPTY_RESULT.(error := HeaderTooLarge)
      else Finish(ParseHead(raw[..end]), Declaration(raw[..end + 4], 1), raw[end + 4..], maxBody)
  }

  /** The body rules (section 6.3 of RFC 9112, without transfer codings). */
  function Finish(head: ParseResult, declared: Declared, rest: string, maxBody: nat): ParseResult {
    if head.error != NoError then head
    else
      match declared
      case Absent => head.(body := rest)
      case Cut => head
      case Bad => head.(error := Malformed)
      case Length(n) =>
        if n > maxBody then head.(error := BodyTooLarge)
        else if |rest| < n then head.(error := Incomplete)
        else head.(body := rest[..n])
  }

  // ---- Building the request ----

  function KindOf(method_: string): Method {
    if method_ == "GET" then Get
    else if method_ == "POST" then Post
    else if method_ == "HEAD" then Head
    else Unknown
  }

  /** One header line: the name before the first colon, the trimmed value after it. */
  function AddLine(headers: map<string, string>, line: string): map<string, string> {
    match Find(line, ":", 0)
    case None => headers
    case Some(colon) => headers[line[..colon] := TrimRight(TrimLeft(line[colon + 1..]))]
  }

  function AddLines(headers: map<string, string>, raw: string): map<string, string>
    decreases |raw|
  {
    if raw == "" then headers
    else
      var (line, rest) := GetLine(raw);
      AddLines(if line == "" then headers else AddLine(headers, line), rest)
  }

  function BuildRequest(r: ParseResult): Request {
    Request(KindOf(r.method_), r.method_, r.path, r.version, AddLines(map[], r.headersRaw), r.body)
  }

  // ---- The source's loops ----

  method LowerCase(s: string) returns (lower: string)
    ensures lower == Lower(s)
  {
    lower := s;
    for i := 0 to |lower|
      invariant |lower| == |s|
      invariant forall j :: 0 <= j < i ==> lower[j] == LowerChar(s[j])
      invariant forall j :: i <= j < |s| ==> lower[j] == s[j]
    {
      lower := lower[i := LowerChar(lower[i])];
    }
  }

  method CollectHeaders(section: string) returns (raw: string)
    ensures raw == HeaderLines(section)
  {
    hide GetLine, StripCr;
    raw := "";
    var stream := section;
    while stream != ""
      invariant raw + HeaderLines(stream) == HeaderLines(section)
      decreases |stream|
    {
      var (line, rest) := GetLine(stream);
      line := StripCr(line);
      if line == "" {
        return;
      }
      assert raw + (line + "\n" + HeaderLines(rest)) == raw + line + "\n" + HeaderLines(rest);
      raw := raw + line + "\n";
      stream := rest;
    }
  }

  /**
   The parser as written.  Since it computes `Parse`, whose `Cut` case leaves the body empty and is
   ruled out by `BlockNeverCut`, the source's inner guard always holds.
   */
  method ParseRequest(raw: string, maxHeader: nat, maxBody: nat) returns (result: ParseResult)
    ensures result == Parse(raw, maxHeader, maxBody)
  {
    hide ParseHead, Declaration;
    result := EMPTY_RESULT;
    var headerEnd := Find(raw, BLANK, 0);
    if headerEnd == None {
      return result.(error := Incomplete);
    }
    var end := headerEnd.value;
    if end + 4 > maxHeader {
      return result.(error := HeaderTooLarge);
    }
    var section, rest := raw[..end], raw[end + 4..];
    result := ParseRequestLine(section);
    if result.error != NoError {
      return;
    }
    result := ReadBody(result, raw[..end + 4], rest, maxBody);
  }

  method ReadBody(head: ParseResult, block: string, rest: string, maxBody: nat) returns (result: ParseResult)
    requires head.error == NoError
    ensures result == Finish(head, Declaration(block, 1), rest, maxBody)
  {
    hide Stoull, TrimLeft;
    result := head;
    var lower := LowerCase(block);
    var found := Find(lower, FIELD, 0);
    if found == None {
      return result.(body := rest);
    }
    var colon := Find(block, ":", found.value);
    var eol := if colon.Some? then Find(block, CRLF, colon.value + 1) else None;
    if colon.Some? && eol.Some? {
      var value := block[colon.value + 1..eol.value];
      assert FieldValue(block, found.value, 1) == Some(value);
      var number := Stoull(TrimLeft(value));
      if number == None {
        return result.(error := Malformed);
      }
      if number.value > maxBody {
        return result.(error := BodyTooLarge);
      }
      if |rest| < number.value {
        return result.(error := Incomplete);
      }
      result := result.(body := rest[..number.value]);
    }
  }

  method ParseRequestLine(section: string) returns (result: ParseResult)
    ensures result == ParseHead(section)
  {
    result := EMPTY_RESULT;
    if section == "" {
      return result.(error := Malformed);
    }
    var (line, rest) := GetLine(section);
    var (method_, afterMethod) := NextWord(StripCr(line));
    var (path, afterPath) := NextWord(afterMethod);
    var (version, afterVersion) := NextWord(afterPath);
    result := result.(method_ := method_, path := path, version := version);
    if version == "" || !("HTTP/" <= version) {
      return result.(error := Malformed);
    }
    var headers := CollectHeaders(rest);
    result := result.(hasHeaders := true, headersRaw := headers);
  }

  method Build(r: ParseResult) returns (req: Request)
    ensures req == BuildRequest(r)
  {
    var headers: map<string, string> := map[];
    var stream := r.headersRaw;
    while stream != ""
      invariant AddLines(headers, stream) == AddLines(map[], r.headersRaw)
      decreases |stream|
    {
      var (line, rest) := GetLine(stream);
      stream := rest;
      if line != "" {
        var colon := Find(line, ":", 0);
        if colon.Some? {
          var key, value := line[..colon.value], line[colon.value + 1..];
          headers := headers[key := TrimRight(TrimLeft(value))];
        }
      }
    }
    req := Request(KindOf(r.method_), r.method_, r.path, r.version, headers, r.body);
  }

  // ---- Looking headers up ----

  /** The value under the first name in `order` that agrees with `name` up to case. */
  function Lookup(headers: map<string, string>, order: seq<string>, name: string): string
    requires forall k :: k in order ==> k in headers
    decreases |order|
  {
    if order == [] then ""
    else if Lower(order[0]) == Lower(name) then assert order[0] in order; headers[order[0]]
    else Lookup(headers, order[1..], name)
  }

  /** If all matching names carry the same value, that value is found in whatever order they are walked. */
  lemma {:induction false} LookupFinds(headers: map<string, string>, order: seq<string>, name: string, value: string)
    requires forall k :: k in order ==> k in headers
    requires forall k :: k in order && Lower(k) == Lower(name) ==> headers[k] == value
    requires exists k :: k in order && Lower(k) == Lower(name)
    ensures Lookup(headers, order, name) == value
    decreases |order|
  {
    assert order[0] in order;
    if Lower(order[0]) != Lower(name) {
      var k :| k in order && Lower(k) == Lower(name);
      assert k in order[1..];
      LookupFinds(headers, order[1..], name, value);
    }
  }

  /**
   Case-insensitive lookup: the map is walked in any order, and the first name that agrees up to
   case wins.
   */
  method GetHeader(headers: map<string, string>, order: seq<string>, name: string) returns (value: string)
    requires forall k :: k in order <==> k in headers
    ensures value == Lookup(headers, order, name)
    ensures (forall k :: k in headers ==> Lower(k) != Lower(name)) ==> value == ""
    ensures (exists k :: k in headers && Lower(k) == Lower(name)) ==>
              exists k :: k in headers && Lower(k) == Lower(name) && value == headers[k]
  {
    var wanted := LowerCase(name);
    for i := 0 to |order|
      invariant forall j :: 0 <= j < i ==> Lower(order[j]) != wanted
      invariant Lookup(headers, order[i..], name) == Lookup(headers, order, name)
    {
      var key := LowerCase(order[i]);
      if key == wanted {
        assert order[i] in order;
        return headers[order[i]];
      }
      assert order[i..][1..] == order[i + 1..];
    }
    value := "";
    forall k | k in headers ensures Lower(k) != wanted {
      assert k in order;
    }
  }

  // ---- Parsing is stable under extension ----

  /** The header block of `raw` names Content-Length. */
  ghost predicate NamesLength(raw: string) {
    match Find(raw, BLANK, 0)
    case None => false
    case Some(end) => Find(Lower(raw[..end + 4]), FIELD, 0).Some?
  }

  /** The scan of a complete header block never finds its line cut off. */
  lemma BlockReadable(raw: string)
    requires Find(raw, BLANK, 0).Some?
    ensures !Declaration(raw[..Find(raw, BLANK, 0).value + 4], 1).Cut?
  {
    FindFirst(raw, BLANK, 0);
    var block := raw[..Find(raw, BLANK, 0).value + 4];
    assert EndsBlank(block);
    BlockNeverCut(block);
  }

  /** The bytes up to the blank line do not change when bytes are appended. */
  lemma BlockStable(raw: string, more: string)
    requires Find(raw, BLANK, 0).Some?
    ensures Find(raw + more, BLANK, 0) == Find(raw, BLANK, 0)
    ensures var end := Find(raw, BLANK, 0).value;
            && (raw + more)[..end] == raw[..end] && (raw + more)[..end + 4] == raw[..end + 4]
            && (raw + more)[end + 4..] == raw[end + 4..] + more
  {
    FindStable(raw, more, BLANK, 0);
  }

  /** A successful parse whose block names Content-Length has a body of exactly the declared length. */
  lemma BodyHasDeclaredLength(raw: string, maxHeader: nat, maxBody: nat)
    requires NamesLength(raw)
    ensures var end := Find(raw, BLANK, 0).value;
            var r := Parse(raw, maxHeader, maxBody);
            r.error == NoError ==>
              Declaration(raw[..end + 4], 1) == Length(|r.body|) && |r.body| <= maxBody && end + 4 <= maxHeader
  {
    hide ParseHead, Declaration;
    BlockReadable(raw);
    if Parse(raw, maxHeader, maxBody).error == NoError {
      var end := Find(raw, BLANK, 0).value;
      FinishLength(ParseHead(raw[..end]), Declaration(raw[..end + 4], 1), raw[end + 4..], maxBody);
    }
  }

  lemma FinishLength(head: ParseResult, declared: Declared, rest: string, maxBody: nat)
    requires Finish(head, declared, rest, maxBody).error == NoError && (declared.Bad? || declared.Length?)
    ensures declared == Length(|Finish(head, declared, rest, maxBody).body|) && declared.n <= maxBody
  {
  }

  lemma FinishStable(head: ParseResult, declared: Declared, rest: string, more: string, maxBody: nat)
    requires head.error != NoError || declared.Bad? || declared.Length?
    requires Finish(head, declared, rest, maxBody).error != Incomplete
    ensures Finish(head, declared, rest + more, maxBody) == Finish(head, declared, rest, maxBody)
  {
    if declared.Length? && declared.n <= |rest| {
      assert (rest + more)[..declared.n] == rest[..declared.n];
    }
  }

  /**
   Errors other than `Incomplete`, and successes whose header block names Content-Length, are
   final: appending any bytes changes no field.
   */
  lemma ParseStable(raw: string, more: string, maxHeader: nat, maxBody: nat)
    requires var r := Parse(raw, maxHeader, maxBody);
             r.error == Malformed || r.error == HeaderTooLarge || r.error == BodyTooLarge
             || (r.error == NoError && NamesLength(raw))
    ensures Parse(raw + more, maxHeader, maxBody) == Parse(raw, maxHeader, maxBody)
  {
    hide ParseHead, Declaration;
    BlockStable(raw, more);
    BlockReadable(raw);
    var end := Find(raw, BLANK, 0).value;
    if end + 4 <= maxHeader {
      FinishStable(ParseHead(raw[..end]), Declaration(raw[..end + 4], 1), raw[end + 4..], more, maxBody);
    }
  }

  /** Without Content-Length the body is whatever follows the blank line, so it takes in the appended bytes. */
  lemma ParseAbsorbs(raw: string, more: string, maxHeader: nat, maxBody: nat)
    requires !NamesLength(raw)
    ensures var r := Parse(raw, maxHeader, maxBody);
            r.error == NoError ==> Parse(raw + more, maxHeader, maxBody) == r.(body := r.body + more)
  {
    hide ParseHead, Declaration;
    if Parse(raw, maxHeader, maxBody).error == NoError {
      BlockStable(raw, more);
    }
  }
}
