/**
 A canonical printer of requests, in the form of section 2.1 of RFC 9112, and the proof that the
 parser undoes it.
 */
module RequestPrinter {
  import opened Wrappers
  import opened Text
  import opened Fields
  import opened Sections
  import opened ContentLength
  import opened HttpParser

  datatype Message = Message(method_: string, path: string, version: string, fields: seq<Field>, body: string)

  function RequestLine(m: Message): string {
    m.method_ + " " + m.path + " " + m.version
  }

  /** Request line and header lines, each ended by CRLF. */
  function PrintHead(m: Message, fields: seq<Field>): string {
    RequestLine(m) + CRLF + Terminated(FieldLines(fields))
  }

  function PrintRequest(m: Message): string {
    PrintHead(m, m.fields) + CRLF + m.body
  }

  // ---- Which messages survive ----

  ghost predicate Token(s: string) {
    s != "" && NoSpace(s)
  }

  ghost predicate PrintableField(f: Field) {
    && OneLine(f.name) && (forall i :: 0 <= i < |f.name| ==> f.name[i] != ':')
    && OneLine(f.value) && f.value != "" && !IsBlank(f.value[0]) && !IsBlank(f.value[|f.value| - 1])
  }

  ghost predicate Printable(m: Message) {
    && Token(m.method_) && Token(m.path) && Token(m.version) && "HTTP/" <= m.version
    && forall i :: 0 <= i < |m.fields| ==> PrintableField(m.fields[i])
  }

  /** Field `k` is Content-Length with the body's length, and nothing before it spells that name. */
  ghost predicate DeclaresLength(m: Message, k: nat) {
    && k < |m.fields|
    && Lower(m.fields[k].name) + ":" == FIELD
    && m.fields[k].value == ToDecimal(|m.body|)
    && |m.body| <= UINT64_MAX
    && Find(Lower(PrintHead(m, m.fields[..k])), FIELD, 0).None?
  }

  // ---- The printed section ----

  function AllLines(m: Message): seq<string> {
    [RequestLine(m)] + FieldLines(m.fields)
  }

  lemma AllLinesClean(m: Message)
    requires Printable(m)
    ensures Clean(AllLines(m))
  {
    var lines := AllLines(m);
    forall i | 0 <= i < |lines| ensures CleanLine(lines[i]) {
      if i > 0 {
        assert PrintableField(m.fields[i - 1]);
        assert lines[i] == FieldLine(m.fields[i - 1]);
      } else {
        assert lines[0] == RequestLine(m);
      }
    }
  }

  lemma PrintedAsSection(m: Message)
    ensures PrintHead(m, m.fields) + CRLF == Section(AllLines(m)) + BLANK
    ensures PrintRequest(m) == Section(AllLines(m)) + BLANK + m.body
  {
    var lines := AllLines(m);
    assert lines[1..] == FieldLines(m.fields);
    SectionTerminated(lines);
    assert BLANK == CRLF + CRLF;
    assert Section(lines) + BLANK == (Section(lines) + CRLF) + CRLF;
  }

  // ---- Request line and header lines ----

  lemma ThreeWords(m: Message)
    requires Printable(m)
    ensures var (a, afterA) := NextWord(RequestLine(m));
            var (b, afterB) := NextWord(afterA);
            var (c, _) := NextWord(afterB);
            a == m.method_ && b == m.path && c == m.version
  {
    var r2 := " " + m.version;
    var r1 := " " + m.path + r2;
    assert RequestLine(m) == m.method_ + r1;
    NextWordIs(m.method_, r1);
    NextWordIs(m.path, r2);
    NextWordIs(m.version, "");
    assert r2 == " " + m.version + "";
  }

  function SectionOrEmpty(lines: seq<string>): string {
    if lines == [] then "" else Section(lines)
  }

  lemma {:induction false} HeaderLinesOfSection(lines: seq<string>)
    requires Clean(lines)
    ensures HeaderLines(SectionOrEmpty(lines)) == LineFed(lines)
  {
    if lines != [] {
      FirstLine(lines);
      assert CleanLine(lines[0]);
      HeaderLinesOfSection(lines[1..]);
      assert GetLine(Section(lines)).1 == SectionOrEmpty(lines[1..]);
    }
  }

  lemma HeadOfPrinted(m: Message)
    requires Printable(m)
    ensures ParseHead(Section(AllLines(m)))
         == ParseResult(NoError, m.method_, m.path, m.version, LineFed(FieldLines(m.fields)), "", true)
  {
    hide NextWord, GetLine, StripCr, HeaderLines;
    var lines := AllLines(m);
    AllLinesClean(m);
    FirstLine(lines);
    ThreeWords(m);
    assert lines[1..] == FieldLines(m.fields);
    HeaderLinesOfSection(lines[1..]);
  }

  // ---- Headers ----

  /** Behind the printed space a value is read back unchanged exactly when it is non-empty and trimmed. */
  lemma TrimExact(value: string)
    ensures TrimRight(TrimLeft(" " + value)) == value
            <==> value != "" && !IsBlank(value[0]) && !IsBlank(value[|value| - 1])
  {
    var s := " " + value;
    assert s[1..] == value;
    assert SkipBlanks(s) == SkipBlanks(value);
    if SkipBlanks(s) == "" {
      SkippedAll(s);
    } else {
      DropKeepsStart(SkipBlanks(s));
    }
  }

  lemma {:induction false} SkippedAll(s: string)
    requires SkipBlanks(s) == ""
    ensures DropBlanks(s) == ""
  {
    AllBlank(s);
    DropAll(s);
  }

  lemma {:induction false} AllBlank(s: string)
    requires SkipBlanks(s) == ""
    ensures forall i :: 0 <= i < |s| ==> IsBlank(s[i])
  {
    if s != "" {
      AllBlank(s[1..]);
      assert s == [s[0]] + s[1..];
    }
  }

  lemma {:induction false} DropAll(s: string)
    requires forall i :: 0 <= i < |s| ==> IsBlank(s[i])
    ensures DropBlanks(s) == ""
  {
    if s != "" {
      DropAll(s[..|s| - 1]);
    }
  }

  lemma {:induction false} DropKeepsStart(s: string)
    requires s != "" && !IsBlank(s[0])
    ensures DropBlanks(s) != "" && DropBlanks(s)[0] == s[0] && !IsBlank(DropBlanks(s)[|DropBlanks(s)| - 1])
  {
    if IsBlank(s[|s| - 1]) {
      DropKeepsStart(s[..|s| - 1]);
    }
  }

  lemma TrimLeftKeeps(value: string)
    requires value != "" && !IsBlank(value[0])
    ensures TrimLeft(" " + value) == value
  {
    assert (" " + value)[1..] == value;
    assert SkipBlanks(" " + value) == SkipBlanks(value);
  }

  lemma AddPrintedLine(headers: map<string, string>, f: Field)
    requires PrintableField(f)
    ensures AddLine(headers, FieldLine(f)) == headers[f.name := f.value]
  {
    var line := FieldLine(f);
    assert line == f.name + ":" + (" " + f.value);
    ColonAfterName(f.name, " " + f.value);
    assert line[..|f.name|] == f.name && line[|f.name| + 1..] == " " + f.value;
    TrimExact(f.value);
  }

  lemma {:induction false} AddPrintedLines(headers: map<string, string>, fields: seq<Field>)
    requires forall i :: 0 <= i < |fields| ==> PrintableField(fields[i])
    ensures AddLines(headers, LineFed(FieldLines(fields))) == AddFields(headers, fields)
    decreases |fields|
  {
    hide AddLine, GetLine;
    if fields != [] {
      var f, lines := fields[0], FieldLines(fields);
      assert PrintableField(f);
      assert lines[1..] == FieldLines(fields[1..]);
      GetLineIs(FieldLine(f), LineFed(lines[1..]));
      AddPrintedLine(headers, f);
      AddPrintedLines(headers[f.name := f.value], fields[1..]);
    }
  }

  // ---- Content-Length ----

  lemma NoFieldAcross(prefix: string, suffix: string, j: nat)
    requires prefix != "" && prefix[|prefix| - 1] == '\n' && j < |prefix|
    requires Find(Lower(prefix), FIELD, 0).None?
    ensures !MatchAt(Lower(prefix + suffix), FIELD, j)
  {
    hide Find, Lower;
    var low := Lower(prefix + suffix);
    LowerConcat(prefix, suffix);
    FindFirst(Lower(prefix), FIELD, 0);
    if j + |FIELD| <= |prefix| {
      MatchInPrefix(Lower(prefix), Lower(suffix), FIELD, j);
    } else if j + |FIELD| <= |low| {
      assert low[j..j + |FIELD|][|prefix| - 1 - j] == '\n';
    }
  }

  /** The text from field `k` on. */
  function PrintTail(m: Message, k: nat): string
    requires k < |m.fields|
  {
    FieldLine(m.fields[k]) + CRLF + Terminated(FieldLines(m.fields[k + 1..])) + CRLF
  }

  lemma SplitHead(m: Message, k: nat)
    requires k < |m.fields|
    ensures PrintHead(m, m.fields) + CRLF == PrintHead(m, m.fields[..k]) + PrintTail(m, k)
  {
    var a, b := m.fields[..k], m.fields[k..];
    assert FieldLines(m.fields) == FieldLines(a) + FieldLines(b);
    TerminatedConcat(FieldLines(a), FieldLines(b));
    assert FieldLines(b)[1..] == FieldLines(m.fields[k + 1..]);
    assert Terminated(FieldLines(b)) == FieldLine(m.fields[k]) + CRLF + Terminated(FieldLines(m.fields[k + 1..]));
  }

  lemma {:induction false} TerminatedEnds(lines: seq<string>)
    ensures lines != [] ==> Terminated(lines) != "" && Terminated(lines)[|Terminated(lines)| - 1] == '\n'
  {
    if |lines| > 1 {
      TerminatedEnds(lines[1..]);
    }
  }

  lemma HeadEnds(m: Message, fields: seq<Field>)
    ensures PrintHead(m, fields) != "" && PrintHead(m, fields)[|PrintHead(m, fields)| - 1] == '\n'
  {
    TerminatedEnds(FieldLines(fields));
  }

  /** The field is found where it was printed. */
  lemma FieldFound(m: Message, k: nat)
    requires DeclaresLength(m, k)
    ensures Find(Lower(PrintHead(m, m.fields) + CRLF), FIELD, 0) == Some(|PrintHead(m, m.fields[..k])|)
  {
    hide Find, PrintHead;
    var prefix, tail := PrintHead(m, m.fields[..k]), PrintTail(m, k);
    SplitHead(m, k);
    HeadEnds(m, m.fields[..k]);
    var low := Lower(prefix + tail);
    forall j | 0 <= j < |prefix| ensures !MatchAt(low, FIELD, j) {
      NoFieldAcross(prefix, tail, j);
    }
    var name := m.fields[k].name;
    assert Lower(name + ":") == Lower(name) + ":";
    assert tail[..|name| + 1] == name + ":";
    assert low[|prefix|..|prefix| + |FIELD|] == FIELD;
    FindIs(low, FIELD, 0, |prefix|);
  }

  /** What stands between the colon of field `k` and the end of its line. */
  lemma ValueFound(m: Message, k: nat)
    requires k < |m.fields| && PrintableField(m.fields[k])
    ensures FieldValue(PrintHead(m, m.fields) + CRLF, |PrintHead(m, m.fields[..k])|, 1) == Some(" " + m.fields[k].value)
  {
    hide PrintHead, FieldValue, Terminated;
    SplitHead(m, k);
    var f := m.fields[k];
    var rest := Terminated(FieldLines(m.fields[k + 1..])) + CRLF;
    assert PrintTail(m, k) == f.name + ":" + ((" " + f.value) + CRLF + rest);
    ValueAfterColon(PrintHead(m, m.fields[..k]), f.name, " " + f.value, rest);
  }

  lemma PrintedLength(m: Message, k: nat)
    requires Printable(m) && DeclaresLength(m, k)
    ensures Declaration(PrintHead(m, m.fields) + CRLF, 1) == Length(|m.body|)
  {
    hide FieldValue, Stoull, TrimLeft, PrintHead;
    var f := m.fields[k];
    assert PrintableField(f);
    FieldFound(m, k);
    ValueFound(m, k);
    TrimLeftKeeps(f.value);
    StoullOfDecimal(|m.body|);
  }

  // ---- The round trip ----

  /** The header map and body that a message stands for. */
  function Meaning(m: Message): Request {
    Request(KindOf(m.method_), m.method_, m.path, m.version, AddFields(map[], m.fields), m.body)
  }

  lemma PrintedParses(m: Message, k: nat, maxHeader: nat, maxBody: nat)
    requires Printable(m) && DeclaresLength(m, k)
    requires |PrintHead(m, m.fields)| + 2 <= maxHeader && |m.body| <= maxBody
    ensures NamesLength(PrintRequest(m))
    ensures Parse(PrintRequest(m), maxHeader, maxBody)
         == ParseResult(NoError, m.method_, m.path, m.version, LineFed(FieldLines(m.fields)), m.body, true)
  {
    hide ParseHead, Declaration, Section, PrintHead, PrintRequest;
    var section := Section(AllLines(m));
    var raw := PrintRequest(m);
    AllLinesClean(m);
    PrintedAsSection(m);
    BlankCloses(AllLines(m), m.body);
    HeadOfPrinted(m);
    PrintedLength(m, k);
    assert raw[..|section|] == section;
    assert raw[..|section| + 4] == section + BLANK;
    assert raw[|section| + 4..] == m.body;
    assert m.body[..|m.body|] == m.body;
  }

  /** Nothing in the printed head spells the length field. */
  ghost predicate DeclaresNone(m: Message) {
    Find(Lower(PrintHead(m, m.fields) + CRLF), FIELD, 0).None?
  }

  /** A printed request without a length parses too, whatever its body. */
  lemma UndeclaredParses(m: Message, maxHeader: nat, maxBody: nat)
    requires Printable(m) && DeclaresNone(m) && |PrintHead(m, m.fields)| + 2 <= maxHeader
    ensures !NamesLength(PrintRequest(m))
    ensures Parse(PrintRequest(m), maxHeader, maxBody)
         == ParseResult(NoError, m.method_, m.path, m.version, LineFed(FieldLines(m.fields)), m.body, true)
  {
    hide ParseHead, Declaration, Section, PrintHead, PrintRequest;
    var section := Section(AllLines(m));
    var raw := PrintRequest(m);
    AllLinesClean(m);
    PrintedAsSection(m);
    BlankCloses(AllLines(m), m.body);
    HeadOfPrinted(m);
    assert raw[..|section|] == section;
    assert raw[..|section| + 4] == section + BLANK;
    assert raw[|section| + 4..] == m.body;
  }

  /** And is rebuilt as printed. */
  lemma UndeclaredRoundTrip(m: Message, maxHeader: nat, maxBody: nat)
    requires Printable(m) && DeclaresNone(m) && |PrintHead(m, m.fields)| + 2 <= maxHeader
    ensures Parse(PrintRequest(m), maxHeader, maxBody).error == NoError
    ensures BuildRequest(Parse(PrintRequest(m), maxHeader, maxBody)) == Meaning(m)
  {
    hide Parse, PrintRequest, AddLines;
    UndeclaredParses(m, maxHeader, maxBody);
    AddPrintedLines(map[], m.fields);
  }

  /** The kind of a request, by its method as written. */
  lemma KindIs(m: Message)
    ensures Meaning(m).kind == Get <==> m.method_ == "GET"
    ensures Meaning(m).kind == Post <==> m.method_ == "POST"
    ensures Meaning(m).kind == Head <==> m.method_ == "HEAD"
    ensures Meaning(m).kind == Unknown <==> m.method_ !in {"GET", "POST", "HEAD"}
  {
    hide AddFields;
  }

  /**
   Round trip: a printed request parses without error and is rebuilt with the same method, path,
   version, header map and body.
   */
  lemma RequestRoundTrip(m: Message, k: nat, maxHeader: nat, maxBody: nat)
    requires Printable(m) && DeclaresLength(m, k)
    requires |PrintHead(m, m.fields)| + 2 <= maxHeader && |m.body| <= maxBody
    ensures Parse(PrintRequest(m), maxHeader, maxBody).error == NoError
    ensures BuildRequest(Parse(PrintRequest(m), maxHeader, maxBody)) == Meaning(m)
  {
    hide Parse, PrintRequest, AddLines;
    PrintedParses(m, k, maxHeader, maxBody);
    AddPrintedLines(map[], m.fields);
  }

  /** If the names are distinct ignoring case, a match in the header map is the field asked for. */
  lemma OneMatch(m: Message, i: nat, name: string, key: string)
    requires forall a, b :: 0 <= a < b < |m.fields| ==> Lower(m.fields[a].name) != Lower(m.fields[b].name)
    requires i < |m.fields| && Lower(name) == Lower(m.fields[i].name)
    ensures m.fields[i].name in Meaning(m).headers
    ensures key in Meaning(m).headers && Lower(key) == Lower(name) ==> Meaning(m).headers[key] == m.fields[i].value
  {
    forall a, b | 0 <= a < b < |m.fields| ensures m.fields[a].name != m.fields[b].name {
      assert Lower(m.fields[a].name) != Lower(m.fields[b].name);
    }
    AddFieldsExact(map[], m.fields);
  }

  /**
   Printing, parsing, building and looking up: if the names are distinct ignoring case, each field's
   value is found under any casing of its name, in whatever order the header map is walked.
   */
  lemma LookupIgnoresCase(m: Message, k: nat, maxHeader: nat, maxBody: nat, i: nat, name: string, order: seq<string>)
    requires Printable(m) && DeclaresLength(m, k)
    requires |PrintHead(m, m.fields)| + 2 <= maxHeader && |m.body| <= maxBody
    requires forall a, b :: 0 <= a < b < |m.fields| ==> Lower(m.fields[a].name) != Lower(m.fields[b].name)
    requires i < |m.fields| && Lower(name) == Lower(m.fields[i].name)
    ensures var headers := BuildRequest(Parse(PrintRequest(m), maxHeader, maxBody)).headers;
            (forall key :: key in order <==> key in headers) ==> Lookup(headers, order, name) == m.fields[i].value
  {
    hide Parse, PrintRequest, BuildRequest, Lower, AddFields;
    RequestRoundTrip(m, k, maxHeader, maxBody);
    var headers := Meaning(m).headers;
    if forall key :: key in order <==> key in headers {
      OneMatch(m, i, name, m.fields[i].name);
      forall key | key in order && Lower(key) == Lower(name) ensures headers[key] == m.fields[i].value {
        OneMatch(m, i, name, key);
      }
      LookupFinds(headers, order, name, m.fields[i].value);
    }
  }
}
