/**
 What the parser answers to any bytes at all, read off the text: its error, the words of the request
 line, the declared length and the header map.
 */
module ParserLaws {
  import opened Wrappers
  import opened Text
  import opened TextLaws
  import opened ContentLength
  import opened HttpParser

  // ---- The request line ----

  /** The request line: what stands before the first line feed of the header section. */
  function FirstLineOf(section: string): string {
    if LinesOf(section) == [] then "" else LinesOf(section)[0]
  }

  /** A request line has at least three words, and the third starts like an HTTP version. */
  ghost predicate GoodLine(words: seq<string>) {
    |words| >= 3 && "HTTP/" <= words[2]
  }

  /** A carriage return at the end is whitespace, so stripping it changes no word. */
  lemma {:induction false} WordsWithoutCr(current: string, s: string)
    ensures WordsFrom(current, StripCr(s)) == WordsFrom(current, s)
    decreases |s|
  {
    if s != "" {
      assert s[1..] != "" ==> s[1..][|s| - 2] == s[|s| - 1];
      if |s| == 1 {
        if s[0] == '\r' {
          assert s[1..] == "" && WordsFrom("", "") == [];
        }
      } else {
        assert StripCr(s)[1..] == StripCr(s[1..]);
        WordsWithoutCr(if IsSpace(s[0]) then "" else current + [s[0]], s[1..]);
      }
    }
  }

  /** The `i`-th word, or nothing. */
  function WordAt(words: seq<string>, i: nat): string {
    if i < |words| then words[i] else ""
  }

  /** Three extractions in a row take the first three words. */
  lemma ThreeExtractions(s: string)
    ensures var (a, afterA) := NextWord(s);
            var (b, afterB) := NextWord(afterA);
            var (c, _) := NextWord(afterB);
            && a == WordAt(Words(s), 0) && b == WordAt(Words(s), 1) && c == WordAt(Words(s), 2)
            && (c == "" <==> |Words(s)| < 3)
  {
    hide NextWord, WordsFrom;
    var (a, afterA) := NextWord(s);
    var (b, afterB) := NextWord(afterA);
    NextWordFirst(s);
    NextWordFirst(afterA);
    NextWordFirst(afterB);
    assert Words("") == [] by { NoWords(); }
  }

  lemma NoWords()
    ensures Words("") == []
  {
  }

  /** The head of any section: its error and its three words. */
  lemma HeadExactly(section: string)
    ensures var words := Words(FirstLineOf(section));
            var head := ParseHead(section);
            && (head.error == Malformed <==> !GoodLine(words))
            && head.method_ == WordAt(words, 0) && head.path == WordAt(words, 1) && head.version == WordAt(words, 2)
            && head.headersRaw == (if GoodLine(words) then HeaderLines(GetLine(section).1) else "")
  {
    hide NextWord, WordsFrom, HeaderLines;
    if section == "" {
      NoWords();
    } else {
      GetLineFirst(section);
      var line := GetLine(section).0;
      WordsWithoutCr("", line);
      ThreeExtractions(StripCr(line));
    }
  }

  // ---- Every parse ----

  /**
   The answer for a header block that fits, from the words of its first line, its declared length and
   the bytes behind it.  `Malformed`: a bad request line or an unreadable length.  `BodyTooLarge`: a
   length over the limit.  `Incomplete`: a length within the limit, but too few bytes.
   */
  ghost predicate Verdict(r: ParseResult, words: seq<string>, d: Declared, rest: string, maxBody: nat) {
    && (r.error == Malformed <==> !GoodLine(words) || d.Bad?)
    && (r.error == BodyTooLarge <==> GoodLine(words) && d.Length? && d.n > maxBody)
    && (r.error == Incomplete <==> GoodLine(words) && d.Length? && |rest| < d.n <= maxBody)
    && (r.error == NoError <==> GoodLine(words) && (d.Absent? || (d.Length? && d.n <= maxBody && d.n <= |rest|)))
    && r.method_ == WordAt(words, 0) && r.path == WordAt(words, 1) && r.version == WordAt(words, 2)
    && (r.error == NoError ==> r.body == if d.Length? then rest[..d.n] else rest)
    && (r.error != NoError ==> r.body == "")
  }

  lemma FinishExactly(head: ParseResult, words: seq<string>, d: Declared, rest: string, maxBody: nat)
    requires !d.Cut? && head.body == "" && (head.error == NoError || head.error == Malformed)
    requires head.error == Malformed <==> !GoodLine(words)
    requires head.method_ == WordAt(words, 0) && head.path == WordAt(words, 1) && head.version == WordAt(words, 2)
    ensures Verdict(Finish(head, d, rest, maxBody), words, d, rest, maxBody)
  {
    hide GoodLine, WordAt;
  }

  /**
   The answer of the parser to any bytes: `Incomplete` without a blank line, `HeaderTooLarge` for a
   header block over the limit, and the verdict above otherwise.
   */
  lemma ParseExactly(raw: string, maxHeader: nat, maxBody: nat)
    ensures var r := Parse(raw, maxHeader, maxBody);
            match Find(raw, BLANK, 0)
            case None => r.error == Incomplete
            case Some(end) =>
              if end + 4 > maxHeader then r.error == HeaderTooLarge
              else Verdict(r, Words(FirstLineOf(raw[..end])), Declaration(raw[..end + 4], 1), raw[end + 4..], maxBody)
  {
    hide ParseHead, Declaration, Find, Words, FirstLineOf, Verdict, GoodLine, WordAt, Finish;
    var found := Find(raw, BLANK, 0);
    if found.Some? && found.value + 4 <= maxHeader {
      var end := found.value;
      HeadExactly(raw[..end]);
      BlockReadable(raw);
      FinishExactly(ParseHead(raw[..end]), Words(FirstLineOf(raw[..end])), Declaration(raw[..end + 4], 1),
                    raw[end + 4..], maxBody);
    }
  }

  /** The request built from any parse: its kind by the method as written, its other parts as parsed. */
  lemma BuiltExactly(r: ParseResult)
    ensures var req := BuildRequest(r);
            && (req.kind == Get <==> r.method_ == "GET") && (req.kind == Post <==> r.method_ == "POST")
            && (req.kind == Head <==> r.method_ == "HEAD") && (req.kind == Unknown <==> r.method_ !in {"GET", "POST", "HEAD"})
            && req.method_ == r.method_ && req.path == r.path && req.version == r.version && req.body == r.body
  {
  }

  // ---- The declared length ----

  /**
   The length a header block declares: the first field that spells Content-Length, in any casing, is
   read as a number after its leading spaces and tabs.
   */
  lemma DeclaredExactly(prefix: string, name: string, value: string, rest: string)
    requires Lower(name) + ":" == FIELD && OneLine(value)
    requires forall j :: 0 <= j < |prefix| ==> !MatchAt(Lower(prefix + (name + ":" + (value + CRLF + rest))), FIELD, j)
    ensures Declaration(prefix + (name + ":" + (value + CRLF + rest)), 1)
         == (match Stoull(TrimLeft(value)) case None => Bad case Some(n) => Length(n))
  {
    hide Find, Stoull, TrimLeft, FieldValue;
    var text := prefix + (name + ":" + (value + CRLF + rest));
    var low := Lower(text);
    assert Lower(name + ":") == FIELD;
    assert text[|prefix|..|prefix| + |FIELD|] == name + ":";
    assert low[|prefix|..|prefix| + |FIELD|] == FIELD;
    FindIs(low, FIELD, 0, |prefix|);
    NameHasNoColon(name);
    ValueAfterColon(prefix, name, value, rest);
  }

  lemma NameHasNoColon(name: string)
    requires Lower(name) + ":" == FIELD
    ensures forall i :: 0 <= i < |name| ==> name[i] != ':'
  {
    assert forall i :: 0 <= i < 14 ==> FIELD[i] != ':';
    forall i | 0 <= i < |name| ensures name[i] != ':' {
      assert Lower(name)[i] == FIELD[i];
    }
  }

  // ---- The header map ----

  /** How many lines the parser keeps: those before the first that is empty or a lone carriage return. */
  function KeptLines(lines: seq<string>): (n: nat)
    ensures n <= |lines|
    ensures forall i :: 0 <= i < n ==> lines[i] != "" && lines[i] != "\r"
    ensures n < |lines| ==> lines[n] == "" || lines[n] == "\r"
    decreases |lines|
  {
    if lines == [] || lines[0] == "" || lines[0] == "\r" then 0 else 1 + KeptLines(lines[1..])
  }

  /** The map after a line: a line with a colon sets a header, any other changes nothing. */
  function Enter(headers: map<string, string>, lines: seq<string>): map<string, string>
    decreases |lines|
  {
    if lines == [] then headers else Enter(AddLine(headers, StripCr(lines[0])), lines[1..])
  }

  lemma StripCrEmpty(line: string)
    ensures StripCr(line) == "" <==> line == "" || line == "\r"
  {
    if |line| == 1 && line[0] == '\r' {
      assert line == "\r";
    }
  }

  lemma {:induction false} EnterKept(headers: map<string, string>, rest: string)
    ensures var lines := LinesOf(rest);
            AddLines(headers, HeaderLines(rest)) == Enter(headers, lines[..KeptLines(lines)])
    decreases |rest|
  {
    hide GetLine, StripCr, AddLine, LinesOf;
    var lines := LinesOf(rest);
    if rest == "" {
      assert lines == [] by { NoLines(); }
    } else {
      GetLineFirst(rest);
      var (line, more) := GetLine(rest);
      StripCrEmpty(line);
      assert lines[0] == line && lines[1..] == LinesOf(more);
      if StripCr(line) != "" {
        var headers' := AddLine(headers, StripCr(line));
        StripCrKeepsLine(line);
        GetLineIs(StripCr(line), HeaderLines(more));
        EnterKept(headers', more);
        var n := KeptLines(lines);
        assert lines[..n][1..] == lines[1..][..n - 1];
        assert HeaderLines(rest) == StripCr(line) + "\n" + HeaderLines(more);
        assert AddLines(headers, HeaderLines(rest)) == AddLines(headers', HeaderLines(more));
      }
    }
  }

  lemma NoLines()
    ensures LinesOf("") == []
  {
  }

  lemma StripCrKeepsLine(line: string)
    requires forall i :: 0 <= i < |line| ==> line[i] != '\n'
    ensures forall i :: 0 <= i < |StripCr(line)| ==> StripCr(line)[i] != '\n'
  {
  }

  /** The name of a line, up to its first colon. */
  ghost predicate Names(line: string, key: string) {
    Find(StripCr(line), ":", 0) == Some(|key|) && StripCr(line)[..|key|] == key
  }

  /** Line `i` is the last with that name. */
  ghost predicate NamedLast(lines: seq<string>, i: int, key: string) {
    0 <= i < |lines| && Names(lines[i], key) && forall j :: i < j < |lines| ==> !Names(lines[j], key)
  }

  /** The trimmed value behind the name of a line. */
  function ValueOf(line: string, key: string): string
    requires Names(line, key)
  {
    TrimRight(TrimLeft(StripCr(line)[|key| + 1..]))
  }

  lemma {:induction false} UnnamedStays(headers: map<string, string>, lines: seq<string>, key: string)
    requires forall i :: 0 <= i < |lines| ==> !Names(lines[i], key)
    ensures key in Enter(headers, lines) <==> key in headers
    ensures key in headers ==> Enter(headers, lines)[key] == headers[key]
    decreases |lines|
  {
    if lines != [] {
      assert !Names(lines[0], key);
      UnnamedStays(AddLine(headers, StripCr(lines[0])), lines[1..], key);
    }
  }

  lemma {:induction false} LastNamedWins(headers: map<string, string>, lines: seq<string>, i: nat, key: string)
    requires NamedLast(lines, i, key)
    ensures key in Enter(headers, lines)
    ensures Enter(headers, lines)[key] == ValueOf(lines[i], key)
    decreases |lines|
  {
    hide TrimLeft, TrimRight;
    if i == 0 {
      UnnamedStays(AddLine(headers, StripCr(lines[0])), lines[1..], key);
    } else {
      LastNamedWins(AddLine(headers, StripCr(lines[0])), lines[1..], i - 1, key);
    }
  }

  /** What the lines say about a key: the map has it exactly when a line names it, with the last one's value. */
  ghost predicate Follows(headers: map<string, string>, lines: seq<string>, key: string) {
    && (key in headers <==> exists i :: 0 <= i < |lines| && Names(lines[i], key))
    && (forall i :: NamedLast(lines, i, key) ==> key in headers && headers[key] == ValueOf(lines[i], key))
  }

  lemma MapExactly(lines: seq<string>, key: string)
    ensures Follows(Enter(map[], lines), lines, key)
  {
    hide Enter, Names, ValueOf;
    if exists i :: 0 <= i < |lines| && Names(lines[i], key) {
      var i := LastNamed(lines, key);
      LastNamedWins(map[], lines, i, key);
    } else {
      UnnamedStays(map[], lines, key);
    }
    forall i | NamedLast(lines, i, key)
      ensures key in Enter(map[], lines) && Enter(map[], lines)[key] == ValueOf(lines[i], key)
    {
      LastNamedWins(map[], lines, i, key);
    }
  }

  lemma SectionHeaders(section: string)
    requires ParseHead(section).error == NoError
    ensures AddLines(map[], ParseHead(section).headersRaw) == Enter(map[], HeaderLinesOf(section))
  {
    hide ParseHead, HeaderLines, AddLines, Enter, LinesOf, GetLine, Words, FirstLineOf, WordAt, HeaderLinesOf, KeptLines;
    HeadExactly(section);
    assert section != "" by { NoHead(); }
    RestOfLines(section);
    EnterKept(map[], GetLine(section).1);
  }

  lemma NoHead()
    ensures ParseHead("").error == Malformed
  {
  }

  lemma HeadKept(raw: string, maxHeader: nat, maxBody: nat)
    requires Parse(raw, maxHeader, maxBody).error == NoError
    ensures Find(raw, BLANK, 0).Some?
    ensures var head := ParseHead(raw[..Find(raw, BLANK, 0).value]);
            head.error == NoError && head.headersRaw == Parse(raw, maxHeader, maxBody).headersRaw
  {
    hide ParseHead, Declaration, Find;
  }

  /**
   The header map of any request that parses: a key is in it exactly when a header line before the first
   empty one has that name before its first colon, and the last such line gives its trimmed value.
   */
  lemma HeadersExactly(raw: string, maxHeader: nat, maxBody: nat, key: string)
    requires Parse(raw, maxHeader, maxBody).error == NoError
    ensures Find(raw, BLANK, 0).Some?
    ensures Follows(BuildRequest(Parse(raw, maxHeader, maxBody)).headers,
                    HeaderLinesOf(raw[..Find(raw, BLANK, 0).value]), key)
  {
    hide Parse, ParseHead, Find, AddLines, Enter, HeaderLinesOf, Follows;
    HeadKept(raw, maxHeader, maxBody);
    var section := raw[..Find(raw, BLANK, 0).value];
    SectionHeaders(section);
    MapExactly(HeaderLinesOf(section), key);
  }

  lemma {:induction false} LastNamed(lines: seq<string>, key: string) returns (i: nat)
    requires exists i :: 0 <= i < |lines| && Names(lines[i], key)
    ensures NamedLast(lines, i, key)
    decreases |lines|
  {
    hide Names;
    var n := |lines| - 1;
    if Names(lines[n], key) {
      i := n;
    } else {
      i := LastNamed(lines[..n], key);
      assert lines[..n][i] == lines[i];
    }
  }

  /** The header lines of a section: those after the first and before the first empty one. */
  function HeaderLinesOf(section: string): seq<string> {
    var lines := if LinesOf(section) == [] then [] else LinesOf(section)[1..];
    lines[..KeptLines(lines)]
  }

  lemma RestOfLines(section: string)
    requires section != ""
    ensures var lines := LinesOf(GetLine(section).1); HeaderLinesOf(section) == lines[..KeptLines(lines)]
  {
    hide GetLine, LinesOf;
    GetLineFirst(section);
    assert LinesOf(section)[1..] == LinesOf(GetLine(section).1);
  }
}
