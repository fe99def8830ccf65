/**
 The header section of an HTTP/1.1 message (section 2.1 of RFC 9112): lines joined by CRLF and
 closed by a blank line.  Requests and responses are both framed this way.
 */
module Sections {
  import opened Wrappers
  import opened Text

  ghost predicate CleanLine(s: string) {
    s != "" && OneLine(s)
  }

  ghost predicate Clean(lines: seq<string>) {
    forall i :: 0 <= i < |lines| ==> CleanLine(lines[i])
  }

  /** The lines joined by CRLF, with none after the last. */
  function Section(lines: seq<string>): string
    requires lines != []
  {
    if |lines| == 1 then lines[0] else lines[0] + CRLF + Section(lines[1..])
  }

  /** The lines, each followed by CRLF. */
  function Terminated(lines: seq<string>): string {
    if lines == [] then "" else lines[0] + CRLF + Terminated(lines[1..])
  }

  /** The lines, each followed by a line feed. */
  function LineFed(lines: seq<string>): string {
    if lines == [] then "" else lines[0] + "\n" + LineFed(lines[1..])
  }

  lemma {:induction false} SectionTerminated(lines: seq<string>)
    requires lines != []
    ensures Section(lines) + CRLF == Terminated(lines)
  {
    if |lines| > 1 {
      SectionTerminated(lines[1..]);
      assert Section(lines) + CRLF == lines[0] + CRLF + (Section(lines[1..]) + CRLF);
    } else {
      assert Terminated(lines[1..]) == "";
    }
  }

  lemma {:induction false} TerminatedConcat(a: seq<string>, b: seq<string>)
    ensures Terminated(a + b) == Terminated(a) + Terminated(b)
  {
    if a == [] {
      assert a + b == b;
    } else {
      assert (a + b)[1..] == a[1..] + b;
      TerminatedConcat(a[1..], b);
    }
  }

  lemma BlankChars(s: string, j: int)
    ensures MatchAt(s, BLANK, j) ==> s[j] == '\r' && s[j + 1] == '\n' && s[j + 2] == '\r'
  {
    if MatchAt(s, BLANK, j) {
      assert s[j] == s[j..j + 4][0] && s[j + 1] == s[j..j + 4][1] && s[j + 2] == s[j..j + 4][2];
    }
  }

  /** No blank line starts inside a section of clean lines. */
  lemma {:induction false} NoEarlyBlank(lines: seq<string>, tail: string, j: int)
    requires lines != [] && Clean(lines) && 0 <= j < |Section(lines)|
    ensures !MatchAt(Section(lines) + BLANK + tail, BLANK, j)
  {
    var s := Section(lines) + BLANK + tail;
    var n := |lines[0]|;
    BlankChars(s, j);
    assert CleanLine(lines[0]);
    if j < n {
      assert s[j] == lines[0][j];
    } else {
      var rest := Section(lines[1..]) + BLANK + tail;
      assert s == lines[0] + CRLF + rest;
      assert CleanLine(lines[1]) && rest[0] == lines[1][0];
      if j == n {
        assert s[j + 2] == rest[0];
      } else if j == n + 1 {
        assert s[j] == '\n';
      } else {
        NoEarlyBlank(lines[1..], tail, j - n - 2);
        MatchShift(lines[0] + CRLF, rest, BLANK, j - n - 2);
      }
    }
  }

  /** The first blank line of a message is the one that closes its section, whatever the body holds. */
  lemma BlankCloses(lines: seq<string>, tail: string)
    requires lines != [] && Clean(lines)
    ensures Find(Section(lines) + BLANK + tail, BLANK, 0) == Some(|Section(lines)|)
  {
    var s := Section(lines) + BLANK + tail;
    assert s[|Section(lines)|..|Section(lines)| + 4] == BLANK;
    forall j | 0 <= j < |Section(lines)| ensures !MatchAt(s, BLANK, j) {
      NoEarlyBlank(lines, tail, j);
    }
    FindIs(s, BLANK, 0, |Section(lines)|);
  }

  /** Reading a line that ends in CRLF. */
  lemma CrLfLine(line: string, rest: string)
    requires OneLine(line)
    ensures GetLine(line + CRLF + rest) == (line + "\r", rest)
    ensures StripCr(line + "\r") == line
  {
    var cr := line + "\r";
    assert line + CRLF + rest == cr + "\n" + rest;
    GetLineIs(cr, rest);
    assert cr[..|cr| - 1] == line;
  }

  /** Reading the first line of a section gives the line, with or without its carriage return. */
  lemma FirstLine(lines: seq<string>)
    requires lines != [] && Clean(lines)
    ensures Section(lines) != ""
    ensures StripCr(GetLine(Section(lines)).0) == lines[0]
    ensures GetLine(Section(lines)).1 == if |lines| == 1 then "" else Section(lines[1..])
  {
    assert CleanLine(lines[0]);
    if |lines| == 1 {
      GetLineIs(lines[0], "");
    } else {
      CrLfLine(lines[0], Section(lines[1..]));
    }
  }
}
