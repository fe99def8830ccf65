/**
 Byte strings and the library operations the server uses on them.  A `string` stands for a
 C++ `std::string`: each character is one byte.
 */
module Text {
  import opened Wrappers

  const CRLF := "\r\n"
  const BLANK := "\r\n\r\n"
  const UINT64_MAX := 0xFFFF_FFFF_FFFF_FFFF

  // ---- Searching ----

  ghost predicate MatchAt(s: string, pattern: string, i: int) {
    0 <= i <= |s| - |pattern| && s[i..i + |pattern|] == pattern
  }

  /** The first position at or after `from` where `pattern` occurs. */
  function Find(s: string, pattern: string, from: nat): (r: Option<nat>)
    ensures r.Some? ==> from <= r.value <= |s| - |pattern|
    decreases |s| - from
  {
    if from + |pattern| > |s| then None
    else if s[from..from + |pattern|] == pattern then Some(from)
    else Find(s, pattern, from + 1)
  }

  /** What the search found is a match with none before it; if it found nothing there is none. */
  lemma {:induction false} FindFirst(s: string, pattern: string, from: nat)
    ensures var r := Find(s, pattern, from);
            && (r.Some? ==> MatchAt(s, pattern, r.value) && forall j :: from <= j < r.value ==> !MatchAt(s, pattern, j))
            && (r.None? ==> forall j :: from <= j ==> !MatchAt(s, pattern, j))
    decreases |s| - from
  {
    if from + |pattern| <= |s| && s[from..from + |pattern|] != pattern {
      FindFirst(s, pattern, from + 1);
    }
  }

  /** A first match is the only first match. */
  lemma FindIs(s: string, pattern: string, from: nat, i: nat)
    requires from <= i && MatchAt(s, pattern, i)
    requires forall j :: from <= j < i ==> !MatchAt(s, pattern, j)
    ensures Find(s, pattern, from) == Some(i)
  {
    FindFirst(s, pattern, from);
  }

  lemma MatchInPrefix(s: string, t: string, pattern: string, i: int)
    requires i + |pattern| <= |s|
    ensures MatchAt(s + t, pattern, i) <==> MatchAt(s, pattern, i)
  {
    if 0 <= i {
      assert (s + t)[i..i + |pattern|] == s[i..i + |pattern|];
    }
  }

  lemma MatchShift(s: string, t: string, pattern: string, i: int)
    requires 0 <= i
    ensures MatchAt(s + t, pattern, |s| + i) <==> MatchAt(t, pattern, i)
  {
    if i + |pattern| <= |t| {
      assert (s + t)[|s| + i..|s| + i + |pattern|] == t[i..i + |pattern|];
    }
  }

  lemma SliceOfPrefix(s: string, t: string, i: nat, j: nat)
    requires i <= j <= |s|
    ensures (s + t)[i..j] == s[i..j]
  {
  }

  lemma CrLfChars(s: string, j: int)
    ensures MatchAt(s, CRLF, j) ==> s[j] == '\r' && s[j + 1] == '\n'
  {
    if MatchAt(s, CRLF, j) {
      assert s[j] == s[j..j + 2][0] && s[j + 1] == s[j..j + 2][1];
    }
  }

  /** Appending bytes does not move a match that was already there. */
  lemma FindStable(s: string, t: string, pattern: string, from: nat)
    requires Find(s, pattern, from).Some?
    ensures Find(s + t, pattern, from) == Find(s, pattern, from)
  {
    var i := Find(s, pattern, from).value;
    FindFirst(s, pattern, from);
    MatchInPrefix(s, t, pattern, i);
    forall j | from <= j < i ensures !MatchAt(s + t, pattern, j) {
      MatchInPrefix(s, t, pattern, j);
    }
    FindIs(s + t, pattern, from, i);
  }

  /** Searching behind a prefix finds what searching without it finds. */
  lemma FindShift(s: string, t: string, pattern: string, from: nat)
    requires Find(t, pattern, from).Some?
    ensures Find(s + t, pattern, |s| + from) == Some(|s| + Find(t, pattern, from).value)
  {
    hide Find;
    var i := Find(t, pattern, from).value;
    FindFirst(t, pattern, from);
    MatchShift(s, t, pattern, i);
    forall j | |s| + from <= j < |s| + i ensures !MatchAt(s + t, pattern, j) {
      MatchShift(s, t, pattern, j - |s|);
    }
    FindIs(s + t, pattern, |s| + from, |s| + i);
  }

  /** A match inside a prefix is found in the prefix alone. */
  lemma FindInPrefix(s: string, t: string, pattern: string, from: nat)
    requires Find(s + t, pattern, from).Some? && Find(s + t, pattern, from).value + |pattern| <= |s|
    ensures Find(s, pattern, from) == Find(s + t, pattern, from)
  {
    var i := Find(s + t, pattern, from).value;
    FindFirst(s + t, pattern, from);
    MatchInPrefix(s, t, pattern, i);
    forall j | from <= j < i ensures !MatchAt(s, pattern, j) {
      MatchInPrefix(s, t, pattern, j);
    }
    FindIs(s, pattern, from, i);
  }

  // ---- Characters ----

  function LowerChar(c: char): char {
    if 'A' <= c <= 'Z' then (c as int + 32) as char else c
  }

  function Lower(s: string): (r: string)
    ensures |r| == |s| && forall i :: 0 <= i < |s| ==> r[i] == LowerChar(s[i])
  {
    seq(|s|, i requires 0 <= i < |s| => LowerChar(s[i]))
  }

  lemma LowerConcat(s: string, t: string)
    ensures Lower(s + t) == Lower(s) + Lower(t)
  {
  }

  /** The whitespace of the C locale. */
  predicate IsSpace(c: char) {
    c == ' ' || '\t' <= c <= '\r'
  }

  predicate IsBlank(c: char) {
    c == ' ' || c == '\t'
  }

  predicate IsDigit(c: char) {
    '0' <= c <= '9'
  }

  ghost predicate NoSpace(s: string) {
    forall i :: 0 <= i < |s| ==> !IsSpace(s[i])
  }

  /** Free of carriage returns and line feeds. */
  ghost predicate OneLine(s: string) {
    forall i :: 0 <= i < |s| ==> s[i] != '\r' && s[i] != '\n'
  }

  // ---- Words and lines ----

  function SkipSpaces(s: string): string {
    if s != "" && IsSpace(s[0]) then SkipSpaces(s[1..]) else s
  }

  function WordLength(s: string): (n: nat)
    ensures n <= |s|
  {
    if s == "" || IsSpace(s[0]) then 0 else 1 + WordLength(s[1..])
  }

  /** Stream extraction of one word: the word (empty at the end of input) and what follows it. */
  function NextWord(s: string): (string, string) {
    var t := SkipSpaces(s);
    var n := WordLength(t);
    (t[..n], t[n..])
  }

  lemma {:induction false} WordLengthIs(w: string, rest: string)
    requires NoSpace(w) && (rest == "" || IsSpace(rest[0]))
    ensures WordLength(w + rest) == |w|
  {
    if w == "" {
      assert w + rest == rest;
    } else {
      assert (w + rest)[1..] == w[1..] + rest;
      WordLengthIs(w[1..], rest);
    }
  }

  lemma NextWordIs(w: string, rest: string)
    requires NoSpace(w) && w != "" && (rest == "" || IsSpace(rest[0]))
    ensures NextWord(w + rest) == (w, rest)
    ensures NextWord(" " + w + rest) == (w, rest)
  {
    WordLengthIs(w, rest);
    assert (w + rest)[0] == w[0];
    assert SkipSpaces(w + rest) == w + rest;
    assert (" " + w + rest)[1..] == w + rest;
    assert SkipSpaces(" " + w + rest) == SkipSpaces(w + rest);
  }

  function LineLength(s: string): (n: nat)
    ensures n <= |s| && (n < |s| ==> s[n] == '\n')
  {
    if s == "" || s[0] == '\n' then 0 else 1 + LineLength(s[1..])
  }

  /** `getline` on a stream that is not exhausted: the line and what remains after its line feed. */
  function GetLine(s: string): (r: (string, string))
    ensures s != "" ==> |r.1| < |s|
  {
    var n := LineLength(s);
    (s[..n], if n < |s| then s[n + 1..] else "")
  }

  lemma {:induction false} LineLengthIs(line: string, rest: string)
    requires forall i :: 0 <= i < |line| ==> line[i] != '\n'
    ensures LineLength(line) == |line|
    ensures LineLength(line + "\n" + rest) == |line|
  {
    if line != "" {
      assert (line + "\n" + rest)[1..] == line[1..] + "\n" + rest;
      LineLengthIs(line[1..], rest);
    }
  }

  lemma GetLineIs(line: string, rest: string)
    requires forall i :: 0 <= i < |line| ==> line[i] != '\n'
    ensures GetLine(line) == (line, "")
    ensures GetLine(line + "\n" + rest) == (line, rest)
  {
    LineLengthIs(line, rest);
    assert line[..|line|] == line;
    var s := line + "\n" + rest;
    assert s[..|line|] == line;
    assert s[|line| + 1..] == rest;
  }

  function StripCr(s: string): string {
    if s != "" && s[|s| - 1] == '\r' then s[..|s| - 1] else s
  }

  /** A line free of CR and LF ends at the first CRLF after it. */
  lemma EndOfLine(line: string, rest: string)
    requires OneLine(line)
    ensures Find(line + CRLF + rest, CRLF, 0) == Some(|line|)
  {
    var s := line + CRLF + rest;
    assert s[|line|..|line| + 2] == CRLF;
    forall j | 0 <= j < |line| ensures !MatchAt(s, CRLF, j) {
      CrLfChars(s, j);
      assert s[j] == line[j];
    }
    FindIs(s, CRLF, 0, |line|);
  }

  lemma ColonAfterName(name: string, rest: string)
    requires forall i :: 0 <= i < |name| ==> name[i] != ':'
    ensures Find(name + ":" + rest, ":", 0) == Some(|name|)
  {
    var s := name + ":" + rest;
    assert s[|name|..|name| + 1] == ":";
    forall j | 0 <= j < |name| ensures !MatchAt(s, ":", j) {
      assert s[j..j + 1] == [name[j]];
    }
    FindIs(s, ":", 0, |name|);
  }

  // ---- Trimming ----

  function SkipBlanks(s: string): (r: string)
    ensures |r| <= |s|
    ensures r != "" ==> !IsBlank(r[0])
  {
    if s != "" && IsBlank(s[0]) then SkipBlanks(s[1..]) else s
  }

  function DropBlanks(s: string): (r: string)
    ensures |r| <= |s|
  {
    if s != "" && IsBlank(s[|s| - 1]) then DropBlanks(s[..|s| - 1]) else s
  }

  /** Cut leading blanks, except that a string of blanks only is left as it is. */
  function TrimLeft(s: string): string {
    var t := SkipBlanks(s);
    if t == "" then s else t
  }

  /** Cut trailing blanks, except that a string of blanks only is left as it is. */
  function TrimRight(s: string): string {
    var t := DropBlanks(s);
    if t == "" then s else t
  }

  // ---- Numbers ----

  function DigitValue(c: char): nat
    requires IsDigit(c)
  {
    c as int - '0' as int
  }

  function DigitChar(d: nat): char
    requires d < 10
  {
    (d + '0' as int) as char
  }

  /** `to_string` of a count. */
  function ToDecimal(n: nat): (s: string)
    ensures s != "" && forall i :: 0 <= i < |s| ==> IsDigit(s[i])
  {
    if n < 10 then [DigitChar(n)] else ToDecimal(n / 10) + [DigitChar(n % 10)]
  }

  function DigitsLength(s: string): (n: nat)
    ensures n <= |s| && forall i :: 0 <= i < n ==> IsDigit(s[i])
    ensures n < |s| ==> !IsDigit(s[n])
  {
    if s == "" || !IsDigit(s[0]) then 0 else 1 + DigitsLength(s[1..])
  }

  function DigitsValue(s: string): nat
    requires forall i :: 0 <= i < |s| ==> IsDigit(s[i])
  {
    if s == "" then 0 else 10 * DigitsValue(s[..|s| - 1]) + DigitValue(s[|s| - 1])
  }

  /**
   `stoull`: optional whitespace, an optional sign, then digits up to the first other character.
   A minus sign negates modulo 2^64; no digits, or a value above 2^64 - 1, throws.
   */
  function Stoull(s: string): Option<nat> {
    var t := SkipSpaces(s);
    var negative := t != "" && t[0] == '-';
    var u := if negative || (t != "" && t[0] == '+') then t[1..] else t;
    ReadMagnitude(u, negative)
  }

  function ReadMagnitude(s: string, negative: bool): Option<nat> {
    var n := DigitsLength(s);
    if n == 0 then None
    else
      var v := DigitsValue(s[..n]);
      if v > UINT64_MAX then None
      else Some(if negative && v > 0 then UINT64_MAX + 1 - v else v)
  }

  lemma {:induction false} DigitsValueIs(n: nat)
    ensures DigitsValue(ToDecimal(n)) == n
  {
    var s := ToDecimal(n);
    if n < 10 {
      assert s[..|s| - 1] == "";
    } else {
      DigitsValueIs(n / 10);
      assert s[..|s| - 1] == ToDecimal(n / 10);
    }
  }

  lemma {:induction false} DigitsLengthIs(digits: string, rest: string)
    requires forall i :: 0 <= i < |digits| ==> IsDigit(digits[i])
    requires rest == "" || !IsDigit(rest[0])
    ensures DigitsLength(digits + rest) == |digits|
  {
    if digits == "" {
      assert digits + rest == rest;
    } else {
      assert (digits + rest)[1..] == digits[1..] + rest;
      DigitsLengthIs(digits[1..], rest);
    }
  }

  lemma MagnitudeIs(n: nat, rest: string, negative: bool)
    requires rest == "" || !IsDigit(rest[0])
    ensures ReadMagnitude(ToDecimal(n) + rest, negative)
         == if n > UINT64_MAX then None else Some(if negative && n > 0 then UINT64_MAX + 1 - n else n)
  {
    hide ToDecimal, DigitsValue, DigitsLength;
    var digits := ToDecimal(n);
    DigitsLengthIs(digits, rest);
    assert (digits + rest)[..|digits|] == digits;
    DigitsValueIs(n);
  }

  /**
   Exactly what is read from a printed count, up to the first other character: the count if it fits
   64 bits, its negation modulo 2^64 behind a minus sign, and an exception otherwise.
   */
  lemma StoullReads(n: nat, rest: string)
    requires rest == "" || !IsDigit(rest[0])
    ensures Stoull(ToDecimal(n) + rest) == if n <= UINT64_MAX then Some(n) else None
    ensures Stoull("+" + ToDecimal(n) + rest) == if n <= UINT64_MAX then Some(n) else None
    ensures Stoull("-" + ToDecimal(n) + rest)
         == if n == 0 then Some(0) else if n <= UINT64_MAX then Some(UINT64_MAX + 1 - n) else None
  {
    hide ToDecimal, ReadMagnitude;
    var digits := ToDecimal(n);
    var s := digits + rest;
    assert IsDigit(digits[0]) && s[0] == digits[0];
    MagnitudeIs(n, rest, false);
    MagnitudeIs(n, rest, true);
    assert ("+" + digits + rest)[1..] == s && ("-" + digits + rest)[1..] == s;
  }

  /** Reading back a printed count gives the count, as long as it fits 64 bits. */
  lemma StoullOfDecimal(n: nat)
    requires n <= UINT64_MAX
    ensures Stoull(ToDecimal(n)) == Some(n)
  {
    hide Stoull;
    StoullReads(n, "");
    assert ToDecimal(n) + "" == ToDecimal(n);
  }
}
