/**
 What the library operations compute, on every input and in terms of literal characters: lower-casing,
 whitespace, words, lines, trimming and the reading of numbers.
 */
module TextLaws {
  import opened Wrappers
  import opened Text

  // ---- Characters ----

  /** Exactly the letters A to Z change, each to its small letter. */
  lemma LowerLetters(c: char, i: nat)
    requires i < 26
    ensures LowerChar("ABCDEFGHIJKLMNOPQRSTUVWXYZ"[i]) == "abcdefghijklmnopqrstuvwxyz"[i]
    ensures c !in "ABCDEFGHIJKLMNOPQRSTUVWXYZ" ==> LowerChar(c) == c
  {
    var upper, lower := "ABCDEFGHIJKLMNOPQRSTUVWXYZ", "abcdefghijklmnopqrstuvwxyz";
    assert forall k :: 0 <= k < 26 ==> upper[k] as int == 65 + k && lower[k] as int == 97 + k;
    if 'A' <= c <= 'Z' {
      assert c == upper[c as int - 65];
    }
  }

  /** Whitespace is space, tab, line feed, vertical tab, form feed and carriage return. */
  lemma SpaceChars(c: char)
    ensures IsSpace(c) <==> c == ' ' || c == '\t' || c == '\n' || c == 11 as char || c == 12 as char || c == '\r'
  {
  }

  // ---- Words ----

  /** The words of `current + s`, split at whitespace, when `current` holds none. */
  function WordsFrom(current: string, s: string): seq<string>
    decreases |s|
  {
    if s == "" then (if current == "" then [] else [current])
    else if IsSpace(s[0]) then (if current == "" then [] else [current]) + WordsFrom("", s[1..])
    else WordsFrom(current + [s[0]], s[1..])
  }

  function Words(s: string): seq<string> {
    WordsFrom("", s)
  }

  lemma {:induction false} WordsOfWord(current: string, s: string)
    ensures var n := WordLength(s);
            WordsFrom(current, s) == (if current + s[..n] == "" then [] else [current + s[..n]]) + WordsFrom("", s[n..])
    decreases |s|
  {
    var n := WordLength(s);
    if s == "" {
      assert current + s[..n] == current && s[n..] == "";
    } else if IsSpace(s[0]) {
      assert current + s[..0] == current && s[0..] == s;
    } else {
      WordsOfWord(current + [s[0]], s[1..]);
      assert current + [s[0]] + s[1..][..n - 1] == current + s[..n];
      assert s[1..][n - 1..] == s[n..];
    }
  }

  lemma {:induction false} WordsSkipSpaces(s: string)
    ensures Words(SkipSpaces(s)) == Words(s)
    ensures SkipSpaces(s) == "" || !IsSpace(SkipSpaces(s)[0])
  {
    if s != "" && IsSpace(s[0]) {
      WordsSkipSpaces(s[1..]);
    }
  }

  /** Extracting a word takes the first of the words, and yields nothing when there is none. */
  lemma NextWordFirst(s: string)
    ensures var (word, rest) := NextWord(s);
            Words(s) == (if word == "" then [] else [word] + Words(rest)) && (word == "" ==> rest == "")
  {
    var t := SkipSpaces(s);
    var n := WordLength(t);
    WordsSkipSpaces(s);
    WordsOfWord("", t);
    assert "" + t[..n] == t[..n];
    if t == "" {
      assert Words(t) == [];
    } else {
      assert t[..n] != "";
    }
  }

  // ---- Lines ----

  /** The pieces between line feeds; a line feed at the end closes the last piece. */
  function LinesOf(s: string): seq<string>
    decreases |s|
  {
    if s == "" then []
    else
      match Find(s, "\n", 0)
      case None => [s]
      case Some(i) => [s[..i]] + LinesOf(s[i + 1..])
  }

  lemma {:induction false} LineLengthFirst(s: string)
    ensures forall i :: 0 <= i < LineLength(s) ==> s[i] != '\n'
  {
    if s != "" && s[0] != '\n' {
      LineLengthFirst(s[1..]);
      assert forall i :: 1 <= i < LineLength(s) ==> s[i] == s[1..][i - 1];
    }
  }

  /** Reading a line takes the first of the lines. */
  lemma GetLineFirst(s: string)
    requires s != ""
    ensures LinesOf(s) == [GetLine(s).0] + LinesOf(GetLine(s).1)
    ensures forall i :: 0 <= i < |GetLine(s).0| ==> GetLine(s).0[i] != '\n'
  {
    hide Find;
    var n := LineLength(s);
    LineLengthFirst(s);
    FindFirst(s, "\n", 0);
    forall j | 0 <= j < n ensures !MatchAt(s, "\n", j) {
      assert j + 1 <= |s| ==> s[j..j + 1][0] == s[j];
    }
    if n < |s| {
      assert s[n..n + 1] == "\n";
      FindIs(s, "\n", 0, n);
    } else {
      assert s[..n] == s;
    }
  }

  /** One carriage return at the end is stripped, and nothing else. */
  lemma StripsOneCr(s: string)
    ensures StripCr(s + "\r") == s
    ensures s == "" || s[|s| - 1] != '\r' ==> StripCr(s) == s
  {
    assert (s + "\r")[..|s|] == s;
  }

  // ---- Trimming ----

  ghost predicate AllBlank(s: string) {
    forall i :: 0 <= i < |s| ==> s[i] == ' ' || s[i] == '\t'
  }

  lemma {:induction false} SkipsBlanks(pre: string, s: string)
    requires AllBlank(pre) && (s == "" || !(s[0] == ' ' || s[0] == '\t'))
    ensures SkipBlanks(pre + s) == s
  {
    if pre == "" {
      assert pre + s == s;
    } else {
      assert (pre + s)[1..] == pre[1..] + s;
      SkipsBlanks(pre[1..], s);
    }
  }

  lemma {:induction false} DropsBlanks(s: string, post: string)
    requires AllBlank(post) && (s == "" || !(s[|s| - 1] == ' ' || s[|s| - 1] == '\t'))
    ensures DropBlanks(s + post) == s
  {
    if post == "" {
      assert s + post == s;
    } else {
      assert (s + post)[..|s + post| - 1] == s + post[..|post| - 1];
      DropsBlanks(s, post[..|post| - 1]);
    }
  }

  /**
   The two trims: the spaces and tabs around a text go and what is between stays, but spaces and tabs
   alone stay as they are.
   */
  lemma TrimmedIs(pre: string, mid: string, post: string)
    requires AllBlank(pre) && AllBlank(post)
    requires mid != "" ==> mid[0] !in " \t" && mid[|mid| - 1] !in " \t"
    ensures TrimRight(TrimLeft(pre + mid + post)) == if mid == "" then pre + post else mid
    ensures TrimLeft(pre + mid + post) == if mid == "" then pre + post else mid + post
  {
    var s := pre + mid + post;
    if mid == "" {
      assert s == pre + post && pre + post + "" == pre + post && "" + (pre + post) == pre + post;
      SkipsBlanks(pre + post, "");
      DropsBlanks("", pre + post);
    } else {
      assert s == pre + (mid + post) && (mid + post)[0] == mid[0];
      SkipsBlanks(pre, mid + post);
      DropsBlanks(mid, post);
    }
  }

  // ---- Numbers ----

  ghost predicate AllDigits(s: string) {
    forall i :: 0 <= i < |s| ==> '0' <= s[i] <= '9'
  }

  lemma {:induction false} SkipsSpaces(spaces: string, s: string)
    requires (forall i :: 0 <= i < |spaces| ==> IsSpace(spaces[i])) && (s == "" || !IsSpace(s[0]))
    ensures SkipSpaces(spaces + s) == s
  {
    if spaces == "" {
      assert spaces + s == s;
    } else {
      assert (spaces + s)[1..] == spaces[1..] + s;
      SkipsSpaces(spaces[1..], s);
    }
  }

  /** A zero in front does not change a number. */
  lemma {:induction false} LeadingZero(digits: string)
    requires AllDigits(digits)
    ensures AllDigits("0" + digits) && DigitsValue("0" + digits) == DigitsValue(digits)
    decreases |digits|
  {
    var s := "0" + digits;
    if digits == "" {
      assert s[..|s| - 1] == "" && s == "0";
    } else {
      assert s[..|s| - 1] == "0" + digits[..|digits| - 1];
      LeadingZero(digits[..|digits| - 1]);
    }
  }

  /** One more digit makes ten times as much and that digit. */
  lemma NextDigit(digits: string, d: nat)
    requires AllDigits(digits) && d < 10
    ensures AllDigits(digits + ["0123456789"[d]])
    ensures DigitsValue(digits + ["0123456789"[d]]) == 10 * DigitsValue(digits) + d
  {
    var s := digits + ["0123456789"[d]];
    assert forall k :: 0 <= k < 10 ==> "0123456789"[k] as int == 48 + k;
    assert s[..|s| - 1] == digits;
  }

  /** A text in the parts that `stoull` tells apart. */
  ghost predicate NumberParts(spaces: string, sign: string, digits: string, rest: string) {
    && (forall i :: 0 <= i < |spaces| ==> IsSpace(spaces[i]))
    && (sign == "" || sign == "+" || sign == "-")
    && AllDigits(digits) && (rest == "" || !('0' <= rest[0] <= '9'))
    && (sign + digits == "" ==> rest == "" || !(IsSpace(rest[0]) || rest[0] == '+' || rest[0] == '-'))
  }

  /** Every text has such parts. */
  lemma NumberPartsExist(s: string) returns (spaces: string, sign: string, digits: string, rest: string)
    ensures NumberParts(spaces, sign, digits, rest) && s == spaces + sign + digits + rest
  {
    hide SkipSpaces, DigitsLength;
    var t := SkipSpaces(s);
    spaces := SpacesBefore(s);
    WordsSkipSpaces(s);
    sign := if t != "" && (t[0] == '-' || t[0] == '+') then [t[0]] else "";
    var u := t[|sign|..];
    digits, rest := u[..DigitsLength(u)], u[DigitsLength(u)..];
    assert t == sign + u;
    FourParts(spaces, sign, digits, rest, u, t);
    if sign + digits == "" {
      assert rest == t;
    }
  }

  lemma FourParts(a: string, b: string, c: string, d: string, u: string, t: string)
    requires u == c + d && t == b + u
    ensures a + t == a + b + c + d
  {
  }

  lemma {:induction false} SpacesBefore(s: string) returns (spaces: string)
    ensures s == spaces + SkipSpaces(s) && forall i :: 0 <= i < |spaces| ==> IsSpace(spaces[i])
  {
    if s != "" && IsSpace(s[0]) {
      var more := SpacesBefore(s[1..]);
      spaces := [s[0]] + more;
      assert s == [s[0]] + s[1..];
    } else {
      spaces := "";
    }
  }

  /** What `stoull` reads from any text: no digits or too many is an exception, a minus sign negates modulo 2^64. */
  lemma StoullExactly(spaces: string, sign: string, digits: string, rest: string)
    requires NumberParts(spaces, sign, digits, rest)
    ensures Stoull(spaces + sign + digits + rest)
         == if digits == "" || DigitsValue(digits) > 18446744073709551615 then None
            else if sign == "-" && DigitsValue(digits) > 0 then Some(18446744073709551616 - DigitsValue(digits))
            else Some(DigitsValue(digits))
  {
    hide SkipSpaces, ReadMagnitude, DigitsValue;
    var u := digits + rest;
    var t := sign + u;
    FourParts(spaces, sign, digits, rest, u, t);
    assert u != "" ==> u[0] == (if digits != "" then digits[0] else rest[0]);
    SkipsSpaces(spaces, t);
    assert t[|sign|..] == u;
    Magnitude(digits, rest, sign == "-");
  }

  lemma Magnitude(digits: string, rest: string, negative: bool)
    requires AllDigits(digits) && (rest == "" || !('0' <= rest[0] <= '9'))
    ensures ReadMagnitude(digits + rest, negative)
         == if digits == "" || DigitsValue(digits) > 18446744073709551615 then None
            else Some(if negative && DigitsValue(digits) > 0 then 18446744073709551616 - DigitsValue(digits)
                      else DigitsValue(digits))
  {
    hide DigitsValue, DigitsLength;
    DigitsLengthIs(digits, rest);
    assert (digits + rest)[..|digits|] == digits;
  }
}
