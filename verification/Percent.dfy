/** Percent decoding of paths (section 2.1 of RFC 3986), with `+` for a space. */
module Percent {
  import opened Wrappers

  predicate IsHex(c: char) {
    '0' <= c <= '9' || 'a' <= c <= 'f' || 'A' <= c <= 'F'
  }

  function HexValue(c: char): (v: nat)
    requires IsHex(c)
    ensures v < 16
  {
    if c <= '9' then c as int - '0' as int
    else if c <= 'F' then c as int - 'A' as int + 10
    else c as int - 'a' as int + 10
  }

  /**
   What a stream makes of two characters that are not both hexadecimal digits, such as a digit
   followed by something else: left open, and supplied as a parameter.
   */
  type Lenient = (char, char) -> Option<char>

  /** The byte that `%` followed by `a` and `b` stands for, if the escape is taken. */
  function Escape(a: char, b: char, lenient: Lenient): Option<char> {
    if IsHex(a) && IsHex(b) then Some((16 * HexValue(a) + HexValue(b)) as char) else lenient(a, b)
  }

  function Decode(s: string, lenient: Lenient): string {
    if s == "" then ""
    else if s[0] == '%' && |s| > 2 then
      match Escape(s[1], s[2], lenient)
      case Some(c) => [c] + Decode(s[3..], lenient)
      case None => "%" + Decode(s[1..], lenient)
    else [if s[0] == '+' then ' ' else s[0]] + Decode(s[1..], lenient)
  }

  /** The character decoded at position `i`, and where decoding goes on. */
  function Next(s: string, i: nat, lenient: Lenient): (r: (char, nat))
    requires i < |s|
    ensures i < r.1 <= |s|
  {
    if s[i] == '%' && i + 2 < |s| then
      match Escape(s[i + 1], s[i + 2], lenient)
      case Some(c) => (c, i + 3)
      case None => ('%', i + 1)
    else (if s[i] == '+' then ' ' else s[i], i + 1)
  }

  lemma DecodeAt(s: string, i: nat, lenient: Lenient)
    requires i < |s|
    ensures var (c, next) := Next(s, i, lenient);
            Decode(s[i..], lenient) == [c] + Decode(s[next..], lenient)
  {
    hide Escape;
    var t := s[i..];
    assert t[0] == s[i] && t[1..] == s[i + 1..];
    if i + 2 < |s| {
      assert t[1] == s[i + 1] && t[2] == s[i + 2] && t[3..] == s[i + 3..];
    }
  }

  lemma DecodeOneMore(result: string, s: string, i: nat, lenient: Lenient)
    requires i < |s|
    ensures var (c, next) := Next(s, i, lenient);
            (result + [c]) + Decode(s[next..], lenient) == result + Decode(s[i..], lenient)
  {
    hide Decode, Next;
    DecodeAt(s, i, lenient);
  }

  lemma DecodeNothing(s: string, lenient: Lenient)
    ensures s[0..] == s && Decode(s[|s|..], lenient) == ""
  {
  }

  /** The source's loop, which moves its index past a taken escape. */
  method UrlDecode(s: string, lenient: Lenient) returns (result: string)
    ensures result == Decode(s, lenient)
    ensures |result| <= |s|
  {
    hide Decode, Escape;
    result := "";
    var i := 0;
    DecodeNothing(s, lenient);
    while i < |s|
      invariant 0 <= i <= |s|
      invariant result + Decode(s[i..], lenient) == Decode(s, lenient)
      invariant |result| <= i
    {
      DecodeOneMore(result, s, i, lenient);
      var c := s[i];
      if c == '%' && i + 2 < |s| {
        var value := Escape(s[i + 1], s[i + 2], lenient);
        if value.Some? {
          c := value.value;
          i := i + 2;
        }
      } else if c == '+' {
        c := ' ';
      }
      result := result + [c];
      i := i + 1;
    }
  }

  // ---- Encoding ----

  /** A two-digit escape; `upper` chooses the case of the letters. */
  function HexDigit(v: nat, upper: bool): (c: char)
    requires v < 16
    ensures IsHex(c) && HexValue(c) == v
  {
    if v < 10 then (v + '0' as int) as char
    else if upper then (v - 10 + 'A' as int) as char
    else (v - 10 + 'a' as int) as char
  }

  ghost predicate Bytes(s: string) {
    forall i :: 0 <= i < |s| ==> s[i] < 256 as char
  }

  /** Encode every byte chosen by `pick`, in the letter case chosen by `upper`. */
  function Encode(s: string, pick: char -> bool, upper: char -> bool): string
    requires Bytes(s)
  {
    if s == "" then ""
    else
      var v := s[0] as int;
      (if pick(s[0]) then ['%', HexDigit(v / 16, upper(s[0])), HexDigit(v % 16, upper(s[0]))] else [s[0]])
      + Encode(s[1..], pick, upper)
  }

  lemma DecodeUnit(v: nat, upper: bool, rest: string, lenient: Lenient)
    requires v < 256
    ensures Decode(['%', HexDigit(v / 16, upper), HexDigit(v % 16, upper)] + rest, lenient)
         == [v as char] + Decode(rest, lenient)
  {
    var unit := ['%', HexDigit(v / 16, upper), HexDigit(v % 16, upper)];
    var e := unit + rest;
    assert e[0] == '%' && e[1] == unit[1] && e[2] == unit[2] && e[3..] == rest;
  }

  lemma DecodeOther(c: char, rest: string, lenient: Lenient)
    requires c != '%' && c != '+'
    ensures Decode([c] + rest, lenient) == [c] + Decode(rest, lenient)
  {
    assert ([c] + rest)[1..] == rest;
  }

  /** Decoding undoes every encoding that escapes at least `%` and `+`, however junk escapes are treated. */
  lemma {:induction false} DecodeUndoesEncode(s: string, pick: char -> bool, upper: char -> bool, lenient: Lenient)
    requires Bytes(s) && pick('%') && pick('+')
    ensures Decode(Encode(s, pick, upper), lenient) == s
  {
    if s != "" {
      hide Decode, HexDigit;
      var rest := Encode(s[1..], pick, upper);
      DecodeUndoesEncode(s[1..], pick, upper, lenient);
      var v := s[0] as int;
      if pick(s[0]) {
        DecodeUnit(v, upper(s[0]), rest, lenient);
      } else {
        DecodeOther(s[0], rest, lenient);
      }
      assert s == [s[0]] + s[1..];
    }
  }

  // ---- Every input, character by character ----

  /** The digits and their values, written out. */
  lemma HexDigitsAre(c: char)
    ensures IsHex(c) <==> c in "0123456789abcdefABCDEF"
    ensures IsHex(c) ==> var v := HexValue(c); c == "0123456789abcdef"[v] || c == "0123456789ABCDEF"[v]
  {
    var lower, upper, all := "0123456789abcdef", "0123456789ABCDEF", "0123456789abcdefABCDEF";
    assert forall k :: 0 <= k < 10 ==> all[k] == lower[k] == upper[k] && lower[k] as int == 48 + k;
    assert forall k :: 10 <= k < 16 ==> all[k] == lower[k] && lower[k] as int == 87 + k;
    assert forall k :: 10 <= k < 16 ==> all[k + 6] == upper[k] && upper[k] as int == 55 + k;
    if IsHex(c) {
      var v := HexValue(c);
      assert c == lower[v] || c == upper[v];
    }
  }

  /** At the front of any text a plus is a space, and every character but plus and percent stays. */
  lemma PlainRules(c: char, rest: string, lenient: Lenient)
    ensures Decode("", lenient) == ""
    ensures Decode("+" + rest, lenient) == " " + Decode(rest, lenient)
    ensures c != '%' && c != '+' ==> Decode([c] + rest, lenient) == [c] + Decode(rest, lenient)
  {
    assert ("+" + rest)[1..] == rest && ([c] + rest)[1..] == rest;
  }

  /**
   A percent sign with two digits is their byte, with junk it is what `lenient` makes of it, and with
   fewer than two characters behind it, it stays.
   */
  lemma EscapeRules(a: char, b: char, rest: string, lenient: Lenient)
    ensures var e := "%" + [a, b] + rest;
            if IsHex(a) && IsHex(b) then
              Decode(e, lenient) == [(16 * HexValue(a) + HexValue(b)) as char] + Decode(rest, lenient)
            else
              Decode(e, lenient) == (match lenient(a, b)
                                     case Some(x) => [x] + Decode(rest, lenient)
                                     case None => "%" + Decode([a, b] + rest, lenient))
    ensures Decode("%", lenient) == "%" && Decode(['%', a], lenient) == "%" + Decode([a], lenient)
  {
    hide HexValue, Decode;
    var e := "%" + [a, b] + rest;
    assert e[0] == '%' && e[1] == a && e[2] == b && e[3..] == rest && e[1..] == [a, b] + rest;
    DecodeFirst(e, lenient);
    DecodeFirst("%", lenient);
    DecodeFirst(['%', a], lenient);
    assert "%"[1..] == "" && ['%', a][1..] == [a];
    PlainRules(a, "", lenient);
  }

  /** Encoding with `pick` and then decoding gives `s` back. */
  ghost predicate Survives(s: string, pick: char -> bool, upper: char -> bool, lenient: Lenient) {
    Bytes(s) ==> Decode(Encode(s, pick, upper), lenient) == s
  }

  /** Unescaped, `+` turns into a space. */
  lemma PlusMustBeEscaped(pick: char -> bool, upper: char -> bool, lenient: Lenient)
    requires !pick('+')
    ensures !Survives("+", pick, upper, lenient)
  {
    assert Encode("+", pick, upper) == "+" + Encode("", pick, upper);
  }

  /** Unescaped, `%` takes with it two characters that are unescaped hexadecimal digits. */
  lemma PercentMustBeEscaped(pick: char -> bool, upper: char -> bool, lenient: Lenient, d: char)
    requires !pick('%') && IsHex(d) && !pick(d)
    ensures !Survives(['%', d, d], pick, upper, lenient)
  {
    var s := ['%', d, d];
    assert s[1..] == [d, d] && [d, d][1..] == [d];
    assert Encode([d], pick, upper) == [d];
    assert Encode([d, d], pick, upper) == [d, d];
    assert Encode(s, pick, upper) == s;
    assert s[3..] == "";
    assert |Decode(s, lenient)| == 1;
  }

  /**
   How reading a number from two characters that are not both digits can succeed: one of them is a
   digit, and the first is a digit or something a number may start with, such as a blank or a sign.
   */
  ghost predicate ReadsNumbers(lenient: Lenient) {
    forall a, b :: lenient(a, b).Some? ==> IsHex(a) || (IsHex(b) && a != '%')
  }

  /** No encoded text starts with a hexadecimal digit when all of those are escaped. */
  lemma EncodedStart(s: string, pick: char -> bool, upper: char -> bool)
    requires Bytes(s) && forall a :: IsHex(a) ==> pick(a)
    ensures var e := Encode(s, pick, upper);
            && (e == "" <==> s == "")
            && (s != "" ==>
                  if pick(s[0]) then e[0] == '%'
                  else e[0] == s[0] && !IsHex(e[0]) && e[1..] == Encode(s[1..], pick, upper))
  {
  }

  /** Then a `%` that was left alone never looks like the start of an escape. */
  lemma LonePercentStays(s: string, pick: char -> bool, upper: char -> bool, lenient: Lenient)
    requires Bytes(s) && ReadsNumbers(lenient) && forall a :: IsHex(a) ==> pick(a)
    ensures var e := Encode(s, pick, upper); Decode("%" + e, lenient) == "%" + Decode(e, lenient)
  {
    var e := Encode(s, pick, upper);
    var all := "%" + e;
    assert all[1..] == e;
    EncodedStart(s, pick, upper);
    if |e| >= 2 && !pick(s[0]) && |s| > 1 {
      EncodedStart(s[1..], pick, upper);
      assert e[1] == e[1..][0];
    }
  }

  lemma {:induction false} DigitsEscapedSurvives(s: string, pick: char -> bool, upper: char -> bool, lenient: Lenient)
    requires Bytes(s) && ReadsNumbers(lenient) && pick('+') && forall a :: IsHex(a) ==> pick(a)
    ensures Decode(Encode(s, pick, upper), lenient) == s
  {
    if s != "" {
      hide Decode, HexDigit;
      var rest := Encode(s[1..], pick, upper);
      DigitsEscapedSurvives(s[1..], pick, upper, lenient);
      if pick(s[0]) {
        DecodeUnit(s[0] as int, upper(s[0]), rest, lenient);
      } else if s[0] == '%' {
        LonePercentStays(s[1..], pick, upper, lenient);
      } else {
        DecodeOther(s[0], rest, lenient);
      }
      assert s == [s[0]] + s[1..];
    }
  }

  /**
   The exact condition, for every way of reading junk that a number parser can have: every byte
   string survives if and only if `+` is escaped, and so is `%` or else every hexadecimal digit.
   */
  lemma EncodingExact(pick: char -> bool, upper: char -> bool, lenient: Lenient)
    requires ReadsNumbers(lenient)
    ensures (forall s :: Survives(s, pick, upper, lenient))
            <==> pick('+') && (pick('%') || forall a :: IsHex(a) ==> pick(a))
  {
    if !pick('+') {
      PlusMustBeEscaped(pick, upper, lenient);
    } else if pick('%') || (forall a :: IsHex(a) ==> pick(a)) {
      forall s ensures Survives(s, pick, upper, lenient) {
        if Bytes(s) {
          if pick('%') {
            DecodeUndoesEncode(s, pick, upper, lenient);
          } else {
            DigitsEscapedSurvives(s, pick, upper, lenient);
          }
        }
      }
    } else {
      var d :| IsHex(d) && !pick(d);
      PercentMustBeEscaped(pick, upper, lenient, d);
    }
  }

  // ---- Decoding in pieces ----

  /** The text ends at an escape boundary: no `%` is left waiting for characters that are not there. */
  ghost predicate Aligned(s: string, lenient: Lenient) {
    || s == ""
    || (if s[0] == '%' then
          && |s| > 2
          && Aligned(if Escape(s[1], s[2], lenient).Some? then s[3..] else s[1..], lenient)
        else Aligned(s[1..], lenient))
  }

  lemma NextInPrefix(a: string, b: string, lenient: Lenient)
    requires a != "" && Aligned(a, lenient)
    ensures Next(a + b, 0, lenient) == Next(a, 0, lenient) && Aligned(a[Next(a, 0, lenient).1..], lenient)
  {
    hide Escape;
  }

  /** Decoding distributes over concatenation at escape boundaries. */
  lemma {:induction false} DecodeConcat(a: string, b: string, lenient: Lenient)
    requires Aligned(a, lenient)
    ensures Decode(a + b, lenient) == Decode(a, lenient) + Decode(b, lenient)
    decreases |a|
  {
    if a == "" {
      assert a + b == b;
    } else {
      hide *;
      NextInPrefix(a, b, lenient);
      DecodeFirst(a, lenient);
      DecodeFirst(a + b, lenient);
      var (c, next) := Next(a, 0, lenient);
      assert (a + b)[next..] == a[next..] + b;
      DecodeConcat(a[next..], b, lenient);
      var x, y := Decode(a[next..], lenient), Decode(b, lenient);
      assert [c] + (x + y) == ([c] + x) + y;
    }
  }

  lemma DecodeFirst(s: string, lenient: Lenient)
    requires s != ""
    ensures var (c, next) := Next(s, 0, lenient); Decode(s, lenient) == [c] + Decode(s[next..], lenient)
  {
    hide Decode, Next;
    DecodeAt(s, 0, lenient);
    assert s[0..] == s;
  }

  lemma {:induction false} DecodeNeverLengthens(s: string, lenient: Lenient)
    ensures |Decode(s, lenient)| <= |s|
    decreases |s|
  {
    if s != "" {
      if s[0] == '%' && |s| > 2 && Escape(s[1], s[2], lenient).Some? {
        DecodeNeverLengthens(s[3..], lenient);
      } else {
        DecodeNeverLengthens(s[1..], lenient);
      }
    }
  }
}
