/**
 The scan for the declared body length, written out twice in the source: once over the bytes
 received so far and once over the complete header block.
 */
module ContentLength {
  import opened Wrappers
  import opened Text

  const FIELD := "content-length:"

  /**
   What the scan finds: no field, a field whose line is cut off, a value that is no number,
   or a length.
   */
  datatype Declared = Absent | Cut | Bad | Length(n: nat)

  /**
   The text between the first colon at or after `at` and the end of its line; `skip` is how far
   past the colon the search for that end starts.
   */
  function FieldValue(text: string, at: nat, skip: nat): Option<string> {
    match Find(text, ":", at)
    case None => None
    case Some(colon) =>
      match Find(text, CRLF, colon + skip)
      case None => None
      case Some(eol) => if eol <= colon then None else Some(text[colon + 1..eol])
  }

  function Declaration(text: string, skip: nat): (d: Declared)
    ensures d.Absent? <==> Find(Lower(text), FIELD, 0).None?
  {
    match Find(Lower(text), FIELD, 0)
    case None => Absent
    case Some(at) =>
      match FieldValue(text, at, skip)
      case None => Cut
      case Some(value) => ReadLength(value)
  }

  function ReadLength(value: string): (d: Declared)
    ensures d.Bad? || d.Length?
  {
    match Stoull(TrimLeft(value))
    case None => Bad
    case Some(n) => Length(n)
  }

  lemma FieldValueStable(s: string, t: string, at: nat, skip: nat)
    requires FieldValue(s, at, skip).Some?
    ensures FieldValue(s + t, at, skip) == FieldValue(s, at, skip)
  {
    hide Find;
    FindStable(s, t, ":", at);
    var colon := Find(s, ":", at).value;
    FindStable(s, t, CRLF, colon + skip);
    var eol := Find(s, CRLF, colon + skip).value;
    SliceOfPrefix(s, t, colon + 1, eol);
  }

  /** Once the scan has read a value, further bytes do not change it. */
  lemma DeclarationStable(s: string, t: string, skip: nat)
    requires Declaration(s, skip).Bad? || Declaration(s, skip).Length?
    ensures Declaration(s + t, skip) == Declaration(s, skip)
  {
    LowerConcat(s, t);
    FindStable(Lower(s), Lower(t), FIELD, 0);
    FieldValueStable(s, t, Find(Lower(s), FIELD, 0).value, skip);
  }

  /** Starting at the colon or just after it makes no difference. */
  lemma SkipIrrelevant(text: string)
    ensures Declaration(text, 0) == Declaration(text, 1)
  {
    var at := Find(Lower(text), FIELD, 0);
    if at.Some? && Find(text, ":", at.value).Some? {
      var colon := Find(text, ":", at.value).value;
      FindFirst(text, ":", at.value);
      FindFirst(text, CRLF, colon);
      FindFirst(text, CRLF, colon + 1);
      assert text[colon..colon + 1][0] == ':';
      CrLfChars(text, colon);
      var eol := Find(text, CRLF, colon);
      if eol.Some? {
        FindIs(text, CRLF, colon + 1, eol.value);
      }
    }
  }

  /** Between the colon of a field and the end of its line stands its value. */
  lemma ValueAfterColon(prefix: string, name: string, value: string, rest: string)
    requires OneLine(value) && forall i :: 0 <= i < |name| ==> name[i] != ':'
    ensures FieldValue(prefix + (name + ":" + (value + CRLF + rest)), |prefix|, 1) == Some(value)
  {
    hide Find;
    var after := value + CRLF + rest;
    var s := prefix + (name + ":" + after);
    ColonAfterName(name, after);
    FindShift(prefix, name + ":" + after, ":", 0);
    var colon := |prefix| + |name|;
    EndOfLine(value, rest);
    FindShift(prefix + name + ":", after, CRLF, 0);
    assert s == (prefix + name + ":") + after;
    assert s[colon + 1..colon + 1 + |value|] == value;
  }

  ghost predicate EndsBlank(block: string) {
    |block| >= 4 && block[|block| - 4..] == BLANK
  }

  /** The field's own colon is a colon of the text. */
  lemma ColonFollows(text: string, at: nat)
    requires MatchAt(Lower(text), FIELD, at)
    ensures at + 15 <= |text| && text[at + 14] == ':' && MatchAt(text, ":", at + 14)
  {
    assert Lower(text)[at + 14] == Lower(text)[at..at + 15][14];
    assert text[at + 14..at + 15] == [text[at + 14]];
  }

  lemma BlankEnd(block: string)
    requires EndsBlank(block)
    ensures MatchAt(block, CRLF, |block| - 2)
    ensures forall i :: |block| - 4 <= i < |block| ==> block[i] != ':'
  {
    var n := |block|;
    assert forall i :: n - 4 <= i < n ==> block[i] == BLANK[i - (n - 4)];
    assert block[n - 2..n] == CRLF;
  }

  /** In a complete header block the line of the field always ends: the guard in the source cannot fail. */
  lemma BlockNeverCut(block: string)
    requires EndsBlank(block)
    ensures !Declaration(block, 1).Cut?
  {
    hide Find, Lower, ReadLength, EndsBlank;
    var found := Find(Lower(block), FIELD, 0);
    if found.Some? {
      var at := found.value;
      FindFirst(Lower(block), FIELD, 0);
      ColonFollows(block, at);
      FindFirst(block, ":", at);
      var colon := Find(block, ":", at).value;
      BlankEnd(block);
      assert colon <= at + 14 < |block| - 4;
      FindFirst(block, CRLF, colon + 1);
    }
  }
}
