/**
 Path normalization as the static file handler does it, its specification by a stack of
 components, and its relation to remove_dot_segments of section 5.2.4 of RFC 3986.
 */
module Paths {
  const NUL := 0 as char

  // ---- Specification ----

  /** Drop NUL bytes and turn backslashes into slashes. */
  function Sanitize(path: string): (s: string)
    ensures forall i :: 0 <= i < |s| ==> s[i] != NUL && s[i] != '\\'
  {
    if path == "" then ""
    else (if path[0] == NUL then "" else if path[0] == '\\' then "/" else [path[0]]) + Sanitize(path[1..])
  }

  /** The components of `current + s` when `current` holds no slash. */
  function Components(current: string, s: string): (parts: seq<string>)
    ensures parts != []
    decreases |s|
  {
    if s == "" then [current]
    else if s[0] == '/' then [current] + Components("", s[1..])
    else Components(current + [s[0]], s[1..])
  }

  function Split(s: string): seq<string> {
    Components("", s)
  }

  /** What one component does to the stack of components kept so far. */
  function Push(stack: seq<string>, part: string): seq<string> {
    if part == "" || part == "." then stack
    else if part == ".." then (if stack == [] then [] else stack[..|stack| - 1])
    else stack + [part]
  }

  function Resolve(stack: seq<string>, parts: seq<string>): seq<string>
    decreases |parts|
  {
    if parts == [] then stack else Resolve(Push(stack, parts[0]), parts[1..])
  }

  function Join(parts: seq<string>): string {
    if parts == [] then ""
    else if |parts| == 1 then parts[0]
    else Join(parts[..|parts| - 1]) + "/" + parts[|parts| - 1]
  }

  function Normalize(path: string): string {
    Join(Resolve([], Split(Sanitize(path))))
  }

  // ---- The source's loops ----

  lemma LeadingSlash(s: string)
    requires s != "" && s[0] == '/'
    ensures Resolve([], Split(s)) == Resolve([], Split(s[1..]))
  {
    var parts := Split(s);
    assert parts[0] == "" && parts[1..] == Split(s[1..]);
  }

  /** The handler's function: sanitize, strip leading slashes, scan with an accumulator, join. */
  method NormalizePath(path: string) returns (result: string)
    ensures result == Normalize(path)
  {
    var safe := Sanitize(path);
    ghost var goal := Resolve([], Split(safe));
    while safe != "" && safe[0] == '/'
      invariant Resolve([], Split(safe)) == goal
      decreases |safe|
    {
      LeadingSlash(safe);
      safe := safe[1..];
    }
    var parts := ScanComponents(safe);
    result := JoinParts(parts);
  }

  method ScanComponents(safe: string) returns (parts: seq<string>)
    ensures parts == Resolve([], Split(safe))
  {
    parts := [];
    var current, i := "", 0;
    while i <= |safe|
      invariant 0 <= i <= |safe| + 1
      invariant i <= |safe| ==> Resolve(parts, Components(current, safe[i..])) == Resolve([], Split(safe))
      invariant i == |safe| + 1 ==> parts == Resolve([], Split(safe))
    {
      if i == |safe| || safe[i] == '/' {
        ghost var before, rest := parts, if i == |safe| then [] else Components("", safe[i + 1..]);
        assert Components(current, safe[i..]) == [current] + rest by {
          assert i < |safe| ==> safe[i..][1..] == safe[i + 1..];
        }
        if current != "" && current != "." {
          if current == ".." {
            if parts != [] {
              parts := parts[..|parts| - 1];
            }
          } else {
            parts := parts + [current];
          }
        }
        ResolveOne(before, current, rest);
        current := "";
      } else {
        assert safe[i..][1..] == safe[i + 1..];
        current := current + [safe[i]];
      }
      i := i + 1;
    }
  }

  lemma ResolveOne(stack: seq<string>, part: string, rest: seq<string>)
    ensures Resolve(stack, [part] + rest) == Resolve(Push(stack, part), rest)
  {
    assert ([part] + rest)[1..] == rest;
  }

  method JoinParts(parts: seq<string>) returns (result: string)
    ensures result == Join(parts)
  {
    result := "";
    for i := 0 to |parts|
      invariant result == Join(parts[..i])
    {
      if i > 0 {
        result := result + "/";
      }
      result := result + parts[i];
      assert parts[..i + 1][..i] == parts[..i];
    }
    assert parts[..|parts|] == parts;
  }

  // ---- What normalized paths look like ----

  ghost predicate Plain(s: string) {
    forall i :: 0 <= i < |s| ==> s[i] != '/' && s[i] != NUL && s[i] != '\\'
  }

  /** A component that names something: not empty, not a dot segment, free of separators and NUL. */
  ghost predicate Proper(part: string) {
    part != "" && part != "." && part != ".." && Plain(part)
  }

  ghost predicate AllProper(parts: seq<string>) {
    forall i :: 0 <= i < |parts| ==> Proper(parts[i])
  }

  ghost predicate AllPlain(parts: seq<string>) {
    forall i :: 0 <= i < |parts| ==> Plain(parts[i])
  }

  ghost predicate Sanitized(s: string) {
    forall i :: 0 <= i < |s| ==> s[i] != NUL && s[i] != '\\'
  }

  lemma {:induction false} ComponentsPlain(current: string, s: string)
    requires Plain(current) && Sanitized(s)
    ensures AllPlain(Components(current, s))
    decreases |s|
  {
    if s != "" {
      if s[0] == '/' {
        ComponentsPlain("", s[1..]);
      } else {
        ComponentsPlain(current + [s[0]], s[1..]);
      }
    }
  }

  lemma {:induction false} ResolveProper(stack: seq<string>, parts: seq<string>)
    requires AllProper(stack) && AllPlain(parts)
    ensures AllProper(Resolve(stack, parts))
    decreases |parts|
  {
    if parts != [] {
      assert Plain(parts[0]);
      ProperPush(stack, parts[0]);
      ResolveProper(Push(stack, parts[0]), parts[1..]);
    }
  }

  /** The components kept for a path are proper. */
  lemma KeptProper(path: string)
    ensures AllProper(Resolve([], Split(Sanitize(path))))
  {
    ComponentsPlain("", Sanitize(path));
    ResolveProper([], Split(Sanitize(path)));
  }

  /** A plain word in front of a slash becomes a component of its own. */
  lemma {:induction false} ComponentsWord(current: string, word: string, rest: string)
    requires Plain(word)
    ensures Components(current, word) == [current + word]
    ensures Components(current, word + "/" + rest) == [current + word] + Components("", rest)
    decreases |word|
  {
    if word == "" {
      assert current + word == current;
      assert (word + "/" + rest)[1..] == rest;
    } else {
      assert (word + "/" + rest)[1..] == word[1..] + "/" + rest;
      ComponentsWord(current + [word[0]], word[1..], rest);
      assert current + [word[0]] + word[1..] == current + word;
    }
  }

  /** Joining puts the first component in front. */
  lemma {:induction false} JoinFront(parts: seq<string>)
    requires |parts| > 1
    ensures Join(parts) == parts[0] + "/" + Join(parts[1..])
  {
    var init, last := parts[..|parts| - 1], parts[|parts| - 1];
    assert parts[1..][|parts| - 2] == last;
    if |parts| > 2 {
      JoinFront(init);
      assert parts[1..][..|parts| - 2] == init[1..];
    } else {
      assert parts[1..] == [last] && init == [parts[0]];
    }
  }

  /** Splitting a joined path gives its components back. */
  lemma {:induction false} SplitOfJoin(parts: seq<string>)
    requires parts != [] && AllPlain(parts)
    ensures Split(Join(parts)) == parts
  {
    assert Plain(parts[0]);
    if |parts| == 1 {
      ComponentsWord("", parts[0], "");
      assert "" + parts[0] == parts[0] && parts == [parts[0]];
    } else {
      JoinFront(parts);
      ComponentsWord("", parts[0], Join(parts[1..]));
      assert "" + parts[0] == parts[0];
      SplitOfJoin(parts[1..]);
      assert parts == [parts[0]] + parts[1..];
    }
  }

  lemma {:induction false} JoinSanitized(parts: seq<string>)
    requires AllProper(parts)
    ensures Sanitized(Join(parts))
    ensures Join(parts) == "" <==> parts == []
    ensures parts != [] ==> Join(parts)[0] != '/'
  {
    if |parts| == 1 {
      assert Proper(parts[0]);
    } else if |parts| > 1 {
      assert Proper(parts[|parts| - 1]);
      JoinSanitized(parts[..|parts| - 1]);
    }
  }

  /** A normalized path has no leading slash, NUL or backslash, and its components are all proper. */
  lemma NormalizedShape(path: string)
    ensures Sanitized(Normalize(path))
    ensures Normalize(path) != "" ==> Normalize(path)[0] != '/' && AllProper(Split(Normalize(path)))
  {
    var kept := Resolve([], Split(Sanitize(path)));
    KeptProper(path);
    JoinSanitized(kept);
    if kept != [] {
      forall i | 0 <= i < |kept| ensures Plain(kept[i]) {
        assert Proper(kept[i]);
      }
      SplitOfJoin(kept);
    }
  }

  lemma {:induction false} SanitizeKeeps(s: string)
    requires Sanitized(s)
    ensures Sanitize(s) == s
  {
    if s != "" {
      SanitizeKeeps(s[1..]);
      assert s == [s[0]] + s[1..];
    }
  }

  lemma {:induction false} ResolveKeeps(stack: seq<string>, parts: seq<string>)
    requires AllProper(parts)
    ensures Resolve(stack, parts) == stack + parts
    decreases |parts|
  {
    if parts == [] {
      assert stack + parts == stack;
    } else {
      assert Proper(parts[0]);
      ResolveKeeps(stack + [parts[0]], parts[1..]);
      assert stack + [parts[0]] + parts[1..] == stack + parts;
    }
  }

  /** Normalizing twice is normalizing once. */
  lemma NormalizeIdempotent(path: string)
    ensures Normalize(Normalize(path)) == Normalize(path)
  {
    var kept := Resolve([], Split(Sanitize(path)));
    var once := Normalize(path);
    KeptProper(path);
    JoinSanitized(kept);
    SanitizeKeeps(once);
    if kept == [] {
      assert Split("") == [""];
      ResolveOne([], "", []);
      assert [""] + [] == [""];
    } else {
      forall i | 0 <= i < |kept| ensures Plain(kept[i]) {
        assert Proper(kept[i]);
      }
      SplitOfJoin(kept);
      ResolveKeeps([], kept);
      assert [] + kept == kept;
    }
  }

  // ---- remove_dot_segments ----

  function SegmentLength(s: string): (n: nat)
    ensures n <= |s|
  {
    if s == "" || s[0] == '/' then 0 else 1 + SegmentLength(s[1..])
  }

  /** Remove the last segment and the slash before it, if any. */
  function DropSegment(output: string): string {
    if output == "" then ""
    else if output[|output| - 1] == '/' then output[..|output| - 1]
    else DropSegment(output[..|output| - 1])
  }

  /** One of the rules 2A to 2E of section 5.2.4 of RFC 3986, on a non-empty input and an output buffer. */
  function RemoveStep(input: string, output: string): (r: (string, string))
    requires input != ""
    ensures |r.0| < |input|
  {
    if "../" <= input then (input[3..], output)
    else if "./" <= input then (input[2..], output)
    else if "/./" <= input then (input[2..], output)
    else if input == "/." then ("/", output)
    else if "/../" <= input then (input[3..], DropSegment(output))
    else if input == "/.." then ("/", DropSegment(output))
    else if input == "." || input == ".." then ("", output)
    else
      var n := 1 + SegmentLength(input[1..]);
      (input[n..], output + input[..n])
  }

  /** remove_dot_segments: apply the rules until the input is empty. */
  function RemoveDots(input: string, output: string): string
    decreases |input|
  {
    if input == "" then output
    else
      var (rest, more) := RemoveStep(input, output);
      RemoveDots(rest, more)
  }

  /** Each component behind a slash. */
  function Slashed(parts: seq<string>): string {
    if parts == [] then "" else Slashed(parts[..|parts| - 1]) + "/" + parts[|parts| - 1]
  }

  predicate IsDot(part: string) {
    part == "." || part == ".."
  }

  lemma {:induction false} SlashedFront(parts: seq<string>)
    requires parts != []
    ensures Slashed(parts) == "/" + parts[0] + Slashed(parts[1..])
  {
    var init, last := parts[..|parts| - 1], parts[|parts| - 1];
    if |parts| > 1 {
      SlashedFront(init);
      assert parts[1..][..|parts| - 2] == init[1..];
      assert parts[1..][|parts| - 2] == last;
    } else {
      assert Slashed(init) == "" && Slashed(parts[1..]) == "";
    }
  }

  lemma {:induction false} SegmentLengthIs(word: string, rest: string)
    requires Plain(word) && (rest == "" || rest[0] == '/')
    ensures SegmentLength(word + rest) == |word|
  {
    if word == "" {
      assert word + rest == rest;
    } else {
      assert (word + rest)[1..] == word[1..] + rest;
      SegmentLengthIs(word[1..], rest);
    }
  }

  lemma {:induction false} DropSegmentOf(prefix: string, word: string)
    requires Plain(word)
    ensures DropSegment(prefix + "/" + word) == prefix
  {
    var s := prefix + "/" + word;
    if word == "" {
      assert s[..|s| - 1] == prefix;
    } else {
      assert s[..|s| - 1] == prefix + "/" + word[..|word| - 1];
      DropSegmentOf(prefix, word[..|word| - 1]);
    }
  }

  /** An ordinary segment at the front of the input is not taken for a dot segment. */
  lemma NotDotPrefix(word: string, rest: string)
    requires Plain(word) && word != "" && !IsDot(word) && (rest == "" || rest[0] == '/')
    ensures var input := "/" + word + rest;
            !("/./" <= input) && !("/../" <= input) && input != "/." && input != "/.."
  {
    var input := "/" + word + rest;
    assert |word| == 1 ==> word == [word[0]];
    assert |word| == 2 ==> word == [word[0], word[1]];
    assert input[1] == word[0];
    assert |word| >= 2 ==> input[2] == word[1];
    assert |word| >= 3 ==> input[3] == word[2];
    assert |word| == 1 && rest != "" ==> input[2] == '/';
  }

  /** Rule 2E: an ordinary segment moves to the output whole. */
  lemma MoveSegment(word: string, rest: string, output: string)
    requires Plain(word) && word != "" && !IsDot(word) && (rest == "" || rest[0] == '/')
    ensures RemoveStep("/" + word + rest, output) == (rest, output + "/" + word)
  {
    var input := "/" + word + rest;
    assert input[0] == '/' && input[1..] == word + rest;
    SegmentLengthIs(word, rest);
    NotDotPrefix(word, rest);
    var n := 1 + |word|;
    assert input[n..] == rest && input[..n] == "/" + word;
    assert output + ("/" + word) == output + "/" + word;
  }

  /** Rule 2B. */
  lemma DotStep(tail: string, output: string)
    requires tail == "" || tail[0] == '/'
    ensures RemoveStep("/." + tail, output) == (if tail == "" then "/" else tail, output)
  {
    var input := "/." + tail;
    assert input[0] == '/';
    if tail == "" {
      assert input == "/.";
    } else {
      assert input[..3] == "/./" && input[2..] == tail;
    }
  }

  /** Rule 2C. */
  lemma DotDotStep(tail: string, output: string)
    requires tail == "" || tail[0] == '/'
    ensures RemoveStep("/.." + tail, output) == (if tail == "" then "/" else tail, DropSegment(output))
  {
    var input := "/.." + tail;
    assert input[0] == '/' && input[2] == '.';
    if tail == "" {
      assert input == "/..";
    } else {
      assert input[..4] == "/../" && input[3..] == tail;
    }
  }

  lemma FinalSlash(output: string)
    ensures RemoveDots("/", output) == output + "/"
    ensures RemoveDots("", output) == output
  {
    var input := "/";
    assert input[1..] == "" && SegmentLength("") == 0;
    assert input[..1] == "/";
    assert RemoveStep(input, output) == (input[1..], output + input[..1]);
  }

  /** One segment of the input: the output follows the stack, and a closing dot segment leaves a slash. */
  lemma StepFollowsStack(stack: seq<string>, c: string, tail: string)
    requires AllProper(stack) && Plain(c) && c != "" && (tail == "" || tail[0] == '/')
    ensures RemoveStep("/" + c + tail, Slashed(stack))
         == (if tail == "" && IsDot(c) then "/" else tail, Slashed(Push(stack, c)))
  {
    hide RemoveStep;
    if c == "." {
      assert "/" + c + tail == "/." + tail;
      DotStep(tail, Slashed(stack));
    } else if c == ".." {
      if stack != [] {
        assert Proper(stack[|stack| - 1]);
        DropSegmentOf(Slashed(stack[..|stack| - 1]), stack[|stack| - 1]);
      }
      assert "/" + c + tail == "/.." + tail;
      DotDotStep(tail, Slashed(stack));
    } else {
      MoveSegment(c, tail, Slashed(stack));
      assert (stack + [c])[..|stack|] == stack;
    }
  }

  /**
   On non-empty segments remove_dot_segments computes the same stack, and leaves a final slash
   when the last segment is a dot segment.
   */
  lemma {:induction false} RemoveDotsIsResolve(stack: seq<string>, segments: seq<string>)
    requires AllProper(stack) && AllPlain(segments) && segments != []
    requires forall i :: 0 <= i < |segments| ==> segments[i] != ""
    ensures RemoveDots(Slashed(segments), Slashed(stack))
         == Slashed(Resolve(stack, segments)) + (if IsDot(segments[|segments| - 1]) then "/" else "")
    decreases |segments|
  {
    hide RemoveStep;
    var c, rest := segments[0], segments[1..];
    var next := Push(stack, c);
    assert Plain(c) && c != "";
    SlashedFront(segments);
    if rest == [] {
      assert Slashed(rest) == "" && "/" + c + "" == "/" + c;
      StepFollowsStack(stack, c, "");
      FinalSlash(Slashed(next));
      assert Resolve(next, rest) == next;
    } else {
      SlashedFront(rest);
      StepFollowsStack(stack, c, Slashed(rest));
      ProperPush(stack, c);
      RemoveDotsIsResolve(next, rest);
    }
  }

  lemma ProperPush(stack: seq<string>, c: string)
    requires AllProper(stack) && Plain(c)
    ensures AllProper(Push(stack, c))
  {
  }

  // ---- The two agree ----

  lemma EmptySlashed()
    ensures Slashed([]) == ""
  {
  }

  lemma {:induction false} SlashedComponents(current: string, s: string)
    ensures Slashed(Components(current, s)) == "/" + current + s
    decreases |s|
  {
    hide Slashed;
    if s == "" {
      SlashedFront([current]);
      assert [current][1..] == [];
      EmptySlashed();
    } else if s[0] == '/' {
      SlashedComponents("", s[1..]);
      var parts := Components(current, s);
      SlashedFront(parts);
      assert parts[1..] == Components("", s[1..]);
      assert "/" + "" + s[1..] == s;
    } else {
      SlashedComponents(current + [s[0]], s[1..]);
      assert "/" + (current + [s[0]]) + s[1..] == "/" + current + ([s[0]] + s[1..]);
      assert s == [s[0]] + s[1..];
    }
  }

  lemma {:induction false} SlashedIsJoin(parts: seq<string>)
    requires parts != []
    ensures Slashed(parts) == "/" + Join(parts)
  {
    if |parts| > 1 {
      SlashedIsJoin(parts[..|parts| - 1]);
    } else {
      assert parts[..0] == [];
    }
  }

  /** An absolute path without NUL, backslash or empty segments. */
  ghost predicate Ordinary(path: string) {
    && path != "" && path[0] == '/' && Sanitized(path)
    && forall i :: 0 <= i < |Split(path[1..])| ==> Split(path[1..])[i] != ""
  }

  /**
   The exact relation to RFC 3986: for an ordinary path, a slash followed by the normalized path is
   remove_dot_segments of the path, except that the latter keeps a final slash after a closing
   dot segment; so the two are equal exactly when the last segment is no dot segment or nothing is left.
   */
  lemma NormalizeVersusRfc3986(path: string)
    requires Ordinary(path)
    ensures var segments := Split(path[1..]);
            var trailing := IsDot(segments[|segments| - 1]) && Normalize(path) != "";
            && RemoveDots(path, "") == "/" + Normalize(path) + (if trailing then "/" else "")
            && (RemoveDots(path, "") == "/" + Normalize(path) <==> !trailing)
  {
    hide RemoveDots;
    var s := path[1..];
    var segments := Split(s);
    var kept := Resolve([], segments);
    assert Sanitized(s);
    ComponentsPlain("", s);
    SlashedComponents("", s);
    assert path == "/" + "" + s;
    RemoveDotsIsResolve([], segments);
    assert Slashed([]) == "";
    SanitizeKeeps(path);
    LeadingSlash(path);
    ResolveProper([], segments);
    JoinSanitized(kept);
    if kept == [] {
      LastKept([], segments);
    } else {
      SlashedIsJoin(kept);
    }
  }

  /** A last segment that is no dot segment is kept. */
  lemma {:induction false} LastKept(stack: seq<string>, segments: seq<string>)
    requires segments != [] && segments[|segments| - 1] != ""
    ensures !IsDot(segments[|segments| - 1]) ==> Resolve(stack, segments) != []
    decreases |segments|
  {
    if |segments| > 1 {
      LastKept(Push(stack, segments[0]), segments[1..]);
    } else {
      assert Resolve(Push(stack, segments[0]), segments[1..]) == Push(stack, segments[0]);
    }
  }

  // ---- Every path ----

  /**
   The path without NUL bytes and with single slashes between its parts: backslashes count as slashes,
   runs of them as one, and those at either end go.  `started`: something has been kept already;
   `pending`: a slash is due before the next character.
   */
  function Squeeze(s: string, started: bool, pending: bool): string {
    if s == "" then ""
    else if s[0] == NUL then Squeeze(s[1..], started, pending)
    else if s[0] == '/' || s[0] == '\\' then Squeeze(s[1..], started, started)
    else (if pending then "/" else "") + [s[0]] + Squeeze(s[1..], true, false)
  }

  function Tidy(path: string): string {
    Squeeze(path, false, false)
  }

  function NonEmpty(parts: seq<string>): seq<string> {
    if parts == [] then [] else (if parts[0] == "" then [] else [parts[0]]) + NonEmpty(parts[1..])
  }

  lemma {:induction false} NonEmptyParts(parts: seq<string>, i: nat)
    requires i < |NonEmpty(parts)|
    ensures NonEmpty(parts)[i] != ""
  {
    if parts[0] == "" {
      NonEmptyParts(parts[1..], i);
    } else if i > 0 {
      NonEmptyParts(parts[1..], i - 1);
    }
  }

  /** Empty components do nothing. */
  lemma {:induction false} ResolveNonEmpty(stack: seq<string>, parts: seq<string>)
    ensures Resolve(stack, NonEmpty(parts)) == Resolve(stack, parts)
    decreases |parts|
  {
    hide Push;
    if parts != [] {
      ResolveNonEmpty(Push(stack, parts[0]), parts[1..]);
      if parts[0] == "" {
        EmptyIgnored(stack);
        assert [] + NonEmpty(parts[1..]) == NonEmpty(parts[1..]);
      } else {
        ResolveOne(stack, parts[0], NonEmpty(parts[1..]));
      }
    }
  }

  lemma EmptyIgnored(stack: seq<string>)
    ensures Push(stack, "") == stack
  {
  }

  /** The components of a text that starts with a due slash, or none. */
  function AfterSlash(q: string): seq<string> {
    if q == "" then [] else Split(q[1..])
  }

  lemma SqueezedStart(s: string)
    ensures var q := Squeeze(s, true, true); q != "" ==> q[0] == '/'
  {
  }

  lemma NonEmptyFront(current: string, rest: seq<string>)
    ensures NonEmpty([current] + rest) == (if current == "" then [] else [current]) + NonEmpty(rest)
  {
    assert ([current] + rest)[1..] == rest;
  }

  /** Squeezing keeps the non-empty components, inside a component and right after a slash. */
  lemma {:induction false} SqueezeKeeps(current: string, s: string)
    ensures current != "" ==> NonEmpty(Components(current, Sanitize(s))) == Components(current, Squeeze(s, true, false))
    ensures NonEmpty(Components("", Sanitize(s))) == AfterSlash(Squeeze(s, true, true))
    decreases |s|
  {
    hide NonEmpty;
    if s == "" {
      NonEmptyFront(current, []);
      NonEmptyFront("", []);
      NothingLeft();
      assert [current] + [] == [current] && [""] + [] == [""];
    } else if s[0] == NUL {
      assert Sanitize(s) == Sanitize(s[1..]);
      SqueezeKeeps(current, s[1..]);
    } else if s[0] == '/' || s[0] == '\\' {
      SqueezeKeeps(current, s[1..]);
      SlashSqueezed(current, s);
    } else {
      SqueezeKeeps(current + [s[0]], s[1..]);
      SqueezeKeeps([s[0]], s[1..]);
      LetterSqueezed(current, s);
    }
  }

  lemma NothingLeft()
    ensures NonEmpty([]) == []
  {
  }

  lemma SanitizedFront(s: string)
    requires s != "" && s[0] != NUL
    ensures var c := if s[0] == '\\' then '/' else s[0];
            Sanitize(s) != "" && Sanitize(s)[0] == c && Sanitize(s)[1..] == Sanitize(s[1..])
  {
  }

  lemma SlashSqueezed(current: string, s: string)
    requires s != "" && (s[0] == '/' || s[0] == '\\')
    requires NonEmpty(Components("", Sanitize(s[1..]))) == AfterSlash(Squeeze(s[1..], true, true))
    ensures current != "" ==> NonEmpty(Components(current, Sanitize(s))) == Components(current, Squeeze(s, true, false))
    ensures NonEmpty(Components("", Sanitize(s))) == AfterSlash(Squeeze(s, true, true))
  {
    hide NonEmpty, Sanitize;
    SanitizedFront(s);
    var rest := Components("", Sanitize(s[1..]));
    NonEmptyFront(current, rest);
    NonEmptyFront("", rest);
    SqueezedStart(s[1..]);
  }

  /** A letter is kept, behind the slash that is due before it. */
  lemma LetterSqueezed(current: string, s: string)
    requires s != "" && s[0] != NUL && s[0] != '/' && s[0] != '\\'
    requires var next := current + [s[0]];
             NonEmpty(Components(next, Sanitize(s[1..]))) == Components(next, Squeeze(s[1..], true, false))
    requires NonEmpty(Components([s[0]], Sanitize(s[1..]))) == Components([s[0]], Squeeze(s[1..], true, false))
    ensures current != "" ==> NonEmpty(Components(current, Sanitize(s))) == Components(current, Squeeze(s, true, false))
    ensures NonEmpty(Components("", Sanitize(s))) == AfterSlash(Squeeze(s, true, true))
  {
    hide NonEmpty, Sanitize, Components;
    SanitizedFront(s);
    var more := Squeeze(s[1..], true, false);
    var q, p := Squeeze(s, true, false), Squeeze(s, true, true);
    assert q == [s[0]] + more && q[1..] == more;
    assert p == "/" + q && p[1..] == q;
    LetterJoins(current, q);
    LetterJoins("", q);
    LetterJoins(current, Sanitize(s));
    LetterJoins("", Sanitize(s));
  }

  lemma LetterJoins(current: string, s: string)
    requires s != "" && s[0] != '/'
    ensures Components(current, s) == Components(current + [s[0]], s[1..])
    ensures Split(s) == Components([s[0]], s[1..])
  {
    assert "" + [s[0]] == [s[0]];
  }

  /** The non-empty components of a path are the components of the tidied path. */
  lemma {:induction false} TidyKeeps(s: string)
    ensures NonEmpty(Split(Sanitize(s))) == if Tidy(s) == "" then [] else Split(Tidy(s))
  {
    hide NonEmpty;
    if s == "" {
      NonEmptyFront("", []);
      NothingLeft();
      assert [""] + [] == [""];
    } else if s[0] == NUL {
      assert Sanitize(s) == Sanitize(s[1..]);
      TidyKeeps(s[1..]);
    } else if s[0] == '/' || s[0] == '\\' {
      TidyKeeps(s[1..]);
      SanitizedFront(s);
      NonEmptyFront("", Components("", Sanitize(s[1..])));
    } else {
      SqueezeKeeps([s[0]], s[1..]);
      SanitizedFront(s);
      var more := Squeeze(s[1..], true, false);
      assert Tidy(s) == [s[0]] + more && Tidy(s)[1..] == more;
      assert "" + [s[0]] == [s[0]];
    }
  }

  lemma {:induction false} SqueezeSanitized(s: string, started: bool, pending: bool)
    ensures Sanitized(Squeeze(s, started, pending))
  {
    if s != "" {
      SqueezeSanitized(s[1..], true, false);
      SqueezeSanitized(s[1..], started, started);
      SqueezeSanitized(s[1..], started, pending);
    }
  }

  /** Behind a slash the tidied path is an ordinary absolute path, with the same normal form. */
  lemma TidyOrdinary(path: string)
    ensures Tidy(path) == "" ==> Normalize(path) == ""
    ensures Tidy(path) != "" ==> Ordinary("/" + Tidy(path)) && Normalize("/" + Tidy(path)) == Normalize(path)
  {
    hide Components, Squeeze, Push, Sanitize;
    var parts := Split(Sanitize(path));
    TidyKeeps(path);
    ResolveNonEmpty([], parts);
    SqueezeSanitized(path, false, false);
    var q := "/" + Tidy(path);
    assert q[1..] == Tidy(path);
    if Tidy(path) != "" {
      forall i | 0 <= i < |Split(Tidy(path))| ensures Split(Tidy(path))[i] != "" {
        NonEmptyParts(parts, i);
      }
      SanitizeKeeps(q);
      LeadingSlash(q);
    }
  }

  /**
   The normal form of every path: nothing if the tidied path is empty, and otherwise
   remove_dot_segments of the tidied path behind a slash, without that slash and without the one
   that a closing dot segment leaves.
   */
  lemma NormalizeExactly(path: string)
    ensures if Tidy(path) == "" then Normalize(path) == ""
            else
              var segments := Split(Tidy(path));
              var trailing := IsDot(segments[|segments| - 1]) && Normalize(path) != "";
              RemoveDots("/" + Tidy(path), "") == "/" + Normalize(path) + (if trailing then "/" else "")
  {
    hide RemoveDots, Squeeze, Normalize, Components;
    TidyOrdinary(path);
    if Tidy(path) != "" {
      NormalizeVersusRfc3986("/" + Tidy(path));
      assert ("/" + Tidy(path))[1..] == Tidy(path);
    }
  }

  lemma {:induction false} SqueezeSame(a: string, b: string, c: string, started: bool, pending: bool)
    requires forall st, pe :: (pe ==> st) ==> Squeeze(b, st, pe) == Squeeze(c, st, pe)
    requires pending ==> started
    ensures Squeeze(a + b, started, pending) == Squeeze(a + c, started, pending)
    decreases |a|
  {
    if a == "" {
      assert a + b == b && a + c == c;
    } else {
      assert (a + b)[1..] == a[1..] + b && (a + c)[1..] == a[1..] + c;
      SqueezeSame(a[1..], b, c, started, pending);
      SqueezeSame(a[1..], b, c, started, started);
      SqueezeSame(a[1..], b, c, true, false);
    }
  }

  /** Paths that tidy alike normalize alike. */
  lemma TidyDecides(p: string, q: string)
    requires Tidy(p) == Tidy(q)
    ensures Normalize(p) == Normalize(q)
  {
    hide Squeeze, Normalize;
    TidyOrdinary(p);
    TidyOrdinary(q);
  }

  /** Doubled slashes, backslashes for slashes, NUL bytes and a slash at the end make no difference anywhere. */
  lemma SeparatorsAlike(a: string, b: string)
    ensures Normalize(a + "//" + b) == Normalize(a + "/" + b)
    ensures Normalize(a + "\\" + b) == Normalize(a + "/" + b)
    ensures Normalize(a + [NUL] + b) == Normalize(a + b)
    ensures Normalize(a + "/") == Normalize(a)
  {
    hide Normalize, Tidy;
    Alike(a, "//" + b, "/" + b);
    Alike(a, "\\" + b, "/" + b);
    Alike(a, [NUL] + b, b);
    Alike(a, "/", "");
    assert a + "//" + b == a + ("//" + b) && a + "/" + b == a + ("/" + b) && a + "" == a;
    assert a + "\\" + b == a + ("\\" + b) && a + [NUL] + b == a + ([NUL] + b);
  }

  lemma Alike(a: string, b: string, c: string)
    requires || (exists r :: b == "//" + r && c == "/" + r) || (exists r :: b == "\\" + r && c == "/" + r)
             || b == [NUL] + c || (b == "/" && c == "")
    ensures Normalize(a + b) == Normalize(a + c)
  {
    forall st: bool, pe: bool | pe ==> st ensures Squeeze(b, st, pe) == Squeeze(c, st, pe) {
      if b == [NUL] + c {
        assert b[1..] == c;
      } else if b == "/" && c == "" {
        assert b[1..] == "";
      } else if r :| b == "//" + r && c == "/" + r {
        assert b[1..] == c && c[1..] == r;
      } else {
        var r :| b == "\\" + r && c == "/" + r;
        assert b[1..] == r && c[1..] == r;
      }
    }
    SqueezeSame(a, b, c, false, false);
    TidyDecides(a + b, a + c);
  }
}
