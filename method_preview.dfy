/**
 * Method Previewer (`extractMethodPreview`): from a line inside a controller
 * method, walk back to the nearest method signature, walk forward counting
 * braces until the count first returns to zero after an opening brace, and
 * show at most 30 lines of that range, with a continuation marker when the
 * method is longer.
 */
module MethodPreview {
  import opened Wrappers
  import opened Text
  import opened Regex

  const AccessKeywords: seq<string> := ["public", "protected", "private"]
  const MaxLines: nat := 30
  const ContinuationMarker: string := "    // ... method continues ..."

  /** `w\s+\w+`: a keyword, white space, a name. */
  function KeywordTail(w: string): Pattern
  {
    Lits(w) + ([One(Space)] + ([Many(Space)] + ([One(Word)] + [Many(Word)])))
  }

  /** `\b(a|b|...)?\s*w\s+\w+`: a word boundary, an optional alternative, white space, the keyword tail. */
  function DeclarationPattern(alts: seq<string>, w: string): Pattern
  {
    [Boundary] + ([Optional(alts)] + ([Many(Space)] + KeywordTail(w)))
  }

  /** The signature regex `\b(public|protected|private)?\s*function\s+\w+`. */
  const SignaturePattern: Pattern := DeclarationPattern(AccessKeywords, "function")

  /** `lines[i].match(...)` succeeds: the line looks like a method signature. */
  predicate IsSignature(line: string)
  {
    Test(SignaturePattern, line)
  }

  // ---------------------------------------------------------------------------
  // The signature regex in plain terms

  /** A declaration as written: an optional alternative, white space, the keyword, white space, a word character. */
  function DeclarationText(prefix: string, gap: string, w: string, space: string, c: char): string
  {
    prefix + (gap + (w + (space + [c])))
  }

  /** The prefix is absent or one of `alts`, `gap` is white space, `space` is non-empty white space, `c` a word character. */
  predicate WellFormedDeclaration(alts: seq<string>, prefix: string, gap: string, space: string, c: char)
  {
    (prefix == "" || prefix in alts)
    && IsRun(Space, gap) && |space| > 0 && IsRun(Space, space) && IsWord(c)
  }

  /** Non-empty white space then a word character match `\s+\w+`. */
  lemma NameMatches(s: string, j: nat, space: string, c: char)
    requires |space| > 0 && IsRun(Space, space) && IsWord(c)
    requires OccursAt(s, space + [c], j)
    ensures MatchAt([One(Space)] + ([Many(Space)] + ([One(Word)] + [Many(Word)])), s, j)
  {
    var m := j + |space|;
    OccursSplit(s, space, [c], j);
    assert s[m..m + 1] == [c];
    var rest := space[1..];
    assert s[j] == space[0];
    assert OccursAt(s, rest, j + 1) by {
      assert s[j + 1..j + 1 + |rest|] == s[j..j + |space|][1..];
    }
    assert IsRun(Space, rest) by {
      assert forall k :: 0 <= k < |rest| ==> rest[k] == space[k + 1];
    }
    var last: Pattern := [Many(Word)];
    assert MatchAt(last, s, m + 1);
    OneStep(One(Word), last, s, m);
    RunMatches(Space, rest, [One(Word)] + last, s, j + 1);
    OneStep(One(Space), [Many(Space)] + ([One(Word)] + last), s, j);
  }

  /** A match of `\s+\w+` starts with non-empty white space and a word character. */
  lemma NameIsText(s: string, j: nat) returns (space: string, c: char)
    requires j <= |s| && MatchAt([One(Space)] + ([Many(Space)] + ([One(Word)] + [Many(Word)])), s, j)
    ensures |space| > 0 && IsRun(Space, space) && IsWord(c) && OccursAt(s, space + [c], j)
  {
    var last: Pattern := [Many(Word)];
    OneStep(One(Space), [Many(Space)] + ([One(Word)] + last), s, j);
    ManyRun(Space, [One(Word)] + last, s, j + 1);
    var m: nat :| j + 1 <= m <= |s| && IsRun(Space, s[j + 1..m]) && MatchAt([One(Word)] + last, s, m);
    OneStep(One(Word), last, s, m);
    space := s[j..m];
    c := s[m];
    assert IsRun(Space, space) by {
      assert forall k :: 1 <= k < |space| ==> space[k] == s[j + 1..m][k - 1];
    }
    assert s[m..m + 1] == [c];
    assert OccursAt(s, space, j);
    OccursSplit(s, space, [c], j);
  }

  /** A declaration text at a word boundary matches the declaration pattern there. */
  lemma DeclarationTextMatches(alts: seq<string>, w: string, s: string, i: nat,
                               prefix: string, gap: string, space: string, c: char)
    requires WellFormedDeclaration(alts, prefix, gap, space, c)
    requires OccursAt(s, DeclarationText(prefix, gap, w, space, c), i) && IsBoundary(s, i)
    ensures MatchAt(DeclarationPattern(alts, w), s, i)
  {
    var j := i + |prefix|;
    var m := j + |gap|;
    OccursSplit(s, prefix, gap + (w + (space + [c])), i);
    OccursSplit(s, gap, w + (space + [c]), j);
    OccursSplit(s, w, space + [c], m);
    var name := [One(Space)] + ([Many(Space)] + ([One(Word)] + [Many(Word)]));
    NameMatches(s, m + |w|, space, c);
    MatchLits(w, name, s, m);
    RunMatches(Space, gap, KeywordTail(w), s, j);
    var afterOpt := [Many(Space)] + KeywordTail(w);
    OptionalStep(alts, afterOpt, s, i);
    if prefix != "" {
      var k :| 0 <= k < |alts| && alts[k] == prefix;
      assert OccursAt(s, alts[k], i) && MatchAt(afterOpt, s, i + |alts[k]|);
    }
    BoundaryStep([Optional(alts)] + afterOpt, s, i);
  }

  /** The prefix a match of `[Optional(alts)] + p` consumes. */
  lemma OptionalPrefix(alts: seq<string>, p: Pattern, s: string, i: nat) returns (prefix: string)
    requires i <= |s| && MatchAt([Optional(alts)] + p, s, i)
    ensures (prefix == "" || prefix in alts) && OccursAt(s, prefix, i)
    ensures i + |prefix| <= |s| && MatchAt(p, s, i + |prefix|)
  {
    OptionalStep(alts, p, s, i);
    if MatchAt(p, s, i) {
      prefix := "";
      assert OccursAt(s, "", i);
    } else {
      var k :| 0 <= k < |alts| && OccursAt(s, alts[k], i) && MatchAt(p, s, i + |alts[k]|);
      prefix := alts[k];
    }
  }

  /** A match of `w\s+\w+` is the keyword, non-empty white space and a word character. */
  lemma KeywordTailIsText(w: string, s: string, m: nat) returns (space: string, c: char)
    requires m <= |s| && MatchAt(KeywordTail(w), s, m)
    ensures |space| > 0 && IsRun(Space, space) && IsWord(c) && OccursAt(s, w + (space + [c]), m)
  {
    var name := [One(Space)] + ([Many(Space)] + ([One(Word)] + [Many(Word)]));
    MatchLits(w, name, s, m);
    space, c := NameIsText(s, m + |w|);
    OccursSplit(s, w, space + [c], m);
  }

  /** A match of `\s*w\s+\w+` is white space, then the keyword tail as text. */
  lemma GapTailIsText(w: string, s: string, j: nat) returns (gap: string, space: string, c: char)
    requires j <= |s| && MatchAt([Many(Space)] + KeywordTail(w), s, j)
    ensures IsRun(Space, gap) && |space| > 0 && IsRun(Space, space) && IsWord(c)
    ensures OccursAt(s, gap + (w + (space + [c])), j)
  {
    ManyRun(Space, KeywordTail(w), s, j);
    var m: nat :| j <= m <= |s| && IsRun(Space, s[j..m]) && OccursAt(s, s[j..m], j)
      && MatchAt(KeywordTail(w), s, m);
    space, c := KeywordTailIsText(w, s, m);
    gap := s[j..m];
    OccursSplit(s, gap, w + (space + [c]), j);
  }

  /** A match of the declaration pattern at `i` is a declaration text at a word boundary. */
  lemma DeclarationMatchIsText(alts: seq<string>, w: string, s: string, i: nat)
    returns (prefix: string, gap: string, space: string, c: char)
    requires i <= |s| && MatchAt(DeclarationPattern(alts, w), s, i)
    ensures WellFormedDeclaration(alts, prefix, gap, space, c)
    ensures OccursAt(s, DeclarationText(prefix, gap, w, space, c), i) && IsBoundary(s, i)
  {
    var afterOpt := [Many(Space)] + KeywordTail(w);
    BoundaryStep([Optional(alts)] + afterOpt, s, i);
    prefix := OptionalPrefix(alts, afterOpt, s, i);
    gap, space, c := GapTailIsText(w, s, i + |prefix|);
    OccursSplit(s, prefix, gap + (w + (space + [c])), i);
  }

  /**
   * The signature test in plain terms: somewhere in the line, at a word
   * boundary, an optional access keyword, optional white space, `function`,
   * at least one white-space character and a word character.
   */
  lemma SignatureMeaning(line: string)
    ensures IsSignature(line) <==>
      exists i: nat, keyword, gap, space, c ::
        (WellFormedDeclaration(AccessKeywords, keyword, gap, space, c)
         && OccursAt(line, DeclarationText(keyword, gap, "function", space, c), i) && IsBoundary(line, i))
  {
    if IsSignature(line) {
      var i: nat :| i <= |line| && MatchAt(SignaturePattern, line, i);
      var keyword, gap, space, c := DeclarationMatchIsText(AccessKeywords, "function", line, i);
    }
    if exists i: nat, keyword, gap, space, c ::
         (WellFormedDeclaration(AccessKeywords, keyword, gap, space, c)
          && OccursAt(line, DeclarationText(keyword, gap, "function", space, c), i) && IsBoundary(line, i))
    {
      var i: nat, keyword, gap, space, c :| WellFormedDeclaration(AccessKeywords, keyword, gap, space, c)
        && OccursAt(line, DeclarationText(keyword, gap, "function", space, c), i) && IsBoundary(line, i);
      DeclarationTextMatches(AccessKeywords, "function", line, i, keyword, gap, space, c);
      assert i <= |line|;
    }
  }

  // ---------------------------------------------------------------------------
  // The backward search for the signature

  /** The nearest signature line at or before `i`, if any. */
  function SignatureAtOrBefore(lines: seq<string>, i: nat): (r: Option<nat>)
    requires i < |lines|
    ensures r.Some? ==>
      r.value <= i && IsSignature(lines[r.value])
      && forall j :: r.value < j <= i ==> !IsSignature(lines[j])
    ensures r.None? ==> forall j :: 0 <= j <= i ==> !IsSignature(lines[j])
    decreases i
  {
    if IsSignature(lines[i]) then Some(i)
    else if i == 0 then None
    else SignatureAtOrBefore(lines, i - 1)
  }

  /** `startLine`: the nearest signature at or before `lineNumber`, else `lineNumber` itself. */
  function StartLine(lines: seq<string>, lineNumber: nat): (start: nat)
    requires lineNumber < |lines|
    ensures start <= lineNumber
    ensures IsSignature(lines[start]) || start == lineNumber
    ensures forall j :: start < j <= lineNumber ==> !IsSignature(lines[j])
    ensures !IsSignature(lines[start]) ==> forall j :: 0 <= j <= lineNumber ==> !IsSignature(lines[j])
  {
    match SignatureAtOrBefore(lines, lineNumber)
    case Some(k) => k
    case None => lineNumber
  }

  // ---------------------------------------------------------------------------
  // The forward brace scan

  /** The counter and the flag after some characters, and whether a `}` ended the method on the way. */
  datatype Scan = Scan(count: int, found: bool, closed: bool)

  /**
   * The inner loop over `line[j..]`: `{` raises the counter and sets the
   * flag, `}` lowers it, and a `}` that brings it to zero once the flag is set
   * stops the scan.
   */
  function ScanChars(line: string, j: nat, count: int, found: bool): Scan
    requires j <= |line|
    decreases |line| - j
  {
    if j == |line| then Scan(count, found, false)
    else if line[j] == '{' then ScanChars(line, j + 1, count + 1, true)
    else if line[j] == '}' then
      if found && count - 1 == 0 then Scan(0, found, true)
      else ScanChars(line, j + 1, count - 1, found)
    else ScanChars(line, j + 1, count, found)
  }

  /**
   * The outer loop from line `i`: the line where a `}` closed the method, or
   * `None` when the lines run out or a line ends with the counter at zero and
   * the flag set without a closing `}` (then `endLine` keeps its default).
   */
  function ScanLines(lines: seq<string>, i: nat, count: int, found: bool): (r: Option<nat>)
    requires i <= |lines|
    ensures r.Some? ==> i <= r.value < |lines|
    decreases |lines| - i
  {
    if i == |lines| then None
    else
      var after := ScanChars(lines[i], 0, count, found);
      if after.closed then Some(i)
      else if after.found && after.count == 0 then None
      else ScanLines(lines, i + 1, after.count, after.found)
  }

  /** `endLine`: where the scan from `start` closed the method, else `lineNumber`. */
  function EndLine(lines: seq<string>, start: nat, lineNumber: nat): (end: nat)
    requires start <= lineNumber < |lines|
    ensures start <= end < |lines|
  {
    match ScanLines(lines, start, 0, false)
    case Some(e) => e
    case None => lineNumber
  }

  /** What a character does to the counter. */
  function Delta(c: char): int
  {
    if c == '{' then 1 else if c == '}' then -1 else 0
  }

  /** Opening minus closing braces in `s`. */
  function Depth(s: string): int
    decreases |s|
  {
    if |s| == 0 then 0 else Delta(s[0]) + Depth(s[1..])
  }

  /**
   * Scanning `line` from `j` with the given counter and flag, the `}` at `k`
   * brings the running count to zero with an opening brace seen.
   */
  predicate ClosesAt(line: string, j: nat, k: nat, count: int, found: bool)
    requires j <= k < |line|
  {
    line[k] == '}' && count + Depth(line[j..k + 1]) == 0 && (found || '{' in line[j..k])
  }

  /**
   * The inner loop is a running brace count: it stops exactly when some `}`
   * brings the count (carried over from earlier lines) back to zero after an
   * opening brace, so a nested pair never stops it; otherwise it ends with
   * the counter moved by the line's depth and the flag set if the line opens
   * a brace.
   */
  lemma {:induction false} ScanCharsMeaning(line: string, j: nat, count: int, found: bool)
    requires j <= |line|
    ensures ScanChars(line, j, count, found).closed <==>
      exists k :: j <= k < |line| && ClosesAt(line, j, k, count, found)
    ensures !ScanChars(line, j, count, found).closed ==>
      ScanChars(line, j, count, found) == Scan(count + Depth(line[j..]), found || '{' in line[j..], false)
    decreases |line| - j
  {
    if j < |line| {
      var c := line[j];
      var count' := count + Delta(c);
      var found' := found || c == '{';
      ScanCharsMeaning(line, j + 1, count', found');
      assert line[j..] == [c] + line[j + 1..];
      forall k | j + 1 <= k < |line|
        ensures ClosesAt(line, j, k, count, found) <==> ClosesAt(line, j + 1, k, count', found')
      {
        assert line[j..k + 1] == [c] + line[j + 1..k + 1];
        assert line[j..k] == [c] + line[j + 1..k];
      }
      assert line[j..j + 1] == [c];
      assert line[j..j] == [];
      assert Depth([c]) == Delta(c) by {
        assert [c][1..] == [];
      }
      assert Depth(line[j..j + 1]) == Delta(c);
      assert '{' !in line[j..j];
      if c == '}' && found && count - 1 == 0 {
        assert ClosesAt(line, j, j, count, found);
      } else {
        assert !ClosesAt(line, j, j, count, found);
        assert ScanChars(line, j, count, found) == ScanChars(line, j + 1, count', found');
        if ScanChars(line, j + 1, count', found').closed {
          var k :| j + 1 <= k < |line| && ClosesAt(line, j + 1, k, count', found');
          assert ClosesAt(line, j, k, count, found);
        }
        if exists k :: j <= k < |line| && ClosesAt(line, j, k, count, found) {
          var k :| j <= k < |line| && ClosesAt(line, j, k, count, found);
          assert ClosesAt(line, j + 1, k, count', found');
        }
      }
    }
  }

  /** Opening minus closing braces over lines `i` to `m - 1`. */
  function DepthBefore(lines: seq<string>, i: nat, m: nat): int
    requires i <= m <= |lines|
    decreases m - i
  {
    if i == m then 0 else Depth(lines[i]) + DepthBefore(lines, i + 1, m)
  }

  /** Some line from `i` to `m - 1` holds an opening brace. */
  predicate OpensBefore(lines: seq<string>, i: nat, m: nat)
    requires i <= m <= |lines|
    decreases m - i
  {
    i < m && ('{' in lines[i] || OpensBefore(lines, i + 1, m))
  }

  /** Scanning `line` with the given counter and flag, some `}` closes the method. */
  predicate LineCloses(line: string, count: int, found: bool)
  {
    exists k :: 0 <= k < |line| && ClosesAt(line, 0, k, count, found)
  }

  /**
   * Scanning from line `i` with the given counter and flag, a `}` on line `m`
   * brings the running count to zero after an opening brace.
   */
  predicate ClosesLine(lines: seq<string>, i: nat, m: nat, count: int, found: bool)
    requires i <= m < |lines|
  {
    LineCloses(lines[m], count + DepthBefore(lines, i, m), found || OpensBefore(lines, i, m))
  }

  /** Scanning from line `i`, line `m` ends with the count at zero after an opening brace. */
  predicate SettlesLine(lines: seq<string>, i: nat, m: nat, count: int, found: bool)
    requires i <= m < |lines|
  {
    count + DepthBefore(lines, i, m + 1) == 0 && (found || OpensBefore(lines, i, m + 1))
  }

  /** Line `e` ends the method that starts at line `start`: the first line where a `}` closes it, with no line before it where the count settled. */
  predicate IsMethodEnd(lines: seq<string>, start: nat, e: nat)
  {
    start <= e < |lines| && ClosesLine(lines, start, e, 0, false)
    && forall m :: start <= m < e ==> !ClosesLine(lines, start, m, 0, false) && !SettlesLine(lines, start, m, 0, false)
  }

  /** Moving the scan's start one line on carries that line's depth and braces into the counter and the flag. */
  lemma ShiftStart(lines: seq<string>, i: nat, m: nat, count: int, found: bool)
    requires i < m < |lines|
    ensures var count', found' := count + Depth(lines[i]), found || '{' in lines[i];
      (ClosesLine(lines, i, m, count, found) <==> ClosesLine(lines, i + 1, m, count', found'))
      && (SettlesLine(lines, i, m, count, found) <==> SettlesLine(lines, i + 1, m, count', found'))
  {
  }

  /**
   * The outer loop ends at line `e` exactly when `e` is the first line where
   * a `}` brings the running brace count to zero after an opening brace, and
   * no earlier line ended with the count settled at zero.
   */
  lemma {:induction false} ScanLinesMeaning(lines: seq<string>, i: nat, count: int, found: bool, e: nat)
    requires i <= |lines|
    ensures ScanLines(lines, i, count, found) == Some(e) <==>
      i <= e < |lines| && ClosesLine(lines, i, e, count, found)
      && forall m :: i <= m < e ==> !ClosesLine(lines, i, m, count, found) && !SettlesLine(lines, i, m, count, found)
    decreases |lines| - i
  {
    if i < |lines| {
      var line := lines[i];
      assert line[0..] == line;
      ScanCharsMeaning(line, 0, count, found);
      var after := ScanChars(line, 0, count, found);
      assert ClosesLine(lines, i, i, count, found) <==> after.closed;
      if !after.closed {
        assert DepthBefore(lines, i, i + 1) == Depth(line);
        assert OpensBefore(lines, i, i + 1) <==> '{' in line;
        assert SettlesLine(lines, i, i, count, found) <==> after.found && after.count == 0;
        if !(after.found && after.count == 0) {
          var j, count', found' := i + 1, after.count, after.found;
          ScanLinesMeaning(lines, j, count', found', e);
          forall m | j <= m < |lines|
            ensures (ClosesLine(lines, i, m, count, found) <==> ClosesLine(lines, j, m, count', found'))
              && (SettlesLine(lines, i, m, count, found) <==> SettlesLine(lines, j, m, count', found'))
          {
            ShiftStart(lines, i, m, count, found);
          }
        }
      }
    }
  }

  /**
   * `endLine` is the line that ends the method when there is one, and
   * `lineNumber` when the scan never closes it.
   */
  lemma EndLineMeaning(lines: seq<string>, start: nat, lineNumber: nat)
    requires start <= lineNumber < |lines|
    ensures forall e :: IsMethodEnd(lines, start, e) ==> EndLine(lines, start, lineNumber) == e
    ensures (forall e :: !IsMethodEnd(lines, start, e)) ==> EndLine(lines, start, lineNumber) == lineNumber
  {
    forall e: nat
      ensures ScanLines(lines, start, 0, false) == Some(e) <==> IsMethodEnd(lines, start, e)
    {
      ScanLinesMeaning(lines, start, 0, false, e);
    }
  }

  // ---------------------------------------------------------------------------
  // The preview

  /** `Math.min`. */
  function Min(a: int, b: int): int
  {
    if a <= b then a else b
  }

  /**
   * The lines `start` to `end` joined by newlines, cut after `MaxLines` lines
   * with the continuation marker appended when the method is longer.
   */
  function Excerpt(lines: seq<string>, start: nat, end: nat): string
    requires start <= end < |lines|
  {
    var actualEnd := Min(end, start + MaxLines - 1);
    var preview := Join(lines[start..actualEnd + 1], '\n');
    if actualEnd < end then preview + "\n" + ContinuationMarker else preview
  }

  /** The preview of the method around `lineNumber`, or `None` when that index has no line. */
  function PreviewOf(lines: seq<string>, lineNumber: nat): Option<string>
  {
    if lineNumber >= |lines| then None
    else
      var start := StartLine(lines, lineNumber);
      Some(Excerpt(lines, start, EndLine(lines, start, lineNumber)))
  }

  /** `extractMethodPreview` on a file whose read gave `content`, or failed (`None`). */
  function Preview(content: Option<string>, lineNumber: nat): Option<string>
  {
    match content
    case None => None
    case Some(text) => PreviewOf(Split(text, '\n'), lineNumber)
  }

  /**
   * The excerpt, split back at newlines, is the method's first lines, at
   * most `MaxLines` of them, then the continuation marker when the method
   * has more.
   */
  lemma ExcerptLines(lines: seq<string>, start: nat, end: nat)
    requires start <= end < |lines|
    requires forall k :: 0 <= k < |lines| ==> '\n' !in lines[k]
    ensures var shown := Min(end, start + MaxLines - 1);
      Split(Excerpt(lines, start, end), '\n')
        == lines[start..shown + 1] + (if end - start + 1 > MaxLines then [ContinuationMarker] else [])
  {
    var shown := Min(end, start + MaxLines - 1);
    var body := lines[start..shown + 1];
    assert forall k :: 0 <= k < |body| ==> '\n' !in body[k] by {
      assert forall k :: 0 <= k < |body| ==> body[k] == lines[start + k];
    }
    if shown < end {
      JoinSnoc(body, ContinuationMarker, '\n');
      assert Join(body, '\n') + "\n" + ContinuationMarker == Join(body, '\n') + ['\n'] + ContinuationMarker;
      var parts := body + [ContinuationMarker];
      assert forall k :: 0 <= k < |parts| ==> '\n' !in parts[k] by {
        assert forall k :: 0 <= k < |body| ==> parts[k] == body[k];
      }
      SplitJoin(parts, '\n');
    } else {
      SplitJoin(body, '\n');
    }
  }

  /**
   * `shown` is what the preview of lines `start` to `end` looks like: the
   * method's first lines, at most `MaxLines` of them, followed by the
   * continuation marker exactly when the method is longer.
   */
  predicate ShowsMethod(shown: seq<string>, lines: seq<string>, start: nat, end: nat)
    requires start <= end < |lines|
  {
    var total := end - start + 1;
    |shown| == Min(total, MaxLines) + (if total > MaxLines then 1 else 0)
    && shown[..Min(total, MaxLines)] == lines[start..start + Min(total, MaxLines)]
    && (total > MaxLines ==> shown[MaxLines] == ContinuationMarker)
  }

  /** The excerpt, split back at newlines, shows the method. */
  lemma ExcerptShape(lines: seq<string>, start: nat, end: nat)
    requires start <= end < |lines|
    requires forall k :: 0 <= k < |lines| ==> '\n' !in lines[k]
    ensures ShowsMethod(Split(Excerpt(lines, start, end), '\n'), lines, start, end)
  {
    ExcerptLines(lines, start, end);
  }

  /**
   * `extractMethodPreview` gives nothing exactly when the read failed or the
   * line does not exist; otherwise it shows the method from its start line
   * to its end line.
   */
  lemma PreviewMeaning(content: Option<string>, lineNumber: nat)
    ensures Preview(content, lineNumber).None? <==>
      content.None? || lineNumber >= |Split(content.value, '\n')|
    ensures Preview(content, lineNumber).Some? ==>
      var lines := Split(content.value, '\n');
      var start := StartLine(lines, lineNumber);
      ShowsMethod(Split(Preview(content, lineNumber).value, '\n'), lines, start, EndLine(lines, start, lineNumber))
  {
    if content.Some? && lineNumber < |Split(content.value, '\n')| {
      var lines := Split(content.value, '\n');
      var start := StartLine(lines, lineNumber);
      ExcerptShape(lines, start, EndLine(lines, start, lineNumber));
    }
  }

  /**
   * The backward loop of `extractMethodPreview`: the start line, or `None`
   * where reading `lines[lineNumber]` past the end throws.
   */
  method FindMethodStart(lines: seq<string>, lineNumber: nat) returns (r: Option<nat>)
    ensures r == if lineNumber < |lines| then Some(StartLine(lines, lineNumber)) else None
  {
    var startLine := lineNumber;
    var i: int := lineNumber;
    while i >= 0
      invariant -1 <= i <= lineNumber
      invariant i < lineNumber ==> lineNumber < |lines|
      invariant startLine == lineNumber
      invariant forall j :: i < j <= lineNumber ==> !IsSignature(lines[j])
      decreases i
    {
      if i >= |lines| {
        return None;
      }
      if IsSignature(lines[i]) {
        startLine := i;
        break;
      }
      i := i - 1;
    }
    return Some(startLine);
  }

  /** The forward loop of `extractMethodPreview`: the end line of the method starting at `startLine`. */
  method FindMethodEnd(lines: seq<string>, startLine: nat, lineNumber: nat) returns (endLine: nat)
    requires startLine <= lineNumber < |lines|
    ensures endLine == EndLine(lines, startLine, lineNumber)
  {
    endLine := lineNumber;
    var braceCount := 0;
    var foundStart := false;
    var li := startLine;
    while li < |lines|
      invariant startLine <= li <= |lines|
      invariant endLine == lineNumber
      invariant ScanLines(lines, li, braceCount, foundStart) == ScanLines(lines, startLine, 0, false)
      decreases |lines| - li
    {
      var line := lines[li];
      ghost var count0, found0 := braceCount, foundStart;
      var j := 0;
      while j < |line|
        invariant 0 <= j <= |line|
        invariant endLine == lineNumber
        invariant ScanChars(line, j, braceCount, foundStart) == ScanChars(line, 0, count0, found0)
        decreases |line| - j
      {
        if line[j] == '{' {
          braceCount := braceCount + 1;
          foundStart := true;
        } else if line[j] == '}' {
          braceCount := braceCount - 1;
          if foundStart && braceCount == 0 {
            endLine := li;
            return;
          }
        }
        j := j + 1;
      }
      if foundStart && braceCount == 0 {
        return;
      }
      li := li + 1;
    }
  }

  /**
   * `extractMethodPreview`. A failed read, and the `TypeError` from reading
   * `lines[i]` past the end, are caught and give `None`.
   */
  method ExtractMethodPreview(content: Option<string>, lineNumber: nat) returns (r: Option<string>)
    ensures r == Preview(content, lineNumber)
  {
    if content.None? {
      return None;
    }
    var lines := Split(content.value, '\n');
    var start := FindMethodStart(lines, lineNumber);
    if start.None? {
      return None;
    }
    var startLine := start.value;
    var endLine := FindMethodEnd(lines, startLine, lineNumber);

    // Limit the preview to MaxLines lines
    var actualEndLine := Min(endLine, startLine + MaxLines - 1);
    var methodLines := lines[startLine..actualEndLine + 1];
    var preview := Join(methodLines, '\n');
    if actualEndLine < endLine {
      preview := preview + "\n" + ContinuationMarker;
    }
    assert preview == Excerpt(lines, startLine, endLine);
    return Some(preview);
  }
}
