/**
 * Action Locator (`findActionInControllers`): among the controller files, in
 * the order the directory walk yields them, the first one that is a responder
 * (it contains `return $this->responser`), binds the queried component
 * (`$ctx->component = fn() => '<component>'`) and mentions `$ctx-><action>` on
 * some line; the result is that file and the zero-based index of its first
 * such line.
 */
module ActionLocator {
  import opened Wrappers
  import opened Text
  import opened Regex

  /** A controller file as the walk yields it: its path and its text. */
  datatype SourceFile = SourceFile(path: string, content: string)

  /** Where an action is referenced: a file and a zero-based line index. */
  datatype Location = Location(file: string, line: nat)

  const Marker: string := "return $this->responser"
  const ComponentField: string := "$ctx->component"

  /**
   * The component path as it stands inside the binding regex: only `/` is
   * escaped, and `\/` means `/`, so every character is literal except `.`,
   * which here matches one character other than a line terminator. Without
   * the `u` flag JavaScript's `.` matches one UTF-16 code unit, so the two
   * agree on characters of the Basic Multilingual Plane only.
   */
  function PathPattern(componentPath: string): (p: Pattern)
    ensures |p| == |componentPath|
    decreases |componentPath|
  {
    if |componentPath| == 0 then []
    else
      [if componentPath[0] == '.' then One(NonTerminator) else Lit(componentPath[0])]
      + PathPattern(componentPath[1..])
  }

  /** The literal parts of the binding regex; `\s*` follows each of them. */
  const BindingWords: seq<string> := [ComponentField, "=", "fn", "()", "=>"]

  /**
   * The binding regex
   * `\$ctx->component\s*=\s*fn\s*\(\)\s*=>\s*['"]<componentPath>['"]`:
   * the words, each followed by optional white space, then the component
   * path between two quotes, each chosen independently.
   */
  function BindingPattern(componentPath: string): Pattern
  {
    Spaced(BindingWords, QuotedPathPattern(componentPath))
  }

  /** The second filter: the file binds its component to `componentPath`. */
  predicate ComponentBound(content: string, componentPath: string)
  {
    Test(BindingPattern(componentPath), content)
  }

  /**
   * A binding as written in a controller: `$ctx->component`, `=`, `fn`, `()`
   * and `=>`, each followed by its white-space run from `runs`, then the
   * component path between the quotes `q1` and `q2`.
   */
  function BindingText(runs: seq<string>, q1: char, q2: char, componentPath: string): string
    requires |runs| == |BindingWords|
  {
    SpacedText(BindingWords, runs) + ([q1] + (componentPath + [q2]))
  }

  /** The runs are white space and the quotes are `'` or `"`, each chosen on its own. */
  predicate WellFormedBinding(runs: seq<string>, q1: char, q2: char)
  {
    |runs| == |BindingWords| && SpaceRuns(runs) && InClass(Quote, q1) && InClass(Quote, q2)
  }

  /**
   * The component path inside the pattern matches the path itself, and, for
   * a path without `.`, nothing else.
   */
  lemma {:induction false} MatchPath(componentPath: string, p: Pattern, s: string, i: nat)
    requires i <= |s|
    ensures OccursAt(s, componentPath, i) && MatchAt(p, s, i + |componentPath|) ==>
      MatchAt(PathPattern(componentPath) + p, s, i)
    ensures '.' !in componentPath ==>
      (MatchAt(PathPattern(componentPath) + p, s, i) <==>
       OccursAt(s, componentPath, i) && MatchAt(p, s, i + |componentPath|))
    decreases |componentPath|
  {
    if |componentPath| == 0 {
      assert PathPattern(componentPath) + p == p;
    } else {
      var c := componentPath[0];
      var e := if c == '.' then One(NonTerminator) else Lit(c);
      var tail := PathPattern(componentPath[1..]) + p;
      assert PathPattern(componentPath) + p == [e] + tail;
      OneStep(e, tail, s, i);
      if i < |s| {
        MatchPath(componentPath[1..], p, s, i + 1);
        OccursAtFront(s, componentPath, i);
        assert '.' !in componentPath ==> '.' !in componentPath[1..];
      }
    }
  }

  /** The quoted path at the end of the binding pattern. */
  function QuotedPathPattern(componentPath: string): Pattern
  {
    [One(Quote)] + (PathPattern(componentPath) + [One(Quote)])
  }

  /** A quote, the path and a quote match the end of the binding pattern. */
  lemma QuotedPathMatches(componentPath: string, s: string, i: nat, q1: char, q2: char)
    requires InClass(Quote, q1) && InClass(Quote, q2)
    requires OccursAt(s, [q1] + (componentPath + [q2]), i)
    ensures MatchAt(QuotedPathPattern(componentPath), s, i)
  {
    var close: Pattern := [One(Quote)];
    var j := i + 1;
    var m := j + |componentPath|;
    OccursSplit(s, [q1], componentPath + [q2], i);
    OccursSplit(s, componentPath, [q2], j);
    assert s[i..i + 1] == [q1] && s[m..m + 1] == [q2];
    assert close == [One(Quote)] + [];
    OneStep(One(Quote), [], s, m);
    MatchPath(componentPath, close, s, j);
    OneStep(One(Quote), PathPattern(componentPath) + close, s, i);
  }

  /** For a path without `.`, the end of the binding pattern matches only a quote, the path and a quote. */
  lemma QuotedPathIsText(componentPath: string, s: string, i: nat)
    requires '.' !in componentPath
    requires i <= |s| && MatchAt(QuotedPathPattern(componentPath), s, i)
    ensures i + 2 + |componentPath| <= |s|
    ensures InClass(Quote, s[i]) && InClass(Quote, s[i + 1 + |componentPath|])
    ensures OccursAt(s, [s[i]] + (componentPath + [s[i + 1 + |componentPath|]]), i)
  {
    var close: Pattern := [One(Quote)];
    var j := i + 1;
    var m := j + |componentPath|;
    OneStep(One(Quote), PathPattern(componentPath) + close, s, i);
    MatchPath(componentPath, close, s, j);
    assert close == [One(Quote)] + [];
    OneStep(One(Quote), [], s, m);
    var q1, q2 := s[i], s[m];
    assert s[i..i + 1] == [q1] && s[m..m + 1] == [q2];
    OccursSplit(s, componentPath, [q2], j);
    OccursSplit(s, [q1], componentPath + [q2], i);
  }

  /** Words separated by white-space runs, then a quoted path, match the spaced words then the quoted-path pattern. */
  lemma SpacedQuotedMatches(words: seq<string>, runs: seq<string>, q1: char, q2: char,
                            componentPath: string, s: string, i: nat)
    requires |runs| == |words| && SpaceRuns(runs) && InClass(Quote, q1) && InClass(Quote, q2)
    requires OccursAt(s, SpacedText(words, runs) + ([q1] + (componentPath + [q2])), i)
    ensures MatchAt(Spaced(words, QuotedPathPattern(componentPath)), s, i)
  {
    var head := SpacedText(words, runs);
    OccursSplit(s, head, [q1] + (componentPath + [q2]), i);
    QuotedPathMatches(componentPath, s, i + |head|, q1, q2);
    SpacedMatches(words, runs, QuotedPathPattern(componentPath), s, i);
  }

  /** For a path without `.`, a match of the spaced words then the quoted path is such a text. */
  lemma SpacedQuotedIsText(words: seq<string>, componentPath: string, s: string, i: nat)
    requires '.' !in componentPath
    requires i <= |s| && MatchAt(Spaced(words, QuotedPathPattern(componentPath)), s, i)
    ensures exists runs, q1, q2 :: (|runs| == |words| && SpaceRuns(runs) && InClass(Quote, q1) && InClass(Quote, q2)
      && OccursAt(s, SpacedText(words, runs) + ([q1] + (componentPath + [q2])), i))
  {
    var quoted := QuotedPathPattern(componentPath);
    SpacedMatchIsText(words, quoted, s, i);
    var runs :| |runs| == |words| && SpaceRuns(runs)
      && OccursAt(s, SpacedText(words, runs), i)
      && MatchAt(quoted, s, i + |SpacedText(words, runs)|);
    var head := SpacedText(words, runs);
    var j := i + |head|;
    QuotedPathIsText(componentPath, s, j);
    var q1, q2 := s[j], s[j + 1 + |componentPath|];
    OccursSplit(s, head, [q1] + (componentPath + [q2]), i);
  }

  /**
   * The second filter in plain terms: a binding text for the component path
   * anywhere in the file is enough, and, for a path without `.`, it is also
   * necessary.
   */
  lemma ComponentBoundMeaning(content: string, componentPath: string)
    ensures (exists i: nat, runs, q1, q2 ::
               WellFormedBinding(runs, q1, q2)
               && OccursAt(content, BindingText(runs, q1, q2, componentPath), i))
            ==> ComponentBound(content, componentPath)
    ensures '.' !in componentPath && ComponentBound(content, componentPath) ==>
            exists i: nat, runs, q1, q2 ::
              WellFormedBinding(runs, q1, q2)
              && OccursAt(content, BindingText(runs, q1, q2, componentPath), i)
  {
    if exists i: nat, runs, q1, q2 ::
         WellFormedBinding(runs, q1, q2) && OccursAt(content, BindingText(runs, q1, q2, componentPath), i)
    {
      var i: nat, runs, q1, q2 :|
        WellFormedBinding(runs, q1, q2) && OccursAt(content, BindingText(runs, q1, q2, componentPath), i);
      SpacedQuotedMatches(BindingWords, runs, q1, q2, componentPath, content, i);
    }
    if '.' !in componentPath && ComponentBound(content, componentPath) {
      var i: nat :| i <= |content| && MatchAt(BindingPattern(componentPath), content, i);
      SpacedQuotedIsText(BindingWords, componentPath, content, i);
      var runs, q1, q2 :| |runs| == |BindingWords| && SpaceRuns(runs) && InClass(Quote, q1) && InClass(Quote, q2)
        && OccursAt(content, SpacedText(BindingWords, runs) + ([q1] + (componentPath + [q2])), i);
      assert WellFormedBinding(runs, q1, q2);
      assert OccursAt(content, BindingText(runs, q1, q2, componentPath), i);
    }
  }

  /** Both filters: a responder that binds `componentPath`. */
  predicate Accepted(f: SourceFile, componentPath: string)
  {
    Contains(f.content, Marker) && ComponentBound(f.content, componentPath)
  }

  /** The text whose presence on a line marks the action. */
  function ActionNeedle(action: string): string
  {
    "$ctx->" + action
  }

  /** The lines of a file: its text split on `\n`. */
  function Lines(content: string): seq<string>
  {
    Split(content, '\n')
  }

  /** The first index at or after `from` whose line contains `needle`. */
  function FirstLineWith(lines: seq<string>, needle: string, from: nat): (r: Option<nat>)
    requires from <= |lines|
    ensures r.Some? ==>
      from <= r.value < |lines| && Contains(lines[r.value], needle)
      && forall j :: from <= j < r.value ==> !Contains(lines[j], needle)
    ensures r.None? ==> forall j :: from <= j < |lines| ==> !Contains(lines[j], needle)
    decreases |lines| - from
  {
    if from == |lines| then None
    else if Contains(lines[from], needle) then Some(from)
    else FirstLineWith(lines, needle, from + 1)
  }

  /** The line the scan stops at in `f`: `None` when `f` fails a filter or no line names the action. */
  function Hit(f: SourceFile, action: string, componentPath: string): Option<nat>
  {
    if !Contains(f.content, Marker) then None
    else if !ComponentBound(f.content, componentPath) then None
    else FirstLineWith(Lines(f.content), ActionNeedle(action), 0)
  }

  /** `Hit` for one query, as the function the scan applies to each file. */
  function HitFor(action: string, componentPath: string): SourceFile -> Option<nat>
  {
    (f: SourceFile) => Hit(f, action, componentPath)
  }

  /** `f` would be returned if the scan reached it: both filters pass and a line names the action (see `QualifiesMeaning`). */
  predicate Qualifies(f: SourceFile, action: string, componentPath: string)
  {
    Hit(f, action, componentPath).Some?
  }

  /** The result of scanning `files[k..]` with `hit`, as a function. */
  function FindFrom(files: seq<SourceFile>, hit: SourceFile -> Option<nat>, k: nat): Option<Location>
    requires k <= |files|
    decreases |files| - k
  {
    if k == |files| then None
    else if hit(files[k]).Some? then Some(Location(files[k].path, hit(files[k]).value))
    else FindFrom(files, hit, k + 1)
  }

  /** The specification of the whole search. */
  function FindAction(files: seq<SourceFile>, action: string, componentPath: string): Option<Location>
  {
    FindFrom(files, HitFor(action, componentPath), 0)
  }

  /**
   * `findActionInControllers` over the files the walk yields: the outer loop
   * skips a file that fails a filter, the inner loop returns at the first
   * line naming the action, and a file with no such line lets the outer loop
   * go on.
   */
  method FindActionInControllers(files: seq<SourceFile>, action: string, componentPath: string)
    returns (r: Option<Location>)
    ensures r == FindAction(files, action, componentPath)
  {
    for k := 0 to |files|
      invariant FindFrom(files, HitFor(action, componentPath), k) == FindAction(files, action, componentPath)
    {
      var content := files[k].content;
      if !Contains(content, Marker) {
        continue;
      }
      if !ComponentBound(content, componentPath) {
        continue;
      }
      var lines := Split(content, '\n');
      for i := 0 to |lines|
        invariant FirstLineWith(lines, ActionNeedle(action), i) == FirstLineWith(lines, ActionNeedle(action), 0)
      {
        if Contains(lines[i], ActionNeedle(action)) {
          return Some(Location(files[k].path, i));
        }
      }
    }
    return None;
  }

  /** The scan of `files[k..]` hits exactly when `hit` gives a line for some file from `k` on. */
  lemma {:induction false} FindFromHitIff(files: seq<SourceFile>, hit: SourceFile -> Option<nat>, k: nat)
    requires k <= |files|
    ensures FindFrom(files, hit, k).Some? <==> exists m :: k <= m < |files| && hit(files[m]).Some?
    decreases |files| - k
  {
    if k < |files| {
      FindFromHitIff(files, hit, k + 1);
    }
  }

  /** A hit of the scan of `files[k..]` is the first file from `k` that `hit` gives a line for, with that line. */
  lemma {:induction false} FindFromFirst(files: seq<SourceFile>, hit: SourceFile -> Option<nat>, k: nat)
    requires k <= |files|
    requires FindFrom(files, hit, k).Some?
    ensures exists m :: (k <= m < |files| && hit(files[m]).Some?
      && (forall j :: k <= j < m ==> hit(files[j]).None?)
      && FindFrom(files, hit, k) == Some(Location(files[m].path, hit(files[m]).value)))
    decreases |files| - k
  {
    if hit(files[k]).None? {
      FindFromFirst(files, hit, k + 1);
      var m :| k + 1 <= m < |files| && hit(files[m]).Some?
        && (forall j :: k + 1 <= j < m ==> hit(files[j]).None?)
        && FindFrom(files, hit, k + 1) == Some(Location(files[m].path, hit(files[m]).value));
      assert forall j :: k <= j < m ==> hit(files[j]).None?;
    } else {
      assert FindFrom(files, hit, k) == Some(Location(files[k].path, hit(files[k]).value));
    }
  }

  /** A file qualifies exactly when it passes both filters and one of its lines names the action. */
  lemma QualifiesMeaning(f: SourceFile, action: string, componentPath: string)
    ensures Qualifies(f, action, componentPath) <==>
      Accepted(f, componentPath)
      && exists i :: 0 <= i < |Lines(f.content)| && Contains(Lines(f.content)[i], ActionNeedle(action))
  {
    var first := FirstLineWith(Lines(f.content), ActionNeedle(action), 0);
    if first.Some? {
      assert Contains(Lines(f.content)[first.value], ActionNeedle(action));
    }
  }


  /** `line` is a line of `content` that contains `$ctx-><action>`, and no earlier line does. */
  predicate IsFirstActionLine(content: string, action: string, line: nat)
  {
    var lines := Lines(content);
    line < |lines| && Contains(lines[line], ActionNeedle(action))
    && forall j :: 0 <= j < line ==> !Contains(lines[j], ActionNeedle(action))
  }

  /**
   * A hit names a file that passes both filters (the responder marker and the
   * component binding) and the first of its lines that contains
   * `$ctx-><action>`; every earlier file fails a filter or has no such line.
   */
  lemma FindActionSound(files: seq<SourceFile>, action: string, componentPath: string)
    ensures FindAction(files, action, componentPath).Some? ==>
      var loc := FindAction(files, action, componentPath).value;
      exists m :: (0 <= m < |files| && files[m].path == loc.file
        && Accepted(files[m], componentPath)
        && IsFirstActionLine(files[m].content, action, loc.line)
        && forall j :: 0 <= j < m ==> !Qualifies(files[j], action, componentPath))
  {
    var hit := HitFor(action, componentPath);
    if FindAction(files, action, componentPath).Some? {
      FindFromFirst(files, hit, 0);
      var m :| 0 <= m < |files| && hit(files[m]).Some?
        && (forall j :: 0 <= j < m ==> hit(files[j]).None?)
        && FindFrom(files, hit, 0) == Some(Location(files[m].path, hit(files[m]).value));
      HitIsFirstActionLine(files[m], action, componentPath);
    }
  }

  /** When `Hit` gives a line, the file passes both filters and the line is its first action line. */
  lemma HitIsFirstActionLine(f: SourceFile, action: string, componentPath: string)
    requires HitFor(action, componentPath)(f).Some?
    ensures Accepted(f, componentPath)
    ensures IsFirstActionLine(f.content, action, HitFor(action, componentPath)(f).value)
  {
  }


  /** The search finds nothing exactly when no file passes both filters and names the action. */
  lemma FindActionNone(files: seq<SourceFile>, action: string, componentPath: string)
    ensures FindAction(files, action, componentPath).None? <==>
      forall m :: 0 <= m < |files| ==> !Qualifies(files[m], action, componentPath)
  {
    FindFromHitIff(files, HitFor(action, componentPath), 0);
  }

  /** Scanning `([f] + rest)[k + 1..]` is scanning `rest[k..]`. */
  lemma {:induction false} FindFromShift(f: SourceFile, rest: seq<SourceFile>, hit: SourceFile -> Option<nat>, k: nat)
    requires k <= |rest|
    ensures FindFrom([f] + rest, hit, k + 1) == FindFrom(rest, hit, k)
    decreases |rest| - k
  {
    if k < |rest| {
      assert ([f] + rest)[k + 1] == rest[k];
      FindFromShift(f, rest, hit, k + 1);
    }
  }

  /** A file that passes both filters but has no action line does not end the search. */
  lemma AcceptedWithoutActionIsSkipped(f: SourceFile, rest: seq<SourceFile>, action: string, componentPath: string)
    requires Accepted(f, componentPath)
    requires forall i :: 0 <= i < |Lines(f.content)| ==> !Contains(Lines(f.content)[i], ActionNeedle(action))
    ensures FindAction([f] + rest, action, componentPath) == FindAction(rest, action, componentPath)
  {
    var hit := HitFor(action, componentPath);
    var first := FirstLineWith(Lines(f.content), ActionNeedle(action), 0);
    if first.Some? {
      assert false;
    }
    assert hit(f) == first;
    assert ([f] + rest)[0] == f;
    FindFromShift(f, rest, hit, 0);
  }

  /** A file without the responder marker never matches, whatever else it holds. */
  lemma UnmarkedIsSkipped(f: SourceFile, rest: seq<SourceFile>, action: string, componentPath: string)
    requires !Contains(f.content, Marker)
    ensures FindAction([f] + rest, action, componentPath) == FindAction(rest, action, componentPath)
  {
    var hit := HitFor(action, componentPath);
    assert ([f] + rest)[0] == f;
    assert hit(f).None?;
    FindFromShift(f, rest, hit, 0);
  }
}
