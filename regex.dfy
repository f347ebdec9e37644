/**
 * The fragment of JavaScript regular expressions that the extension's two
 * patterns use, with the meaning `RegExp.prototype.test` gives them: a pattern
 * is tested against a string by trying every start position and searching,
 * with backtracking, for any way to match the pattern from there.
 */
module Regex {
  import opened Text

  /** The character classes the patterns use. */
  datatype CharClass =
    | Space          // \s
    | Word           // \w
    | Quote          // ['"]
    | NonTerminator  // . (one character other than a line terminator; see PathPattern)

  /** JavaScript's `\s`: the ECMAScript white space and line terminator characters. */
  predicate IsSpace(c: char)
  {
    c == ' ' || c == '\t' || c == '\n' || c == '\r' || c == '\U{000B}' || c == '\U{000C}'
    || c == '\U{00A0}' || c == '\U{1680}' || ('\U{2000}' <= c <= '\U{200A}')
    || c == '\U{2028}' || c == '\U{2029}' || c == '\U{202F}' || c == '\U{205F}'
    || c == '\U{3000}' || c == '\U{FEFF}'
  }

  /** JavaScript's `\w` (without the `u` and `i` flags): ASCII letters, digits and `_`. */
  predicate IsWord(c: char)
  {
    ('a' <= c <= 'z') || ('A' <= c <= 'Z') || ('0' <= c <= '9') || c == '_'
  }

  predicate InClass(cl: CharClass, c: char)
  {
    match cl
    case Space => IsSpace(c)
    case Word => IsWord(c)
    case Quote => c == '\'' || c == '"'
    case NonTerminator => !(c == '\n' || c == '\r' || c == '\U{2028}' || c == '\U{2029}')
  }

  /** One element of a pattern. */
  datatype Elem =
    | Lit(c: char)                // the character itself
    | One(cl: CharClass)          // exactly one character of the class
    | Many(cl: CharClass)         // zero or more characters of the class
    | Boundary                    // \b
    | Optional(alts: seq<string>) // (a|b|...)? over literal words

  type Pattern = seq<Elem>

  /** The pattern that matches the characters of `w` literally. */
  function Lits(w: string): (p: Pattern)
    ensures |p| == |w|
    decreases |w|
  {
    if |w| == 0 then [] else [Lit(w[0])] + Lits(w[1..])
  }

  /** `\b` at position `i`: exactly one of the characters around it is a word character. */
  predicate IsBoundary(s: string, i: nat)
    requires i <= |s|
  {
    (i > 0 && IsWord(s[i - 1])) != (i < |s| && IsWord(s[i]))
  }

  /** Every character of `s[i..k]` is in class `cl`. */
  predicate AllIn(cl: CharClass, s: string, i: nat, k: nat)
    requires i <= k <= |s|
  {
    forall m :: i <= m < k ==> InClass(cl, s[m])
  }

  /**
   * Some way of matching `p` starts at position `i` of `s` (what follows the
   * match does not matter). Every choice a backtracking engine could make is
   * a disjunct here.
   */
  predicate MatchAt(p: Pattern, s: string, i: nat)
    requires i <= |s|
    decreases |s| - i, |p|
  {
    if |p| == 0 then true
    else
      match p[0]
      case Lit(c) => i < |s| && s[i] == c && MatchAt(p[1..], s, i + 1)
      case One(cl) => i < |s| && InClass(cl, s[i]) && MatchAt(p[1..], s, i + 1)
      case Many(cl) =>
        MatchAt(p[1..], s, i) || (i < |s| && InClass(cl, s[i]) && MatchAt(p, s, i + 1))
      case Boundary => IsBoundary(s, i) && MatchAt(p[1..], s, i)
      case Optional(alts) =>
        MatchAt(p[1..], s, i)
        || exists k :: 0 <= k < |alts| && OccursAt(s, alts[k], i) && MatchAt(p[1..], s, i + |alts[k]|)
  }

  /** `new RegExp(p).test(s)`: a match starts somewhere in `s`. */
  predicate Test(p: Pattern, s: string)
  {
    exists i: nat :: i <= |s| && MatchAt(p, s, i)
  }

  /** A literal word matches exactly where it occurs. */
  lemma {:induction false} MatchLits(w: string, p: Pattern, s: string, i: nat)
    requires i <= |s|
    ensures MatchAt(Lits(w) + p, s, i) <==> OccursAt(s, w, i) && MatchAt(p, s, i + |w|)
    decreases |w|
  {
    if |w| == 0 {
      assert Lits(w) + p == p;
    } else {
      var tail := Lits(w[1..]) + p;
      assert Lits(w) + p == [Lit(w[0])] + tail;
      OneStep(Lit(w[0]), tail, s, i);
      if i < |s| {
        MatchLits(w[1..], p, s, i + 1);
        OccursAtFront(s, w, i);
      }
    }
  }

  /** A non-empty word occurs at `i` when its first character is there and the rest follows. */
  lemma OccursAtFront(s: string, w: string, i: nat)
    requires |w| > 0 && i < |s|
    ensures OccursAt(s, w, i) <==> s[i] == w[0] && OccursAt(s, w[1..], i + 1)
  {
    if i + |w| <= |s| {
      assert s[i..i + |w|] == [s[i]] + s[i + 1..i + 1 + |w[1..]|];
      assert w == [w[0]] + w[1..];
    }
  }

  /** One element in front: its single step, then the rest at the next position. */
  lemma OneStep(e: Elem, p: Pattern, s: string, i: nat)
    requires i <= |s|
    requires e.Lit? || e.One?
    ensures MatchAt([e] + p, s, i) <==>
      i < |s| && (if e.Lit? then s[i] == e.c else InClass(e.cl, s[i])) && MatchAt(p, s, i + 1)
  {
    assert ([e] + p)[1..] == p;
  }

  /** `Many(cl)` in front: the rest matches after some run of class characters. */
  lemma {:induction false} MatchMany(cl: CharClass, p: Pattern, s: string, i: nat)
    requires i <= |s|
    ensures MatchAt([Many(cl)] + p, s, i) <==>
      exists k: nat :: i <= k <= |s| && AllIn(cl, s, i, k) && MatchAt(p, s, k)
    decreases |s| - i
  {
    var q := [Many(cl)] + p;
    assert q[0] == Many(cl) && q[1..] == p;
    if MatchAt(q, s, i) {
      if !MatchAt(p, s, i) {
        MatchMany(cl, p, s, i + 1);
        var k: nat :| i + 1 <= k <= |s| && AllIn(cl, s, i + 1, k) && MatchAt(p, s, k);
        assert AllIn(cl, s, i, k);
      } else {
        assert AllIn(cl, s, i, i);
      }
    }
    if exists k: nat :: i <= k <= |s| && AllIn(cl, s, i, k) && MatchAt(p, s, k) {
      var k: nat :| i <= k <= |s| && AllIn(cl, s, i, k) && MatchAt(p, s, k);
      if k > i {
        assert InClass(cl, s[i]);
        assert AllIn(cl, s, i + 1, k);
        MatchMany(cl, p, s, i + 1);
      }
    }
  }

  /** `Boundary` in front: the rest matches at the same position, which must be a boundary. */
  lemma BoundaryStep(p: Pattern, s: string, i: nat)
    requires i <= |s|
    ensures MatchAt([Boundary] + p, s, i) <==> IsBoundary(s, i) && MatchAt(p, s, i)
  {
    assert ([Boundary] + p)[1..] == p;
  }

  /** Every character of `w` is in class `cl` (a string `Many(cl)` can consume). */
  predicate IsRun(cl: CharClass, w: string)
  {
    forall m :: 0 <= m < |w| ==> InClass(cl, w[m])
  }

  /** A string occurs at `i` followed by another exactly when their concatenation occurs there. */
  lemma OccursSplit(s: string, a: string, r: string, i: nat)
    ensures OccursAt(s, a + r, i) <==> OccursAt(s, a, i) && OccursAt(s, r, i + |a|)
  {
    if i + |a| + |r| <= |s| {
      assert s[i..i + |a| + |r|] == s[i..i + |a|] + s[i + |a|..i + |a| + |r|];
      if s[i..i + |a| + |r|] == a + r {
        assert s[i..i + |a|] == (a + r)[..|a|];
        assert s[i + |a|..i + |a| + |r|] == (a + r)[|a|..];
      }
    }
  }

  /** `Many(cl)` in front, with the run it consumes named as a string. */
  lemma ManyRun(cl: CharClass, p: Pattern, s: string, i: nat)
    requires i <= |s|
    ensures MatchAt([Many(cl)] + p, s, i) <==>
      exists k: nat :: i <= k <= |s| && IsRun(cl, s[i..k]) && OccursAt(s, s[i..k], i) && MatchAt(p, s, k)
  {
    MatchMany(cl, p, s, i);
    forall k: nat | i <= k <= |s|
      ensures AllIn(cl, s, i, k) <==> IsRun(cl, s[i..k])
    {
      assert forall m :: i <= m < k ==> s[i..k][m - i] == s[m];
    }
  }

  /** A run of class characters that occurs at `i` can be consumed by `Many(cl)`. */
  lemma RunMatches(cl: CharClass, w: string, p: Pattern, s: string, i: nat)
    requires OccursAt(s, w, i) && IsRun(cl, w)
    requires MatchAt(p, s, i + |w|)
    ensures MatchAt([Many(cl)] + p, s, i)
  {
    ManyRun(cl, p, s, i);
    assert s[i..i + |w|] == w;
  }

  /** `w0\s*w1\s*...wn\s*` followed by `tail`: literal words, each followed by optional white space. */
  function Spaced(words: seq<string>, tail: Pattern): Pattern
    decreases |words|
  {
    if |words| == 0 then tail
    else Lits(words[0]) + ([Many(Space)] + Spaced(words[1..], tail))
  }

  /** The words with the run `runs[k]` written after `words[k]`. */
  function SpacedText(words: seq<string>, runs: seq<string>): string
    requires |runs| == |words|
    decreases |words|
  {
    if |words| == 0 then ""
    else words[0] + (runs[0] + SpacedText(words[1..], runs[1..]))
  }

  /** Every string in `runs` is white space. */
  predicate SpaceRuns(runs: seq<string>)
  {
    forall k :: 0 <= k < |runs| ==> IsRun(Space, runs[k])
  }

  /** Words separated by white-space runs, then a match of `tail`, match `Spaced(words, tail)`. */
  lemma {:induction false} SpacedMatches(words: seq<string>, runs: seq<string>, tail: Pattern, s: string, i: nat)
    requires |runs| == |words| && SpaceRuns(runs)
    requires OccursAt(s, SpacedText(words, runs), i)
    requires MatchAt(tail, s, i + |SpacedText(words, runs)|)
    ensures MatchAt(Spaced(words, tail), s, i)
    decreases |words|
  {
    if |words| > 0 {
      var rest := SpacedText(words[1..], runs[1..]);
      var j := i + |words[0]|;
      OccursSplit(s, words[0], runs[0] + rest, i);
      OccursSplit(s, runs[0], rest, j);
      assert SpaceRuns(runs[1..]) by {
        assert forall k :: 0 <= k < |runs[1..]| ==> runs[1..][k] == runs[k + 1];
      }
      SpacedMatches(words[1..], runs[1..], tail, s, j + |runs[0]|);
      RunMatches(Space, runs[0], Spaced(words[1..], tail), s, j);
      MatchLits(words[0], [Many(Space)] + Spaced(words[1..], tail), s, i);
    }
  }

  /** A match of `Spaced(words, tail)` is the words separated by some white-space runs, then a match of `tail`. */
  lemma {:induction false} SpacedMatchIsText(words: seq<string>, tail: Pattern, s: string, i: nat)
    requires i <= |s| && MatchAt(Spaced(words, tail), s, i)
    ensures exists runs :: (|runs| == |words| && SpaceRuns(runs)
      && OccursAt(s, SpacedText(words, runs), i)
      && MatchAt(tail, s, i + |SpacedText(words, runs)|))
    decreases |words|
  {
    if |words| == 0 {
      var runs: seq<string> := [];
      assert SpacedText(words, runs) == "";
      assert OccursAt(s, SpacedText(words, runs), i);
      assert SpaceRuns(runs);
    } else {
      var after := [Many(Space)] + Spaced(words[1..], tail);
      MatchLits(words[0], after, s, i);
      var j := i + |words[0]|;
      ManyRun(Space, Spaced(words[1..], tail), s, j);
      var k: nat :| j <= k <= |s| && IsRun(Space, s[j..k]) && MatchAt(Spaced(words[1..], tail), s, k);
      SpacedMatchIsText(words[1..], tail, s, k);
      var more :| |more| == |words[1..]| && SpaceRuns(more)
        && OccursAt(s, SpacedText(words[1..], more), k)
        && MatchAt(tail, s, k + |SpacedText(words[1..], more)|);
      SpacedCons(words, more, tail, s, i, k);
    }
  }

  /** One more word and run in front of a spaced text that is followed by a match of `tail`. */
  lemma SpacedCons(words: seq<string>, more: seq<string>, tail: Pattern, s: string, i: nat, k: nat)
    requires |words| > 0 && |more| == |words| - 1 && SpaceRuns(more)
    requires i + |words[0]| <= k <= |s|
    requires OccursAt(s, words[0], i) && IsRun(Space, s[i + |words[0]|..k])
    requires OccursAt(s, SpacedText(words[1..], more), k)
    requires MatchAt(tail, s, k + |SpacedText(words[1..], more)|)
    ensures var runs := [s[i + |words[0]|..k]] + more;
      |runs| == |words| && SpaceRuns(runs) && OccursAt(s, SpacedText(words, runs), i)
      && MatchAt(tail, s, i + |SpacedText(words, runs)|)
  {
    var j := i + |words[0]|;
    var run := s[j..k];
    var runs := [run] + more;
    var rest := SpacedText(words[1..], more);
    assert runs[0] == run && runs[1..] == more;
    assert SpaceRuns(runs) by {
      assert forall m :: 1 <= m < |runs| ==> runs[m] == more[m - 1];
    }
    assert SpacedText(words, runs) == words[0] + (run + rest);
    assert OccursAt(s, run, j);
    OccursSplit(s, run, rest, j);
    OccursSplit(s, words[0], run + rest, i);
  }

  /** `Optional(alts)` in front: the rest matches here, or after one of the alternatives. */
  lemma OptionalStep(alts: seq<string>, p: Pattern, s: string, i: nat)
    requires i <= |s|
    ensures MatchAt([Optional(alts)] + p, s, i) <==>
      MatchAt(p, s, i)
      || exists k :: 0 <= k < |alts| && OccursAt(s, alts[k], i) && MatchAt(p, s, i + |alts[k]|)
  {
    assert ([Optional(alts)] + p)[1..] == p;
  }
}
