/** `*` inside one segment and `**` across segments: the plain recursive meaning, and the two loops
    that compute it (packages/rules/src/scope-match.ts, `matchSegment` and `matchSegments`). */
module Wildcards {
  const STAR := '*'
  const ANY_DEPTH := "**"

  /** `*` stands for any run of characters, every other character for itself. */
  predicate Glob(pattern: string, text: string)
    decreases |pattern| + |text|
  {
    if pattern == "" then text == ""
    else if pattern[0] == STAR then Glob(pattern[1..], text) || (text != "" && Glob(pattern, text[1..]))
    else text != "" && pattern[0] == text[0] && Glob(pattern[1..], text[1..])
  }

  /** A segment `**` stands for any number of segments, every other segment for one that it globs. */
  predicate GlobPath(pattern: seq<string>, path: seq<string>)
    decreases |pattern| + |path|
  {
    if pattern == [] then path == []
    else if pattern[0] == ANY_DEPTH then GlobPath(pattern[1..], path) || (path != [] && GlobPath(pattern, path[1..]))
    else path != [] && Glob(pattern[0], path[0]) && GlobPath(pattern[1..], path[1..])
  }

  /** What the leading star absorbs is some prefix of the text. */
  lemma {:induction false} StarAbsorbsPrefix(rest: string, text: string)
    ensures Glob([STAR] + rest, text) <==> exists k :: 0 <= k <= |text| && Glob(rest, text[k..])
  {
    var pattern := [STAR] + rest;
    assert pattern[1..] == rest && text[0..] == text;
    if text != "" {
      StarAbsorbsPrefix(rest, text[1..]);
      if Glob(pattern, text) && !Glob(rest, text) {
        var k :| 0 <= k <= |text[1..]| && Glob(rest, text[1..][k..]);
        assert text[1..][k..] == text[k + 1..];
      }
      if k :| 0 < k <= |text| && Glob(rest, text[k..]) {
        assert text[1..][k - 1..] == text[k..];
      }
    }
  }

  /** A star may always absorb more. */
  lemma StarAbsorbsMore(rest: string, text: string, k: nat)
    requires k <= |text| && Glob([STAR] + rest, text[k..])
    ensures Glob([STAR] + rest, text)
  {
    StarAbsorbsPrefix(rest, text[k..]);
    var j :| 0 <= j <= |text[k..]| && Glob(rest, text[k..][j..]);
    assert text[k..][j..] == text[k + j..];
    StarAbsorbsPrefix(rest, text);
  }

  predicate Literal(s: string) { STAR !in s }

  /** A star-free beginning matches exactly itself. */
  lemma {:induction false} LiteralMatchesItself(lit: string, rest: string, text: string)
    requires Literal(lit)
    ensures Glob(lit + rest, text) <==> lit <= text && Glob(rest, text[|lit|..])
  {
    if lit == "" {
      assert lit + rest == rest && text[0..] == text;
    } else if text != "" {
      assert (lit + rest)[1..] == lit[1..] + rest;
      LiteralMatchesItself(lit[1..], rest, text[1..]);
      assert lit[0] == text[0] && lit[1..] <= text[1..] ==> lit <= text;
      assert lit <= text ==> text[1..][|lit| - 1..] == text[|lit|..];
    }
  }

  /** The greedy step: once the literal between two stars has been found at its earliest place, the
      first star need never be reconsidered. */
  lemma {:induction false} EarliestIsEnough(lit: string, rest: string, text: string)
    requires Literal(lit) && lit <= text
    ensures Glob([STAR] + lit + [STAR] + rest, text) <==> Glob([STAR] + rest, text[|lit|..])
  {
    var tail := [STAR] + rest;
    assert [STAR] + lit + [STAR] + rest == [STAR] + (lit + tail);
    StarAbsorbsPrefix(lit + tail, text);
    if k :| 0 <= k <= |text| && Glob(lit + tail, text[k..]) {
      LiteralMatchesItself(lit, tail, text[k..]);
      assert text[k..][|lit|..] == text[|lit|..][k..];
      StarAbsorbsMore(rest, text[|lit|..], k);
    }
    if Glob(tail, text[|lit|..]) {
      LiteralMatchesItself(lit, tail, text);
      assert text[0..] == text;
    }
  }

  /** A mismatch after the literal: the star has to absorb at least one more character. */
  lemma StarMustAdvance(lit: string, rest: string, text: string)
    requires Literal(lit) && text != "" && !Glob(lit + rest, text)
    ensures Glob([STAR] + lit + rest, text) <==> Glob([STAR] + lit + rest, text[1..])
  {
    assert ([STAR] + lit + rest)[1..] == lit + rest;
  }

  lemma {:induction false} AllStarsMatchEmpty(pattern: string)
    ensures Glob(pattern, "") <==> forall i :: 0 <= i < |pattern| ==> pattern[i] == STAR
  {
    if pattern != "" {
      AllStarsMatchEmpty(pattern[1..]);
      assert pattern == [pattern[0]] + pattern[1..];
    }
  }

  /** What is left to decide in the middle of the two-pointer scan. */
  ghost predicate Pending(pattern: string, text: string, p: nat, t: nat, star: int, resume: nat)
  {
    && p <= |pattern| && t <= |text| && resume <= t && -1 <= star < p
    && (star < 0 ==> Glob(pattern, text) == Glob(pattern[p..], text[t..]))
    && (star >= 0 ==>
        && pattern[star] == STAR
        && Literal(pattern[star + 1..p]) && pattern[star + 1..p] == text[resume..t]
        && Glob(pattern, text) == Glob(pattern[star..], text[resume..]))
  }

  lemma StepStar(pattern: string, text: string, p: nat, t: nat, star: int, resume: nat)
    requires p <= |pattern| && star < p && Pending(pattern, text, p, t, star, resume)
    requires p < |pattern| && pattern[p] == STAR
    ensures Pending(pattern, text, p + 1, t, p, t)
  {
    assert pattern[p + 1..p + 1] == text[t..t];
    if star >= 0 {
      var lit, rest := pattern[star + 1..p], pattern[p + 1..];
      assert pattern[star..] == [STAR] + lit + [STAR] + rest;
      assert pattern[p..] == [STAR] + rest;
      assert lit == text[resume..][..|lit|];
      EarliestIsEnough(lit, rest, text[resume..]);
      assert text[resume..][|lit|..] == text[t..];
    }
  }

  lemma StepSame(pattern: string, text: string, p: nat, t: nat, star: int, resume: nat)
    requires p < |pattern| && t < |text| && Pending(pattern, text, p, t, star, resume)
    requires pattern[p] != STAR && pattern[p] == text[t]
    ensures Pending(pattern, text, p + 1, t + 1, star, resume)
  {
    if star < 0 {
      assert pattern[p..][1..] == pattern[p + 1..] && text[t..][1..] == text[t + 1..];
    } else {
      assert pattern[star + 1..p + 1] == pattern[star + 1..p] + [pattern[p]];
      assert text[resume..t + 1] == text[resume..t] + [text[t]];
    }
  }

  lemma StepBack(pattern: string, text: string, p: nat, t: nat, star: int, resume: nat)
    requires t < |text| && star >= 0 && Pending(pattern, text, p, t, star, resume)
    requires p == |pattern| || (pattern[p] != STAR && pattern[p] != text[t])
    ensures Pending(pattern, text, star + 1, resume + 1, star, resume + 1)
  {
    var lit, rest, from := pattern[star + 1..p], pattern[p..], text[resume..];
    assert pattern[star..] == [STAR] + lit + rest;
    LiteralMatchesItself(lit, rest, from);
    assert from[|lit|..] == text[t..];
    StarMustAdvance(lit, rest, from);
    assert from[1..] == text[resume + 1..];
    assert pattern[star + 1..star + 1] == text[resume + 1..resume + 1];
  }

  lemma StepEnd(pattern: string, text: string, p: nat, t: nat, star: int, resume: nat)
    requires Pending(pattern, text, p, t, star, resume) && t == |text|
    ensures Glob(pattern, text) <==> Glob(pattern[p..], "")
  {
    assert text[t..] == "";
    if star >= 0 {
      var lit, rest, from := pattern[star + 1..p], pattern[p..], text[resume..];
      assert lit == from;
      assert pattern[star..] == [STAR] + (lit + rest);
      StarAbsorbsPrefix(lit + rest, from);
      LiteralMatchesItself(lit, rest, from);
      assert from[|lit|..] == "" && from[0..] == from;
      if k :| 0 <= k <= |from| && Glob(lit + rest, from[k..]) {
        LiteralMatchesItself(lit, rest, from[k..]);
        assert from[k..][|lit|..] == "";
      }
    }
  }

  /** Two pointers and one remembered star: no recursion, no other backtracking. */
  method MatchSegment(pattern: string, text: string) returns (matched: bool)
    ensures matched <==> Glob(pattern, text)
  {
    var p, t, star, resume := 0, 0, -1, 0;
    while t < |text|
      invariant 0 <= p <= |pattern| && 0 <= t && 0 <= resume && star < p
      invariant Pending(pattern, text, p, t, star, resume)
      decreases |pattern| - star, |text| - resume, |text| - t
    {
      if p < |pattern| && pattern[p] == STAR {
        StepStar(pattern, text, p, t, star, resume);
        star, resume, p := p, t, p + 1;
      } else if p < |pattern| && pattern[p] == text[t] {
        StepSame(pattern, text, p, t, star, resume);
        p, t := p + 1, t + 1;
      } else if star >= 0 {
        StepBack(pattern, text, p, t, star, resume);
        resume := resume + 1;
        p, t := star + 1, resume;
      } else {
        return false;
      }
    }
    StepEnd(pattern, text, p, t, star, resume);
    AllStarsMatchEmpty(pattern[p..]);
    while p < |pattern| && pattern[p] == STAR
      invariant 0 <= p <= |pattern|
      invariant Glob(pattern, text) <==> forall i :: p <= i < |pattern| ==> pattern[i] == STAR
    {
      p := p + 1;
    }
    matched := p == |pattern|;
  }

  /** One row of the table below: entry `j` tells whether `pattern` matches the path from `j` on. */
  ghost predicate Row(row: array<bool>, pattern: seq<string>, path: seq<string>)
    reads row
  {
    row.Length == |path| + 1 && forall j :: 0 <= j <= |path| ==> row[j] == GlobPath(pattern, path[j..])
  }

  /** The row for a pattern from the row for its tail, filled from the end of the path. */
  method NextRow(pattern: seq<string>, path: seq<string>, next: array<bool>) returns (current: array<bool>)
    requires pattern != [] && Row(next, pattern[1..], path)
    ensures Row(current, pattern, path)
  {
    var n, segment := |path|, pattern[0];
    current := new bool[n + 1](_ => false);
    var j := n + 1;
    while j > 0
      invariant 0 <= j <= n + 1 && current.Length == n + 1
      invariant Row(next, pattern[1..], path)
      invariant forall k :: j <= k <= n ==> current[k] == GlobPath(pattern, path[k..])
    {
      j := j - 1;
      assert j < n ==> path[j..][1..] == path[j + 1..];
      var matched := false;
      if segment == ANY_DEPTH {
        matched := next[j] || (j < n && current[j + 1]);
      } else if j < n && next[j + 1] {
        matched := MatchSegment(segment, path[j]);
      }
      current[j] := matched;
    }
  }

  /** Dynamic programming from the last pattern segment to the first. */
  method MatchSegments(pattern: seq<string>, path: seq<string>) returns (matched: bool)
    ensures matched <==> GlobPath(pattern, path)
  {
    var n := |path|;
    var next := new bool[n + 1](j => j == n);
    assert pattern[|pattern|..] == [];
    var i := |pattern|;
    while i > 0
      invariant 0 <= i <= |pattern| && Row(next, pattern[i..], path)
    {
      i := i - 1;
      next := NextRow(pattern[i..], path, next);
    }
    assert path[0..] == path;
    matched := next[0];
  }

  /** The leading `**` absorbs some number of segments. */
  lemma {:induction false} AnyDepthAbsorbsPrefix(rest: seq<string>, path: seq<string>)
    ensures GlobPath([ANY_DEPTH] + rest, path) <==> exists k :: 0 <= k <= |path| && GlobPath(rest, path[k..])
  {
    var pattern := [ANY_DEPTH] + rest;
    assert pattern[1..] == rest && path[0..] == path;
    if path != [] {
      AnyDepthAbsorbsPrefix(rest, path[1..]);
      if GlobPath(pattern, path) && !GlobPath(rest, path) {
        var k :| 0 <= k <= |path[1..]| && GlobPath(rest, path[1..][k..]);
        assert path[1..][k..] == path[k + 1..];
      }
      if k :| 0 < k <= |path| && GlobPath(rest, path[k..]) {
        assert path[1..][k - 1..] == path[k..];
      }
    }
  }
}
