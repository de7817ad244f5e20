/** Path normalisation and path patterns (packages/rules/src/scope-match.ts). */
module ScopeMatch {
  import opened Common
  import opened Wildcards

  const DOT := "."
  const PARENT := ".."

  /** Pieces between slashes. */
  function Split(s: string): (r: seq<string>)
    ensures r != []
  {
    if s == "" then [""]
    else if s[0] == '/' then [""] + Split(s[1..])
    else var r := Split(s[1..]); [[s[0]] + r[0]] + r[1..]
  }

  function Join(segments: seq<string>): string
    requires segments != []
  {
    if |segments| == 1 then segments[0] else segments[0] + "/" + Join(segments[1..])
  }

  /** Pieces that name something: empty ones and `.` are dropped. */
  function Named(pieces: seq<string>): seq<string> {
    if pieces == [] then []
    else (if pieces[0] == "" || pieces[0] == DOT then [] else [pieces[0]]) + Named(pieces[1..])
  }

  function SegmentsOf(path: string): seq<string> { Named(Split(path)) }

  /** Nothing for an absolute path, a backslash, a NUL or a `..` segment. */
  function NormalizePath(path: string): Option<string> {
    if '\\' in path || '\0' in path || (path != "" && path[0] == '/') then None
    else if PARENT in SegmentsOf(path) then None
    else Some(if SegmentsOf(path) == [] then DOT else Join(SegmentsOf(path)))
  }

  /** The meaning of a pattern: with a wildcard it globs the whole path, without one it covers the path
      and everything below it; an invalid pattern or path never matches. */
  predicate Covers(pattern: string, path: string) {
    var p := if pattern == "" then None else NormalizePath(pattern);
    var q := NormalizePath(path);
    && p.Some? && q.Some?
    && if STAR in pattern then GlobPath(SegmentsOf(p.value), SegmentsOf(q.value))
       else SegmentsOf(p.value) <= SegmentsOf(q.value)
  }

  predicate CoversAny(patterns: seq<string>, path: string) {
    exists i :: 0 <= i < |patterns| && Covers(patterns[i], path)
  }

  method MatchesPath(pattern: string, path: string) returns (matched: bool)
    ensures matched <==> Covers(pattern, path)
  {
    hide NormalizePath, SegmentsOf, GlobPath;
    if pattern == "" || NormalizePath(pattern).None? || NormalizePath(path).None? {
      return false;
    }
    var p, q := SegmentsOf(NormalizePath(pattern).value), SegmentsOf(NormalizePath(path).value);
    if STAR in pattern {
      matched := MatchSegments(p, q);
      return;
    }
    for i := 0 to |p|
      invariant i <= |q| && p[..i] == q[..i]
    {
      if i >= |q| || p[i] != q[i] {
        return false;
      }
    }
    matched := true;
  }

  predicate NoSlash(s: string) { '/' !in s }

  /** Segments as they come out of a path: none empty, none `.`, none with a slash. */
  predicate Clean(segments: seq<string>) {
    forall i :: 0 <= i < |segments| ==> segments[i] != "" && segments[i] != DOT && NoSlash(segments[i])
  }

  lemma {:induction false} SplitConcat(a: string, b: string)
    requires NoSlash(a)
    ensures Split(a + "/" + b) == [a] + Split(b) && Split(a) == [a]
  {
    var s := a + "/" + b;
    if a == "" {
      assert s[1..] == b;
    } else {
      assert s[1..] == a[1..] + "/" + b && a == [a[0]] + a[1..];
      SplitConcat(a[1..], b);
    }
  }

  lemma {:induction false} SplitJoin(segments: seq<string>)
    requires segments != [] && Clean(segments)
    ensures Split(Join(segments)) == segments
  {
    if |segments| == 1 {
      SplitConcat(segments[0], "");
    } else {
      SplitJoin(segments[1..]);
      SplitConcat(segments[0], Join(segments[1..]));
    }
  }

  lemma {:induction false} NamedKeepsClean(segments: seq<string>)
    requires Clean(segments)
    ensures Named(segments) == segments
  {
    if segments != [] {
      NamedKeepsClean(segments[1..]);
    }
  }

  lemma {:induction false} SplitHasNoSlash(s: string)
    ensures forall i :: 0 <= i < |Split(s)| ==> NoSlash(Split(s)[i])
  {
    if s != "" {
      SplitHasNoSlash(s[1..]);
    }
  }

  lemma {:induction false} NamedIsClean(pieces: seq<string>)
    requires forall i :: 0 <= i < |pieces| ==> NoSlash(pieces[i])
    ensures Clean(Named(pieces))
  {
    if pieces != [] {
      NamedIsClean(pieces[1..]);
    }
  }

  lemma {:induction false} SegmentsAreClean(path: string)
    ensures Clean(SegmentsOf(path))
  {
    SplitHasNoSlash(path);
    NamedIsClean(Split(path));
  }

  ghost predicate SomeHas(pieces: seq<string>, c: char) {
    exists i :: 0 <= i < |pieces| && c in pieces[i]
  }

  /** Splitting and joining neither invent nor lose a character other than the slash. */
  lemma {:induction false} SplitChars(s: string, c: char)
    requires c != '/'
    ensures c in s <==> SomeHas(Split(s), c)
  {
    if s != "" {
      var rest := Split(s[1..]);
      SplitChars(s[1..], c);
      assert s == [s[0]] + s[1..];
      if s[0] == '/' {
        assert forall i :: 0 <= i < |rest| ==> Split(s)[i + 1] == rest[i];
        if SomeHas(rest, c) { var i :| 0 <= i < |rest| && c in rest[i]; assert c in Split(s)[i + 1]; }
      } else {
        assert Split(s)[0] == [s[0]] + rest[0];
        assert forall i :: 1 <= i < |rest| ==> Split(s)[i] == rest[i];
        if SomeHas(rest, c) { var i :| 0 <= i < |rest| && c in rest[i]; assert c in Split(s)[i]; }
        if s[0] == c { assert c in Split(s)[0]; }
      }
    } else {
      assert Split(s)[0] == "";
    }
  }

  lemma {:induction false} NamedChars(pieces: seq<string>, c: char)
    requires c != '.'
    ensures SomeHas(Named(pieces), c) <==> SomeHas(pieces, c)
  {
    if pieces != [] {
      var front, rest := Named([pieces[0]]), Named(pieces[1..]);
      NamedChars(pieces[1..], c);
      assert pieces == [pieces[0]] + pieces[1..];
      if SomeHas(rest, c) {
        var i :| 0 <= i < |rest| && c in rest[i];
        assert Named(pieces)[|Named(pieces)| - |rest| + i] == rest[i];
      }
      if SomeHas(pieces, c) && c in pieces[0] { assert Named(pieces)[0] == pieces[0]; }
      if i :| 0 <= i < |Named(pieces)| && c in Named(pieces)[i] && !(c in pieces[0]) {
        assert Named(pieces)[i] == rest[i - (|Named(pieces)| - |rest|)];
      }
    }
  }

  lemma PathChars(path: string, c: char)
    requires c != '/' && c != '.'
    ensures c in path <==> SomeHas(SegmentsOf(path), c)
  {
    SplitChars(path, c);
    NamedChars(Split(path), c);
  }

  /** A normalised path has the same segments, stays as it is when normalised again, and has a
      wildcard exactly when the original has. */
  lemma NormalForm(path: string)
    requires NormalizePath(path).Some?
    ensures var n := NormalizePath(path).value;
            n != "" && SegmentsOf(n) == SegmentsOf(path) && NormalizePath(n) == Some(n) && (STAR in n <==> STAR in path)
  {
    var segments, n := SegmentsOf(path), NormalizePath(path).value;
    SegmentsAreClean(path);
    if segments == [] {
      assert Split(DOT) == [DOT] by { SplitConcat(DOT, ""); }
      PathChars(path, STAR);
    } else {
      SplitJoin(segments);
      NamedKeepsClean(segments);
      assert n[0] == segments[0][0];
      PathChars(path, STAR); PathChars(n, STAR);
      PathChars(path, '\\'); PathChars(n, '\\');
      PathChars(path, '\0'); PathChars(n, '\0');
    }
  }

  /** Normalising the pattern or the path first changes no answer. */
  lemma CoversIgnoresSpelling(pattern: string, path: string)
    requires NormalizePath(pattern).Some? && NormalizePath(path).Some? && pattern != ""
    ensures Covers(pattern, path) == Covers(NormalizePath(pattern).value, NormalizePath(path).value)
    ensures Covers(pattern, path) <==>
            if STAR in pattern then GlobPath(SegmentsOf(pattern), SegmentsOf(path))
            else SegmentsOf(pattern) <= SegmentsOf(path)
  {
    NormalForm(pattern);
    NormalForm(path);
  }

  lemma LiteralGlob(s: string, t: string)
    requires Literal(s)
    ensures Glob(s, t) <==> s == t
  {
    LiteralMatchesItself(s, "", t);
    assert s + "" == s;
  }

  lemma {:induction false} SubtreeGlob(segments: seq<string>, path: seq<string>)
    requires forall i :: 0 <= i < |segments| ==> Literal(segments[i])
    ensures GlobPath(segments + [ANY_DEPTH], path) <==> segments <= path
  {
    var pattern := segments + [ANY_DEPTH];
    if segments == [] {
      assert pattern == [ANY_DEPTH] + [];
      AnyDepthAbsorbsPrefix([], path);
      assert path[|path|..] == [];
    } else {
      assert pattern[1..] == segments[1..] + [ANY_DEPTH];
      assert segments[0] != ANY_DEPTH by { assert ANY_DEPTH[0] == STAR; }
      if path != [] {
        LiteralGlob(segments[0], path[0]);
        SubtreeGlob(segments[1..], path[1..]);
        assert segments == [segments[0]] + segments[1..] && path == [path[0]] + path[1..];
      }
    }
  }

  /** Splitting a path followed by one more segment. */
  lemma {:induction false} SplitAppend(a: string, b: string)
    requires NoSlash(b)
    ensures Split(a + "/" + b) == Split(a) + [b]
  {
    var s := a + "/" + b;
    if a == "" {
      assert s[1..] == b;
      SplitConcat(b, "");
    } else {
      assert s[1..] == a[1..] + "/" + b;
      SplitAppend(a[1..], b);
    }
  }

  lemma {:induction false} NamedAppend(pieces: seq<string>, piece: string)
    requires piece != "" && piece != DOT
    ensures Named(pieces + [piece]) == Named(pieces) + [piece]
  {
    if pieces != [] {
      assert (pieces + [piece])[1..] == pieces[1..] + [piece];
      NamedAppend(pieces[1..], piece);
    }
  }

  /** A pattern without wildcard means the same as that pattern with an any-depth segment added. */
  lemma {:induction false} PlainMeansSubtree(pattern: string, path: string)
    requires STAR !in pattern
    ensures Covers(pattern, path) <==> Covers(pattern + "/**", path)
  {
    var wide := pattern + "/**";
    if pattern != "" {
      assert wide == pattern + "/" + ANY_DEPTH;
      SplitAppend(pattern, ANY_DEPTH);
      NamedAppend(Split(pattern), ANY_DEPTH);
      assert SegmentsOf(wide) == SegmentsOf(pattern) + [ANY_DEPTH];
      assert STAR in wide by { assert wide[|pattern| + 1] == STAR; }
      assert NormalizePath(wide).Some? <==> NormalizePath(pattern).Some?;
      if NormalizePath(pattern).Some? && NormalizePath(path).Some? {
        CoversIgnoresSpelling(pattern, path);
        CoversIgnoresSpelling(wide, path);
        forall i | 0 <= i < |SegmentsOf(pattern)| ensures Literal(SegmentsOf(pattern)[i]) {
          PathChars(pattern, STAR);
          assert !SomeHas(SegmentsOf(pattern), STAR);
        }
        SubtreeGlob(SegmentsOf(pattern), SegmentsOf(path));
      }
    }
  }

  // ---------- paths as text ----------

  lemma {:induction false} SplitAtSlash(a: string, b: string)
    ensures Split(a + "/" + b) == Split(a) + Split(b)
  {
    var s := a + "/" + b;
    if a == "" {
      assert s[1..] == b;
    } else {
      assert s[0] == a[0] && s[1..] == a[1..] + "/" + b;
      SplitAtSlash(a[1..], b);
    }
  }

  lemma {:induction false} JoinAppend(a: seq<string>, b: seq<string>)
    requires a != [] && b != []
    ensures Join(a + b) == Join(a) + "/" + Join(b)
  {
    if |a| == 1 {
      assert (a + b)[1..] == b;
    } else {
      assert (a + b)[1..] == a[1..] + b;
      JoinAppend(a[1..], b);
    }
  }

  lemma {:induction false} NamedHas(pieces: seq<string>, piece: string)
    ensures piece in Named(pieces) <==> piece in pieces && piece != "" && piece != DOT
  {
    if pieces != [] {
      NamedHas(pieces[1..], piece);
      assert pieces == [pieces[0]] + pieces[1..];
    }
  }

  /** `s` is `piece` between `a` and `b`, each of them empty or set off by a slash. */
  ghost predicate IsAround(s: string, a: string, piece: string, b: string) {
    s == a + (piece + b) && (a == "" || a[|a| - 1] == '/') && (b == "" || b[0] == '/')
  }

  /** `piece` stands in `s` between slashes or ends. */
  ghost predicate StandsIn(s: string, piece: string) {
    exists a, b :: IsAround(s, a, piece, b)
  }

  lemma HeadPiece(piece: string, b: string)
    requires NoSlash(piece) && (b == "" || b[0] == '/')
    ensures Split(piece + b)[0] == piece
    ensures b != "" ==> Split(piece + b) == [piece] + Split(b[1..])
    ensures b == "" ==> Split(piece + b) == [piece]
  {
    if b == "" {
      SplitConcat(piece, "");
      assert piece + b == piece;
    } else {
      assert piece + b == piece + "/" + b[1..];
      SplitConcat(piece, b[1..]);
    }
  }

  lemma StandingPiece(s: string, a: string, piece: string, b: string)
    requires NoSlash(piece) && IsAround(s, a, piece, b)
    ensures piece in Split(s)
  {
    hide Split, NoSlash;
    var tail := piece + b;
    HeadPiece(piece, b);
    if a == "" {
      assert s == tail;
    } else {
      assert s == a[..|a| - 1] + "/" + tail;
      SplitAtSlash(a[..|a| - 1], tail);
    }
  }

  lemma AroundFirst(piece: string, b: string)
    requires b == "" || b[0] == '/'
    ensures StandsIn(piece + b, piece)
  {
    assert "" + (piece + b) == piece + b;
    assert IsAround(piece + b, "", piece, b);
  }

  lemma StandsBehind(s: string, piece: string, x: string)
    requires StandsIn(s, piece)
    ensures StandsIn(x + "/" + s, piece)
  {
    var a, b :| IsAround(s, a, piece, b);
    var c := x + "/" + a;
    assert x + "/" + s == c + (piece + b);
    assert c[|c| - 1] == '/';
    assert IsAround(x + "/" + s, c, piece, b);
  }

  function FirstSlash(s: string): (k: nat)
    ensures k <= |s| && NoSlash(s[..k]) && (k < |s| ==> s[k] == '/')
  {
    if s == "" || s[0] == '/' then 0 else FirstSlash(s[1..]) + 1
  }

  lemma {:induction false} SplitStands(s: string, piece: string)
    requires piece in Split(s)
    ensures StandsIn(s, piece)
    decreases |s|
  {
    hide Split, NoSlash, StandsIn;
    var k := FirstSlash(s);
    var x, b := s[..k], s[k..];
    assert s == x + b;
    HeadPiece(x, b);
    if piece == x {
      AroundFirst(piece, b);
    } else {
      SplitStands(b[1..], piece);
      StandsBehind(b[1..], piece, x);
      assert s == x + "/" + b[1..];
    }
  }

  /** A path is refused exactly if it holds a backslash or a NUL, is absolute, or climbs up somewhere. */
  lemma RefusedExactly(path: string)
    ensures NormalizePath(path).None? <==>
        '\\' in path || '\0' in path || "/" <= path || StandsIn(path, PARENT)
  {
    NamedHas(Split(path), PARENT);
    hide Split, Named, IsAround;
    if StandsIn(path, PARENT) {
      var a, b :| IsAround(path, a, PARENT, b);
      StandingPiece(path, a, PARENT, b);
    }
    if PARENT in Split(path) {
      SplitStands(path, PARENT);
    }
  }

  lemma PrefixOfSegments(s: seq<string>, t: seq<string>)
    requires s != [] && t != [] && Clean(s) && Clean(t)
    ensures Join(t) == Join(s) || Join(s) + "/" <= Join(t) <==> s <= t
  {
    var p, q := Join(s), Join(t);
    SplitJoin(s);
    SplitJoin(t);
    hide Join, Split, Clean;
    if p + "/" <= q {
      var rest := q[|p| + 1..];
      assert q == p + "/" + rest;
      SplitAtSlash(p, rest);
      assert t == s + Split(rest);
    }
    if s <= t && s != t {
      var more := t[|s|..];
      assert t == s + more && more != [];
      JoinAppend(s, more);
      assert (p + "/") + Join(more) == q;
    }
  }

  /** Of two paths in normal form, one text is the other or is followed in it by a slash exactly if its segments
      are the first of the other's. */
  lemma PrefixMeansSegments(p: string, q: string)
    requires NormalizePath(p) == Some(p) && NormalizePath(q) == Some(q)
    ensures p == DOT || q == p || p + "/" <= q <==> SegmentsOf(p) <= SegmentsOf(q)
  {
    SegmentsAreClean(p);
    SegmentsAreClean(q);
    SplitConcat(DOT, "");
    hide Split, Join;
    var s, t := SegmentsOf(p), SegmentsOf(q);
    assert SegmentsOf(DOT) == [];
    if s != [] && t != [] {
      PrefixOfSegments(s, t);
    }
  }
}
