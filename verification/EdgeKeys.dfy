/** The text key under which an edge is filed, and why two edges never collide
    (packages/domain/src/dependency-graph.ts, `edgeKey`). */
module EdgeKeys {
  import opened TicketKey
  import opened Dependencies

  const NUL := '\0'

  /** The three fields of an edge, separated by NUL. */
  function EdgeKey(e: Dependency): string {
    e.ticket + [NUL] + e.dependsOn + [NUL] + e.kind
  }

  function Nuls(s: string): nat {
    if s == "" then 0 else (if s[0] == NUL then 1 else 0) + Nuls(s[1..])
  }

  lemma {:induction false} NulsConcat(a: string, b: string)
    ensures Nuls(a + b) == Nuls(a) + Nuls(b)
  {
    if a == "" {
      assert a + b == b;
    } else {
      assert (a + b)[1..] == a[1..] + b;
      NulsConcat(a[1..], b);
    }
  }

  lemma {:induction false} NulsZero(s: string)
    ensures Nuls(s) == 0 <==> NUL !in s
  {
    if s != "" {
      NulsZero(s[1..]);
      assert s == [s[0]] + s[1..];
    }
  }

  lemma NulsOfKey(e: Dependency)
    ensures Nuls(EdgeKey(e)) == Nuls(e.ticket) + Nuls(e.dependsOn) + Nuls(e.kind) + 2
  {
    NulsConcat(e.ticket + [NUL] + e.dependsOn + [NUL], e.kind);
    NulsConcat(e.ticket + [NUL] + e.dependsOn, [NUL]);
    NulsConcat(e.ticket + [NUL], e.dependsOn);
    NulsConcat(e.ticket, [NUL]);
    assert Nuls([NUL]) == 1;
  }

  /** The text before the first NUL, and what follows it, are determined by the whole. */
  lemma FirstField(a: string, x: string, b: string, y: string)
    requires NUL !in a && NUL !in b && a + [NUL] + x == b + [NUL] + y
    ensures a == b && x == y
  {
    var s, t := a + [NUL] + x, b + [NUL] + y;
    assert |a| == |b| by {
      assert s[|a|] == NUL && t[|b|] == NUL;
    }
    assert a == s[..|a|] && b == t[..|b|];
    assert x == s[|a| + 1..] && y == t[|b| + 1..];
  }

  /** Counting separators: an edge with the key of a NUL-free edge is NUL-free. */
  lemma SameNuls(a: Dependency, b: Dependency)
    requires EdgeKey(a) == EdgeKey(b)
    requires NUL !in a.ticket && NUL !in a.dependsOn && NUL !in a.kind
    ensures NUL !in b.ticket && NUL !in b.dependsOn && NUL !in b.kind
  {
    NulsOfKey(a);
    NulsOfKey(b);
    NulsZero(a.ticket);
    NulsZero(a.dependsOn);
    NulsZero(a.kind);
    NulsZero(b.ticket);
    NulsZero(b.dependsOn);
    NulsZero(b.kind);
  }

  /** A well-formed edge shares its key with no other edge, however the other is spelt. */
  lemma EdgeKeyInjective(a: Dependency, b: Dependency)
    requires WellFormed(a) && EdgeKey(a) == EdgeKey(b)
    ensures a == b
  {
    assert NUL !in a.ticket && NUL !in a.dependsOn && NUL !in a.kind by {
      ParsedHasNo(a.ticket, NUL);
      ParsedHasNo(a.dependsOn, NUL);
      assert a.kind == BLOCKS || a.kind == RELATED;
    }
    SameNuls(a, b);
    var x, y := a.dependsOn + [NUL] + a.kind, b.dependsOn + [NUL] + b.kind;
    assert EdgeKey(a) == a.ticket + [NUL] + x && EdgeKey(b) == b.ticket + [NUL] + y;
    FirstField(a.ticket, x, b.ticket, y);
    FirstField(a.dependsOn, a.kind, b.dependsOn, b.kind);
  }
}
