/** Stable sorting of a list by a strict order, standing for the built-in array sort. */
module Sorting {
  /** Puts `x` behind everything it does not strictly precede. */
  function Insert<T>(lt: (T, T) -> bool, s: seq<T>, x: T): seq<T> {
    if s == [] then [x]
    else if lt(x, s[|s| - 1]) then Insert(lt, s[..|s| - 1], x) + [s[|s| - 1]]
    else s + [x]
  }

  function SortBy<T>(lt: (T, T) -> bool, s: seq<T>): seq<T> {
    if s == [] then [] else Insert(lt, SortBy(lt, s[..|s| - 1]), s[|s| - 1])
  }

  ghost predicate StrictOrder<T(!new)>(lt: (T, T) -> bool) {
    && (forall a :: !lt(a, a))
    && (forall a, b, c :: lt(a, b) && lt(b, c) ==> lt(a, c))
    && (forall a, b, c :: !lt(a, b) && !lt(b, c) ==> !lt(a, c))
  }

  /** No element strictly precedes an earlier one. */
  ghost predicate SortedBy<T>(lt: (T, T) -> bool, s: seq<T>) {
    forall i, j :: 0 <= i < j < |s| ==> !lt(s[j], s[i])
  }

  lemma {:induction false} InsertIsPermutation<T>(lt: (T, T) -> bool, s: seq<T>, x: T)
    ensures multiset(Insert(lt, s, x)) == multiset(s) + multiset{x}
  {
    if s != [] {
      assert s == s[..|s| - 1] + [s[|s| - 1]];
      InsertIsPermutation(lt, s[..|s| - 1], x);
    }
  }

  lemma {:induction false} SortIsPermutation<T>(lt: (T, T) -> bool, s: seq<T>)
    ensures multiset(SortBy(lt, s)) == multiset(s)
  {
    if s != [] {
      assert s == s[..|s| - 1] + [s[|s| - 1]];
      SortIsPermutation(lt, s[..|s| - 1]);
      InsertIsPermutation(lt, SortBy(lt, s[..|s| - 1]), s[|s| - 1]);
    }
  }

  lemma SameMembers<T>(a: seq<T>, b: seq<T>)
    requires multiset(a) == multiset(b)
    ensures forall x :: x in a <==> x in b
    ensures |a| == |b|
  {
    assert forall x :: x in a <==> x in multiset(a);
    assert forall x :: x in b <==> x in multiset(b);
    assert |a| == |multiset(a)| && |b| == |multiset(b)|;
  }

  ghost predicate DistinctBy<T, K>(key: T -> K, s: seq<T>) {
    forall i, j :: 0 <= i < j < |s| ==> key(s[i]) != key(s[j])
  }

  lemma CountAt<T>(s: seq<T>, i: nat)
    requires i < |s|
    ensures multiset(s)[s[i]] == multiset(s[..i])[s[i]] + 1 + multiset(s[i + 1..])[s[i]]
  {
    assert s == s[..i] + [s[i]] + s[i + 1..];
  }

  /** Keys that are distinct in a list are distinct in every permutation of it. */
  lemma PermutationKeepsDistinct<T, K>(key: T -> K, a: seq<T>, b: seq<T>)
    requires DistinctBy(key, a) && multiset(a) == multiset(b)
    ensures DistinctBy(key, b)
  {
    SameMembers(a, b);
    forall i, j | 0 <= i < j < |b| ensures key(b[i]) != key(b[j]) {
      assert b[i] in a && b[j] in a;
      var k :| 0 <= k < |a| && a[k] == b[i];
      CountAt(a, k);
      CountAt(b, j);
      assert a[k] !in a[..k] && a[k] !in a[k + 1..];
      assert b[i] in b[..j];
    }
  }

  lemma {:induction false} InsertKeepsSorted<T(!new)>(lt: (T, T) -> bool, s: seq<T>, x: T)
    requires StrictOrder(lt) && SortedBy(lt, s)
    ensures SortedBy(lt, Insert(lt, s, x))
  {
    if s != [] && lt(x, s[|s| - 1]) {
      var front, last := s[..|s| - 1], s[|s| - 1];
      InsertKeepsSorted(lt, front, x);
      InsertIsPermutation(lt, front, x);
      var r := Insert(lt, front, x);
      forall i | 0 <= i < |r| ensures !lt(last, r[i]) {
        assert r[i] in multiset(r) && (r[i] == x || r[i] in multiset(front));
      }
    } else if s != [] {
      var last := s[|s| - 1];
      forall i | 0 <= i < |s| ensures !lt(x, s[i]) {
        assert i < |s| - 1 ==> !lt(last, s[i]);
      }
    }
  }

  lemma {:induction false} SortIsSorted<T(!new)>(lt: (T, T) -> bool, s: seq<T>)
    requires StrictOrder(lt)
    ensures SortedBy(lt, SortBy(lt, s))
  {
    if s != [] {
      SortIsSorted(lt, s[..|s| - 1]);
      InsertKeepsSorted(lt, SortBy(lt, s[..|s| - 1]), s[|s| - 1]);
    }
  }

  /** The order tells any two different elements of `s` apart. */
  ghost predicate Separates<T>(lt: (T, T) -> bool, s: seq<T>) {
    forall x, y :: x in s && y in s && x != y ==> lt(x, y) || lt(y, x)
  }

  lemma HeadIsLeast<T>(lt: (T, T) -> bool, a: seq<T>, x: T)
    requires SortedBy(lt, a) && Separates(lt, a) && x in a
    ensures x == a[0] || lt(a[0], x)
  {
  }

  lemma SameHead<T(!new)>(lt: (T, T) -> bool, a: seq<T>, b: seq<T>)
    requires StrictOrder(lt) && SortedBy(lt, a) && SortedBy(lt, b) && Separates(lt, a)
    requires a != [] && multiset(a) == multiset(b)
    ensures b != [] && a[0] == b[0]
    ensures multiset(a[1..]) == multiset(b[1..])
  {
    SameMembers(a, b);
    assert a[0] in b && b[0] in a;
    HeadIsLeast(lt, a, b[0]);
    HeadIsLeast(lt, b, a[0]);
    assert a == [a[0]] + a[1..] && b == [b[0]] + b[1..];
    assert multiset(a[1..]) == multiset(a) - multiset{a[0]};
    assert multiset(b[1..]) == multiset(b) - multiset{b[0]};
  }

  /** Sorted lists of the same elements are equal when the order separates all the elements. */
  lemma {:induction false} SortedIsUnique<T(!new)>(lt: (T, T) -> bool, a: seq<T>, b: seq<T>)
    requires StrictOrder(lt) && SortedBy(lt, a) && SortedBy(lt, b) && multiset(a) == multiset(b)
    requires Separates(lt, a)
    ensures a == b
    decreases |a|
  {
    hide StrictOrder;
    SameMembers(a, b);
    if a != [] {
      SameHead(lt, a, b);
      assert Separates(lt, a[1..]);
      SortedIsUnique(lt, a[1..], b[1..]);
      assert a == [a[0]] + a[1..] && b == [b[0]] + b[1..];
    }
  }

  function Filter<T>(keep: T -> bool, s: seq<T>): seq<T> {
    if s == [] then [] else (if keep(s[0]) then [s[0]] else []) + Filter(keep, s[1..])
  }

  lemma {:induction false} FilterMember<T>(keep: T -> bool, s: seq<T>, x: T)
    ensures x in Filter(keep, s) <==> x in s && keep(x)
  {
    if s != [] {
      FilterMember(keep, s[1..], x);
      assert s == [s[0]] + s[1..];
    }
  }

  lemma {:induction false} FilterAppend<T>(keep: T -> bool, s: seq<T>, x: T)
    ensures Filter(keep, s + [x]) == Filter(keep, s) + if keep(x) then [x] else []
  {
    if s != [] {
      assert (s + [x])[1..] == s[1..] + [x];
      FilterAppend(keep, s[1..], x);
    } else {
      assert [x][1..] == [];
    }
  }

  /** A test and its negation split a list without losing or doubling anything. */
  lemma {:induction false} FilterSplits<T(!new)>(keep: T -> bool, drop: T -> bool, s: seq<T>)
    requires forall x :: drop(x) <==> !keep(x)
    ensures multiset(Filter(keep, s)) + multiset(Filter(drop, s)) == multiset(s)
  {
    if s != [] {
      FilterSplits(keep, drop, s[1..]);
      assert s == [s[0]] + s[1..];
    }
  }

  lemma {:induction false} FilterSorted<T>(lt: (T, T) -> bool, keep: T -> bool, s: seq<T>)
    requires SortedBy(lt, s)
    ensures SortedBy(lt, Filter(keep, s))
  {
    if s != [] {
      FilterSorted(lt, keep, s[1..]);
      var r := Filter(keep, s);
      var rest := Filter(keep, s[1..]);
      forall i, j | 0 <= i < j < |r| ensures !lt(r[j], r[i]) {
        if keep(s[0]) && i == 0 {
          var x := rest[j - 1];
          FilterMember(keep, s[1..], x);
          var k :| 0 <= k < |s[1..]| && s[1..][k] == x;
          assert !lt(s[k + 1], s[0]);
        }
      }
    }
  }
}
