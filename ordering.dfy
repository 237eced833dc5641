/**
 * `orderBy(col, ascending)`: Spark's default null placement puts nulls
 * last in a descending sort and first in an ascending one. Spark does not
 * fix the order among rows with equal sort keys, so the properties below
 * are proved for every permutation sorted by the key (`IsOrdering`);
 * `OrderBy` is one such permutation.
 */
module Ordering {
  import opened Wrappers
  import opened Relational

  /** May a row with sort key `a` precede a row with sort key `b`? */
  predicate Before(a: Option<real>, b: Option<real>, descending: bool) {
    if descending then (b.Some? ==> a.Some? && a.value >= b.value)
    else (a.Some? ==> b.Some? && a.value <= b.value)
  }

  predicate Sorted<T>(s: seq<T>, key: T -> Option<real>, descending: bool) {
    forall i, j :: 0 <= i < j < |s| ==> Before(key(s[i]), key(s[j]), descending)
  }

  /** `r` is a permutation of `s` sorted by `key`: one admissible result of the sort. */
  predicate IsOrdering<T(==)>(s: seq<T>, r: seq<T>, key: T -> Option<real>, descending: bool) {
    multiset(r) == multiset(s) && Sorted(r, key, descending)
  }

  predicate Distinct<T(==)>(s: seq<T>) {
    forall i, j :: 0 <= i < j < |s| ==> s[i] != s[j]
  }

  /** `Before` is a total preorder whose only ties are equal keys. */
  lemma BeforeIsTotalOrder(a: Option<real>, b: Option<real>, c: Option<real>, descending: bool)
    ensures Before(a, b, descending) || Before(b, a, descending)
    ensures Before(a, b, descending) && Before(b, c, descending) ==> Before(a, c, descending)
    ensures Before(a, b, descending) && Before(b, a, descending) ==> a == b
  {
  }

  /** Prefixing a row that may precede the first row keeps a table sorted. */
  lemma SortedCons<T>(y: T, t: seq<T>, key: T -> Option<real>, descending: bool)
    requires Sorted(t, key, descending)
    requires t == [] || Before(key(y), key(t[0]), descending)
    ensures Sorted([y] + t, key, descending)
  {
    var r := [y] + t;
    forall i, j | 0 <= i < j < |r| ensures Before(key(r[i]), key(r[j]), descending) {
      if i == 0 && j > 1 {
        BeforeIsTotalOrder(key(y), key(t[0]), key(t[j - 1]), descending);
      } else if i > 0 {
        assert r[i] == t[i - 1] && r[j] == t[j - 1];
      }
    }
  }

  function Insert<T(==)>(x: T, s: seq<T>, key: T -> Option<real>, descending: bool): (r: seq<T>)
    requires Sorted(s, key, descending)
    ensures multiset(r) == multiset(s) + multiset{x}
    ensures Sorted(r, key, descending)
    ensures r[0] == x || r[0] == s[0]
  {
    if s == [] then [x]
    else if Before(key(x), key(s[0]), descending) then
      SortedCons(x, s, key, descending);
      [x] + s
    else
      var r' := Insert(x, s[1..], key, descending);
      InsertBehindHead(x, s, r', key, descending);
      [s[0]] + r'
  }

  /** When `x` may not precede the first row, the first row stays in front. */
  lemma InsertBehindHead<T>(x: T, s: seq<T>, r': seq<T>, key: T -> Option<real>, descending: bool)
    requires s != [] && Sorted(s, key, descending) && !Before(key(x), key(s[0]), descending)
    requires multiset(r') == multiset(s[1..]) + multiset{x}
    requires Sorted(r', key, descending)
    requires r'[0] == x || r'[0] == s[1..][0]
    ensures multiset([s[0]] + r') == multiset(s) + multiset{x}
    ensures Sorted([s[0]] + r', key, descending)
  {
    assert s == [s[0]] + s[1..];
    BeforeIsTotalOrder(key(x), key(s[0]), key(s[0]), descending);
    if r'[0] != x {
      assert Before(key(s[0]), key(s[1]), descending);
    }
    SortedCons(s[0], r', key, descending);
  }

  /** An insertion sort: a permutation of `s` sorted by `key`. */
  function OrderBy<T(==)>(s: seq<T>, key: T -> Option<real>, descending: bool): (r: seq<T>)
    ensures IsOrdering(s, r, key, descending)
  {
    if s == [] then []
    else
      assert s == s[..|s| - 1] + [s[|s| - 1]];
      Insert(s[|s| - 1], OrderBy(s[..|s| - 1], key, descending), key, descending)
  }

  /**
   * `orderBy` followed by `limit(n)`: whatever order the sort picks among
   * ties, the kept rows are sorted, as many as `n` allows, and every row
   * left out may follow every row kept.
   */
  lemma LimitOrdered<T>(s: seq<T>, sorted: seq<T>, key: T -> Option<real>, descending: bool, n: nat)
    requires IsOrdering(s, sorted, key, descending)
    ensures var top := Take(sorted, n);
      && |top| == Min(n, |s|)
      && Sorted(top, key, descending)
      && multiset(top) <= multiset(s)
      && forall v, w :: v in multiset(s) - multiset(top) && w in top ==> Before(key(w), key(v), descending)
  {
    var top := Take(sorted, n);
    var rest := sorted[|top|..];
    assert sorted == top + rest;
    assert multiset(s) == multiset(top) + multiset(rest);
    assert |s| == |sorted| by {
      assert |multiset(s)| == |multiset(sorted)|;
    }
    forall v, w | v in multiset(s) - multiset(top) && w in top
      ensures Before(key(w), key(v), descending)
    {
      assert v in multiset(rest);
      var j :| 0 <= j < |rest| && rest[j] == v;
      var i :| 0 <= i < |top| && top[i] == w;
      assert sorted[i] == w && sorted[|top| + j] == v;
    }
  }

  /**
   * `orderBy`, `limit(n)` and then `select(f)` of a column that determines
   * the sort key: the same guarantees, stated on the selected column.
   */
  lemma LimitOrderedProjected<T, U>(s: seq<T>, sorted: seq<T>, key: T -> Option<real>, descending: bool,
                                           n: nat, f: T -> U, k: U -> Option<real>)
    requires IsOrdering(s, sorted, key, descending)
    requires forall t :: key(t) == k(f(t))
    ensures var top := Map(f, Take(sorted, n));
      && |top| == Min(n, |s|)
      && (forall i, j :: 0 <= i < j < |top| ==> Before(k(top[i]), k(top[j]), descending))
      && multiset(top) <= multiset(Map(f, s))
      && forall v, w :: v in multiset(Map(f, s)) - multiset(top) && w in top ==> Before(k(w), k(v), descending)
  {
    var kept := Take(sorted, n);
    var top := Map(f, kept);
    assert |s| == |sorted| by {
      assert |multiset(s)| == |multiset(sorted)|;
    }
    forall i, j | 0 <= i < j < |top| ensures Before(k(top[i]), k(top[j]), descending) {
      assert top[i] == f(sorted[i]) && top[j] == f(sorted[j]);
    }
    ProjectedSplit(f, s, sorted, |kept|);
    forall v, w | v in multiset(Map(f, s)) - multiset(top) && w in top
      ensures Before(k(w), k(v), descending)
    {
      var rest := Map(f, sorted[|kept|..]);
      assert v in multiset(rest);
      var j :| 0 <= j < |rest| && rest[j] == v;
      var i :| 0 <= i < |top| && top[i] == w;
      assert f(sorted[i]) == w && f(sorted[|kept| + j]) == v;
    }
  }

  /** The selected column of a permuted table splits into the kept prefix and the rest. */
  lemma ProjectedSplit<T, U>(f: T -> U, s: seq<T>, sorted: seq<T>, m: nat)
    requires multiset(s) == multiset(sorted) && m <= |sorted|
    ensures multiset(Map(f, sorted[..m])) <= multiset(Map(f, s))
    ensures multiset(Map(f, s)) - multiset(Map(f, sorted[..m])) == multiset(Map(f, sorted[m..]))
  {
    assert sorted == sorted[..m] + sorted[m..];
    MapPreservesPermutation(f, s, sorted);
    MapAppend(f, sorted[..m], sorted[m..]);
  }

  lemma {:induction false} DistinctAtMostOnce<T>(s: seq<T>, x: T)
    requires Distinct(s)
    ensures multiset(s)[x] <= 1
  {
    if s != [] {
      var init := s[..|s| - 1];
      assert s == init + [s[|s| - 1]];
      DistinctAtMostOnce(init, x);
      if s[|s| - 1] == x {
        assert x !in init;
      }
    }
  }

  lemma DistinctPermutation<T>(a: seq<T>, b: seq<T>)
    requires multiset(a) == multiset(b) && Distinct(a)
    ensures Distinct(b)
  {
    forall i, j | 0 <= i < j < |b| ensures b[i] != b[j] {
      if b[i] == b[j] {
        var x := b[j];
        assert b == b[..j] + [x] + b[j + 1..];
        assert x in b[..j];
        assert multiset(b)[x] >= 2;
        DistinctAtMostOnce(a, x);
        assert false;
      }
    }
  }

  /**
   * `orderBy` and `limit(n)` over rows that are pairwise distinct (as the
   * rows of a grouped table are): the kept rows are distinct input rows,
   * and each input row not kept may follow every kept row.
   */
  lemma LimitOrderedDistinct<T>(s: seq<T>, sorted: seq<T>, key: T -> Option<real>, descending: bool, n: nat)
    requires IsOrdering(s, sorted, key, descending)
    requires Distinct(s)
    ensures var top := Take(sorted, n);
      && |top| == Min(n, |s|)
      && Sorted(top, key, descending)
      && Distinct(top)
      && (forall x :: x in top ==> x in s)
      && (|s| <= n ==> forall x :: x in s ==> x in top)
      && forall x, w :: x in s && x !in top && w in top ==> Before(key(w), key(x), descending)
  {
    var top := Take(sorted, n);
    LimitOrdered(s, sorted, key, descending, n);
    DistinctPermutation(s, sorted);
    forall x | x in top ensures x in s {
      assert x in multiset(top);
    }
    if |s| <= n {
      assert top == sorted;
      forall x | x in s ensures x in top {
        assert x in multiset(sorted);
      }
    }
    forall x, w | x in s && x !in top && w in top ensures Before(key(w), key(x), descending) {
      assert x in multiset(s) - multiset(top);
    }
  }

  lemma SortedRemove<T>(b: seq<T>, j: nat, key: T -> Option<real>, descending: bool)
    requires j < |b| && Sorted(b, key, descending)
    ensures Sorted(b[..j] + b[j + 1..], key, descending)
  {
    var b' := b[..j] + b[j + 1..];
    forall i, i' | 0 <= i < i' < |b'| ensures Before(key(b'[i]), key(b'[i']), descending) {
      var bi := if i < j then i else i + 1;
      var bi' := if i' < j then i' else i' + 1;
      assert b'[i] == b[bi] && b'[i'] == b[bi'] && bi < bi';
    }
  }

  /**
   * In a sorted table whose first row and row `j` both tie with a row of
   * key `kx` that may precede every row, rows `0..j` all have key `kx`.
   */
  lemma TiedPrefix<T>(b: seq<T>, j: nat, kx: Option<real>, key: T -> Option<real>, descending: bool)
    requires j < |b| && Sorted(b, key, descending)
    requires key(b[j]) == kx
    requires Before(kx, key(b[0]), descending)
    ensures forall l :: 0 <= l <= j ==> key(b[l]) == kx
  {
    forall l | 0 <= l <= j ensures key(b[l]) == kx {
      if l > 0 {
        assert Before(key(b[0]), key(b[l]), descending);
        BeforeIsTotalOrder(kx, key(b[0]), key(b[l]), descending);
      }
      if l < j {
        assert Before(key(b[l]), key(b[j]), descending);
      }
      BeforeIsTotalOrder(kx, key(b[l]), kx, descending);
    }
  }

  /**
   * The sort keys come out in the same order whichever way ties are
   * broken: two sorted permutations of one table agree on their keys.
   */
  lemma {:induction false} SortedPermutationsAgreeOnKeys<T>(a: seq<T>, b: seq<T>, key: T -> Option<real>, descending: bool)
    requires multiset(a) == multiset(b)
    requires Sorted(a, key, descending) && Sorted(b, key, descending)
    ensures Map(key, a) == Map(key, b)
    decreases |a|
  {
    if a == [] {
      assert |b| == |multiset(b)| == 0;
    } else {
      var j := MatchHead(a, b);
      var b' := b[..j] + b[j + 1..];
      SortedRemove(b, j, key, descending);
      SortedPermutationsAgreeOnKeys(a[1..], b', key, descending);
      HeadPrecedes(a, b, key, descending);
      TiedPrefix(b, j, key(a[0]), key, descending);
      KeysAfterMove(a, b, j, key);
    }
  }

  /**
   * Without ties the sort is determined: when rows with equal keys are
   * equal, every admissible ordering is the same sequence.
   */
  lemma OrderingUnique<T>(s: seq<T>, a: seq<T>, b: seq<T>, key: T -> Option<real>, descending: bool)
    requires IsOrdering(s, a, key, descending) && IsOrdering(s, b, key, descending)
    requires forall x, y :: x in s && y in s && key(x) == key(y) ==> x == y
    ensures a == b
  {
    SortedPermutationsAgreeOnKeys(a, b, key, descending);
    assert |a| == |b| by {
      assert |multiset(a)| == |multiset(b)|;
    }
    forall i | 0 <= i < |a| ensures a[i] == b[i] {
      assert key(a[i]) == Map(key, a)[i] == Map(key, b)[i];
      assert a[i] in multiset(a) && b[i] in multiset(b);
    }
  }

  /** The first row of `a` sits at some position `j` of its permutation `b`; the rest match up. */
  lemma MatchHead<T>(a: seq<T>, b: seq<T>) returns (j: nat)
    requires a != [] && multiset(a) == multiset(b)
    ensures j < |b| && b[j] == a[0] && |a| == |b|
    ensures multiset(a[1..]) == multiset(b[..j] + b[j + 1..])
  {
    assert |a| == |multiset(a)| == |multiset(b)| == |b|;
    assert a[0] in multiset(b);
    j :| 0 <= j < |b| && b[j] == a[0];
    RemoveAt(b, j);
    assert a == [a[0]] + a[1..];
    assert multiset(a[1..]) == multiset(a) - multiset{a[0]};
  }

  /** The first row of a sorted table may precede the first row of any permutation of it. */
  lemma HeadPrecedes<T>(a: seq<T>, b: seq<T>, key: T -> Option<real>, descending: bool)
    requires a != [] && b != [] && multiset(a) == multiset(b) && Sorted(a, key, descending)
    ensures Before(key(a[0]), key(b[0]), descending)
  {
    assert b[0] in multiset(a);
    var i0 :| 0 <= i0 < |a| && a[i0] == b[0];
    if i0 > 0 {
      assert Before(key(a[0]), key(a[i0]), descending);
    } else {
      BeforeIsTotalOrder(key(a[0]), key(a[0]), key(a[0]), descending);
    }
  }

  /** Moving row `j` to the front changes no key when rows `0..j` share its key. */
  lemma KeysAfterMove<T>(a: seq<T>, b: seq<T>, j: nat, key: T -> Option<real>)
    requires 0 < |a| == |b| && j < |b|
    requires Map(key, a[1..]) == Map(key, b[..j] + b[j + 1..])
    requires forall l :: 0 <= l <= j ==> key(b[l]) == key(a[0])
    ensures Map(key, a) == Map(key, b)
  {
    var a', b' := a[1..], b[..j] + b[j + 1..];
    forall l | 0 <= l < |a| ensures Map(key, a)[l] == Map(key, b)[l] {
      if l > 0 {
        assert key(a[l]) == Map(key, a')[l - 1] == Map(key, b')[l - 1];
        if l <= j {
          assert b'[l - 1] == b[l - 1];
        } else {
          assert b'[l - 1] == b[l];
        }
      }
    }
  }
}
