/**
 * `groupBy(cols)`: the rows partitioned by the value of a grouping key.
 * Null is an ordinary key value (the key type is an `Option`), so rows
 * with null keys form groups of their own. Groups are listed in the order
 * their key first appears; Spark leaves this order open and no property
 * below depends on it.
 */
module Grouping {
  import opened Relational

  datatype Group<K, T> = Group(key: K, rows: seq<T>)

  /** The rows whose key is `k`, in their original order: one group's rows. */
  function WithKey<T, K(==)>(s: seq<T>, key: T -> K, k: K): (r: seq<T>)
    ensures |r| <= |s|
    ensures forall i :: 0 <= i < |r| ==> key(r[i]) == k && r[i] in s
    ensures r == [] <==> forall i :: 0 <= i < |s| ==> key(s[i]) != k
  {
    if s == [] then []
    else
      var init := s[..|s| - 1];
      var r := WithKey(init, key, k) + (if key(s[|s| - 1]) == k then [s[|s| - 1]] else []);
      assert r == [] ==> forall i :: 0 <= i < |s| ==> key(s[i]) != k by {
        if r == [] {
          forall i | 0 <= i < |s| ensures key(s[i]) != k {
            if i < |s| - 1 { assert s[i] == init[i]; }
          }
        }
      }
      r
  }

  /** One group's rows are the input filtered on the key. */
  lemma {:induction false} WithKeyIsFilter<T, K>(s: seq<T>, key: T -> K, k: K)
    ensures WithKey(s, key, k) == Filter(s, t => key(t) == k)
    decreases |s|
  {
    if s != [] {
      WithKeyIsFilter(s[..|s| - 1], key, k);
    }
  }

  /** A group holds each input row with its key exactly as often as the input does. */
  lemma WithKeyMultiset<T, K>(s: seq<T>, key: T -> K, k: K, x: T)
    ensures multiset(WithKey(s, key, k))[x] == if key(x) == k then multiset(s)[x] else 0
  {
    WithKeyIsFilter(s, key, k);
    FilterMultiset(s, t => key(t) == k, x);
  }

  /** The position of the group with key `k`, or `|g|` when there is none. */
  function IndexOfKey<K(==), T>(g: seq<Group<K, T>>, k: K): (i: nat)
    ensures i <= |g|
    ensures i < |g| ==> g[i].key == k
    ensures i == |g| ==> forall j :: 0 <= j < |g| ==> g[j].key != k
  {
    if g == [] then 0
    else if g[0].key == k then 0
    else 1 + IndexOfKey(g[1..], k)
  }

  /**
   * `r` partitions `s` by `key`: one group per key, no key twice, and each
   * group holds exactly the (non-empty) rows with its key.
   */
  ghost predicate IsGrouping<T, K>(s: seq<T>, key: T -> K, r: seq<Group<K, T>>) {
    && (forall i, j :: 0 <= i < j < |r| ==> r[i].key != r[j].key)
    && (forall i :: 0 <= i < |r| ==> r[i].rows == WithKey(s, key, r[i].key) && r[i].rows != [])
    && (forall i :: 0 <= i < |s| ==> exists g :: 0 <= g < |r| && r[g].key == key(s[i]))
  }

  /**
   * The groups of `s` by `key`, built in one pass: each row joins the group
   * of its key, or opens a new one.
   */
  function GroupBy<T, K(==)>(s: seq<T>, key: T -> K): (r: seq<Group<K, T>>)
    ensures IsGrouping(s, key, r)
  {
    if s == [] then []
    else
      var init, x := s[..|s| - 1], s[|s| - 1];
      var g := GroupBy(init, key);
      var i := IndexOfKey(g, key(x));
      if i < |g| then
        JoinGroup(s, key, g, i);
        g[i := Group(g[i].key, g[i].rows + [x])]
      else
        OpenGroup(s, key, g);
        g + [Group(key(x), [x])]
  }

  /** The last row of `s` joins the existing group `i` of its key. */
  lemma JoinGroup<T, K>(s: seq<T>, key: T -> K, g: seq<Group<K, T>>, i: nat)
    requires s != [] && IsGrouping(s[..|s| - 1], key, g)
    requires i < |g| && g[i].key == key(s[|s| - 1])
    ensures IsGrouping(s, key, g[i := Group(g[i].key, g[i].rows + [s[|s| - 1]])])
  {
    var x := s[|s| - 1];
    var r := g[i := Group(g[i].key, g[i].rows + [x])];
    SameKeysDistinct(g, r);
    forall m | 0 <= m < |r| ensures r[m].rows == WithKey(s, key, r[m].key) && r[m].rows != [] {
      JoinGroupRows(s, key, g, i, m);
    }
    CoverAfterSnoc(s, key, g, r, i);
  }

  /** Groups that keep the keys of distinct-keyed groups have distinct keys. */
  lemma SameKeysDistinct<K, T>(g: seq<Group<K, T>>, r: seq<Group<K, T>>)
    requires forall i, j :: 0 <= i < j < |g| ==> g[i].key != g[j].key
    requires |r| == |g| && forall m :: 0 <= m < |g| ==> r[m].key == g[m].key
    ensures forall i, j :: 0 <= i < j < |r| ==> r[i].key != r[j].key
  {
  }

  lemma JoinGroupRows<T, K>(s: seq<T>, key: T -> K, g: seq<Group<K, T>>, i: nat, m: nat)
    requires s != [] && IsGrouping(s[..|s| - 1], key, g)
    requires i < |g| && g[i].key == key(s[|s| - 1]) && m < |g|
    ensures var r := g[i := Group(g[i].key, g[i].rows + [s[|s| - 1]])];
      r[m].rows == WithKey(s, key, r[m].key) && r[m].rows != []
  {
    WithKeySnoc(s, key, g[m].key);
    if m != i {
      assert g[m].key != g[i].key by {
        if m < i { assert g[m].key != g[i].key; } else { assert g[i].key != g[m].key; }
      }
    }
  }

  /** The last row of `s` has a key no group has yet, and opens a new group. */
  lemma OpenGroup<T, K>(s: seq<T>, key: T -> K, g: seq<Group<K, T>>)
    requires s != [] && IsGrouping(s[..|s| - 1], key, g)
    requires forall j :: 0 <= j < |g| ==> g[j].key != key(s[|s| - 1])
    ensures IsGrouping(s, key, g + [Group(key(s[|s| - 1]), [s[|s| - 1]])])
  {
    var x := s[|s| - 1];
    var r := g + [Group(key(x), [x])];
    forall m | 0 <= m < |r| ensures r[m].rows == WithKey(s, key, r[m].key) && r[m].rows != [] {
      OpenGroupRows(s, key, g, m);
    }
    CoverAfterSnoc(s, key, g, r, |g|);
  }

  lemma OpenGroupRows<T, K>(s: seq<T>, key: T -> K, g: seq<Group<K, T>>, m: nat)
    requires s != [] && IsGrouping(s[..|s| - 1], key, g)
    requires forall j :: 0 <= j < |g| ==> g[j].key != key(s[|s| - 1])
    requires m <= |g|
    ensures var r := g + [Group(key(s[|s| - 1]), [s[|s| - 1]])];
      r[m].rows == WithKey(s, key, r[m].key) && r[m].rows != []
  {
    var init, x := s[..|s| - 1], s[|s| - 1];
    if m < |g| {
      WithKeySnoc(s, key, g[m].key);
    } else {
      WithKeySnoc(s, key, key(x));
      UnseenKey(init, key, g, key(x));
    }
  }

  /** A key that no group has belongs to no row. */
  lemma UnseenKey<T, K>(s: seq<T>, key: T -> K, g: seq<Group<K, T>>, k: K)
    requires IsGrouping(s, key, g)
    requires forall j :: 0 <= j < |g| ==> g[j].key != k
    ensures WithKey(s, key, k) == []
  {
    forall l | 0 <= l < |s| ensures key(s[l]) != k {
      var h :| 0 <= h < |g| && g[h].key == key(s[l]);
    }
  }

  lemma WithKeySnoc<T, K>(s: seq<T>, key: T -> K, k: K)
    requires s != []
    ensures WithKey(s, key, k) == WithKey(s[..|s| - 1], key, k) + (if key(s[|s| - 1]) == k then [s[|s| - 1]] else [])
  {
  }

  /**
   * Groups `r` that keep the keys of the groups `g` of all rows but the
   * last, and have a group for the last row's key, have a group for every row.
   */
  lemma CoverAfterSnoc<T, K>(s: seq<T>, key: T -> K, g: seq<Group<K, T>>, r: seq<Group<K, T>>, last: nat)
    requires s != [] && IsGrouping(s[..|s| - 1], key, g)
    requires |g| <= |r| && forall h :: 0 <= h < |g| ==> r[h].key == g[h].key
    requires last < |r| && r[last].key == key(s[|s| - 1])
    ensures forall m :: 0 <= m < |s| ==> exists h :: 0 <= h < |r| && r[h].key == key(s[m])
  {
    var init := s[..|s| - 1];
    forall m | 0 <= m < |s| ensures exists h :: 0 <= h < |r| && r[h].key == key(s[m]) {
      if m < |s| - 1 {
        assert s[m] == init[m];
        var h :| 0 <= h < |g| && g[h].key == key(init[m]);
        assert r[h].key == key(s[m]);
      } else {
        assert r[last].key == key(s[m]);
      }
    }
  }

  /** The total number of rows held by the groups. */
  function SumSizes<K, T>(g: seq<Group<K, T>>): nat {
    if g == [] then 0 else SumSizes(g[..|g| - 1]) + |g[|g| - 1].rows|
  }

  lemma {:induction false} SumSizesUpdate<K, T>(g: seq<Group<K, T>>, i: nat, h: Group<K, T>)
    requires i < |g|
    ensures SumSizes(g[i := h]) == SumSizes(g) - |g[i].rows| + |h.rows|
    decreases |g|
  {
    var init := g[..|g| - 1];
    if i < |g| - 1 {
      assert g[i := h][..|g| - 1] == init[i := h];
      SumSizesUpdate(init, i, h);
    } else {
      assert g[i := h][..|g| - 1] == init;
    }
  }

  /** Grouping neither loses nor duplicates a row: the group sizes add up to the input size. */
  lemma {:induction false} GroupSizesSum<T, K>(s: seq<T>, key: T -> K)
    ensures SumSizes(GroupBy(s, key)) == |s|
    decreases |s|
  {
    if s != [] {
      GroupSizesSum(s[..|s| - 1], key);
      GroupBySnocSize(s, key);
    }
  }

  /** Each row adds exactly one to the total size of the groups. */
  lemma GroupBySnocSize<T, K>(s: seq<T>, key: T -> K)
    requires s != []
    ensures SumSizes(GroupBy(s, key)) == SumSizes(GroupBy(s[..|s| - 1], key)) + 1
  {
    var x := s[|s| - 1];
    var g := GroupBy(s[..|s| - 1], key);
    var i := IndexOfKey(g, key(x));
    if i < |g| {
      SumSizesUpdate(g, i, Group(g[i].key, g[i].rows + [x]));
    } else {
      assert (g + [Group(key(x), [x])])[..|g|] == g;
    }
  }

  /**
   * Filtering before grouping does not change a group whose key already
   * implies the filter predicate.
   */
  lemma {:induction false} WithKeyAfterFilter<T, K>(s: seq<T>, p: T -> bool, key: T -> K, k: K)
    requires forall x :: key(x) == k ==> p(x)
    ensures WithKey(Filter(s, p), key, k) == WithKey(s, key, k)
    decreases |s|
  {
    if s != [] {
      var init, x := s[..|s| - 1], s[|s| - 1];
      WithKeyAfterFilter(init, p, key, k);
      var f := Filter(init, p);
      if p(x) {
        assert Filter(s, p) == f + [x];
        assert (f + [x])[..|f|] == f;
      } else {
        assert Filter(s, p) == f;
      }
    }
  }
}
