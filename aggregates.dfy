/**
 * The aggregate functions `avg` and `count`, with SQL null semantics:
 * a null value contributes to neither the sum nor the count of `avg`.
 * Values are exact integers and the mean an exact real, so the
 * reduction is sequential and exact where the engine would use doubles.
 */
module Aggregates {
  import opened Wrappers
  import opened Relational

  /** The sum of the non-null values. */
  function Sum(s: seq<Option<int>>): int {
    if s == [] then 0
    else Sum(s[..|s| - 1]) + (match s[|s| - 1] case Some(v) => v case None => 0)
  }

  /** The number of non-null values; zero exactly when every value is null. */
  function Count(s: seq<Option<int>>): (n: nat)
    ensures n <= |s|
    ensures n == 0 <==> forall i :: 0 <= i < |s| ==> s[i].None?
  {
    if s == [] then 0
    else Count(s[..|s| - 1]) + (if s[|s| - 1].Some? then 1 else 0)
  }

  /**
   * `avg`: the mean of the non-null values, and null when there is no
   * non-null value (never a division by zero).
   */
  function Avg(s: seq<Option<int>>): (r: Option<real>)
    ensures r.None? <==> forall i :: 0 <= i < |s| ==> s[i].None?
    ensures r.Some? ==> r.value * (Count(s) as real) == Sum(s) as real
  {
    var n := Count(s);
    if n == 0 then None else Some(Mean(Sum(s), n))
  }

  /** The exact quotient of a total by a positive count. */
  function Mean(total: int, n: nat): (m: real)
    requires n > 0
    ensures m * n as real == total as real
  {
    total as real / n as real
  }

  /**
   * Partial aggregation: the (sum, count) pair of a concatenation is the
   * pointwise sum of the pairs of its parts, so partitions can be reduced
   * separately and merged.
   */
  lemma {:induction false} SumCountAppend(a: seq<Option<int>>, b: seq<Option<int>>)
    ensures Sum(a + b) == Sum(a) + Sum(b)
    ensures Count(a + b) == Count(a) + Count(b)
    decreases |b|
  {
    if b == [] {
      assert a + b == a;
    } else {
      var b' := b[..|b| - 1];
      assert (a + b)[..|a + b| - 1] == a + b';
      assert (a + b)[|a + b| - 1] == b[|b| - 1];
      SumCountAppend(a, b');
    }
  }

  /** `avg` is an order-independent reduction: it depends only on the multiset of values. */
  lemma {:induction false} AvgPermutation(a: seq<Option<int>>, b: seq<Option<int>>)
    requires multiset(a) == multiset(b)
    ensures Sum(a) == Sum(b) && Count(a) == Count(b)
    ensures Avg(a) == Avg(b)
    decreases |a|
  {
    if a == [] {
      assert |b| == |multiset(b)| == 0;
    } else {
      var a', x := a[..|a| - 1], a[|a| - 1];
      assert a == a' + [x];
      assert x in multiset(b);
      var j :| 0 <= j < |b| && b[j] == x;
      var p, q := b[..j], b[j + 1..];
      assert b == p + [x] + q;
      RemoveAt(b, j);
      AvgPermutation(a', p + q);
      SumCountAppend(a', [x]);
      SumCountSplit(p, x, q);
    }
  }

  /** A value in the middle adds its share to the sum and the count of the rest. */
  lemma SumCountSplit(p: seq<Option<int>>, x: Option<int>, q: seq<Option<int>>)
    ensures Sum(p + [x] + q) == Sum(p + q) + Sum([x])
    ensures Count(p + [x] + q) == Count(p + q) + Count([x])
  {
    SumCountAppend(p + [x], q);
    SumCountAppend(p, [x]);
    SumCountAppend(p, q);
  }

  lemma {:induction false} SumWithinBounds(s: seq<Option<int>>, lo: int, hi: int)
    requires forall i :: 0 <= i < |s| && s[i].Some? ==> lo <= s[i].value <= hi
    ensures Scaled(lo, s) <= Sum(s) <= Scaled(hi, s)
    decreases |s|
  {
    if s != [] {
      SumWithinBounds(s[..|s| - 1], lo, hi);
    }
  }

  lemma ScaleStrict(x: real, y: real, c: real)
    requires x < y && c > 0.0
    ensures x * c < y * c
  {
    assert y * c - x * c == (y - x) * c;
  }

  lemma CastProduct(a: int, b: int)
    ensures (a * b) as real == a as real * b as real
  {
  }

  lemma MeanBetween(total: int, n: nat, lo: int, hi: int)
    requires n > 0
    requires lo * n <= total <= hi * n
    ensures lo as real <= Mean(total, n) <= hi as real
  {
    var m := Mean(total, n);
    CastProduct(lo, n);
    CastProduct(hi, n);
    if m < lo as real {
      ScaleStrict(m, lo as real, n as real);
    }
    if m > hi as real {
      ScaleStrict(hi as real, m, n as real);
    }
  }

  /** The mean lies between any lower and upper bound of the non-null values. */
  lemma AvgWithinBounds(s: seq<Option<int>>, lo: int, hi: int)
    requires forall i :: 0 <= i < |s| && s[i].Some? ==> lo <= s[i].value <= hi
    ensures Avg(s).Some? ==> lo as real <= Avg(s).value <= hi as real
  {
    if Count(s) != 0 {
      SumWithinBounds(s, lo, hi);
      ScaledIsProduct(lo, s);
      ScaledIsProduct(hi, s);
      MeanBetween(Sum(s), Count(s), lo, hi);
    }
  }

  /** The constant `c` added once per non-null value of `s`. */
  function Scaled(c: int, s: seq<Option<int>>): int {
    if s == [] then 0 else Scaled(c, s[..|s| - 1]) + (if s[|s| - 1].Some? then c else 0)
  }

  lemma {:induction false} ScaledIsProduct(c: int, s: seq<Option<int>>)
    ensures Scaled(c, s) == c * Count(s)
    decreases |s|
  {
    if s != [] {
      ScaledIsProduct(c, s[..|s| - 1]);
      var n := Count(s[..|s| - 1]);
      assert c * (n + 1) == c * n + c;
    }
  }

  /** Subtracting every value from a constant `c` subtracts the mean from `c`. */
  lemma MeanShift(c: int, n: nat, shifted: int, total: int)
    requires n > 0 && shifted == c * n - total
    ensures Mean(shifted, n) == c as real - Mean(total, n)
  {
    CastProduct(c, n);
    var x := n as real;
    var a, m := Mean(shifted, n), Mean(total, n);
    assert (a - (c as real - m)) * x == a * x - c as real * x + m * x;
  }
}
