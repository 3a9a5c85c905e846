/**
 * The median the imputer stores per column: sort the observed values and take the
 * middle one, or the mean of the two middle ones when their number is even.
 */
module Statistics {

  predicate Sorted(s: seq<real>) {
    forall i, j | 0 <= i < j < |s| :: s[i] <= s[j]
  }

  /** `x` placed before the first element not smaller than it. */
  function Insert(x: real, s: seq<real>): (r: seq<real>)
    requires Sorted(s)
    ensures Sorted(r) && multiset(r) == multiset(s) + multiset{x}
    ensures |r| == |s| + 1 && forall k | 0 <= k < |r| :: r[k] == x || r[k] in s
  {
    if s == [] || x <= s[0] then [x] + s
    else
      assert s == [s[0]] + s[1..];
      var rest := Insert(x, s[1..]);
      var r := [s[0]] + rest;
      forall i, j | 0 <= i < j < |r| ensures r[i] <= r[j] {
        assert r[j] == rest[j - 1];
        if 0 < i {
          assert r[i] == rest[i - 1];
        } else {
          assert rest[j - 1] == x || rest[j - 1] in s[1..];
        }
      }
      r
  }

  /** The values in ascending order. */
  function Sort(s: seq<real>): (r: seq<real>)
    ensures Sorted(r) && multiset(r) == multiset(s) && |r| == |s|
  {
    if s == [] then []
    else
      assert s == [s[0]] + s[1..];
      Insert(s[0], Sort(s[1..]))
  }

  /** The first element of an ascending sequence is its least. */
  lemma SortedHeadLeast(a: seq<real>, x: real)
    requires Sorted(a) && x in multiset(a)
    ensures a[0] <= x
  {
    var i :| 0 <= i < |a| && a[i] == x;
  }

  /** The tail's elements are the sequence's elements less its head. */
  lemma TailMultiset(a: seq<real>)
    requires |a| > 0
    ensures multiset(a[1..]) == multiset(a) - multiset{a[0]}
  {
    assert a == [a[0]] + a[1..];
  }

  /** Two ascending sequences with the same elements are equal: sorting has one answer. */
  lemma {:induction false} SortedUnique(a: seq<real>, b: seq<real>)
    requires Sorted(a) && Sorted(b) && multiset(a) == multiset(b)
    ensures a == b
    decreases |a|
  {
    assert |b| == |multiset(b)| == |multiset(a)| == |a|;
    if a != [] {
      SortedHeadLeast(a, b[0]);
      SortedHeadLeast(b, a[0]);
      assert a[0] == b[0];
      TailMultiset(a);
      TailMultiset(b);
      SortedUnique(a[1..], b[1..]);
      assert forall k | 0 <= k < |a| :: a[k] == b[k] by {
        forall k | 1 <= k < |a| ensures a[k] == b[k] {
          assert a[k] == a[1..][k - 1] && b[k] == b[1..][k - 1];
        }
      }
    }
  }

  /** The middle of an ascending sequence, or the mean of its two middle elements. */
  function Middle(t: seq<real>): real
    requires |t| > 0
  {
    var n := |t|;
    if n % 2 == 1 then t[n / 2] else (t[n / 2 - 1] + t[n / 2]) / 2.0
  }

  /**
   * The imputer's median (`np.ma.median` over the non-missing values): the
   * middle of the sorted values, so between the least and the greatest.
   */
  function Median(s: seq<real>): (r: real)
    requires |s| > 0
    ensures Sort(s)[0] <= r <= Sort(s)[|s| - 1]
  {
    MiddleSplits(Sort(s));
    Middle(Sort(s))
  }

  /** The median depends only on the values, not on their order. */
  lemma {:induction false} MedianOfPermutation(a: seq<real>, b: seq<real>)
    requires |a| > 0 && multiset(a) == multiset(b)
    ensures |b| > 0 && Median(a) == Median(b)
  {
    assert |b| == |multiset(b)| == |multiset(a)| == |a|;
    SortedUnique(Sort(a), Sort(b));
  }

  /** In an ascending sequence, the lower half lies at or below the middle and the upper half at or above. */
  lemma {:induction false} MiddleSplits(t: seq<real>)
    requires |t| > 0 && Sorted(t)
    ensures forall k | 0 <= k <= (|t| - 1) / 2 :: t[k] <= Middle(t)
    ensures forall k | |t| / 2 <= k < |t| :: Middle(t) <= t[k]
  {
    var n := |t|;
    var lo, hi := (n - 1) / 2, n / 2;
    if n % 2 == 1 {
      assert lo == hi;
    } else {
      assert hi == lo + 1 && t[lo] <= t[hi];
    }
    assert t[lo] <= Middle(t) <= t[hi];
  }

  /**
   * At least half of the values lie at or below the median and at least half at
   * or above it: in sorted order, the lower half up to the middle and the upper
   * half from the middle.
   */
  lemma {:induction false} MedianSplits(s: seq<real>)
    requires |s| > 0
    ensures var t := Sort(s);
      && |t| == |s|
      && (forall k | 0 <= k <= (|s| - 1) / 2 :: t[k] <= Median(s))
      && (forall k | |s| / 2 <= k < |s| :: Median(s) <= t[k])
  {
    MiddleSplits(Sort(s));
  }

  /** The median is one of the values, or lies between two of them. */
  lemma {:induction false} MedianBetween(s: seq<real>)
    requires |s| > 0
    ensures exists i, j | 0 <= i < |s| && 0 <= j < |s| :: s[i] <= Median(s) <= s[j]
  {
    MedianSplits(s);
    var t := Sort(s);
    assert t[0] in multiset(s) && t[|t| - 1] in multiset(s);
    var i :| 0 <= i < |s| && s[i] == t[0];
    var j :| 0 <= j < |s| && s[j] == t[|t| - 1];
    assert s[i] <= Median(s) <= s[j];
  }

  /** One and three give two: the mean of the two middle values. */
  lemma MedianOfTwo()
    ensures Median([1.0, 3.0]) == 2.0
  {
    assert [1.0, 3.0][1..] == [3.0];
    assert Sort([1.0, 3.0]) == [1.0, 3.0];
  }
}
