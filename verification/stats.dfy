/** The column statistics pandas computes with `skipna=True`: sum, mean, sample
    variance (ddof=1), median. Square roots are not part of real arithmetic, so a
    standard deviation is always obtained through a caller-supplied `sqrt`
    satisfying `IsSqrt`. */
module Stats {

  function Sum(xs: seq<real>): real {
    if |xs| == 0 then 0.0 else xs[0] + Sum(xs[1..])
  }

  function Mean(xs: seq<real>): real
    requires |xs| > 0
  {
    Sum(xs) / (|xs| as real)
  }

  lemma Square(d: real)
    ensures d * d >= 0.0
  {
    if d < 0.0 {
      assert d * d == (-d) * (-d);
    }
  }

  lemma ProductNonZero(a: real, b: real)
    requires a != 0.0 && b != 0.0
    ensures a * b != 0.0
  {
    if a > 0.0 && b > 0.0 { assert a * b > 0.0; }
    else if a > 0.0 { assert a * b < 0.0; }
    else if b > 0.0 { assert a * b < 0.0; }
    else { assert a * b > 0.0; }
  }

  /** A product vanishes only when a factor does. */
  lemma ProductZero(a: real, b: real)
    requires a * b == 0.0
    ensures a == 0.0 || b == 0.0
  {
    if a != 0.0 && b != 0.0 {
      ProductNonZero(a, b);
    }
  }

  /** Sum of squared deviations from `m`. */
  function SumSq(xs: seq<real>, m: real): (s: real)
    ensures s >= 0.0
  {
    if |xs| == 0 then 0.0
    else
      Square(xs[0] - m);
      (xs[0] - m) * (xs[0] - m) + SumSq(xs[1..], m)
  }

  /** pandas `Series.var()` / `std()**2`: divisor n - 1. */
  function SampleVariance(xs: seq<real>): (v: real)
    requires |xs| >= 2
    ensures v >= 0.0
  {
    SumSq(xs, Mean(xs)) / ((|xs| - 1) as real)
  }

  /** `sqrt` is the non-negative square root on the non-negative reals. */
  ghost predicate IsSqrt(sqrt: real -> real) {
    forall v: real {:trigger sqrt(v)} :: 0.0 <= v ==> 0.0 <= sqrt(v) && sqrt(v) * sqrt(v) == v
  }

  lemma {:induction false} SumSqZero(xs: seq<real>, m: real)
    ensures SumSq(xs, m) == 0.0 <==> forall i :: 0 <= i < |xs| ==> xs[i] == m
  {
    if |xs| > 0 {
      var t := xs[1..];
      SumSqZero(t, m);
      Square(xs[0] - m);
      if SumSq(xs, m) == 0.0 {
        var d := xs[0] - m;
        assert SumSq(xs, m) == d * d + SumSq(t, m);
        ProductZero(d, d);
        forall i | 0 <= i < |xs| ensures xs[i] == m {
          if i > 0 { assert xs[i] == t[i - 1]; }
        }
      }
      if forall i :: 0 <= i < |xs| ==> xs[i] == m {
        assert forall i :: 0 <= i < |t| ==> t[i] == xs[i + 1];
      }
    }
  }

  lemma {:induction false} SumConstant(xs: seq<real>, c: real)
    requires forall i :: 0 <= i < |xs| ==> xs[i] == c
    ensures Sum(xs) == (|xs| as real) * c
  {
    if |xs| > 0 {
      SumConstant(xs[1..], c);
    }
  }

  /** The sample variance vanishes exactly when every value equals the mean,
      that is, when the batch is constant. */
  lemma VarianceZeroIffConstant(xs: seq<real>)
    requires |xs| >= 2
    ensures SampleVariance(xs) == 0.0 <==> forall i :: 0 <= i < |xs| ==> xs[i] == xs[0]
  {
    var m := Mean(xs);
    SumSqZero(xs, m);
    if forall i :: 0 <= i < |xs| ==> xs[i] == xs[0] {
      SumConstant(xs, xs[0]);
      assert m == xs[0];
    }
  }

  /** With the square root a true square root, the standard deviation is zero
      exactly when the variance is. */
  lemma SqrtZero(sqrt: real -> real, v: real)
    requires IsSqrt(sqrt) && v >= 0.0
    ensures sqrt(v) == 0.0 <==> v == 0.0
  {
    var s := sqrt(v);
    assert s * s == v;
    if v == 0.0 {
      ProductZero(s, s);
    }
  }

  predicate Sorted(s: seq<real>) {
    forall i, j :: 0 <= i < j < |s| ==> s[i] <= s[j]
  }

  function Insert(x: real, s: seq<real>): (r: seq<real>)
    requires Sorted(s)
    ensures Sorted(r) && multiset(r) == multiset(s) + multiset{x}
  {
    if |s| == 0 then [x]
    else if x <= s[0] then [x] + s
    else
      var t := Insert(x, s[1..]);
      assert s == [s[0]] + s[1..];
      LowerBound(s[0], x, s[1..], t);
      [s[0]] + t
  }

  /** A bound below `x` and every element of `s` is below every element of a
      permutation of `s` with `x` added. */
  lemma LowerBound(b: real, x: real, s: seq<real>, t: seq<real>)
    requires b <= x && (forall k :: 0 <= k < |s| ==> b <= s[k])
    requires multiset(t) == multiset(s) + multiset{x}
    ensures forall k :: 0 <= k < |t| ==> b <= t[k]
  {
    forall k | 0 <= k < |t| ensures b <= t[k] {
      assert t[k] in multiset(t);
      if t[k] != x {
        assert t[k] in multiset(s);
      }
    }
  }

  /** An ascending permutation of `xs` (the order `Series.median` works on). */
  function Sort(xs: seq<real>): (r: seq<real>)
    ensures Sorted(r) && multiset(r) == multiset(xs)
    ensures |r| == |xs|
  {
    if |xs| == 0 then []
    else
      var r := Insert(xs[0], Sort(xs[1..]));
      assert xs == [xs[0]] + xs[1..];
      assert |r| == |multiset(r)| == |multiset(xs)|;
      r
  }

  /** `x` lies strictly above `m` (when `above`) or strictly below it. */
  predicate Past(x: real, m: real, above: bool) {
    if above then x > m else x < m
  }

  /** How many values lie strictly above (or below) `m`. */
  function CountPast(xs: seq<real>, m: real, above: bool): (n: nat)
    ensures n <= |xs|
  {
    if |xs| == 0 then 0 else (if Past(xs[0], m, above) then 1 else 0) + CountPast(xs[1..], m, above)
  }

  /** At most half of the values lie strictly below `m`, and at most half
      strictly above: what makes `m` a median. */
  predicate SplitsInHalves(xs: seq<real>, m: real) {
    2 * CountPast(xs, m, false) <= |xs| && 2 * CountPast(xs, m, true) <= |xs|
  }

  /** `v` is the lower middle value: fewer than half of the values lie strictly
      below it and at most half strictly above. */
  predicate LowerMiddle(xs: seq<real>, v: real) {
    2 * CountPast(xs, v, false) < |xs| && 2 * CountPast(xs, v, true) <= |xs|
  }

  /** `v` is the upper middle value: fewer than half of the values lie strictly
      above it and at most half strictly below. */
  predicate UpperMiddle(xs: seq<real>, v: real) {
    2 * CountPast(xs, v, true) < |xs| && 2 * CountPast(xs, v, false) <= |xs|
  }

  lemma {:induction false} CountAppend(a: seq<real>, b: seq<real>, m: real, above: bool)
    ensures CountPast(a + b, m, above) == CountPast(a, m, above) + CountPast(b, m, above)
  {
    if |a| == 0 {
      assert a + b == b;
    } else {
      assert (a + b)[1..] == a[1..] + b;
      CountAppend(a[1..], b, m, above);
    }
  }

  /** The count depends only on the values, not on their order. */
  lemma {:induction false} CountPermutation(a: seq<real>, b: seq<real>, m: real, above: bool)
    requires multiset(a) == multiset(b)
    ensures CountPast(a, m, above) == CountPast(b, m, above)
    decreases |a|
  {
    if |a| == 0 {
      assert |multiset(b)| == 0;
    } else {
      assert a[0] in multiset(b);
      var k :| 0 <= k < |b| && b[k] == a[0];
      var rest := b[..k] + b[k + 1..];
      RemovedAt(a, b, k);
      CountPermutation(a[1..], rest, m, above);
      CountWithout(b, k, m, above);
    }
  }

  /** Taking the first value off `a` and a copy of it off `b` keeps the two
      permutations of each other. */
  lemma RemovedAt(a: seq<real>, b: seq<real>, k: nat)
    requires multiset(a) == multiset(b) && |a| > 0 && k < |b| && b[k] == a[0]
    ensures multiset(b[..k] + b[k + 1..]) == multiset(a[1..])
  {
    var rest := b[..k] + b[k + 1..];
    assert b == b[..k] + [b[k]] + b[k + 1..];
    assert a == [a[0]] + a[1..];
    assert multiset(b) == multiset(rest) + multiset{b[k]};
    assert multiset(a) == multiset(a[1..]) + multiset{a[0]};
    Cancel(multiset(rest), multiset(a[1..]), a[0]);
  }

  /** Two multisets that are equal once the same value is added were equal before. */
  lemma Cancel(x: multiset<real>, y: multiset<real>, v: real)
    requires x + multiset{v} == y + multiset{v}
    ensures x == y
  {
    forall w ensures x[w] == y[w] {
      assert (x + multiset{v})[w] == (y + multiset{v})[w];
    }
  }

  /** Removing the value at `k` lowers the count by one exactly when that
      value counts. */
  lemma CountWithout(b: seq<real>, k: nat, m: real, above: bool)
    requires k < |b|
    ensures CountPast(b, m, above) == CountPast(b[..k] + b[k + 1..], m, above) + (if Past(b[k], m, above) then 1 else 0)
  {
    assert b == b[..k] + ([b[k]] + b[k + 1..]);
    CountAppend(b[..k], [b[k]] + b[k + 1..], m, above);
    CountAppend([b[k]], b[k + 1..], m, above);
    CountAppend(b[..k], b[k + 1..], m, above);
    assert [b[k]][1..] == [];
  }

  lemma {:induction false} CountNone(xs: seq<real>, m: real, above: bool)
    requires forall k :: 0 <= k < |xs| ==> !Past(xs[k], m, above)
    ensures CountPast(xs, m, above) == 0
  {
    if |xs| > 0 {
      CountNone(xs[1..], m, above);
    }
  }

  /** In a sorted sequence, a value between the two middle elements has at most
      half of the values on either side. */
  lemma SortedHalves(s: seq<real>, m: real)
    requires Sorted(s) && |s| > 0 && s[(|s| - 1) / 2] <= m <= s[|s| / 2]
    ensures SplitsInHalves(s, m)
  {
    var n := |s|;
    var lo := (n - 1) / 2 + 1;
    assert s == s[..lo] + s[lo..];
    CountAppend(s[..lo], s[lo..], m, true);
    CountNone(s[..lo], m, true);
    var hi := n / 2;
    assert s == s[..hi] + s[hi..];
    CountAppend(s[..hi], s[hi..], m, false);
    CountNone(s[hi..], m, false);
  }

  /** In a sorted sequence, at most `p` values lie below the one at `p`, and at
      most those after it lie above. */
  lemma SortedRanks(s: seq<real>, p: nat)
    requires Sorted(s) && p < |s|
    ensures CountPast(s, s[p], false) <= p
    ensures CountPast(s, s[p], true) <= |s| - p - 1
  {
    RanksBelow(s, p);
    RanksAbove(s, p);
  }

  lemma RanksBelow(s: seq<real>, p: nat)
    requires Sorted(s) && p < |s|
    ensures CountPast(s, s[p], false) <= p
  {
    var t := s[p..];
    assert forall k :: 0 <= k < |t| ==> t[k] == s[p + k] && !Past(t[k], s[p], false);
    assert s == s[..p] + t;
    CountAppend(s[..p], t, s[p], false);
    CountNone(t, s[p], false);
  }

  lemma RanksAbove(s: seq<real>, p: nat)
    requires Sorted(s) && p < |s|
    ensures CountPast(s, s[p], true) <= |s| - p - 1
  {
    var t := s[..p + 1];
    assert forall k :: 0 <= k < |t| ==> t[k] == s[k] && !Past(t[k], s[p], true);
    assert s == t + s[p + 1..];
    CountAppend(t, s[p + 1..], s[p], true);
    CountNone(t, s[p], true);
  }

  /** Every value lies below `b` or above `a` when `a < b`. */
  lemma {:induction false} CountSides(xs: seq<real>, a: real, b: real)
    requires a < b
    ensures CountPast(xs, b, false) + CountPast(xs, a, true) >= |xs|
  {
    if |xs| > 0 {
      CountSides(xs[1..], a, b);
    }
  }

  /** There is only one lower middle value. */
  lemma LowerMiddleUnique(xs: seq<real>, a: real, b: real)
    requires LowerMiddle(xs, a) && LowerMiddle(xs, b)
    ensures a == b
  {
    if a < b {
      CountSides(xs, a, b);
    } else if b < a {
      CountSides(xs, b, a);
    }
  }

  /** There is only one upper middle value. */
  lemma UpperMiddleUnique(xs: seq<real>, a: real, b: real)
    requires UpperMiddle(xs, a) && UpperMiddle(xs, b)
    ensures a == b
  {
    if a < b {
      CountSides(xs, a, b);
    } else if b < a {
      CountSides(xs, b, a);
    }
  }

  /** The middle element of a sorted sequence, or the mean of its two middle
      elements for an even length. */
  function Middle(s: seq<real>): real
    requires |s| > 0
  {
    var n := |s|;
    if n % 2 == 1 then s[n / 2] else (s[(n - 1) / 2] + s[n / 2]) / 2.0
  }

  lemma MiddleBetween(s: seq<real>)
    requires Sorted(s) && |s| > 0
    ensures s[(|s| - 1) / 2] <= Middle(s) <= s[|s| / 2]
    ensures Middle(s) == (s[(|s| - 1) / 2] + s[|s| / 2]) / 2.0
  {
  }

  /** The middle of the sorted copy is a median of the values, and the mean of
      two of them. */
  lemma MedianOfSorted(xs: seq<real>)
    requires |xs| > 0
    ensures SplitsInHalves(xs, Middle(Sort(xs)))
    ensures var m := Middle(Sort(xs));
      exists i, j :: 0 <= i < |xs| && 0 <= j < |xs| && xs[i] <= m <= xs[j] && m == (xs[i] + xs[j]) / 2.0
  {
    var s := Sort(xs);
    var m := Middle(s);
    MiddleBetween(s);
    SortedHalves(s, m);
    CountPermutation(s, xs, m, false);
    CountPermutation(s, xs, m, true);
    assert s[(|s| - 1) / 2] in multiset(xs) && s[|s| / 2] in multiset(xs);
    var i :| 0 <= i < |xs| && xs[i] == s[(|s| - 1) / 2];
    var j :| 0 <= j < |xs| && xs[j] == s[|s| / 2];
    assert xs[i] <= m <= xs[j] && m == (xs[i] + xs[j]) / 2.0;
  }

  /** The middle of the sorted copy is the mean of the lower and the upper
      middle value. */
  lemma MiddleOfMiddles(xs: seq<real>)
    requires |xs| > 0
    ensures var m := Middle(Sort(xs));
      exists i, j :: 0 <= i < |xs| && 0 <= j < |xs| && LowerMiddle(xs, xs[i]) && UpperMiddle(xs, xs[j])
        && m == (xs[i] + xs[j]) / 2.0
  {
    var s := Sort(xs);
    MiddleBetween(s);
    assert s[(|s| - 1) / 2] in multiset(xs) && s[|s| / 2] in multiset(xs);
    var i :| 0 <= i < |xs| && xs[i] == s[(|s| - 1) / 2];
    var j :| 0 <= j < |xs| && xs[j] == s[|s| / 2];
    MiddlesOfSorted(xs, s, xs[i], xs[j]);
  }

  /** The two middle elements of the sorted copy are the lower and upper middle
      values of the original. */
  lemma MiddlesOfSorted(xs: seq<real>, s: seq<real>, lo: real, hi: real)
    requires |xs| > 0 && s == Sort(xs) && lo == s[(|s| - 1) / 2] && hi == s[|s| / 2]
    ensures LowerMiddle(xs, lo) && UpperMiddle(xs, hi)
  {
    SortedRanks(s, (|s| - 1) / 2);
    SortedRanks(s, |s| / 2);
    CountPermutation(s, xs, lo, false);
    CountPermutation(s, xs, lo, true);
    CountPermutation(s, xs, hi, false);
    CountPermutation(s, xs, hi, true);
  }

  /** pandas `Series.median`: the middle of the sorted values, or the mean of the
      two middle values for an even count. */
  function Median(xs: seq<real>): (m: real)
    requires |xs| > 0
    ensures SplitsInHalves(xs, m)
    ensures exists i, j :: 0 <= i < |xs| && 0 <= j < |xs| && xs[i] <= m <= xs[j] && m == (xs[i] + xs[j]) / 2.0
    ensures exists i, j :: (0 <= i < |xs| && 0 <= j < |xs| && LowerMiddle(xs, xs[i]) && UpperMiddle(xs, xs[j])
      && m == (xs[i] + xs[j]) / 2.0)
  {
    MedianOfSorted(xs);
    MiddleOfMiddles(xs);
    Middle(Sort(xs))
  }

  /** The median is determined: it is the mean of the lower and the upper
      middle value, whichever way they are found. */
  lemma MedianPinned(xs: seq<real>, lo: real, hi: real)
    requires |xs| > 0 && LowerMiddle(xs, lo) && UpperMiddle(xs, hi)
    ensures Median(xs) == (lo + hi) / 2.0
  {
    var m := Median(xs);
    var i, j :| 0 <= i < |xs| && 0 <= j < |xs| && LowerMiddle(xs, xs[i]) && UpperMiddle(xs, xs[j])
      && m == (xs[i] + xs[j]) / 2.0;
    LowerMiddleUnique(xs, lo, xs[i]);
    UpperMiddleUnique(xs, hi, xs[j]);
  }

  /** An even count takes the mean of the two middle values. */
  lemma MedianOfFour()
    ensures Median([1.0, 2.0, 3.0, 4.0]) == 2.5
  {
    var xs := [1.0, 2.0, 3.0, 4.0];
    assert CountPast(xs, 2.0, false) == 1 && CountPast(xs, 2.0, true) == 2;
    assert CountPast(xs, 3.0, false) == 2 && CountPast(xs, 3.0, true) == 1;
    MedianPinned(xs, 2.0, 3.0);
  }

  /** Position of a least element. */
  function ArgMin(xs: seq<real>): (k: nat)
    requires |xs| > 0
    ensures k < |xs| && forall j :: 0 <= j < |xs| ==> xs[k] <= xs[j]
  {
    if |xs| == 1 then 0
    else
      var k := 1 + ArgMin(xs[1..]);
      assert forall j :: 1 <= j < |xs| ==> xs[j] == xs[1..][j - 1];
      if xs[0] <= xs[k] then 0 else k
  }

  /** Position of a greatest element. */
  function ArgMax(xs: seq<real>): (k: nat)
    requires |xs| > 0
    ensures k < |xs| && forall j :: 0 <= j < |xs| ==> xs[j] <= xs[k]
  {
    if |xs| == 1 then 0
    else
      var k := 1 + ArgMax(xs[1..]);
      assert forall j :: 1 <= j < |xs| ==> xs[j] == xs[1..][j - 1];
      if xs[k] <= xs[0] then 0 else k
  }

  lemma {:induction false} SumBounds(xs: seq<real>, lo: real, hi: real)
    requires forall k :: 0 <= k < |xs| ==> lo <= xs[k] <= hi
    ensures (|xs| as real) * lo <= Sum(xs) <= (|xs| as real) * hi
  {
    if |xs| > 0 {
      SumBounds(xs[1..], lo, hi);
    }
  }

  /** The mean lies between the least and the greatest value, so filling with it
      never leaves the range of the observed data. */
  lemma MeanBetween(xs: seq<real>)
    requires |xs| > 0
    ensures xs[ArgMin(xs)] <= Mean(xs) <= xs[ArgMax(xs)]
  {
    MeanWithin(xs, xs[ArgMin(xs)], xs[ArgMax(xs)]);
  }

  lemma MeanWithin(xs: seq<real>, lo: real, hi: real)
    requires |xs| > 0 && forall k :: 0 <= k < |xs| ==> lo <= xs[k] <= hi
    ensures lo <= Mean(xs) <= hi
  {
    SumBounds(xs, lo, hi);
    DivBounds(Sum(xs), |xs| as real, lo, hi);
  }

  lemma DivBounds(s: real, n: real, lo: real, hi: real)
    requires n > 0.0 && n * lo <= s <= n * hi
    ensures lo <= s / n <= hi
  {
    var q := s / n;
    assert q * n == s;
    if q < lo {
      PositiveProduct(lo - q, n);
    }
    if hi < q {
      PositiveProduct(q - hi, n);
    }
  }

  lemma PositiveProduct(a: real, b: real)
    requires a > 0.0 && b > 0.0
    ensures a * b > 0.0
  {
  }
}
