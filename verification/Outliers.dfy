/**
 Which results scripts/benchmarks/main.py removes as outliers, told by where most of the values lie. A result far from
 the majority is removed, unless more than half of the values are equal: then the MAD is 0 and nothing is removed.
 */
module Outliers {
  import opened Sorting
  import opened Statistics
  import opened Benchmarks

  /** How many values lie no further than d from c. */
  function Near(values: seq<real>, c: real, d: real): nat {
    if values == [] then 0 else (if c - d <= values[0] <= c + d then 1 else 0) + Near(values[1..], c, d)
  }

  ghost predicate Majority(values: seq<real>, c: real, d: real) {
    2 * Near(values, c, d) > |values|
  }

  // ---------------------------------------------------------------- the median follows a majority

  lemma {:induction false} CountFront(s: seq<real>, k: nat, t: real)
    requires k <= |s| && forall i :: k <= i < |s| ==> Abs(s[i]) > t
    ensures CountWithin(s, t) <= k
    decreases |s|
  {
    if s != [] {
      CountFront(s[1..], if k == 0 then 0 else k - 1, t);
    }
  }

  lemma {:induction false} CountBack(s: seq<real>, k: nat, t: real)
    requires k <= |s| && forall i :: 0 <= i < k ==> Abs(s[i]) > t
    ensures CountWithin(s, t) <= |s| - k
    decreases |s|
  {
    if s != [] {
      CountBack(s[1..], if k == 0 then 0 else k - 1, t);
    }
  }

  lemma MedianWithin(s: seq<real>, t: real)
    requires s != [] && 2 * CountWithin(s, t) > |s|
    ensures -t <= Median(s) <= t
  {
    hide Median, CountWithin, Sort;
    var u, low, high := Sort(s), (|s| + 1) / 2, |s| / 2;
    SortedNumbers(s);
    MiddleBelowMedian(s);
    CountOfSort(s, t);
    if u[high] > t {
      CountFront(u, high, t);
    }
    if u[low - 1] < -t {
      CountBack(u, low, t);
    }
  }

  lemma SortedNumbers(s: seq<real>)
    ensures forall i, j :: 0 <= i < j < |s| ==> Sort(s)[i] <= Sort(s)[j]
  {
    SortSorts(s, Same);
    forall i, j | 0 <= i < j < |s|
      ensures Sort(s)[i] <= Sort(s)[j]
    {
      assert Same(Sort(s)[i]) <= Same(Sort(s)[j]);
    }
  }

  lemma {:induction false} NearIsWithin(values: seq<real>, c: real, d: real)
    ensures Near(values, c, d) == CountWithin(Map(values, Affine(1.0, -c)), d)
    decreases |values|
  {
    if values != [] {
      NearIsWithin(values[1..], c, d);
      MapTail(values, Affine(1.0, -c));
    }
  }

  /** The median lies where more than half of the values lie. */
  lemma MedianNear(values: seq<real>, c: real, d: real)
    requires values != [] && Majority(values, c, d)
    ensures c - d <= Median(values) <= c + d
  {
    hide Median, Map;
    var moved := Map(values, Affine(1.0, -c));
    NearIsWithin(values, c, d);
    MedianOfMoved(values, c);
    MedianWithin(moved, d);
  }

  lemma MedianOfMoved(values: seq<real>, c: real)
    requires values != []
    ensures Median(Map(values, Affine(1.0, -c))) == Median(values) - c
  {
    hide Median, Map;
    MedianOfAffine(values, 1.0, -c);
    Once(Median(values), -c);
  }

  lemma Once(x: real, b: real)
    ensures 1.0 * x + b == x + b
  {
  }

  lemma {:induction false} NearMedian(values: seq<real>, c: real, d: real, m: real, e: real)
    requires c - d <= m <= c + d && e == 2.0 * d
    ensures Near(values, c, d) <= CountWithin(Map(values, DistanceFrom(m)), e)
    decreases |values|
  {
    if values != [] {
      NearMedian(values[1..], c, d, m, e);
      MapTail(values, DistanceFrom(m));
    }
  }

  /** And the MAD is at most the width of that range. */
  lemma MadNear(values: seq<real>, c: real, d: real)
    requires values != [] && Majority(values, c, d)
    ensures 0.0 <= Mad(values) <= 2.0 * d
  {
    hide Median, Map, CountWithin;
    var m := Median(values);
    var distances := Map(values, DistanceFrom(m));
    MedianNear(values, c, d);
    NearMedian(values, c, d, m, 2.0 * d);
    MedianWithin(distances, 2.0 * d);
    HalfBelowMedian(distances);
  }

  lemma {:induction false} NoDistance(values: seq<real>, m: real)
    ensures CountWithin(Map(values, DistanceFrom(m)), 0.0) == Near(values, m, 0.0)
    decreases |values|
  {
    if values != [] {
      NoDistance(values[1..], m);
      MapTail(values, DistanceFrom(m));
    }
  }

  lemma ZeroMedian(s: seq<real>)
    requires s != [] && Median(s) == 0.0 && forall i :: 0 <= i < |s| ==> s[i] >= 0.0
    ensures 2 * CountWithin(s, 0.0) > |s|
  {
    hide CountWithin;
    var u, h := Sort(s), |s| / 2;
    AllInSort(s);
    SortedNumbers(s);
    assert u[h] == 0.0;
    CountOfSort(s, 0.0);
    CountPrefix(u, h + 1, 0.0);
  }

  /** The MAD is 0 if and only if more than half of the values are equal. */
  lemma MadZeroExactly(values: seq<real>)
    requires values != []
    ensures Mad(values) == 0.0 <==> exists x :: Majority(values, x, 0.0)
  {
    hide Median, Map, CountWithin;
    if Mad(values) == 0.0 {
      ZeroMedian(Map(values, DistanceFrom(Median(values))));
      NoDistance(values, Median(values));
      assert Majority(values, Median(values), 0.0);
    }
    if x :| Majority(values, x, 0.0) {
      MadNear(values, x, 0.0);
    }
  }

  // ---------------------------------------------------------------- what is removed

  lemma {:induction false} FilterIn<T>(s: seq<T>, ok: T -> bool, x: T)
    ensures x in Filter(s, ok) <==> x in s && ok(x)
    decreases |s|
  {
    if s != [] {
      FilterIn(s[1..], ok, x);
    }
  }

  /** A list no longer than the number of iterations is left alone. Of a longer one a result survives exactly if the MAD
      is 0 or 0.6745 times its distance from the median is at most 3.5 times the MAD. */
  lemma SurvivesExactly(rlist: seq<Result>, iterations: nat, r: Result)
    requires r in rlist
    ensures |rlist| <= iterations ==> WithoutOutliers(rlist, iterations) == rlist
    ensures var values := Map(rlist, ValueOf);
            |rlist| > iterations ==>
              (r in WithoutOutliers(rlist, iterations)
               <==> Mad(values) == 0.0 || 0.6745 * Abs(r.value - Median(values)) <= 3.5 * Mad(values))
  {
    hide Median, Map, CountWithin;
    if |rlist| > iterations {
      var values := Map(rlist, ValueOf);
      var m, d := Median(values), Mad(values);
      FallbackNeverTaken(rlist, iterations);
      KeepIsFilter(rlist, Score(m, d), OUTLIER_THRESHOLD);
      FilterIn(rlist, ScoredWithin(Score(m, d), OUTLIER_THRESHOLD), r);
      HalfBelowMedian(Map(values, DistanceFrom(m)));
      ScoreWithin(m, d, r.value);
    }
  }

  lemma ScoreWithin(m: real, d: real, v: real)
    requires d >= 0.0
    ensures -3.5 <= Score(m, d)(v) <= 3.5 <==> d == 0.0 || 0.6745 * Abs(v - m) <= 3.5 * d
  {
    if d > 0.0 {
      var x := 0.6745 * (v - m);
      Divided(x, d);
    }
  }

  lemma Divided(x: real, d: real)
    requires d > 0.0
    ensures x / d <= 3.5 <==> x <= 3.5 * d
    ensures -3.5 <= x / d <==> -3.5 * d <= x
  {
    assert x == (x / d) * d;
  }

  /** OUTLIERS. More than half of the values lie within d of c, and a result is further away than d by more than
      2 * 3.5 / 0.6745 times d: it is removed if and only if no value makes up more than half of the list. */
  lemma FarResultRemoved(rlist: seq<Result>, iterations: nat, c: real, d: real, r: Result)
    requires |rlist| > iterations && r in rlist && d >= 0.0
    requires Majority(Map(rlist, ValueOf), c, d)
    requires 0.6745 * (Abs(r.value - c) - d) > 7.0 * d
    ensures r !in WithoutOutliers(rlist, iterations) <==> !exists x :: Majority(Map(rlist, ValueOf), x, 0.0)
  {
    hide Median, Map, CountWithin, Majority, Mad, Abs, WithoutOutliers;
    var values := Map(rlist, ValueOf);
    MedianNear(values, c, d);
    MadNear(values, c, d);
    MadZeroExactly(values);
    SurvivesExactly(rlist, iterations, r);
    FarFromMedian(r.value, c, d, Median(values), Mad(values));
  }

  lemma FarFromMedian(v: real, c: real, d: real, m: real, mad: real)
    requires c - d <= m <= c + d && mad <= 2.0 * d && 0.6745 * (Abs(v - c) - d) > 7.0 * d
    ensures 0.6745 * Abs(v - m) > 3.5 * mad
  {
    assert Abs(v - m) >= Abs(v - c) - d;
  }
}
