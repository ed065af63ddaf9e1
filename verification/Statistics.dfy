/**
 The robust statistics of scripts/benchmarks/main.py over exact real numbers: modified z-scores from the median and
 the median absolute deviation (MAD), outlier removal, and the choice of a label's median result.
 */
module Statistics {
  import opened Sorting

  function Abs(x: real): real { if x < 0.0 then -x else x }

  /** statistics.median. */
  function Median(s: seq<real>): real
    requires s != []
  {
    var t, h := Sort(s), |s| / 2;
    if |s| % 2 == 1 then t[h] else (t[h - 1] + t[h]) / 2.0
  }

  function DistanceFrom(m: real): real -> real { v => if v < m then m - v else v - m }

  function Mad(values: seq<real>): real
    requires values != []
  {
    Median(Map(values, DistanceFrom(Median(values))))
  }

  const Z := 0.6745

  function Score(median: real, mad: real): real -> real {
    v => if mad == 0.0 then 0.0 else Z * (v - median) / mad
  }

  function ModifiedZScore(values: seq<real>): seq<real>
    requires values != []
  {
    Map(values, Score(Median(values), Mad(values)))
  }

  function CountWithin(z: seq<real>, threshold: real): nat {
    if z == [] then 0 else (if Abs(z[0]) <= threshold then 1 else 0) + CountWithin(z[1..], threshold)
  }

  // ---------------------------------------------------------------- at least half survives

  lemma {:induction false} CountOfInsert(x: real, s: seq<real>, t: real)
    ensures CountWithin(Insert(x, s, Same), t) == CountWithin([x] + s, t)
    decreases |s|
  {
    assert ([x] + s)[1..] == s;
    if s != [] && x > s[0] {
      CountOfInsert(x, s[1..], t);
      assert ([x] + s[1..])[1..] == s[1..];
      assert ([s[0]] + Insert(x, s[1..], Same))[1..] == Insert(x, s[1..], Same);
    }
  }

  lemma {:induction false} CountOfSort(s: seq<real>, t: real)
    ensures CountWithin(Sort(s), t) == CountWithin(s, t)
    decreases |s|
  {
    if s != [] {
      CountOfSort(s[1..], t);
      CountOfInsert(s[0], Sort(s[1..]), t);
      assert ([s[0]] + Sort(s[1..]))[1..] == Sort(s[1..]);
    }
  }

  /** If the first k numbers are within t, the count is at least k. */
  lemma {:induction false} CountPrefix(s: seq<real>, k: nat, t: real)
    requires k <= |s| && forall i :: 0 <= i < k ==> Abs(s[i]) <= t
    ensures k <= CountWithin(s, t)
    decreases k
  {
    if k > 0 {
      CountPrefix(s[1..], k - 1, t);
    }
  }

  lemma {:induction false} AllInSort(s: seq<real>)
    requires forall i :: 0 <= i < |s| ==> s[i] >= 0.0
    ensures forall i :: 0 <= i < |s| ==> Sort(s)[i] >= 0.0
  {
    SortSorts(s, Same);
    forall i | 0 <= i < |s|
      ensures Sort(s)[i] >= 0.0
    {
      assert Sort(s)[i] in multiset(s);
    }
  }

  /** At least half of the numbers do not exceed the median. */
  lemma HalfBelowMedian(s: seq<real>)
    requires s != [] && forall i :: 0 <= i < |s| ==> s[i] >= 0.0
    ensures 2 * CountWithin(s, Median(s)) >= |s|
    ensures Median(s) >= 0.0
  {
    var t, k := Sort(s), (|s| + 1) / 2;
    hide CountWithin, Median, SortedBy;
    SortSorts(s, Same);
    AllInSort(s);
    MiddleBelowMedian(s);
    LowerHalf(t, k, Median(s));
    CountOfSort(s, Median(s));
    CountPrefix(t, k, Median(s));
  }

  lemma MiddleBelowMedian(s: seq<real>)
    requires s != []
    ensures Sort(s)[(|s| + 1) / 2 - 1] <= Median(s) <= Sort(s)[|s| / 2]
  {
    SortSorts(s, Same);
    var t, h := Sort(s), |s| / 2;
    assert |s| % 2 == 0 ==> Same(t[h - 1]) <= Same(t[h]);
  }

  lemma LowerHalf(t: seq<real>, k: nat, m: real)
    requires SortedBy(t, Same) && 0 < k <= |t| && t[k - 1] <= m && forall i :: 0 <= i < |t| ==> t[i] >= 0.0
    ensures forall i :: 0 <= i < k ==> Abs(t[i]) <= m
  {
  }

  /** Scores of values no further from the median than the MAD are within Z. */
  lemma {:induction false} NearValuesScoreLow(values: seq<real>, m: real, d: real, threshold: real)
    requires d >= 0.0 && threshold >= Z
    ensures CountWithin(Map(values, DistanceFrom(m)), d) <= CountWithin(Map(values, Score(m, d)), threshold)
    decreases |values|
  {
    if values != [] {
      NearValuesScoreLow(values[1..], m, d, threshold);
      assert Map(values, DistanceFrom(m))[1..] == Map(values[1..], DistanceFrom(m));
      assert Map(values, Score(m, d))[1..] == Map(values[1..], Score(m, d));
      if Abs(values[0] - m) <= d {
        ScaledDistance(values[0] - m, d);
      }
    }
  }

  lemma ScaledDistance(x: real, d: real)
    requires d >= 0.0 && Abs(x) <= d
    ensures d > 0.0 ==> Abs(Z * x / d) <= Z
  {
  }

  lemma HalfScoresLow(values: seq<real>, threshold: real)
    requires values != [] && threshold >= Z
    ensures 2 * CountWithin(ModifiedZScore(values), threshold) >= |values|
  {
    var m := Median(values);
    var d := Map(values, DistanceFrom(m));
    HalfBelowMedian(d);
    NearValuesScoreLow(values, m, Mad(values), threshold);
  }

  ghost predicate KeepsHalf(threshold: real) {
    forall values: seq<real> :: values != [] ==> 2 * CountWithin(ModifiedZScore(values), threshold) >= |values|
  }

  /** Outlier removal keeps at least half of every list exactly when the threshold is Z or more (it is 3.5). */
  lemma KeepsHalfExactly(threshold: real)
    ensures KeepsHalf(threshold) <==> threshold >= 0.6745
  {
    hide ModifiedZScore, CountWithin;
    if threshold >= Z {
      forall values: seq<real> | values != []
        ensures 2 * CountWithin(ModifiedZScore(values), threshold) >= |values|
      {
        HalfScoresLow(values, threshold);
      }
    } else {
      TwoPoints();
      NothingWithin(threshold);
    }
  }

  lemma NothingWithin(threshold: real)
    requires threshold < Z
    ensures CountWithin([-Z, Z], threshold) == 0
  {
    assert [-Z, Z][1..] == [Z];
    assert CountWithin([Z], threshold) == 0;
  }

  lemma TwoPoints()
    ensures ModifiedZScore([-1.0, 1.0]) == [-Z, Z]
  {
  }

  // ---------------------------------------------------------------- the unit of measurement does not matter

  function Affine(a: real, b: real): real -> real { v => a * v + b }

  function Reversed<T>(s: seq<T>): (r: seq<T>)
    ensures |r| == |s| && forall i :: 0 <= i < |s| ==> r[i] == s[|s| - 1 - i]
    ensures multiset(r) == multiset(s)
  {
    if s == [] then [] else
      assert s == [s[0]] + s[1..];
      Reversed(s[1..]) + [s[0]]
  }

  ghost predicate Monotone(f: real -> real, up: bool) {
    forall x, y :: x <= y ==> if up then f(x) <= f(y) else f(y) <= f(x)
  }

  ghost predicate Midpoint(f: real -> real, x: real, y: real) {
    f((x + y) / 2.0) == (f(x) + f(y)) / 2.0
  }

  /** A monotone map moves the sorted list along, turning it round if it is decreasing. */
  lemma SortOfMap(s: seq<real>, f: real -> real, up: bool)
    requires Monotone(f, up)
    ensures Sort(Map(s, f)) == if up then Map(Sort(s), f) else Reversed(Map(Sort(s), f))
  {
    hide Map, Monotone, SortedBy;
    var t := Map(Sort(s), f);
    SortSorts(s, Same);
    SortSorts(Map(s, f), Same);
    MapOfPermutation(s, Sort(s), f);
    MapSorted(Sort(s), f, up);
    SortedUnique(Sort(Map(s, f)), if up then t else Reversed(t));
  }

  lemma MapSorted(u: seq<real>, f: real -> real, up: bool)
    requires SortedBy(u, Same) && Monotone(f, up)
    ensures SortedBy(if up then Map(u, f) else Reversed(Map(u, f)), Same)
  {
    hide Map;
    var r := if up then Map(u, f) else Reversed(Map(u, f));
    forall i, j | 0 <= i < j < |r|
      ensures Same(r[i]) <= Same(r[j])
    {
      assert Same(u[i]) <= Same(u[j]);
      assert Same(u[|u| - 1 - j]) <= Same(u[|u| - 1 - i]);
    }
  }

  lemma MedianOfMap(s: seq<real>, f: real -> real, up: bool)
    requires s != [] && Monotone(f, up) && forall x, y :: Midpoint(f, x, y)
    ensures Median(Map(s, f)) == f(Median(s))
  {
    hide Monotone, Sort, Map, Reversed;
    SortOfMap(s, f, up);
    var t, h := Sort(s), |s| / 2;
    if |s| % 2 == 0 {
      assert Midpoint(f, t[h - 1], t[h]);
    }
  }

  lemma AffineStep(a: real, b: real, x: real, y: real)
    ensures Midpoint(Affine(a, b), x, y)
    ensures x <= y ==> if a >= 0.0 then a * x + b <= a * y + b else a * y + b <= a * x + b
  {
  }

  lemma MedianOfAffine(s: seq<real>, a: real, b: real)
    requires s != []
    ensures Median(Map(s, Affine(a, b))) == a * Median(s) + b
  {
    hide Median, Midpoint, Monotone, Map;
    forall x, y
      ensures Midpoint(Affine(a, b), x, y)
    {
      AffineStep(a, b, x, y);
    }
    AffineMonotone(a, b);
    MedianOfMap(s, Affine(a, b), a >= 0.0);
  }

  lemma AffineMonotone(a: real, b: real)
    ensures Monotone(Affine(a, b), a >= 0.0)
  {
  }

  lemma MadOfAffine(values: seq<real>, a: real, b: real)
    requires values != []
    ensures Mad(Map(values, Affine(a, b))) == Abs(a) * Mad(values)
  {
    hide Median, Map, Affine, DistanceFrom;
    var there := Map(values, Affine(a, b));
    var d := Map(values, DistanceFrom(Median(values)));
    MedianOfAffine(values, a, b);
    MovedDistances(values, a, b, Median(values), Median(there));
    MedianOfAffine(d, Abs(a), 0.0);
  }

  lemma MovedDistances(values: seq<real>, a: real, b: real, m: real, m': real)
    requires m' == a * m + b
    ensures Map(Map(values, Affine(a, b)), DistanceFrom(m')) == Map(Map(values, DistanceFrom(m)), Affine(Abs(a), 0.0))
  {
    hide Map, Affine, DistanceFrom;
    forall i | 0 <= i < |values|
      ensures DistanceFrom(m')(Affine(a, b)(values[i])) == Affine(Abs(a), 0.0)(DistanceFrom(m)(values[i]))
    {
      MovedDistance(a, b, values[i], m, m');
    }
  }

  lemma MovedDistance(a: real, b: real, v: real, m: real, m': real)
    requires m' == a * m + b
    ensures DistanceFrom(m')(Affine(a, b)(v)) == Affine(Abs(a), 0.0)(DistanceFrom(m)(v))
  {
  }

  /** Every value keeps the size of its score in any other unit, so the same positions survive any threshold. */
  lemma UnitIndependent(values: seq<real>, a: real, b: real, i: nat)
    requires values != [] && a != 0.0 && i < |values|
    ensures Abs(ModifiedZScore(Map(values, Affine(a, b)))[i]) == Abs(ModifiedZScore(values)[i])
  {
    hide Median, Mad, Map, Affine, Score;
    MedianOfAffine(values, a, b);
    MadOfAffine(values, a, b);
    var there := Map(values, Affine(a, b));
    MovedScore(a, b, values[i], Median(values), Mad(values), there[i], Median(there), Mad(there));
  }

  lemma MovedScore(a: real, b: real, v: real, m: real, d: real, v': real, m': real, d': real)
    requires a != 0.0 && v' == Affine(a, b)(v) && m' == a * m + b && d' == Abs(a) * d
    ensures Abs(Score(m', d')(v')) == Abs(Score(m, d)(v))
  {
  }
}
