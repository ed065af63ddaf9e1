/**
 Processing of benchmark results in scripts/benchmarks/main.py: outliers are removed per label, unsteady labels make
 the whole round invalid, and the median result stands for its label. `root` is the square root.
 */
module Benchmarks {
  import opened Options
  import opened Sequences
  import opened Sorting
  import opened Statistics

  class Result {
    const value: real
    var stddev: real

    constructor (value: real, stddev: real)
      ensures this.value == value && this.stddev == stddev
    {
      this.value, this.stddev := value, stddev;
    }
  }

  function ValueOf(r: Result): real { r.value }

  /** A dictionary from labels to lists, in its order of insertion. */
  type Results = seq<(string, seq<Result>)>

  const OUTLIER_THRESHOLD := 3.5

  /** The elements whose score is within the threshold. */
  function KeepWithin<T>(s: seq<T>, z: seq<real>, threshold: real): (r: seq<T>)
    requires |s| == |z|
    ensures |r| == CountWithin(z, threshold)
    ensures forall x :: x in r ==> x in s
  {
    if s == [] then []
    else (if Abs(z[0]) <= threshold then [s[0]] else []) + KeepWithin(s[1..], z[1..], threshold)
  }

  /** What remains of one label's list; short lists are left alone. */
  function WithoutOutliers(rlist: seq<Result>, iterations: nat): (kept: seq<Result>)
    ensures forall r :: r in kept ==> r in rlist
  {
    if |rlist| <= iterations then rlist
    else
      var kept := KeepWithin(rlist, ModifiedZScore(Map(rlist, ValueOf)), OUTLIER_THRESHOLD);
      if kept == [] then rlist else kept
  }

  /** At least half of every list survives, so the fall-back to the whole list is never taken. */
  lemma FallbackNeverTaken(rlist: seq<Result>, iterations: nat)
    requires |rlist| > iterations
    ensures WithoutOutliers(rlist, iterations)
            == KeepWithin(rlist, ModifiedZScore(Map(rlist, ValueOf)), OUTLIER_THRESHOLD)
    ensures 2 * |WithoutOutliers(rlist, iterations)| >= |rlist|
  {
    HalfScoresLow(Map(rlist, ValueOf), OUTLIER_THRESHOLD);
  }

  method RemoveOutliers(results: Results, iterations: nat) returns (r: Results)
    ensures |r| == |results|
    ensures forall k :: 0 <= k < |r| ==> r[k] == (results[k].0, WithoutOutliers(results[k].1, iterations))
  {
    r := [];
    for k := 0 to |results|
      invariant |r| == k
      invariant forall l :: 0 <= l < k ==> r[l] == (results[l].0, WithoutOutliers(results[l].1, iterations))
    {
      var (name, rlist) := results[k];
      if |rlist| <= iterations {
        r := r + [(name, rlist)];
        continue;
      }
      var z := ModifiedZScore(Map(rlist, ValueOf));
      var kept := KeepWithin(rlist, z, OUTLIER_THRESHOLD);
      r := r + [(name, if kept == [] then rlist else kept)];
    }
  }

  // ---------------------------------------------------------------- one label

  function Sum(s: seq<real>): real {
    if s == [] then 0.0 else s[0] + Sum(s[1..])
  }

  function Mean(s: seq<real>): real
    requires s != []
  {
    Sum(s) / (|s| as real)
  }

  function SquareFrom(m: real): real -> real { v => (v - m) * (v - m) }

  function Squares(s: seq<real>): real
    requires s != []
  {
    Sum(Map(s, SquareFrom(Mean(s))))
  }

  /** statistics.stdev: the sample standard deviation. */
  function StdDev(s: seq<real>, root: real -> real): real
    requires |s| >= 2
  {
    root(Squares(s) / ((|s| - 1) as real))
  }

  predicate Steady(kept: seq<Result>, limit: real, root: real -> real) {
    |kept| >= 2 ==>
      var values := Map(kept, ValueOf);
      StdDev(values, root) <= limit * Mean(values)
  }

  function Chosen(kept: seq<Result>): (r: Result)
    requires kept != []
    ensures r in kept
  {
    if |kept| == 1 then kept[0]
    else
      SortSorts(kept, ValueOf);
      var r := SortBy(kept, ValueOf)[|kept| / 2];
      assert r in multiset(kept);
      r
  }

  function ChosenOf(kept: seq<Result>): seq<Result> {
    if kept == [] then [] else [Chosen(kept)]
  }

  /** The chosen results of the first n labels; a label without results is passed over. */
  function AllChosen(results: Results, iterations: nat, n: nat): seq<Result>
    requires n <= |results|
  {
    if n == 0 then []
    else
      AllChosen(results, iterations, n - 1) + ChosenOf(WithoutOutliers(results[n - 1].1, iterations))
  }

  /** No result is listed under two labels. */
  ghost predicate Disjoint(results: Results) {
    forall k, l, r :: 0 <= k < l < |results| && r in results[k].1 ==> r !in results[l].1
  }

  /** The standard deviation that a label leaves on its chosen result. */
  ghost function Deviation(kept: seq<Result>, before: real, root: real -> real): real {
    if |kept| >= 2 && before == 0.0 then StdDev(Map(kept, ValueOf), root) else before
  }

  /** The standard deviation of any result after its label has been processed. */
  ghost function NewStdDev(kept: seq<Result>, r: Result, before: real, root: real -> real): real {
    if kept != [] && r == Chosen(kept) then Deviation(kept, before, root) else before
  }

  /** After the first n labels, which may list a result more than once. */
  ghost function StdDevAfter(results: Results, iterations: nat, n: nat, r: Result, before: real,
                             root: real -> real): real
    requires n <= |results|
  {
    if n == 0 then before
    else
      NewStdDev(WithoutOutliers(results[n - 1].1, iterations), r,
                StdDevAfter(results, iterations, n - 1, r, before, root), root)
  }

  /** The body of the loop, for what is left of a label; `sorted` is its list afterwards. */
  method ProcessLabel(ghost all: set<Result>, rlist: seq<Result>, limit: real, root: real -> real)
    returns (steady: bool, chosen: seq<Result>, sorted: seq<Result>)
    requires forall r :: r in rlist ==> r in all
    modifies (set r | r in rlist)`stddev
    ensures steady == Steady(rlist, limit, root)
    ensures chosen == ChosenOf(rlist)
    ensures sorted == if |rlist| < 2 then rlist else SortBy(rlist, ValueOf)
    ensures forall r :: r in all ==> r.stddev == NewStdDev(rlist, r, old(r.stddev), root)
  {
    if |rlist| == 0 {
      return true, [], rlist;
    }
    if |rlist| == 1 {
      return true, [rlist[0]], rlist;
    }
    var values := Map(rlist, ValueOf);
    var stddev := StdDev(values, root);
    steady := stddev <= limit * Mean(values);
    sorted := SortBy(rlist, ValueOf);
    var median := sorted[|rlist| / 2];
    assert median == Chosen(rlist);
    if median.stddev == 0.0 {
      median.stddev := stddev;
    }
    chosen := [median];
  }

  /** A list that no outlier was removed from is still the caller's, and gets sorted; `after` are the caller's lists. */
  method ProcessResults(results: Results, thresholdOverride: Option<real>, stddevThreshold: real, iterations: nat,
                        root: real -> real)
    returns (valid: bool, processed: seq<Result>, after: seq<seq<Result>>)
    modifies AllResults(results)`stddev
    ensures var limit := if thresholdOverride.Some? then thresholdOverride.value else stddevThreshold;
            valid <==> forall k :: 0 <= k < |results| ==> Steady(WithoutOutliers(results[k].1, iterations), limit, root)
    ensures processed == AllChosen(results, iterations, |results|)
    ensures forall r :: r in AllResults(results) ==>
      r.stddev == StdDevAfter(results, iterations, |results|, r, old(r.stddev), root)
    ensures after == ListsAfter(results, iterations, |results|)
  {
    hide WithoutOutliers, Steady, ChosenOf, NewStdDev, SortBy, ListAfter;
    var limit := if thresholdOverride.Some? then thresholdOverride.value else stddevThreshold;
    var lists := RemoveOutliers(results, iterations);
    ghost var all := AllResults(results);
    valid, processed, after := true, [], [];
    for n := 0 to |lists|
      invariant valid == forall k :: 0 <= k < n ==> Steady(lists[k].1, limit, root)
      invariant processed == AllChosen(results, iterations, n)
      invariant after == ListsAfter(results, iterations, n)
      invariant forall r :: r in all ==> r.stddev == StdDevAfter(results, iterations, n, r, old(r.stddev), root)
    {
      InAll(results, n);
      var steady, chosen, sorted := ProcessLabel(all, lists[n].1, limit, root);
      valid := valid && steady;
      processed := processed + chosen;
      SortedList(results[n].1, iterations, sorted);
      after := after + [if |results[n].1| <= iterations then sorted else results[n].1];
    }
  }

  ghost function AllResults(results: Results): set<Result> {
    set k, r | 0 <= k < |results| && r in results[k].1 :: r
  }

  lemma InAll(results: Results, n: nat)
    requires n < |results|
    ensures forall r :: r in results[n].1 ==> r in AllResults(results)
  {
  }

  /** The caller's list of a label afterwards. */
  function ListAfter(rlist: seq<Result>, iterations: nat): seq<Result> {
    if 2 <= |rlist| <= iterations then SortBy(rlist, ValueOf) else rlist
  }

  function ListsAfter(results: Results, iterations: nat, n: nat): seq<seq<Result>>
    requires n <= |results|
  {
    if n == 0 then [] else ListsAfter(results, iterations, n - 1) + [ListAfter(results[n - 1].1, iterations)]
  }

  lemma SortedList(rlist: seq<Result>, iterations: nat, sorted: seq<Result>)
    requires var kept := WithoutOutliers(rlist, iterations);
             sorted == if |kept| < 2 then kept else SortBy(kept, ValueOf)
    ensures ListAfter(rlist, iterations) == if |rlist| <= iterations then sorted else rlist
  {
  }

  /** A list keeps its results; one of at most as many runs as iterations is sorted, any other untouched. */
  ghost predicate SortedInPlace(before: seq<Result>, after: seq<Result>, iterations: nat) {
    && multiset(after) == multiset(before)
    && (|before| <= iterations ==> SortedBy(after, ValueOf))
    && (|before| > iterations ==> after == before)
  }

  lemma {:induction false} CallerLists(results: Results, iterations: nat, n: nat)
    requires n <= |results|
    ensures |ListsAfter(results, iterations, n)| == n
    ensures forall k :: 0 <= k < n ==>
      SortedInPlace(results[k].1, ListsAfter(results, iterations, n)[k], iterations)
    decreases n
  {
    if n > 0 {
      hide SortBy, SortedInPlace, ListAfter;
      CallerLists(results, iterations, n - 1);
      CallerList(results[n - 1].1, iterations);
    }
  }

  lemma CallerList(rlist: seq<Result>, iterations: nat)
    ensures SortedInPlace(rlist, ListAfter(rlist, iterations), iterations)
  {
    SortSorts(rlist, ValueOf);
  }

  /** The labels below n that have results, in order. */
  ghost function LabelsWithResults(results: Results, n: nat): seq<nat>
    requires n <= |results|
  {
    if n == 0 then []
    else LabelsWithResults(results, n - 1) + if results[n - 1].1 == [] then [] else [n - 1]
  }

  lemma {:induction false} LabelsSpec(results: Results, n: nat)
    requires n <= |results|
    ensures var labels := LabelsWithResults(results, n);
            && (forall k: nat :: k in labels <==> k < n && results[k].1 != [])
            && (forall i, j :: 0 <= i < j < |labels| ==> labels[i] < labels[j])
    decreases n
  {
    if n > 0 {
      LabelsSpec(results, n - 1);
      var init := LabelsWithResults(results, n - 1);
      assert forall i :: 0 <= i < |init| ==> init[i] in init;
    }
  }

  /** A result is the one reported for label k. */
  ghost predicate Represents(results: Results, iterations: nat, r: Result, k: nat) {
    && k < |results| && r in results[k].1
    && (var kept := WithoutOutliers(results[k].1, iterations); kept != [] && r == Chosen(kept))
  }

  ghost predicate RepresentAll(results: Results, iterations: nat, chosen: seq<Result>, labels: seq<nat>) {
    |chosen| == |labels| && forall i :: 0 <= i < |chosen| ==> Represents(results, iterations, chosen[i], labels[i])
  }

  /** One result is reported for each label that has any, in the order of the labels. */
  lemma {:induction false} ReportedPerLabel(results: Results, iterations: nat, n: nat)
    requires n <= |results|
    ensures RepresentAll(results, iterations, AllChosen(results, iterations, n), LabelsWithResults(results, n))
    decreases n
  {
    hide *;
    if n == 0 {
      NoLabels(results, iterations);
    } else {
      ReportedPerLabel(results, iterations, n - 1);
      OneMoreLabel(results, iterations, n - 1);
    }
  }

  lemma NoLabels(results: Results, iterations: nat)
    ensures RepresentAll(results, iterations, AllChosen(results, iterations, 0), LabelsWithResults(results, 0))
  {
  }

  lemma OneMoreLabel(results: Results, iterations: nat, k: nat)
    requires k < |results|
    requires RepresentAll(results, iterations, AllChosen(results, iterations, k), LabelsWithResults(results, k))
    ensures RepresentAll(results, iterations, AllChosen(results, iterations, k + 1), LabelsWithResults(results, k + 1))
  {
    KeptNonEmpty(results[k].1, iterations);
    hide Chosen, WithoutOutliers;
    var chosen, labels := AllChosen(results, iterations, k), LabelsWithResults(results, k);
    if results[k].1 == [] {
      assert AllChosen(results, iterations, k + 1) == chosen;
      assert LabelsWithResults(results, k + 1) == labels;
    } else {
      var r := Chosen(WithoutOutliers(results[k].1, iterations));
      assert Represents(results, iterations, r, k);
      Representing(results, iterations, chosen, labels, r, k);
      assert AllChosen(results, iterations, k + 1) == chosen + [r];
    }
  }

  lemma Representing(results: Results, iterations: nat, chosen: seq<Result>, labels: seq<nat>, r: Result, k: nat)
    requires RepresentAll(results, iterations, chosen, labels) && Represents(results, iterations, r, k)
    ensures RepresentAll(results, iterations, chosen + [r], labels + [k])
  {
    hide Represents;
  }

  lemma KeptNonEmpty(rlist: seq<Result>, iterations: nat)
    ensures WithoutOutliers(rlist, iterations) == [] <==> rlist == []
  {
  }

  lemma {:induction false} StdDevOfOthers(results: Results, iterations: nat, n: nat, r: Result, before: real,
                                          root: real -> real)
    requires n <= |results| && forall k :: 0 <= k < n ==> r !in results[k].1
    ensures StdDevAfter(results, iterations, n, r, before, root) == before
    decreases n
  {
    hide WithoutOutliers, Chosen;
    if n > 0 {
      StdDevOfOthers(results, iterations, n - 1, r, before, root);
    }
  }

  /** Where no result is listed under two labels, its own label decides. */
  lemma {:induction false} StdDevOfOwnLabel(results: Results, iterations: nat, n: nat, k: nat, r: Result, before: real,
                                            root: real -> real)
    requires Disjoint(results) && k < n <= |results| && r in results[k].1
    ensures StdDevAfter(results, iterations, n, r, before, root)
            == NewStdDev(WithoutOutliers(results[k].1, iterations), r, before, root)
    decreases n
  {
    hide WithoutOutliers, Chosen;
    if k == n - 1 {
      StdDevOfOthers(results, iterations, k, r, before, root);
    } else {
      StdDevOfOwnLabel(results, iterations, n - 1, k, r, before, root);
    }
  }

  // ---------------------------------------------------------------- the order of the runs does not matter

  lemma {:induction false} SumOfRemoved(s: seq<real>, a: nat)
    requires a < |s|
    ensures Sum(s) == Sum(s[..a] + s[a + 1..]) + s[a]
    decreases a
  {
    if a == 0 {
      assert s[..0] + s[1..] == s[1..];
    } else {
      SumOfRemoved(s[1..], a - 1);
      RemovedTail(s, a);
    }
  }

  lemma {:induction false} SumOfPermutation(s: seq<real>, t: seq<real>)
    requires multiset(s) == multiset(t)
    ensures Sum(s) == Sum(t)
    decreases |s|
  {
    if s == [] {
      EmptyMultiset(t);
    } else {
      var a := FirstIn(s, t);
      SumOfPermutation(s[1..], t[..a] + t[a + 1..]);
      SumOfRemoved(t, a);
    }
  }

  lemma {:induction false} FilterOfRemoved<T>(s: seq<T>, a: nat, ok: T -> bool)
    requires a < |s|
    ensures multiset(Filter(s, ok))
            == multiset(Filter(s[..a] + s[a + 1..], ok)) + (if ok(s[a]) then multiset{s[a]} else multiset{})
    decreases a
  {
    if a == 0 {
      assert s[..0] + s[1..] == s[1..];
    } else {
      FilterOfRemoved(s[1..], a - 1, ok);
      RemovedTail(s, a);
    }
  }

  lemma {:induction false} FilterOfPermutation<T>(s: seq<T>, t: seq<T>, ok: T -> bool)
    requires multiset(s) == multiset(t)
    ensures multiset(Filter(s, ok)) == multiset(Filter(t, ok))
    decreases |s|
  {
    if s == [] {
      EmptyMultiset(t);
    } else {
      var a := FirstIn(s, t);
      FilterOfPermutation(s[1..], t[..a] + t[a + 1..], ok);
      FilterOfRemoved(t, a, ok);
    }
  }

  function ScoredWithin(g: real -> real, threshold: real): Result -> bool {
    (r: Result) => -threshold <= g(r.value) <= threshold
  }

  /** Whether a result survives depends on its value only, the median and the MAD being given. */
  lemma {:induction false} KeepIsFilter(rlist: seq<Result>, g: real -> real, threshold: real)
    ensures KeepWithin(rlist, Map(Map(rlist, ValueOf), g), threshold) == Filter(rlist, ScoredWithin(g, threshold))
    decreases |rlist|
  {
    if rlist != [] {
      KeepIsFilter(rlist[1..], g, threshold);
      assert Map(Map(rlist, ValueOf), g)[1..] == Map(Map(rlist[1..], ValueOf), g);
    }
  }

  lemma MedianOfPermutation(s: seq<real>, t: seq<real>)
    requires multiset(s) == multiset(t) && s != []
    ensures |s| == |t| && Median(s) == Median(t)
  {
    assert |s| == |multiset(s)| == |multiset(t)| == |t|;
    SortOfPermutation(s, t);
  }

  /** Permuted lists keep the same results. */
  lemma WithoutOutliersOfPermutation(xs: seq<Result>, ys: seq<Result>, iterations: nat)
    requires multiset(xs) == multiset(ys)
    ensures multiset(WithoutOutliers(xs, iterations)) == multiset(WithoutOutliers(ys, iterations))
  {
    hide Median, Map;
    assert |xs| == |multiset(xs)| == |multiset(ys)| == |ys|;
    if |xs| > iterations {
      var vx, vy := Map(xs, ValueOf), Map(ys, ValueOf);
      MapOfPermutation(xs, ys, ValueOf);
      MedianOfPermutation(vx, vy);
      var m := Median(vx);
      MapOfPermutation(vx, vy, DistanceFrom(m));
      MedianOfPermutation(Map(vx, DistanceFrom(m)), Map(vy, DistanceFrom(m)));
      var g := Score(m, Mad(vx));
      KeepIsFilter(xs, g, OUTLIER_THRESHOLD);
      KeepIsFilter(ys, g, OUTLIER_THRESHOLD);
      FilterOfPermutation(xs, ys, ScoredWithin(g, OUTLIER_THRESHOLD));
      FallbackNeverTaken(xs, iterations);
      FallbackNeverTaken(ys, iterations);
    }
  }

  lemma StdDevOfPermutation(s: seq<real>, t: seq<real>, root: real -> real)
    requires multiset(s) == multiset(t) && |s| >= 2
    ensures |s| == |t| && Mean(s) == Mean(t) && StdDev(s, root) == StdDev(t, root)
  {
    hide Map;
    assert |s| == |multiset(s)| == |multiset(t)| == |t|;
    SumOfPermutation(s, t);
    var f := SquareFrom(Mean(s));
    MapOfPermutation(s, t, f);
    SumOfPermutation(Map(s, f), Map(t, f));
  }

  /** The sample standard deviation divides by one less than the number of values. */
  lemma StdDevOfTwo(x: real, y: real, root: real -> real)
    ensures Mean([x, y]) == (x + y) / 2.0
    ensures StdDev([x, y], root) == root((x - y) * (x - y) / 2.0)
  {
    var m, d := (x + y) / 2.0, (x - y) / 2.0;
    assert Sum([x, y][1..]) == y;
    var squares := Map([x, y], SquareFrom(m));
    assert x - m == d && y - m == -d && (-d) * (-d) == d * d;
    assert squares[0] == d * d && squares[1] == d * d;
    assert squares == [d * d, d * d];
    assert Sum(squares[1..]) == d * d;
    assert d * d + d * d == (x - y) * (x - y) / 2.0;
  }

  // ---------------------------------------------------------------- mean and deviation

  lemma {:induction false} SumOfAffine(s: seq<real>, a: real, b: real)
    ensures Sum(Map(s, Affine(a, b))) == a * Sum(s) + b * (|s| as real)
    decreases |s|
  {
    if s != [] {
      SumOfAffine(s[1..], a, b);
      assert Map(s, Affine(a, b))[1..] == Map(s[1..], Affine(a, b));
      assert a * s[0] + a * Sum(s[1..]) == a * Sum(s);
    }
  }

  lemma MeanOfAffine(s: seq<real>, a: real, b: real)
    requires s != []
    ensures Mean(Map(s, Affine(a, b))) == a * Mean(s) + b
  {
    hide Sum, Map;
    SumOfAffine(s, a, b);
    Quotient(a, b, |s| as real, Sum(s));
  }

  lemma Quotient(a: real, b: real, n: real, sum: real)
    requires n > 0.0
    ensures (a * sum + b * n) / n == a * (sum / n) + b
  {
    var m := sum / n;
    assert a * sum + b * n == (a * m + b) * n;
  }

  /** A sum over a list, its first element taken apart. */
  lemma SumOfMap(s: seq<real>, f: real -> real)
    requires s != []
    ensures Sum(Map(s, f)) == f(s[0]) + Sum(Map(s[1..], f))
    ensures Map(s, f)[0] == f(s[0]) && Map(s, f)[1..] == Map(s[1..], f)
  {
  }

  /** y is a * a times x. */
  ghost predicate Scaled(a: real, x: real, y: real) { y == a * a * x }

  lemma {:induction false} SquaresOfAffine(s: seq<real>, a: real, b: real, m: real, m': real)
    requires m' == a * m + b
    ensures Scaled(a, Sum(Map(s, SquareFrom(m))), Sum(Map(Map(s, Affine(a, b)), SquareFrom(m'))))
    ensures Sum(Map(s, SquareFrom(m))) >= 0.0
    decreases |s|
  {
    if s != [] {
      hide Sum, Map, Scaled;
      SquaresOfAffine(s[1..], a, b, m, m');
      SumOfMap(s, Affine(a, b));
      SumOfMap(s, SquareFrom(m));
      SumOfMap(Map(s, Affine(a, b)), SquareFrom(m'));
      SquareOfAffine(s[0], a, b, m, m', Sum(Map(s[1..], SquareFrom(m))),
                     Sum(Map(Map(s[1..], Affine(a, b)), SquareFrom(m'))));
    }
  }

  lemma SquareOfAffine(v: real, a: real, b: real, m: real, m': real, rest: real, rest': real)
    requires m' == a * m + b && Scaled(a, rest, rest')
    ensures Scaled(a, SquareFrom(m)(v) + rest, SquareFrom(m')(Affine(a, b)(v)) + rest')
    ensures SquareFrom(m)(v) >= 0.0
  {
    var d := v - m;
    assert a * v + b - m' == a * d;
    assert (a * d) * (a * d) == a * a * (d * d);
  }

  /** What a square root is. */
  ghost predicate SquareRoot(root: real -> real) {
    forall x :: x >= 0.0 ==> root(x) >= 0.0 && root(x) * root(x) == x
  }

  /** STEADINESS, for every number of results: a label is steady exactly if it has less than two, or the sum of the
      squared distances from the mean is at most one less than their number times the square of the limit, which is a
      share of the mean and not negative. */
  lemma SteadyExactly(kept: seq<Result>, limit: real, root: real -> real)
    requires SquareRoot(root)
    ensures |kept| < 2 ==> Steady(kept, limit, root)
    ensures |kept| >= 2 ==>
      var values := Map(kept, ValueOf);
      var t := limit * Mean(values);
      Steady(kept, limit, root)
      <==> t >= 0.0 && Sum(Map(values, SquareFrom(Mean(values)))) <= ((|kept| - 1) as real) * (t * t)
  {
    hide Map, Sum, Mean, SquareRoot, Affine, SquareFrom, Scaled;
    if |kept| >= 2 {
      var values := Map(kept, ValueOf);
      SquaresMoved(values, 1.0, 0.0);
      RootAtMost(root, Squares(values), (|kept| - 1) as real, limit * Mean(values));
    }
  }

  lemma RootAtMost(root: real -> real, q: real, n: real, t: real)
    requires SquareRoot(root) && q >= 0.0 && n > 0.0
    ensures root(q / n) <= t <==> t >= 0.0 && q <= n * (t * t)
  {
    var x := q / n;
    QuotientOf(1.0, q, n);
    assert q == n * x;
    var r := root(x);
    assert r >= 0.0 && r * r == x;
    SquaresCompare(r, t, n);
  }

  lemma Opposite(a: real, b: real)
    requires a < 0.0 < b
    ensures a * b < 0.0
  {
  }

  lemma SquaresCompare(r: real, t: real, n: real)
    requires r >= 0.0 && n > 0.0
    ensures r <= t <==> t >= 0.0 && n * (r * r) <= n * (t * t)
  {
    if t >= 0.0 {
      assert t * t - r * r == (t - r) * (t + r);
      assert r <= t ==> (t - r) * (t + r) >= 0.0;
      if r > t { Opposite(t - r, t + r); }
      var d := t * t - r * r;
      assert n * (t * t) - n * (r * r) == n * d;
      assert d >= 0.0 ==> n * d >= 0.0;
      assert d < 0.0 ==> n * d < 0.0;
    }
  }

  /** What a square root does with a square. */
  ghost predicate Homogeneous(root: real -> real, a: real) {
    forall x, y :: x >= 0.0 && Scaled(a, x, y) ==> root(y) == Abs(a) * root(x)
  }

  /** The standard deviation moves with the unit, and not with the zero point. */
  lemma StdDevOfAffine(s: seq<real>, a: real, b: real, root: real -> real)
    requires |s| >= 2 && Homogeneous(root, a)
    ensures StdDev(Map(s, Affine(a, b)), root) == Abs(a) * StdDev(s, root)
  {
    hide Map, Squares, Abs, Affine, Scaled, Homogeneous;
    SquaresMoved(s, a, b);
    RootOf(a, Squares(s), Squares(Map(s, Affine(a, b))), (|s| - 1) as real, root);
  }

  lemma SquaresMoved(s: seq<real>, a: real, b: real)
    requires s != []
    ensures Scaled(a, Squares(s), Squares(Map(s, Affine(a, b)))) && Squares(s) >= 0.0
  {
    hide Sum, Mean, Map, Affine, SquareFrom, Scaled;
    MeanOfAffine(s, a, b);
    SquaresOfAffine(s, a, b, Mean(s), Mean(Map(s, Affine(a, b))));
  }

  lemma RootOf(a: real, x: real, y: real, n: real, root: real -> real)
    requires n > 0.0 && x >= 0.0 && Scaled(a, x, y) && Homogeneous(root, a)
    ensures root(y / n) == Abs(a) * root(x / n)
  {
    hide Scaled, Abs;
    ScaledQuotient(a, x, y, n);
  }

  lemma ScaledQuotient(a: real, x: real, y: real, n: real)
    requires n > 0.0 && x >= 0.0 && Scaled(a, x, y)
    ensures Scaled(a, x / n, y / n) && x / n >= 0.0
  {
    QuotientOf(a * a, x, n);
  }

  lemma QuotientOf(y: real, q: real, n: real)
    requires n > 0.0 && q >= 0.0
    ensures y * q / n == y * (q / n) && q / n >= 0.0
  {
  }

  /** Whether a label is steady does not depend on the unit of measurement. */
  lemma SteadyInAnyUnit(kept: seq<Result>, scaled: seq<Result>, a: real, limit: real, root: real -> real)
    requires a > 0.0 && Homogeneous(root, a)
    requires Map(scaled, ValueOf) == Map(Map(kept, ValueOf), Affine(a, 0.0))
    ensures |scaled| == |kept| && Steady(scaled, limit, root) == Steady(kept, limit, root)
  {
    hide Map, Mean, StdDev, Homogeneous, Abs;
    var values := Map(kept, ValueOf);
    if |kept| >= 2 {
      MeanOfAffine(values, a, 0.0);
      StdDevOfAffine(values, a, 0.0, root);
      ScaledLimit(a, StdDev(values, root), limit, Mean(values));
    }
  }

  lemma ScaledLimit(a: real, x: real, limit: real, mean: real)
    requires a > 0.0
    ensures Abs(a) * x <= limit * (a * mean + 0.0) <==> x <= limit * mean
  {
    assert limit * (a * mean) == a * (limit * mean);
    if x > limit * mean {
      assert a * (x - limit * mean) > 0.0;
    } else {
      assert a * (limit * mean - x) >= 0.0;
    }
  }

  lemma {:induction false} SquaresFromElsewhere(s: seq<real>, c: real, d: real)
    ensures Sum(Map(s, SquareFrom(c))) == Sum(Map(s, SquareFrom(d))) + Shift(d - c, |s| as real, Sum(s), d)
    decreases |s|
  {
    if s != [] {
      SquaresFromElsewhere(s[1..], c, d);
      hide Map;
      SumOfMap(s, SquareFrom(c));
      SumOfMap(s, SquareFrom(d));
      ShiftOne(s[0], c, d, |s[1..]| as real, Sum(s[1..]));
    }
  }

  /** How the squared distances of n values of some sum from d change in all when d moves by e. */
  ghost function Shift(e: real, n: real, sum: real, d: real): real {
    2.0 * (e * (sum - n * d)) + n * (e * e)
  }

  lemma ShiftOne(v: real, c: real, d: real, n: real, sum: real)
    ensures SquareFrom(c)(v) + Shift(d - c, n, sum, d) == SquareFrom(d)(v) + Shift(d - c, n + 1.0, v + sum, d)
  {
    var e, w := d - c, v - d;
    assert (v - c) * (v - c) == (w + e) * (w + e) == w * w + 2.0 * (w * e) + e * e;
    assert e * (v + sum - (n + 1.0) * d) == e * (sum - n * d) + w * e;
  }

  /** The sum of squares in the standard deviation is taken from where it is least: any other point adds its distance
      from the mean, squared, for every value. */
  lemma MeanIsLeastSquares(s: seq<real>, c: real)
    requires s != []
    ensures var m := Mean(s);
            Sum(Map(s, SquareFrom(c))) == Sum(Map(s, SquareFrom(m))) + (|s| as real) * ((m - c) * (m - c))
    ensures Sum(Map(s, SquareFrom(Mean(s)))) <= Sum(Map(s, SquareFrom(c)))
  {
    hide Map, Sum;
    SquaresFromElsewhere(s, c, Mean(s));
    ShiftFromMean(Mean(s) - c, |s| as real, Sum(s));
  }

  lemma ShiftFromMean(e: real, n: real, sum: real)
    requires n > 0.0
    ensures Shift(e, n, sum, sum / n) == n * (e * e) >= 0.0
  {
    assert sum - n * (sum / n) == 0.0;
  }

  // ---------------------------------------------------------------- the result of a label

  /** The value that stands for a label: the middle one of the sorted values, and of two middle ones the greater. */
  lemma ChosenValue(kept: seq<Result>)
    requires kept != []
    ensures Chosen(kept).value == Sort(Map(kept, ValueOf))[|kept| / 2]
    ensures |kept| % 2 == 1 ==> Chosen(kept).value == Median(Map(kept, ValueOf))
    ensures Chosen(kept).value >= Median(Map(kept, ValueOf))
  {
    MiddleBelowMedian(Map(kept, ValueOf));
    KeysOfSort(kept, ValueOf);
    assert Map(SortBy(kept, ValueOf), ValueOf)[|kept| / 2] == SortBy(kept, ValueOf)[|kept| / 2].value;
    if |kept| == 1 {
      SortSorts(kept, ValueOf);
      assert SortBy(kept, ValueOf)[0] in multiset(kept);
    }
  }

  /** Whatever order a label's runs came in, it is judged alike and the same value stands for it. */
  lemma LabelOrderIndependent(xs: seq<Result>, ys: seq<Result>, iterations: nat, limit: real, root: real -> real)
    requires multiset(xs) == multiset(ys)
    ensures var kx, ky := WithoutOutliers(xs, iterations), WithoutOutliers(ys, iterations);
            && Steady(kx, limit, root) == Steady(ky, limit, root)
            && |kx| == |ky|
            && (kx != [] ==> Chosen(kx).value == Chosen(ky).value)
  {
    hide Median, Map, WithoutOutliers, StdDev, Mean;
    var kx, ky := WithoutOutliers(xs, iterations), WithoutOutliers(ys, iterations);
    WithoutOutliersOfPermutation(xs, ys, iterations);
    assert |kx| == |multiset(kx)| == |multiset(ky)| == |ky|;
    if kx != [] {
      MapOfPermutation(kx, ky, ValueOf);
      ChosenValue(kx);
      ChosenValue(ky);
      SortOfPermutation(Map(kx, ValueOf), Map(ky, ValueOf));
      if |kx| >= 2 {
        StdDevOfPermutation(Map(kx, ValueOf), Map(ky, ValueOf), root);
      }
    }
  }

  /** The same for whole rounds: permuting the lists changes neither the verdict nor the reported values. */
  lemma OrderIndependent(a: Results, b: Results, iterations: nat, limit: real, root: real -> real, n: nat)
    requires |a| == |b| && n <= |a|
    requires forall k :: 0 <= k < |a| ==> multiset(a[k].1) == multiset(b[k].1)
    ensures (forall k :: 0 <= k < |a| ==> Steady(WithoutOutliers(a[k].1, iterations), limit, root))
            <==> (forall k :: 0 <= k < |b| ==> Steady(WithoutOutliers(b[k].1, iterations), limit, root))
    ensures Map(AllChosen(a, iterations, n), ValueOf) == Map(AllChosen(b, iterations, n), ValueOf)
  {
    hide WithoutOutliers, Steady, Map, AllChosen;
    forall k | 0 <= k < |a|
      ensures Steady(WithoutOutliers(a[k].1, iterations), limit, root)
              == Steady(WithoutOutliers(b[k].1, iterations), limit, root)
    {
      LabelOrderIndependent(a[k].1, b[k].1, iterations, limit, root);
    }
    ValuesOrderIndependent(a, b, iterations, n);
  }

  lemma {:induction false} ValuesOrderIndependent(a: Results, b: Results, iterations: nat, n: nat)
    requires |a| == |b| && n <= |a|
    requires forall k :: 0 <= k < |a| ==> multiset(a[k].1) == multiset(b[k].1)
    ensures Map(AllChosen(a, iterations, n), ValueOf) == Map(AllChosen(b, iterations, n), ValueOf)
    decreases n
  {
    hide *;
    if n == 0 {
      NothingReported(a, iterations);
      NothingReported(b, iterations);
    } else {
      ValuesOrderIndependent(a, b, iterations, n - 1);
      LabelOrderIndependent(a[n - 1].1, b[n - 1].1, iterations, 0.0, Same);
      SameReported(a, b, iterations, n - 1);
    }
  }

  lemma NothingReported(results: Results, iterations: nat)
    ensures AllChosen(results, iterations, 0) == []
  {
  }

  lemma SameReported(a: Results, b: Results, iterations: nat, k: nat)
    requires k < |a| == |b|
    requires Map(AllChosen(a, iterations, k), ValueOf) == Map(AllChosen(b, iterations, k), ValueOf)
    requires var kx, ky := WithoutOutliers(a[k].1, iterations), WithoutOutliers(b[k].1, iterations);
             |kx| == |ky| && (kx != [] ==> Chosen(kx).value == Chosen(ky).value)
    ensures Map(AllChosen(a, iterations, k + 1), ValueOf) == Map(AllChosen(b, iterations, k + 1), ValueOf)
  {
    hide WithoutOutliers, Chosen;
    var kx, ky := WithoutOutliers(a[k].1, iterations), WithoutOutliers(b[k].1, iterations);
    MapOfConcat(AllChosen(a, iterations, k), ChosenOf(kx));
    MapOfConcat(AllChosen(b, iterations, k), ChosenOf(ky));
    assert Map(ChosenOf(kx), ValueOf) == Map(ChosenOf(ky), ValueOf);
  }

  lemma MapOfConcat(s: seq<Result>, t: seq<Result>)
    ensures Map(s + t, ValueOf) == Map(s, ValueOf) + Map(t, ValueOf)
  {
    hide Map;
    assert Map(s + t, ValueOf) == Map(s, ValueOf) + Map(t, ValueOf);
  }
}
