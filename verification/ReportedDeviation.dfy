/**
 The standard deviation reported for a label by scripts/benchmarks/main.py. It is taken from the median result itself,
 if that has one, and so may depend on the order of the runs although the reported value does not. The theorem says
 when.
 */
module ReportedDeviation {
  import opened Sequences
  import opened Sorting
  import opened Statistics
  import opened Benchmarks

  /** What is reported for a label, `before` being the deviations that its results came with. */
  ghost function Reported(rlist: seq<Result>, iterations: nat, before: Result -> real, root: real -> real): real {
    var kept := WithoutOutliers(rlist, iterations);
    if kept == [] then 0.0 else Deviation(kept, before(Chosen(kept)), root)
  }

  // ---------------------------------------------------------------- the chosen result, by its place in the list

  lemma {:induction false} KeepOfMap<U, T>(s: seq<U>, f: U -> T, z: seq<real>, threshold: real)
    requires |s| == |z|
    ensures KeepWithin(Map(s, f), z, threshold) == Map(KeepWithin(s, z, threshold), f)
    decreases |s|
  {
    if s != [] {
      MapTail(s, f);
      KeepOfMap(s[1..], f, z[1..], threshold);
    }
  }

  /** The places of the results that survive, given the values. */
  ghost function KeptPlaces(values: seq<real>, iterations: nat): (r: seq<nat>)
    requires values != []
    ensures r != [] && forall i :: i in r ==> i < |values|
  {
    var all := Indices(|values|);
    if |values| <= iterations then all
    else
      HalfScoresLow(values, OUTLIER_THRESHOLD);
      KeepWithin(all, ModifiedZScore(values), OUTLIER_THRESHOLD)
  }

  lemma KeptAt(rlist: seq<Result>, iterations: nat)
    requires rlist != []
    ensures WithoutOutliers(rlist, iterations) == Map(KeptPlaces(Map(rlist, ValueOf), iterations), At(rlist))
  {
    var values := Map(rlist, ValueOf);
    var all: seq<nat> := Indices(|rlist|);
    assert Map(all, At(rlist)) == rlist;
    if |rlist| > iterations {
      KeepOfMap(all, At(rlist), ModifiedZScore(values), OUTLIER_THRESHOLD);
      FallbackNeverTaken(rlist, iterations);
    }
  }

  /** The place of the chosen result, given the values. */
  ghost function ChosenPlace(values: seq<real>, iterations: nat): (i: nat)
    requires values != []
    ensures i < |values|
  {
    var places := KeptPlaces(values, iterations);
    var keys := Map(places, At(values));
    var m := if |places| == 1 then 0 else Position(keys, |places| / 2);
    assert places[m] in places;
    places[m]
  }

  lemma ChosenAt(rlist: seq<Result>, iterations: nat)
    requires rlist != []
    ensures var kept := WithoutOutliers(rlist, iterations);
            kept != [] && Chosen(kept) == rlist[ChosenPlace(Map(rlist, ValueOf), iterations)]
  {
    hide WithoutOutliers, KeptPlaces, Map, SortBy, Position;
    var values, kept := Map(rlist, ValueOf), WithoutOutliers(rlist, iterations);
    var places := KeptPlaces(values, iterations);
    KeptAt(rlist, iterations);
    assert forall i :: 0 <= i < |places| ==> places[i] in places;
    assert Map(kept, ValueOf) == Map(places, At(values));
    if |kept| > 1 {
      SortedAt(kept, ValueOf, |kept| / 2);
    }
  }

  // ---------------------------------------------------------------- exchanging two results

  ghost function Exchanged(s: seq<Result>, a: nat, b: nat): seq<Result>
    requires a < |s| && b < |s|
  {
    s[a := s[b]][b := s[a]]
  }

  lemma ExchangedSame(s: seq<Result>, a: nat, b: nat)
    requires a < |s| && b < |s| && s[a].value == s[b].value
    ensures multiset(Exchanged(s, a, b)) == multiset(s) && Map(Exchanged(s, a, b), ValueOf) == Map(s, ValueOf)
    ensures Exchanged(s, a, b)[a] == s[b]
  {
    ExchangedMultiset(s, a, b);
    ExchangedValues(s, a, b);
  }

  lemma ExchangedValues(s: seq<Result>, a: nat, b: nat)
    requires a < |s| && b < |s| && s[a].value == s[b].value
    ensures Map(Exchanged(s, a, b), ValueOf) == Map(s, ValueOf)
  {
    hide Map;
    var t := Exchanged(s, a, b);
    assert forall i :: 0 <= i < |s| ==> t[i].value == s[i].value;
    assert Map(t, ValueOf) == Map(s, ValueOf);
  }

  lemma ExchangedMultiset(s: seq<Result>, a: nat, b: nat)
    requires a < |s| && b < |s|
    ensures multiset(Exchanged(s, a, b)) == multiset(s)
  {
    var t := s[a := s[b]];
    assert multiset(t) == multiset(s) - multiset{s[a]} + multiset{s[b]};
    assert multiset(t[b := s[a]]) == multiset(t) - multiset{t[b]} + multiset{s[a]};
  }

  /** Any surviving result with the reported value is chosen in some order of the runs. */
  lemma AnyMayBeChosen(rlist: seq<Result>, iterations: nat, r: Result) returns (ys: seq<Result>)
    requires r in WithoutOutliers(rlist, iterations)
    requires r.value == Chosen(WithoutOutliers(rlist, iterations)).value
    ensures multiset(ys) == multiset(rlist) && WithoutOutliers(ys, iterations) != []
    ensures Chosen(WithoutOutliers(ys, iterations)) == r
  {
    hide WithoutOutliers, Chosen, Map;
    var a := ChosenPlace(Map(rlist, ValueOf), iterations);
    ChosenAt(rlist, iterations);
    var b :| 0 <= b < |rlist| && rlist[b] == r;
    ys := Exchanged(rlist, a, b);
    ExchangedSame(rlist, a, b);
    ChosenAt(ys, iterations);
  }

  // ---------------------------------------------------------------- the theorem

  /** The deviation that a label would get from any order of its runs. */
  lemma DeviationOfPermutation(xs: seq<Result>, ys: seq<Result>, iterations: nat, before: real, root: real -> real)
    requires multiset(xs) == multiset(ys)
    ensures Deviation(WithoutOutliers(xs, iterations), before, root)
            == Deviation(WithoutOutliers(ys, iterations), before, root)
  {
    hide WithoutOutliers, Map, StdDev;
    var kx, ky := WithoutOutliers(xs, iterations), WithoutOutliers(ys, iterations);
    WithoutOutliersOfPermutation(xs, ys, iterations);
    SameMembers(kx, ky);
    if |kx| >= 2 {
      MapOfPermutation(kx, ky, ValueOf);
      StdDevOfPermutation(Map(kx, ValueOf), Map(ky, ValueOf), root);
    }
  }

  /** The reported deviation is the same for every order of the runs if and only if all surviving results that have the
      reported value would get the same one. */
  lemma ReportedExactly(rlist: seq<Result>, iterations: nat, before: Result -> real, root: real -> real)
    requires rlist != []
    ensures var kept := WithoutOutliers(rlist, iterations);
            && kept != []
            && ((forall ys :: multiset(ys) == multiset(rlist) ==>
                   Reported(ys, iterations, before, root) == Reported(rlist, iterations, before, root))
                <==> forall r :: r in kept && r.value == Chosen(kept).value ==>
                       Deviation(kept, before(r), root) == Deviation(kept, before(Chosen(kept)), root))
  {
    hide WithoutOutliers, Chosen, Deviation;
    var kept := WithoutOutliers(rlist, iterations);
    ChosenAt(rlist, iterations);
    forall r | r in kept && r.value == Chosen(kept).value
      ensures exists ys :: multiset(ys) == multiset(rlist) &&
                           Reported(ys, iterations, before, root) == Deviation(kept, before(r), root)
    {
      var ys := AnyMayBeChosen(rlist, iterations, r);
      DeviationOfPermutation(rlist, ys, iterations, before(r), root);
      assert Reported(ys, iterations, before, root) == Deviation(kept, before(r), root);
    }
    forall ys | multiset(ys) == multiset(rlist)
      ensures exists r :: r in kept && r.value == Chosen(kept).value &&
                          Reported(ys, iterations, before, root) == Deviation(kept, before(r), root)
    {
      var r := ReportedFrom(rlist, ys, iterations, before, root);
    }
  }

  lemma ReportedFrom(xs: seq<Result>, ys: seq<Result>, iterations: nat, before: Result -> real, root: real -> real)
    returns (r: Result)
    requires xs != [] && multiset(xs) == multiset(ys)
    ensures var kept := WithoutOutliers(xs, iterations);
            && r in kept && r.value == Chosen(kept).value
            && Reported(ys, iterations, before, root) == Deviation(kept, before(r), root)
  {
    hide WithoutOutliers, Chosen, Deviation, Steady;
    SameMembers(xs, ys);
    ChosenAt(ys, iterations);
    r := Chosen(WithoutOutliers(ys, iterations));
    WithoutOutliersOfPermutation(xs, ys, iterations);
    SameMembers(WithoutOutliers(xs, iterations), WithoutOutliers(ys, iterations));
    LabelOrderIndependent(xs, ys, iterations, 0.0, root);
    DeviationOfPermutation(xs, ys, iterations, before(r), root);
  }

  /** Concrete: of two runs with one value, one with a deviation and one without, the later one is reported. */
  lemma ReportedDependsOnOrder(a: Result, b: Result, iterations: nat, before: Result -> real, root: real -> real)
    requires a.value == b.value == 5.0 && before(a) == 0.0 && before(b) == 2.0 && iterations >= 2 && root(0.0) == 0.0
    ensures Reported([a, b], iterations, before, root) == 2.0
    ensures Reported([b, a], iterations, before, root) == 0.0
  {
    LaterChosen(a, b);
    LaterChosen(b, a);
    StdDevOfTwo(5.0, 5.0, root);
    assert Map([b, a], ValueOf) == [5.0, 5.0];
  }

  lemma LaterChosen(a: Result, b: Result)
    requires a.value == b.value
    ensures Chosen([a, b]) == b
  {
    assert [a, b][1..] == [b] && [b][1..] == [];
    assert SortBy([b], ValueOf) == [b];
    assert SortBy([a, b], ValueOf) == [a, b];
  }
}
