/**
 Whether the order of the input lines matters to unordered mode of cmake/match.py. The main theorem says for exactly
 which match files it never does.
 */
module MatchInputOrder {
  import opened Options
  import opened Sequences
  import opened MatchFile
  import opened MatchUnordered

  /** Of two lines that share a string, the upper one accepts all that the lower one accepts. */
  ghost predicate Inclusive(re: Matcher, lines: seq<Line>, on: string -> bool) {
    forall j, k, s, t :: 0 <= j < k < |lines| && on(s) && on(t)
                         && Accepts(re, lines[j], s) && Accepts(re, lines[k], s) && Accepts(re, lines[j], t)
                         ==> Accepts(re, lines[k], t)
  }

  lemma {:induction false} SameScan(re: Matcher, lines: seq<Line>, s: string, t: string, a: set<nat>, b: set<nat>,
                                    j: nat)
    requires j <= |lines|
    requires forall m :: j <= m < |lines| ==>
      ((Accepts(re, lines[m], s) && m !in a) <==> (Accepts(re, lines[m], t) && m !in b))
    ensures ScanFrom(re, lines, s, a, j) == ScanFrom(re, lines, t, b, j)
    decreases |lines| - j
  {
    if j < |lines| {
      SameScan(re, lines, s, t, a, b, j + 1);
    }
  }

  /** Two neighbouring input lines may change places. */
  lemma SwapFirstTwo(re: Matcher, lines: seq<Line>, s: string, t: string, rest: seq<string>, matched: set<nat>,
                     on: string -> bool)
    requires NoIgnore(lines) && Inclusive(re, lines, on) && on(s) && on(t)
    ensures Unordered(re, lines, [s, t] + rest, matched) == Unordered(re, lines, [t, s] + rest, matched)
  {
    hide Inclusive;
    ScanFinds(re, lines, s, matched, 0);
    ScanFinds(re, lines, t, matched, 0);
    var fs, ft := ScanFrom(re, lines, s, matched, 0), ScanFrom(re, lines, t, matched, 0);
    assert ([s, t] + rest)[1..] == [t] + rest && ([t, s] + rest)[1..] == [s] + rest;
    assert ([t] + rest)[1..] == rest && ([s] + rest)[1..] == rest;
    if fs.Found? && fs == ft {
      SameAbove(re, lines, s, t, matched, fs.line, on);
      SameScan(re, lines, s, t, matched + {fs.line}, matched + {fs.line}, 0);
    } else {
      if fs.Found? { ScanUndisturbed(re, lines, t, matched, fs.line); }
      if ft.Found? { ScanUndisturbed(re, lines, s, matched, ft.line); }
      if fs.Found? && ft.Found? {
        assert matched + {fs.line} + {ft.line} == matched + {ft.line} + {fs.line};
      }
    }
  }

  /** If the scans for s and t stop at the same line, the same lines above it accept them. */
  lemma SameAbove(re: Matcher, lines: seq<Line>, s: string, t: string, matched: set<nat>, j: nat, on: string -> bool)
    requires Inclusive(re, lines, on) && on(s) && on(t) && j < |lines|
    requires Accepts(re, lines[j], s) && Accepts(re, lines[j], t)
    requires forall m :: 0 <= m < j && m !in matched ==> !Accepts(re, lines[m], s) && !Accepts(re, lines[m], t)
    ensures forall m :: 0 <= m < |lines| && m !in matched + {j} ==>
                          (Accepts(re, lines[m], s) <==> Accepts(re, lines[m], t))
  {
  }

  /** A line taken by another input does not change what the scan finds. */
  lemma ScanUndisturbed(re: Matcher, lines: seq<Line>, s: string, matched: set<nat>, x: nat)
    requires NoIgnore(lines) && ScanFrom(re, lines, s, matched, 0) != Found(x)
    ensures ScanFrom(re, lines, s, matched + {x}, 0) == ScanFrom(re, lines, s, matched, 0)
  {
    ScanFinds(re, lines, s, matched, 0);
    ScanFinds(re, lines, s, matched + {x}, 0);
  }

  /** An input line may move to the front. */
  lemma {:induction false} MoveToFront(re: Matcher, lines: seq<Line>, inputs: seq<string>, a: nat, matched: set<nat>,
                                       on: string -> bool)
    requires NoIgnore(lines) && Inclusive(re, lines, on) && a < |inputs|
    requires forall x :: x in inputs ==> on(x)
    ensures Unordered(re, lines, inputs, matched)
            == Unordered(re, lines, [inputs[a]] + inputs[..a] + inputs[a + 1..], matched)
    decreases a
  {
    hide Inclusive, NoIgnore;
    var x := inputs[a];
    if a == 0 {
      assert [x] + inputs[..0] + inputs[1..] == inputs;
    } else {
      var y := inputs[0];
      var tail := inputs[1..][..a - 1] + inputs[1..][a..];
      assert [x] + inputs[1..][..a - 1] + inputs[1..][a..] == [x] + tail;
      var scan := ScanFrom(re, lines, y, matched, 0);
      if scan.Found? {
        MoveToFront(re, lines, inputs[1..], a - 1, matched + {scan.line}, on);
      }
      assert ([y, x] + tail)[1..] == [x] + tail;
      assert Unordered(re, lines, inputs, matched) == Unordered(re, lines, [y, x] + tail, matched);
      SwapFirstTwo(re, lines, y, x, tail, matched, on);
      assert [x, y] + tail == [x] + inputs[..a] + inputs[a + 1..];
    }
  }

  lemma {:induction false} PermutedVerdict(re: Matcher, lines: seq<Line>, xs: seq<string>, ys: seq<string>,
                                           matched: set<nat>, on: string -> bool)
    requires NoIgnore(lines) && Inclusive(re, lines, on)
    requires forall x :: x in xs ==> on(x)
    requires multiset(xs) == multiset(ys)
    ensures Unordered(re, lines, xs, matched) == Unordered(re, lines, ys, matched)
    decreases |xs|
  {
    if xs == [] {
      EmptyMultiset(ys);
    } else {
      var a := FirstIn(xs, ys);
      assert forall y :: y in ys ==> y in multiset(xs);
      MoveToFront(re, lines, ys, a, matched, on);
      var tail := ys[..a] + ys[a + 1..];
      assert [ys[a]] + ys[..a] + ys[a + 1..] == [xs[0]] + tail;
      assert ([xs[0]] + tail)[1..] == tail;
      var scan := ScanFrom(re, lines, xs[0], matched, 0);
      if scan.Found? {
        PermutedVerdict(re, lines, xs[1..], tail, matched + {scan.line}, on);
      }
    }
  }

  /** Permuting the input lines does not change whether unordered mode passes, required and optional lines mixed. */
  lemma OrderIndependent(re: Matcher, lines: seq<Line>, xs: seq<string>, ys: seq<string>)
    requires Inclusive(re, lines, AmongInputs(xs))
    requires multiset(xs) == multiset(ys)
    ensures Unordered(re, lines, xs, {}) == Pass <==> Unordered(re, lines, ys, {}) == Pass
  {
    if m :| 0 <= m < |lines| && lines[m].tag == Ignore {
      IgnoreNeverPasses(re, lines, xs, m);
      IgnoreNeverPasses(re, lines, ys, m);
    } else {
      PermutedVerdict(re, lines, xs, ys, {}, AmongInputs(xs));
    }
  }

  // ---------------------------------------------------------------- when the order matters

  /** Inputs to be fed in the order of the lines meant for them, some lines getting none. */
  ghost function Given(picks: seq<Option<string>>): seq<string> {
    if picks == [] then []
    else
      var last := picks[|picks| - 1];
      Given(picks[..|picks| - 1]) + if last.Some? then [last.value] else []
  }

  ghost function GivenTo(picks: seq<Option<string>>): set<nat> {
    set m: nat | m < |picks| && picks[m].Some?
  }

  /** Each line accepts what it is meant to get, and a line that gets none accepts nothing at all. */
  ghost predicate Fitting(re: Matcher, lines: seq<Line>, picks: seq<Option<string>>) {
    && |picks| <= |lines|
    && (forall m :: 0 <= m < |picks| && picks[m].Some? ==> Accepts(re, lines[m], picks[m].value))
    && (forall m, x :: 0 <= m < |picks| && picks[m].None? ==> !Accepts(re, lines[m], x))
  }

  /** In that order each input finds its line. */
  lemma {:induction false} FedInOrder(re: Matcher, lines: seq<Line>, picks: seq<Option<string>>, rest: seq<string>)
    requires NoIgnore(lines) && Fitting(re, lines, picks)
    ensures Unordered(re, lines, Given(picks) + rest, {}) == Unordered(re, lines, rest, GivenTo(picks))
    decreases |picks|
  {
    hide Unordered;
    if picks == [] {
      assert Given(picks) + rest == rest;
      assert GivenTo(picks) == {};
    } else {
      var n := |picks| - 1;
      var init := picks[..n];
      if picks[n].None? {
        FedInOrder(re, lines, init, rest);
        assert Given(picks) == Given(init) && GivenTo(picks) == GivenTo(init);
      } else {
        var x := picks[n].value;
        FedInOrder(re, lines, init, [x] + rest);
        assert Given(picks) + rest == Given(init) + ([x] + rest);
        FillOne(re, lines, x, n, GivenTo(init), rest);
        assert GivenTo(picks) == GivenTo(init) + {n};
      }
    }
  }

  ghost predicate AcceptsSomething(re: Matcher, line: Line) {
    exists x :: Accepts(re, line, x)
  }

  /** Lines accepting t get t; line k and the lines below j accepting s get s; all others what they accept. */
  ghost function Pick(re: Matcher, lines: seq<Line>, j: nat, k: nat, s: string, t: string, m: nat): Option<string>
    requires m < |lines|
  {
    if Accepts(re, lines[m], t) then Some(t)
    else if (m < j || m == k) && Accepts(re, lines[m], s) then Some(s)
    else if AcceptsSomething(re, lines[m]) then var x :| Accepts(re, lines[m], x); Some(x)
    else None
  }

  lemma {:induction false} AtLeast(re: Matcher, lines: seq<Line>, picks: seq<Option<string>>, s: string)
    requires |picks| <= |lines| && forall m :: 0 <= m < |picks| && Accepts(re, lines[m], s) ==> picks[m] == Some(s)
    ensures multiset(Given(picks))[s] >= |AcceptingBelow(re, lines, s, |picks|)|
    decreases |picks|
  {
    if picks != [] {
      AtLeast(re, lines, picks[..|picks| - 1], s);
    }
  }

  lemma {:induction false} GivenSoFar(picks: seq<Option<string>>, n: nat, s: string)
    requires n <= |picks|
    ensures multiset(Given(picks))[s] >= multiset(Given(picks[..n]))[s]
    decreases |picks|
  {
    if n == |picks| {
      assert picks[..n] == picks;
    } else {
      GivenSoFar(picks[..|picks| - 1], n, s);
      assert picks[..|picks| - 1][..n] == picks[..n];
    }
  }

  /** Copies of s may be moved to the front. */
  lemma {:induction false} PullOut(xs: seq<string>, s: string, n: nat) returns (rest: seq<string>)
    requires multiset(xs)[s] >= n
    ensures multiset(xs) == multiset(Copies(s, n)) + multiset(rest)
    decreases n
  {
    hide Copies;
    if n == 0 {
      rest := xs;
      assert Copies(s, 0) == [];
    } else {
      var ys := TakeOne(xs, s);
      rest := PullOut(ys, s, n - 1);
      CopiesMore(s, n - 1);
    }
  }

  lemma TakeOne(xs: seq<string>, s: string) returns (ys: seq<string>)
    requires multiset(xs)[s] > 0
    ensures multiset(xs) == multiset(ys) + multiset{s}
  {
    assert s in multiset(xs);
    var a :| 0 <= a < |xs| && xs[a] == s;
    MultisetOfRemoved(xs, a);
    ys := xs[..a] + xs[a + 1..];
  }

  lemma CopiesMore(s: string, n: nat)
    ensures multiset(Copies(s, n + 1)) == multiset(Copies(s, n)) + multiset{s}
  {
    assert Copies(s, n + 1) == Copies(s, n) + [s];
  }

  lemma CopiesOnly(s: string, n: nat, x: string)
    requires x != s
    ensures multiset(Copies(s, n))[x] == 0
  {
    assert x !in Copies(s, n);
  }

  /** All picks together, and that they fit. */
  lemma PicksFit(re: Matcher, lines: seq<Line>, j: nat, k: nat, s: string, t: string)
    returns (picks: seq<Option<string>>)
    ensures |picks| == |lines| && Fitting(re, lines, picks)
    ensures forall m :: 0 <= m < |lines| ==> picks[m] == Pick(re, lines, j, k, s, t, m)
  {
    picks := seq(|lines|, m requires 0 <= m < |lines| => Pick(re, lines, j, k, s, t, m));
  }

  /** A lower line accepts s and t, an upper one only s: one order of some inputs passes and another does not. */
  lemma OrderMatters(re: Matcher, lines: seq<Line>, j: nat, k: nat, s: string, t: string)
    returns (xs: seq<string>, ys: seq<string>)
    requires Satisfiable(re, lines)
    requires j < k < |lines| && Accepts(re, lines[k], s) && !Accepts(re, lines[k], t)
    requires Accepts(re, lines[j], s) && Accepts(re, lines[j], t)
    requires forall l :: 0 <= l < j ==> !(Accepts(re, lines[l], s) && Accepts(re, lines[l], t))
    ensures multiset(xs) == multiset(ys)
    ensures Unordered(re, lines, xs, {}) == Pass && Unordered(re, lines, ys, {}) != Pass
  {
    hide Unordered, Given, NoDuplicates;
    SatisfiableNoIgnore(re, lines);
    var low, all := AcceptingBelow(re, lines, s, j), AcceptingBelow(re, lines, t, |lines|);
    var picks := PicksFit(re, lines, j, k, s, t);
    xs := Given(picks);
    GivenPasses(re, lines, picks);
    EnoughOfS(re, lines, picks, j, k, s);
    AtLeast(re, lines, picks, t);
    var without := PullOut(xs, s, |low| + 1);
    CopiesOnly(s, |low| + 1, t);
    var rest := PullOut(without, t, |all|);
    ys := Copies(s, |low| + 1) + Copies(t, |all|) + rest;
    SpentOnS(re, lines, j, s, t, rest);
  }

  lemma GivenPasses(re: Matcher, lines: seq<Line>, picks: seq<Option<string>>)
    requires Satisfiable(re, lines) && Fitting(re, lines, picks) && |picks| == |lines|
    ensures Unordered(re, lines, Given(picks), {}) == Pass
  {
    SatisfiableNoIgnore(re, lines);
    FedInOrder(re, lines, picks, []);
    assert Given(picks) + [] == Given(picks);
    assert AllCovered(lines, GivenTo(picks));
  }

  lemma EnoughOfS(re: Matcher, lines: seq<Line>, picks: seq<Option<string>>, j: nat, k: nat, s: string)
    requires |picks| == |lines| && j < k < |lines| && picks[k] == Some(s)
    requires forall m :: 0 <= m < j && Accepts(re, lines[m], s) ==> picks[m] == Some(s)
    ensures multiset(Given(picks))[s] >= |AcceptingBelow(re, lines, s, j)| + 1
  {
    hide Given, AcceptingBelow;
    AtLeast(re, lines, picks[..j], s);
    assert picks[..k][..j] == picks[..j];
    GivenSoFar(picks[..k], j, s);
    GivenOne(picks, k, s);
    GivenSoFar(picks, k + 1, s);
  }

  lemma GivenOne(picks: seq<Option<string>>, k: nat, s: string)
    requires k < |picks| && picks[k] == Some(s)
    ensures multiset(Given(picks[..k + 1]))[s] == multiset(Given(picks[..k]))[s] + 1
  {
    assert picks[..k + 1][..k] == picks[..k];
  }

  ghost predicate OrderNeverMatters(re: Matcher, lines: seq<Line>) {
    forall xs, ys :: multiset(xs) == multiset(ys) ==>
      (Unordered(re, lines, xs, {}) == Pass <==> Unordered(re, lines, ys, {}) == Pass)
  }

  /** ORDER. For every file: the order of the input lines never matters to unordered mode exactly when of two lines that
      share a string the upper one accepts all that the lower one accepts, or when no input can pass at all. */
  lemma OrderNeverMattersExactly(re: Matcher, lines: seq<Line>)
    ensures OrderNeverMatters(re, lines) <==> !Satisfiable(re, lines) || Inclusive(re, lines, Everything())
  {
    hide Unordered;
    if !Satisfiable(re, lines) {
      forall xs
        ensures Unordered(re, lines, xs, {}) != Pass
      {
        if Unordered(re, lines, xs, {}) == Pass {
          var p := PassGivesPairing(re, lines, xs, {});
          PairedIsSatisfiable(re, lines, xs, p);
        }
      }
    } else if Inclusive(re, lines, Everything()) {
      SatisfiableNoIgnore(re, lines);
      forall xs, ys | multiset(xs) == multiset(ys)
        ensures Unordered(re, lines, xs, {}) == Unordered(re, lines, ys, {})
      {
        PermutedVerdict(re, lines, xs, ys, {}, Everything());
      }
    } else {
      var j, k, s, t :| 0 <= j < k < |lines| && Accepts(re, lines[j], s) && Accepts(re, lines[k], s) &&
                        Accepts(re, lines[j], t) && !Accepts(re, lines[k], t);
      var l := LowestSharing(re, lines, j, s, t);
      var xs, ys := OrderMatters(re, lines, l, k, s, t);
    }
  }

  ghost predicate RunIgnoresOrder(re: Matcher, lines: seq<Line>) {
    forall xs, ys :: multiset(xs) == multiset(ys) ==> (Run(re, lines, xs) == Pass <==> Run(re, lines, ys) == Pass)
  }

  /** The same for the whole program, on a file with NONDETERMINISTIC at the top or behind OPT lines, and no IGNORE. */
  lemma RunIgnoresOrderExactly(re: Matcher, lines: seq<Line>)
    requires UnorderedFile(lines)
    ensures RunIgnoresOrder(re, lines) <==> !Satisfiable(re, lines) || Inclusive(re, lines, Everything())
  {
    hide Unordered, Run;
    forall inputs
      ensures Run(re, lines, inputs) == Unordered(re, lines, inputs, {})
    {
      RunOfUnorderedFile(re, lines, inputs);
    }
    OrderNeverMattersExactly(re, lines);
  }
}
