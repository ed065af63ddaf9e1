/**
 Unordered mode of cmake/match.py against its promise: each input line is paired with a match line of its own, in
 any order, and no required line is left over. The scan is greedy, so it may miss a pairing; the main theorem says
 for exactly which match files it never does.
 */
module MatchUnordered {
  import opened MatchFile
  import opened Sequences

  /** A one-to-one pairing of the input lines with accepting match lines outside `matched`, leaving no required line. */
  ghost predicate PairingFrom(re: Matcher, lines: seq<Line>, inputs: seq<string>, matched: set<nat>, p: seq<nat>) {
    && |p| == |inputs|
    && (forall a :: 0 <= a < |p| ==> p[a] < |lines| && p[a] !in matched && Suits(re, lines[p[a]], inputs[a]))
    && NoDuplicates(p)
    && (forall m :: 0 <= m < |lines| && lines[m].tag in {Plain, Ignore} ==> m in matched || m in p)
  }

  /** Every line but an IGNORE may be paired, with what its pattern matches. */
  ghost predicate Suits(re: Matcher, line: Line, input: string) {
    line.tag in {Plain, Opt, NonDeterministic} && re(line.pattern, input)
  }

  ghost predicate Pairing(re: Matcher, lines: seq<Line>, inputs: seq<string>, p: seq<nat>) {
    PairingFrom(re, lines, inputs, {}, p)
  }

  // ---------------------------------------------------------------- soundness

  /** The scan picks the lowest free accepting line, if there is no IGNORE below it. */
  lemma ScanFinds(re: Matcher, lines: seq<Line>, input: string, matched: set<nat>, j: nat)
    requires j <= |lines|
    ensures var r := ScanFrom(re, lines, input, matched, j);
            && (r.Found? ==> j <= r.line < |lines| && r.line !in matched && Accepts(re, lines[r.line], input))
            && (r.Found? ==> forall m :: j <= m < r.line && m !in matched ==> !Accepts(re, lines[m], input))
            && (r.NotFound? ==> forall m :: j <= m < |lines| && m !in matched ==> !Accepts(re, lines[m], input))
            && (r.IgnoreMet? ==> exists m :: j <= m < |lines| && lines[m].tag == Ignore)
    decreases |lines| - j
  {
  }

  lemma {:induction false} PassGivesPairing(re: Matcher, lines: seq<Line>, inputs: seq<string>, matched: set<nat>)
    returns (p: seq<nat>)
    requires Unordered(re, lines, inputs, matched) == Pass
    ensures PairingFrom(re, lines, inputs, matched, p)
    decreases |inputs|
  {
    if inputs == [] {
      p := [];
    } else {
      ScanFinds(re, lines, inputs[0], matched, 0);
      var j := ScanFrom(re, lines, inputs[0], matched, 0).line;
      var q := PassGivesPairing(re, lines, inputs[1..], matched + {j});
      p := [j] + q;
      forall m | 0 <= m < |lines| && !Optional(lines[m])
        ensures m in matched || m in p
      {
        assert m in matched + {j} || m in q;
        assert p[0] == j;
      }
    }
  }

  /** An IGNORE line is never paired and never optional, so no input passes a file that has one. */
  lemma IgnoreNeverPasses(re: Matcher, lines: seq<Line>, inputs: seq<string>, g: nat)
    requires g < |lines| && lines[g].tag == Ignore
    ensures Unordered(re, lines, inputs, {}) != Pass
  {
    if Unordered(re, lines, inputs, {}) == Pass {
      var p := PassGivesPairing(re, lines, inputs, {});
      assert false;
    }
  }

  /** All lines made optional. */
  ghost function Loose(lines: seq<Line>): (r: seq<Line>)
    ensures |r| == |lines| && forall m :: 0 <= m < |r| ==> r[m] == Line(Opt, lines[m].pattern)
  {
    seq(|lines|, m requires 0 <= m < |lines| => Line(Opt, lines[m].pattern))
  }

  lemma {:induction false} ScanToIgnore(re: Matcher, lines: seq<Line>, g: nat, x: string, matched: set<nat>, j: nat)
    requires j <= g < |lines| && lines[g].tag == Ignore && NoIgnore(lines[..g])
    ensures var scan := ScanFrom(re, Loose(lines[..g]), x, matched, j);
            ScanFrom(re, lines, x, matched, j) == if scan.Found? then scan else IgnoreMet
    ensures var scan := ScanFrom(re, Loose(lines[..g]), x, matched, j);
            scan.Found? ==> scan.line < g
    decreases g - j
  {
    if j < g {
      assert lines[..g][j] == lines[j] && Loose(lines[..g])[j] == Line(Opt, lines[j].pattern);
      ScanToIgnore(re, lines, g, x, matched, j + 1);
    }
  }

  lemma {:induction false} RunToIgnore(re: Matcher, lines: seq<Line>, g: nat, inputs: seq<string>, matched: set<nat>)
    requires g < |lines| && lines[g].tag == Ignore && NoIgnore(lines[..g]) && forall m :: m in matched ==> m < g
    ensures Unordered(re, lines, inputs, matched)
            == if Unordered(re, Loose(lines[..g]), inputs, matched) == Pass then Fail else TagError
    decreases |inputs|
  {
    if inputs == [] {
      assert g !in matched && AllCovered(Loose(lines[..g]), matched);
    } else {
      ScanToIgnore(re, lines, g, inputs[0], matched, 0);
      var scan := ScanFrom(re, Loose(lines[..g]), inputs[0], matched, 0);
      if scan.Found? {
        RunToIgnore(re, lines, g, inputs[1..], matched + {scan.line});
      }
    }
  }

  /** With an IGNORE line in the file, unordered mode ends in an error about the tag exactly if the lines above the
      first one cannot take all inputs, and fails otherwise. */
  lemma IgnoreExactly(re: Matcher, lines: seq<Line>, g: nat, inputs: seq<string>)
    requires g < |lines| && lines[g].tag == Ignore && NoIgnore(lines[..g])
    ensures Unordered(re, lines, inputs, {})
            == if Unordered(re, Loose(lines[..g]), inputs, {}) == Pass then Fail else TagError
  {
    RunToIgnore(re, lines, g, inputs, {});
  }

  // ---------------------------------------------------------------- reaching unordered mode

  /** A NONDETERMINISTIC line stands at the top or behind OPT lines only, and there is no IGNORE. */
  ghost predicate UnorderedFile(lines: seq<Line>) {
    NoIgnore(lines) && exists n: nat :: SwitchAt(lines, n)
  }

  ghost predicate SwitchAt(lines: seq<Line>, n: nat) {
    n < |lines| && lines[n].tag == NonDeterministic && forall m :: 0 <= m < n ==> lines[m].tag == Opt
  }

  /** Before it comes to line n, ordered mode ends only for want of inputs. All were taken by OPT lines; the scan of
      unordered mode would have given them to OPT lines too, to the same or lower ones. */
  lemma {:induction false} OptsOnly(re: Matcher, lines: seq<Line>, inputs: seq<string>, i: nat, j: nat, n: nat,
                                    matched: set<nat>)
    requires NoIgnore(lines) && SwitchAt(lines, n) && i <= |inputs| && j <= n && forall m :: m in matched ==> m < j
    ensures Ordered(re, lines, inputs, i, j, false) in {Switch, Unordered(re, lines, inputs[i..], matched)}
    decreases n - j
  {
    if i == |inputs| {
      assert AllCovered(lines, matched) <==> NoPlainFrom(lines, j);
    } else if j < n {
      if Accepts(re, lines[j], inputs[i]) {
        ScanFinds(re, lines, inputs[i], matched, 0);
        var l := ScanFrom(re, lines, inputs[i], matched, 0).line;
        assert inputs[i..][1..] == inputs[i + 1..];
        OptsOnly(re, lines, inputs, i + 1, j + 1, n, matched + {l});
      } else {
        OptsOnly(re, lines, inputs, i, j + 1, n, matched);
      }
    }
  }

  /** Such a file is judged by unordered mode on every input, also if ordered mode never gets to the tag. */
  lemma RunOfUnorderedFile(re: Matcher, lines: seq<Line>, inputs: seq<string>)
    requires UnorderedFile(lines)
    ensures Run(re, lines, inputs) == Unordered(re, lines, inputs, {})
  {
    var n: nat :| SwitchAt(lines, n);
    OptsOnly(re, lines, inputs, 0, 0, n, {});
    assert inputs[0..] == inputs;
  }

  // ---------------------------------------------------------------- completeness

  /** Two lines, the lower one first: if both accept s, the upper one accepts all that the lower one accepts (among
      the strings in question) and is required only if the lower one is. */
  ghost predicate NestedPair(re: Matcher, lower: Line, upper: Line, on: string -> bool) {
    forall s :: on(s) && Accepts(re, lower, s) && Accepts(re, upper, s) ==>
      && (forall t :: on(t) && Accepts(re, lower, t) ==> Accepts(re, upper, t))
      && (Optional(lower) ==> Optional(upper))
  }

  ghost predicate Nested(re: Matcher, lines: seq<Line>, on: string -> bool) {
    forall j, k :: 0 <= j < k < |lines| ==> NestedPair(re, lines[j], lines[k], on)
  }

  ghost predicate NoIgnore(lines: seq<Line>) {
    forall m :: 0 <= m < |lines| ==> lines[m].tag != Ignore
  }

  /** Dropping the first pair, whose line is the one now taken or may stay unpaired. */
  lemma DropFirst(re: Matcher, lines: seq<Line>, inputs: seq<string>, matched: set<nat>, p: seq<nat>, j: nat)
    requires inputs != [] && PairingFrom(re, lines, inputs, matched, p)
    requires p[0] == j || (Optional(lines[p[0]]) && j !in p)
    ensures PairingFrom(re, lines, inputs[1..], matched + {j}, p[1..])
  {
  }

  /** Dropping the first pair after giving its line to input a, whose own line is the one now taken. */
  lemma SwapFirst(re: Matcher, lines: seq<Line>, inputs: seq<string>, matched: set<nat>, p: seq<nat>, j: nat, a: nat)
    requires PairingFrom(re, lines, inputs, matched, p)
    requires 0 < a < |p| && p[a] == j && Accepts(re, lines[p[0]], inputs[a])
    ensures PairingFrom(re, lines, inputs[1..], matched + {j}, p[a := p[0]][1..])
  {
  }

  /** The exchange step: a pairing can be changed to use the line the scan picks for the first input. */
  lemma Exchange(re: Matcher, lines: seq<Line>, inputs: seq<string>, matched: set<nat>, p: seq<nat>, j: nat,
                 on: string -> bool)
    returns (q: seq<nat>)
    requires inputs != [] && PairingFrom(re, lines, inputs, matched, p)
    requires forall x :: x in inputs ==> on(x)
    requires Nested(re, lines, on)
    requires j <= p[0] && j !in matched && Accepts(re, lines[j], inputs[0])
    ensures PairingFrom(re, lines, inputs[1..], matched + {j}, q)
  {
    var k := p[0];
    assert on(inputs[0]);
    assert j < k ==> NestedPair(re, lines[j], lines[k], on);
    if a :| 0 < a < |p| && p[a] == j {
      assert inputs[a] in inputs;
      SwapFirst(re, lines, inputs, matched, p, j, a);
      q := p[a := k][1..];
    } else {
      assert j == k || j !in p;
      DropFirst(re, lines, inputs, matched, p, j);
      q := p[1..];
    }
  }

  lemma {:induction false} PairingGivesPass(re: Matcher, lines: seq<Line>, inputs: seq<string>, matched: set<nat>,
                                            p: seq<nat>, on: string -> bool)
    requires NoIgnore(lines) && Nested(re, lines, on)
    requires forall x :: x in inputs ==> on(x)
    requires PairingFrom(re, lines, inputs, matched, p)
    ensures Unordered(re, lines, inputs, matched) == Pass
    decreases |inputs|
  {
    if inputs != [] {
      ScanFinds(re, lines, inputs[0], matched, 0);
      var j := ScanFrom(re, lines, inputs[0], matched, 0).line;
      var q := Exchange(re, lines, inputs, matched, p, j, on);
      PairingGivesPass(re, lines, inputs[1..], matched + {j}, q, on);
    }
  }

  /** Exactness for one run: it is enough that the lines are nested on the input lines at hand. */
  lemma UnorderedExact(re: Matcher, lines: seq<Line>, inputs: seq<string>)
    requires Nested(re, lines, AmongInputs(inputs))
    ensures Unordered(re, lines, inputs, {}) == Pass <==> exists p :: Pairing(re, lines, inputs, p)
  {
    if Unordered(re, lines, inputs, {}) == Pass {
      var p := PassGivesPairing(re, lines, inputs, {});
      assert Pairing(re, lines, inputs, p);
    }
    if p :| Pairing(re, lines, inputs, p) {
      forall m | 0 <= m < |lines|
        ensures lines[m].tag != Ignore
      {
        if lines[m].tag == Ignore {
          assert false;
        }
      }
      PairingGivesPass(re, lines, inputs, {}, p, AmongInputs(inputs));
    }
  }

  /** Any two lines accept the same of the given strings, or none in common. */
  ghost predicate Partitioned(re: Matcher, lines: seq<Line>, on: string -> bool) {
    forall j, k, s, t :: 0 <= j < |lines| && 0 <= k < |lines| && on(s) && on(t)
                         && Accepts(re, lines[j], s) && Accepts(re, lines[k], s) && Accepts(re, lines[j], t)
                         ==> Accepts(re, lines[k], t)
  }

  /** The classes of the tag's description: lines sharing an input accept the same inputs and are all required or all
      optional. Such lines are nested, so a run over them is exact. */
  lemma ClassesExact(re: Matcher, lines: seq<Line>, inputs: seq<string>)
    requires Partitioned(re, lines, AmongInputs(inputs))
    requires forall j, k, s :: 0 <= j < |lines| && 0 <= k < |lines| && s in inputs
                               && Accepts(re, lines[j], s) && Accepts(re, lines[k], s)
                               ==> Optional(lines[j]) == Optional(lines[k])
    ensures Unordered(re, lines, inputs, {}) == Pass <==> exists p :: Pairing(re, lines, inputs, p)
  {
    UnorderedExact(re, lines, inputs);
  }

  /** Without nesting the scan can miss a pairing: a catch-all line above a line for "a" takes the "a". */
  lemma GreedyMissesPairing(re: Matcher)
    requires forall x :: re(".*", x) && (re("a", x) <==> x == "a") && !re("{{NONDETERMINISTIC}}", x)
    ensures var lines := [Line(NonDeterministic, "{{NONDETERMINISTIC}}"), Line(Plain, ".*"), Line(Plain, "a")];
            Pairing(re, lines, ["a", "b"], [2, 1]) && Run(re, lines, ["a", "b"]) != Pass
  {
  }

  // ---------------------------------------------------------------- necessity

  /** The lines below n accepting s, in increasing order. */
  ghost function AcceptingBelow(re: Matcher, lines: seq<Line>, s: string, n: nat): (r: seq<nat>)
    requires n <= |lines|
    ensures forall m: nat :: m in r <==> m < n && Accepts(re, lines[m], s)
    ensures NoDuplicates(r)
  {
    if n == 0 then []
    else AcceptingBelow(re, lines, s, n - 1) + (if Accepts(re, lines[n - 1], s) then [n - 1] else [])
  }

  ghost function SetOf(p: seq<nat>): set<nat> {
    set m | m in p
  }

  /** As many copies of s as there are lines below j accepting it fill exactly those lines. */
  lemma {:induction false} Fill(re: Matcher, lines: seq<Line>, s: string, j: nat, rest: seq<string>)
    requires NoIgnore(lines) && j <= |lines|
    ensures var w := AcceptingBelow(re, lines, s, j);
            Unordered(re, lines, Copies(s, |w|) + rest, {}) == Unordered(re, lines, rest, SetOf(w))
    decreases j
  {
    hide Unordered, NoDuplicates, NoIgnore;
    var w := AcceptingBelow(re, lines, s, j);
    if j == 0 {
      assert Copies(s, |w|) + rest == rest;
      assert SetOf(w) == {};
    } else {
      var v := AcceptingBelow(re, lines, s, j - 1);
      if Accepts(re, lines[j - 1], s) {
        calc {
          Unordered(re, lines, Copies(s, |w|) + rest, {});
          { assert Copies(s, |w|) + rest == Copies(s, |v|) + ([s] + rest); }
          Unordered(re, lines, Copies(s, |v|) + ([s] + rest), {});
          { Fill(re, lines, s, j - 1, [s] + rest); }
          Unordered(re, lines, [s] + rest, SetOf(v));
          { FillOne(re, lines, s, j - 1, SetOf(v), rest); }
          Unordered(re, lines, rest, SetOf(v) + {j - 1});
          { assert SetOf(w) == SetOf(v) + {j - 1}; }
          Unordered(re, lines, rest, SetOf(w));
        }
      } else {
        Fill(re, lines, s, j - 1, rest);
        assert v == w;
      }
    }
  }

  /** One copy more takes line j. */
  lemma FillPast(re: Matcher, lines: seq<Line>, s: string, j: nat, rest: seq<string>)
    requires NoIgnore(lines) && j < |lines| && Accepts(re, lines[j], s)
    ensures var low := AcceptingBelow(re, lines, s, j);
            Unordered(re, lines, Copies(s, |low| + 1) + rest, {}) == Unordered(re, lines, rest, SetOf(low + [j]))
  {
    hide Unordered, NoDuplicates;
    Fill(re, lines, s, j + 1, rest);
    assert AcceptingBelow(re, lines, s, j + 1) == AcceptingBelow(re, lines, s, j) + [j];
  }

  lemma FillOne(re: Matcher, lines: seq<Line>, s: string, j: nat, matched: set<nat>, rest: seq<string>)
    requires NoIgnore(lines) && j < |lines| && Accepts(re, lines[j], s)
    requires j !in matched && forall m: nat :: m < j && m !in matched ==> !Accepts(re, lines[m], s)
    ensures Unordered(re, lines, [s] + rest, matched) == Unordered(re, lines, rest, matched + {j})
  {
    ScanFinds(re, lines, s, matched, 0);
    assert ScanFrom(re, lines, s, matched, 0) == Found(j);
    assert ([s] + rest)[1..] == rest;
  }

  /** A string each required line accepts, if the file can be satisfied at all. */
  ghost predicate Satisfiable(re: Matcher, lines: seq<Line>) {
    forall m :: 0 <= m < |lines| && !Optional(lines[m]) ==> exists s :: Accepts(re, lines[m], s)
  }

  /** The required lines below n outside `used`, in increasing order. */
  ghost function RequiredBelow(lines: seq<Line>, used: seq<nat>, n: nat): (r: seq<nat>)
    requires n <= |lines|
    ensures forall m: nat :: m in r <==> m < n && !Optional(lines[m]) && m !in used
    ensures NoDuplicates(r)
  {
    if n == 0 then []
    else RequiredBelow(lines, used, n - 1) + (if !Optional(lines[n - 1]) && n - 1 !in used then [n - 1] else [])
  }

  lemma {:induction false} Witnesses(re: Matcher, lines: seq<Line>, r: seq<nat>) returns (w: seq<string>)
    requires Satisfiable(re, lines)
    requires forall a :: 0 <= a < |r| ==> r[a] < |lines| && !Optional(lines[r[a]])
    ensures |w| == |r| && forall a :: 0 <= a < |r| ==> Accepts(re, lines[r[a]], w[a])
    decreases |r|
  {
    if r == [] {
      w := [];
    } else {
      var s :| Accepts(re, lines[r[0]], s);
      var tail := Witnesses(re, lines, r[1..]);
      w := [s] + tail;
    }
  }

  /** Any list of distinct lines, each with a string it accepts, extends to input lines that have a pairing. */
  lemma Extend(re: Matcher, lines: seq<Line>, used: seq<nat>, xs: seq<string>)
    returns (rest: seq<string>, r: seq<nat>)
    requires Satisfiable(re, lines)
    requires |used| == |xs| && NoDuplicates(used)
    requires forall a :: 0 <= a < |used| ==> used[a] < |lines| && Accepts(re, lines[used[a]], xs[a])
    ensures r == RequiredBelow(lines, used, |lines|) && |rest| == |r|
    ensures Pairing(re, lines, xs + rest, used + r)
  {
    r := RequiredBelow(lines, used, |lines|);
    assert forall a :: 0 <= a < |r| ==> r[a] in r;
    rest := Witnesses(re, lines, r);
    DistinctConcat(used, r);
    ConcatLinks(re, lines, used, xs, r, rest);
    assert forall m: nat :: m < |lines| && !Optional(lines[m]) ==> m in used || m in r;
  }

  lemma ConcatLinks(re: Matcher, lines: seq<Line>, p: seq<nat>, xs: seq<string>, q: seq<nat>, ys: seq<string>)
    requires |p| == |xs| && |q| == |ys|
    requires forall a :: 0 <= a < |p| ==> p[a] < |lines| && Accepts(re, lines[p[a]], xs[a])
    requires forall a :: 0 <= a < |q| ==> q[a] < |lines| && Accepts(re, lines[q[a]], ys[a])
    ensures forall a :: 0 <= a < |p + q| ==> (p + q)[a] < |lines| && Accepts(re, lines[(p + q)[a]], (xs + ys)[a])
  {
  }

  lemma DistinctConcat(p: seq<nat>, q: seq<nat>)
    requires NoDuplicates(p) && NoDuplicates(q)
    requires forall m :: m in q ==> m !in p
    ensures NoDuplicates(p + q)
  {
    assert forall b :: |p| <= b < |p + q| ==> (p + q)[b] in q;
  }

  lemma {:induction false} SetSize(p: seq<nat>)
    ensures |SetOf(p)| <= |p|
    ensures NoDuplicates(p) ==> |SetOf(p)| == |p|
  {
    if p != [] {
      SetSize(p[1..]);
      assert SetOf(p) == SetOf(p[1..]) + {p[0]};
    }
  }

  lemma SubsetSize(a: set<nat>, b: set<nat>)
    requires a <= b
    ensures |a| <= |b|
  {
    assert b == a + (b - a);
  }

  /** Two lines share s but only the lower accepts t: the scan spends the lower one on s and misses it for t. */
  lemma OverlapDefeats(re: Matcher, lines: seq<Line>, k: nat, j: nat, s: string, t: string)
    returns (inputs: seq<string>, p: seq<nat>)
    requires NoIgnore(lines) && Satisfiable(re, lines)
    requires j < k < |lines| && Accepts(re, lines[k], s) && !Accepts(re, lines[k], t)
    requires Accepts(re, lines[j], s) && Accepts(re, lines[j], t)
    requires forall l :: 0 <= l < j ==> !(Accepts(re, lines[l], s) && Accepts(re, lines[l], t))
    ensures Pairing(re, lines, inputs, p)
    ensures Unordered(re, lines, inputs, {}) != Pass
  {
    hide Unordered, PairingFrom, NoDuplicates;
    var low, all := AcceptingBelow(re, lines, s, j), AcceptingBelow(re, lines, t, |lines|);
    var ss, ts := Copies(s, |low| + 1), Copies(t, |all|);
    var rest, r := PairedSoFar(re, lines, k, low, all, s, t);
    inputs, p := ss + ts + rest, low + [k] + all + r;
    SpentOnS(re, lines, j, s, t, rest);
  }

  /** With enough copies of s in front, line j is spent on s and missing for t. */
  lemma SpentOnS(re: Matcher, lines: seq<Line>, j: nat, s: string, t: string, rest: seq<string>)
    requires NoIgnore(lines) && j < |lines| && Accepts(re, lines[j], s) && Accepts(re, lines[j], t)
    ensures var low, all := AcceptingBelow(re, lines, s, j), AcceptingBelow(re, lines, t, |lines|);
            Unordered(re, lines, Copies(s, |low| + 1) + Copies(t, |all|) + rest, {}) != Pass
  {
    hide Unordered, NoDuplicates;
    var low, all := AcceptingBelow(re, lines, s, j), AcceptingBelow(re, lines, t, |lines|);
    var ss, ts := Copies(s, |low| + 1), Copies(t, |all|);
    assert ss + ts + rest == ss + (ts + rest);
    FillPast(re, lines, s, j, ts + rest);
    assert j in SetOf(low + [j]) by { assert (low + [j])[|low|] == j; }
    TooManyCopies(re, lines, t, rest, SetOf(low + [j]), j);
  }

  /** Lines `low` and k for copies of s, and lines `all` for copies of t, extend to a pairing. */
  lemma PairedSoFar(re: Matcher, lines: seq<Line>, k: nat, low: seq<nat>, all: seq<nat>, s: string, t: string)
    returns (rest: seq<string>, r: seq<nat>)
    requires Satisfiable(re, lines)
    requires k < |lines| && Accepts(re, lines[k], s) && k !in all
    requires NoDuplicates(low) && NoDuplicates(all)
    requires forall l :: l in low ==> l < k && Accepts(re, lines[l], s) && l !in all
    requires forall l :: l in all ==> l < |lines| && Accepts(re, lines[l], t)
    ensures r == RequiredBelow(lines, low + [k] + all, |lines|) && |rest| == |r|
    ensures Pairing(re, lines, Copies(s, |low| + 1) + Copies(t, |all|) + rest, low + [k] + all + r)
  {
    var used := low + [k];
    var xs := Copies(s, |low| + 1) + Copies(t, |all|);
    DistinctConcat(low, [k]);
    DistinctConcat(used, all);
    forall a | 0 <= a < |used + all|
      ensures (used + all)[a] < |lines| && Accepts(re, lines[(used + all)[a]], xs[a])
    {
      assert a < |low| ==> (used + all)[a] == low[a] && low[a] in low;
      assert a > |low| ==> (used + all)[a] == all[a - |used|] && all[a - |used|] in all;
    }
    rest, r := Extend(re, lines, used + all, xs);
  }

  /** One line accepting t is taken: there is no room for as many copies of t as there are lines accepting it. */
  lemma TooManyCopies(re: Matcher, lines: seq<Line>, t: string, rest: seq<string>, matched: set<nat>, j: nat)
    requires j in matched && j < |lines| && Accepts(re, lines[j], t)
    ensures var all := AcceptingBelow(re, lines, t, |lines|);
            Unordered(re, lines, Copies(t, |all|) + rest, matched) != Pass
  {
    var all := AcceptingBelow(re, lines, t, |lines|);
    var inputs := Copies(t, |all|) + rest;
    if Unordered(re, lines, inputs, matched) == Pass {
      var q := PassGivesPairing(re, lines, inputs, matched);
      var head := q[..|all|];
      forall m | m in SetOf(head)
        ensures m in SetOf(all) - {j}
      {
        var a :| 0 <= a < |all| && head[a] == m;
        assert inputs[a] == t;
      }
      SubsetSize(SetOf(head), SetOf(all) - {j});
      assert j in SetOf(all);
      SetSize(head);
      SetSize(all);
      assert false;
    }
  }

  /** An optional line sits below a required one and shares s with it: the scan spends s on the optional line. */
  lemma OptionalFirstDefeats(re: Matcher, lines: seq<Line>, k: nat, j: nat, s: string)
    returns (inputs: seq<string>, p: seq<nat>)
    requires NoIgnore(lines) && Satisfiable(re, lines)
    requires j < k < |lines| && Accepts(re, lines[j], s) && Accepts(re, lines[k], s)
    requires Optional(lines[j]) && !Optional(lines[k])
    ensures Pairing(re, lines, inputs, p)
    ensures Unordered(re, lines, inputs, {}) != Pass
  {
    hide Unordered, PairingFrom, NoDuplicates;
    var low := AcceptingBelow(re, lines, s, j);
    var rest, r := PairedSoFar(re, lines, k, low, [], s, s);
    inputs, p := Copies(s, |low| + 1) + Copies(s, 0) + rest, low + [k] + [] + r;
    assert inputs == Copies(s, |low| + 1) + rest;
    FillPast(re, lines, s, j, rest);
    assert forall l :: l in low + [j] ==> l in low + [k] + [] || l == j;
    assert k !in r by { assert (low + [k] + [])[|low|] == k; }
    TooFewInputs(re, lines, rest, low + [j], r, k);
  }

  /** As many inputs as the required lines in r are one short of covering r and k. */
  lemma TooFewInputs(re: Matcher, lines: seq<Line>, rest: seq<string>, used: seq<nat>, r: seq<nat>, k: nat)
    requires k < |lines| && !Optional(lines[k]) && k !in used && k !in r
    requires forall m :: m in r ==> m < |lines| && !Optional(lines[m]) && m !in used
    requires NoDuplicates(r) && |rest| == |r|
    ensures Unordered(re, lines, rest, SetOf(used)) != Pass
  {
    if Unordered(re, lines, rest, SetOf(used)) == Pass {
      var q := PassGivesPairing(re, lines, rest, SetOf(used));
      DistinctConcat([k], r);
      SetSize(q);
      SetSize([k] + r);
      SubsetSize(SetOf([k] + r), SetOf(q));
      assert false;
    }
  }

  lemma LowestSharing(re: Matcher, lines: seq<Line>, j: nat, s: string, t: string) returns (l: nat)
    requires j < |lines| && Accepts(re, lines[j], s) && Accepts(re, lines[j], t)
    ensures l <= j && Accepts(re, lines[l], s) && Accepts(re, lines[l], t)
    ensures forall m :: 0 <= m < l ==> !(Accepts(re, lines[m], s) && Accepts(re, lines[m], t))
  {
    l := 0;
    while !(Accepts(re, lines[l], s) && Accepts(re, lines[l], t))
      invariant l <= j
      decreases j - l
      invariant forall m :: 0 <= m < l ==> !(Accepts(re, lines[m], s) && Accepts(re, lines[m], t))
    {
      l := l + 1;
    }
  }

  /** Every satisfiable file whose lines are not nested has input lines that can be paired but do not pass. */
  lemma NotNestedDefeats(re: Matcher, lines: seq<Line>, j: nat, k: nat, s: string)
    returns (inputs: seq<string>, p: seq<nat>)
    requires NoIgnore(lines) && Satisfiable(re, lines)
    requires j < k < |lines| && Accepts(re, lines[j], s) && Accepts(re, lines[k], s)
    requires (exists t :: Accepts(re, lines[j], t) && !Accepts(re, lines[k], t))
             || (Optional(lines[j]) && !Optional(lines[k]))
    ensures Pairing(re, lines, inputs, p)
    ensures Unordered(re, lines, inputs, {}) != Pass
  {
    if t :| Accepts(re, lines[j], t) && !Accepts(re, lines[k], t) {
      var l := LowestSharing(re, lines, j, s, t);
      inputs, p := OverlapDefeats(re, lines, k, l, s, t);
    } else {
      inputs, p := OptionalFirstDefeats(re, lines, k, j, s);
    }
  }

  /** The promise of unordered mode, for every input. */
  ghost predicate UnorderedIsExact(re: Matcher, lines: seq<Line>) {
    forall inputs :: Unordered(re, lines, inputs, {}) == Pass <==> exists p :: Pairing(re, lines, inputs, p)
  }

  /** MAIN THEOREM. For every file: unordered mode keeps its promise on every input exactly when the lines are nested,
      or when no input can pass because some required line accepts nothing. */
  lemma UnorderedExactlyWhenNested(re: Matcher, lines: seq<Line>)
    ensures UnorderedIsExact(re, lines) <==> !Satisfiable(re, lines) || Nested(re, lines, Everything())
  {
    hide Unordered, Pairing;
    var every := Everything();
    if Nested(re, lines, every) || !Satisfiable(re, lines) {
      forall inputs
        ensures Unordered(re, lines, inputs, {}) == Pass <==> exists p :: Pairing(re, lines, inputs, p)
      {
        ExactOneWay(re, lines, inputs, every);
      }
    } else {
      SatisfiableNoIgnore(re, lines);
      var j, k :| 0 <= j < k < |lines| && !NestedPair(re, lines[j], lines[k], every);
      var s :| every(s) && Accepts(re, lines[j], s) && Accepts(re, lines[k], s)
               && !((forall t :: every(t) && Accepts(re, lines[j], t) ==> Accepts(re, lines[k], t))
                    && (Optional(lines[j]) ==> Optional(lines[k])));
      var inputs, p := NotNestedDefeats(re, lines, j, k, s);
      assert !UnorderedIsExact(re, lines);
    }
  }

  lemma SatisfiableNoIgnore(re: Matcher, lines: seq<Line>)
    requires Satisfiable(re, lines)
    ensures NoIgnore(lines)
  {
  }

  lemma PairedIsSatisfiable(re: Matcher, lines: seq<Line>, inputs: seq<string>, p: seq<nat>)
    requires Pairing(re, lines, inputs, p)
    ensures Satisfiable(re, lines)
  {
    forall m | 0 <= m < |lines| && !Optional(lines[m])
      ensures exists s :: Accepts(re, lines[m], s)
    {
      var a :| 0 <= a < |p| && p[a] == m;
      assert Accepts(re, lines[m], inputs[a]);
    }
  }

  lemma ExactOneWay(re: Matcher, lines: seq<Line>, inputs: seq<string>, on: string -> bool)
    requires on == Everything() && (Nested(re, lines, on) || !Satisfiable(re, lines))
    ensures Unordered(re, lines, inputs, {}) == Pass <==> exists p :: Pairing(re, lines, inputs, p)
  {
    if Unordered(re, lines, inputs, {}) == Pass {
      var p := PassGivesPairing(re, lines, inputs, {});
      assert Pairing(re, lines, inputs, p);
    }
    if p :| Pairing(re, lines, inputs, p) {
      PairedIsSatisfiable(re, lines, inputs, p);
      SatisfiableNoIgnore(re, lines);
      PairingGivesPass(re, lines, inputs, {}, p, on);
    }
  }

  ghost predicate RunIsExact(re: Matcher, lines: seq<Line>) {
    forall inputs :: Run(re, lines, inputs) == Pass <==> exists p :: Pairing(re, lines, inputs, p)
  }

  /** The same for the whole program, on a file with NONDETERMINISTIC at the top or behind OPT lines, and no IGNORE. */
  lemma ExactlyWhenNested(re: Matcher, lines: seq<Line>)
    requires UnorderedFile(lines)
    ensures RunIsExact(re, lines) <==> !Satisfiable(re, lines) || Nested(re, lines, Everything())
  {
    hide Unordered, Pairing, Run;
    forall inputs
      ensures Run(re, lines, inputs) == Unordered(re, lines, inputs, {})
    {
      RunOfUnorderedFile(re, lines, inputs);
    }
    UnorderedExactlyWhenNested(re, lines);
  }
}
