/**
 When is any alignment enough for ordered mode of cmake/match.py? The scan is greedy, so it may miss one: an OPT line
 may take the input of the plain line after it, and an IGNORE stops at the first input that fits. The main theorem says
 for exactly which match files it never misses one.
 */
module MatchExact {
  import opened MatchFile
  import opened MatchOrdered

  /** No plain line stands from g on before k. */
  ghost predicate SameRun(lines: seq<Line>, g: nat, k: nat) {
    g < k < |lines| && forall m :: g <= m < k ==> lines[m].tag != Plain
  }

  ghost predicate AllAccepted(re: Matcher, lines: seq<Line>, m: nat, g: nat, on: string -> bool) {
    forall l, s :: m <= l < g && l < |lines| && lines[l].tag == Plain && on(s) ==> Accepts(re, lines[l], s)
  }

  /** From line m on an IGNORE comes before any plain line that rejects one of the strings in question. */
  ghost predicate Reopens(re: Matcher, lines: seq<Line>, m: nat, on: string -> bool) {
    exists g :: m <= g < |lines| && lines[g].tag == Ignore && AllAccepted(re, lines, m, g, on)
  }

  // ---------------------------------------------------------------- one input

  /** Line k accepts two of the input lines. */
  ghost predicate AcceptsTwo(re: Matcher, lines: seq<Line>, inputs: seq<string>, k: nat) {
    k < |lines| &&
    exists a, b :: 0 <= a < b < |inputs| && Accepts(re, lines[k], inputs[a]) && Accepts(re, lines[k], inputs[b])
  }

  /** Line k accepts an input line. */
  ghost predicate AcceptsSome(re: Matcher, lines: seq<Line>, inputs: seq<string>, k: nat) {
    k < |lines| && exists a :: 0 <= a < |inputs| && Accepts(re, lines[k], inputs[a])
  }

  /** Some input line is accepted by both lines. */
  ghost predicate Shares(re: Matcher, lines: seq<Line>, inputs: seq<string>, j: nat, k: nat) {
    j < |lines| && k < |lines| &&
    exists a :: 0 <= a < |inputs| && Accepts(re, lines[j], inputs[a]) && Accepts(re, lines[k], inputs[a])
  }

  /** The scan is never left with a choice that matters: an OPT line shares no input with the plain line that ends its
      run; and behind an IGNORE an OPT line accepts none and a plain line at most one, unless the file reopens. */
  ghost predicate Unambiguous(re: Matcher, lines: seq<Line>, inputs: seq<string>) {
    forall g: nat, k: nat :: SameRun(lines, g, k) ==>
      && (lines[g].tag == Opt && lines[k].tag == Plain ==> !Shares(re, lines, inputs, g, k))
      && (lines[g].tag == Ignore && lines[k].tag == Plain && AcceptsTwo(re, lines, inputs, k) ==>
            Reopens(re, lines, k + 1, AmongInputs(inputs)))
      && (lines[g].tag == Ignore && lines[k].tag == Opt && AcceptsSome(re, lines, inputs, k) ==>
            Reopens(re, lines, k + 1, AmongInputs(inputs)))
  }

  /** What the scan state says about the lines behind it. */
  ghost predicate IgnoreBehind(lines: seq<Line>, j: nat) {
    exists g :: 0 <= g < j <= |lines| && lines[g].tag == Ignore && forall m :: g <= m < j ==> lines[m].tag != Plain
  }

  lemma IgnoreStaysBehind(lines: seq<Line>, j: nat, ign: bool)
    requires j < |lines| && lines[j].tag != Plain && (ign ==> IgnoreBehind(lines, j))
    ensures ign || lines[j].tag == Ignore ==> IgnoreBehind(lines, j + 1)
  {
  }

  /** The first line of an alignment that is paired may be passed together with all inputs up to its own. */
  lemma AfterPairAt(re: Matcher, lines: seq<Line>, inputs: seq<string>, i: nat, j: nat, ign: bool, p: seq<int>, c: nat)
    requires i <= c < |inputs| && j < |lines| && |p| == |inputs| && p[c] == j
    requires AlignmentFrom(re, lines, inputs, i, j, ign, p)
    ensures AlignmentFrom(re, lines, inputs, c + 1, j + 1, false, p)
  {
  }

  lemma StillAligned(re: Matcher, lines: seq<Line>, inputs: seq<string>, i: nat, j: nat, ign: bool, more: bool,
                     p: seq<int>)
    requires AlignmentFrom(re, lines, inputs, i, j, ign, p)
    ensures AlignmentFrom(re, lines, inputs, i, j, ign || more, p)
  {
  }

  /** At an IGNORE line any inputs may be put in front. */
  lemma PrependAtIgnore(re: Matcher, lines: seq<Line>, inputs: seq<string>, i: nat, from: nat, j: nat, ign: bool,
                        p: seq<int>, q: seq<int>)
    requires i <= from <= |inputs| && j < |lines| && lines[j].tag == Ignore && |p| == |inputs| == |q|
    requires AlignmentFrom(re, lines, inputs, from, j, ign, p)
    requires forall a :: 0 <= a < |q| ==> q[a] == if a < from then SKIPPED else p[a]
    ensures AlignmentFrom(re, lines, inputs, i, j, false, q)
  {
    forall m | j <= m < |lines| && lines[m].tag == Plain
      ensures Covered(q, i, m)
    {
      assert Covered(p, from, m);
      var a :| from <= a < |p| && p[a] == m;
      assert q[a] == m;
    }
    forall a | i <= a < |q| && q[a] == SKIPPED
      ensures exists g :: j <= g < |lines| && lines[g].tag == Ignore && InGap(q, i, a, g)
    {
      if a < from || (ign && NonePaired(p, from, a)) {
        assert InGap(q, i, a, j);
      } else {
        var g :| j <= g < |lines| && lines[g].tag == Ignore && InGap(p, from, a, g);
        assert InGap(q, i, a, g);
      }
    }
  }

  /** Where the file reopens, any inputs may be put in front: plain lines take the first ones, the rest is ignored. */
  lemma {:induction false} Reopen(re: Matcher, lines: seq<Line>, inputs: seq<string>, i: nat, from: nat, j: nat, g: nat,
                                  ign: bool, p: seq<int>)
    returns (q: seq<int>)
    requires i <= from <= |inputs| && j <= g < |lines| && lines[g].tag == Ignore && |p| == |inputs|
    requires AllAccepted(re, lines, j, g, AmongInputs(inputs))
    requires AlignmentFrom(re, lines, inputs, from, j, ign, p)
    ensures |q| == |inputs| && AlignmentFrom(re, lines, inputs, i, j, false, q)
    decreases g - j
  {
    hide AlignmentFrom;
    if lines[j].tag == Ignore {
      q := seq(|inputs|, a requires 0 <= a < |inputs| => if a < from then SKIPPED else p[a]);
      PrependAtIgnore(re, lines, inputs, i, from, j, ign, p, q);
    } else if c :| from <= c < |p| && p[c] == j {
      AfterPairAt(re, lines, inputs, from, j, ign, p, c);
      if lines[j].tag == Plain {
        q := Reopen(re, lines, inputs, i + 1, c + 1, j + 1, g, false, p);
        assert AmongInputs(inputs)(inputs[i]);
        Pair(re, lines, inputs, i, j, false, q);
        q := q[i := j];
      } else {
        q := Reopen(re, lines, inputs, i, c + 1, j + 1, g, false, p);
        PassOver(re, lines, inputs, i, j, false, q);
      }
    } else {
      PlainIsPaired(re, lines, inputs, from, j, ign, p);
      AfterLine(re, lines, inputs, from, j, ign, p);
      q := Reopen(re, lines, inputs, i, from, j + 1, g, ign, p);
      PassOver(re, lines, inputs, i, j, false, q);
    }
  }

  lemma PlainIsPaired(re: Matcher, lines: seq<Line>, inputs: seq<string>, i: nat, j: nat, ign: bool, p: seq<int>)
    requires j < |lines| && AlignmentFrom(re, lines, inputs, i, j, ign, p)
    requires forall c :: i <= c < |p| ==> p[c] != j
    ensures lines[j].tag != Plain
  {
    assert !Covered(p, i, j);
  }

  /** Behind an IGNORE, a line that takes an input other than the first it accepts is followed by a reopening. */
  lemma ReopensBehind(re: Matcher, lines: seq<Line>, inputs: seq<string>, j: nat, a: nat, b: nat)
    requires a <= b < |inputs| && j < |lines| && IgnoreBehind(lines, j) && Unambiguous(re, lines, inputs)
    requires Accepts(re, lines[j], inputs[b])
    requires lines[j].tag == Opt || (lines[j].tag == Plain && a < b && Accepts(re, lines[j], inputs[a]))
    ensures Reopens(re, lines, j + 1, AmongInputs(inputs))
  {
    var g :| 0 <= g < j && lines[g].tag == Ignore && forall m :: g <= m < j ==> lines[m].tag != Plain;
    assert SameRun(lines, g, j);
  }

  /** From an alignment that pairs line j with input c, one for any earlier input after line j, if the file reopens. */
  lemma Earlier(re: Matcher, lines: seq<Line>, inputs: seq<string>, i: nat, j: nat, ign: bool, p: seq<int>, c: nat,
                to: nat)
    returns (q: seq<int>)
    requires i <= c < |inputs| && j < |lines| && |p| == |inputs| && p[c] == j && to <= c + 1
    requires AlignmentFrom(re, lines, inputs, i, j, ign, p)
    requires Reopens(re, lines, j + 1, AmongInputs(inputs))
    ensures |q| == |inputs| && AlignmentFrom(re, lines, inputs, to, j + 1, false, q)
  {
    hide AlignmentFrom;
    AfterPairAt(re, lines, inputs, i, j, ign, p, c);
    var g :| j + 1 <= g < |lines| && lines[g].tag == Ignore && AllAccepted(re, lines, j + 1, g, AmongInputs(inputs));
    q := Reopen(re, lines, inputs, to, c + 1, j + 1, g, false, p);
  }

  /** Where a plain line stands in an alignment: if not at the input at hand, an IGNORE is in effect and skips that. */
  lemma AtPlain(re: Matcher, lines: seq<Line>, inputs: seq<string>, i: nat, j: nat, ign: bool, p: seq<int>)
    returns (c: nat)
    requires i < |inputs| && j < |lines| && lines[j].tag == Plain
    requires AlignmentFrom(re, lines, inputs, i, j, ign, p)
    ensures |p| == |inputs| && i <= c < |p| && p[c] == j && Accepts(re, lines[j], inputs[c])
    ensures c > i ==> p[i] == SKIPPED && ign
  {
    assert Covered(p, i, j);
    c :| i <= c < |p| && p[c] == j;
    assert Links(re, lines, inputs[c], j, j);
  }

  /** An OPT line that accepts the input at hand: what follows both has an alignment. */
  lemma PastOpt(re: Matcher, lines: seq<Line>, inputs: seq<string>, i: nat, j: nat, ign: bool, p: seq<int>)
    returns (q: seq<int>)
    requires i < |inputs| && j < |lines| && lines[j].tag == Opt && Accepts(re, lines[j], inputs[i]) && |p| == |inputs|
    requires Unambiguous(re, lines, inputs) && (ign ==> IgnoreBehind(lines, j))
    requires AlignmentFrom(re, lines, inputs, i, j, ign, p)
    ensures |q| == |inputs| && AlignmentFrom(re, lines, inputs, i + 1, j + 1, false, q)
  {
    hide AlignmentFrom, Unambiguous, IgnoreBehind;
    if !ign || p[i] != SKIPPED {
      FirstNotPlain(re, lines, inputs, i, j, ign, p);
      AfterFirst(re, lines, inputs, i, j, ign, p);
      q := p;
    } else {
      ReopensBehind(re, lines, inputs, j, i, i);
      if c :| i <= c < |p| && p[c] == j {
        q := Earlier(re, lines, inputs, i, j, ign, p, c, i + 1);
      } else {
        AfterLine(re, lines, inputs, i, j, ign, p);
        AfterSkip(re, lines, inputs, i, j + 1, p);
        var g :| j < g < |lines| && lines[g].tag == Ignore && AllAccepted(re, lines, j + 1, g, AmongInputs(inputs));
        q := Reopen(re, lines, inputs, i + 1, i + 1, j + 1, g, true, p);
      }
    }
  }

  /** The input at hand is not paired with a plain line if the OPT line at hand accepts it. */
  lemma FirstNotPlain(re: Matcher, lines: seq<Line>, inputs: seq<string>, i: nat, j: nat, ign: bool, p: seq<int>)
    requires i < |inputs| && j < |lines| && lines[j].tag == Opt && Accepts(re, lines[j], inputs[i]) && |p| == |inputs|
    requires Unambiguous(re, lines, inputs) && AlignmentFrom(re, lines, inputs, i, j, ign, p)
    ensures p[i] != SKIPPED ==> 0 <= p[i] < |lines| && lines[p[i]].tag == Opt
  {
  }

  /** Then it may be given to that OPT line instead. */
  lemma AfterFirst(re: Matcher, lines: seq<Line>, inputs: seq<string>, i: nat, j: nat, ign: bool, p: seq<int>)
    requires i < |inputs| && j < |lines| && lines[j].tag == Opt && |p| == |inputs|
    requires AlignmentFrom(re, lines, inputs, i, j, ign, p)
    requires !ign || p[i] != SKIPPED
    requires p[i] != SKIPPED ==> 0 <= p[i] < |lines| && lines[p[i]].tag == Opt
    ensures AlignmentFrom(re, lines, inputs, i + 1, j + 1, false, p)
  {
    LaterLinesAbove(re, lines, inputs, i, j, ign, p);
  }

  /** Every input after i is paired above line j. */
  lemma LaterLinesAbove(re: Matcher, lines: seq<Line>, inputs: seq<string>, i: nat, j: nat, ign: bool, p: seq<int>)
    requires i < |inputs| && j < |lines| && lines[j].tag == Opt && |p| == |inputs|
    requires AlignmentFrom(re, lines, inputs, i, j, ign, p) && (!ign || p[i] != SKIPPED)
    ensures forall b :: i < b < |p| && p[b] != SKIPPED ==> j < p[b]
  {
    if p[i] == SKIPPED {
      var g :| j <= g < |lines| && lines[g].tag == Ignore && InGap(p, i, i, g);
    }
  }

  /** An OPT line that does not accept the input at hand, or an IGNORE line: what follows the line has an alignment. */
  lemma PastLine(re: Matcher, lines: seq<Line>, inputs: seq<string>, i: nat, j: nat, ign: bool, p: seq<int>)
    returns (q: seq<int>)
    requires i < |inputs| && j < |lines| && |p| == |inputs|
    requires lines[j].tag == Ignore || (lines[j].tag == Opt && !Accepts(re, lines[j], inputs[i]))
    requires Unambiguous(re, lines, inputs) && (ign ==> IgnoreBehind(lines, j))
    requires AlignmentFrom(re, lines, inputs, i, j, ign, p)
    ensures |q| == |inputs| && AlignmentFrom(re, lines, inputs, i, j + 1, ign || lines[j].tag == Ignore, q)
  {
    hide AlignmentFrom, Unambiguous, IgnoreBehind;
    if c :| i <= c < |p| && p[c] == j {
      LateOpt(re, lines, inputs, i, j, ign, p, c);
      ReopensBehind(re, lines, inputs, j, i, c);
      q := Earlier(re, lines, inputs, i, j, ign, p, c, i);
      StillAligned(re, lines, inputs, i, j + 1, false, ign, q);
    } else {
      AfterLine(re, lines, inputs, i, j, ign, p);
      q := p;
    }
  }

  lemma LateOpt(re: Matcher, lines: seq<Line>, inputs: seq<string>, i: nat, j: nat, ign: bool, p: seq<int>, c: nat)
    requires i <= c < |inputs| && j < |lines| && |p| == |inputs| && p[c] == j
    requires lines[j].tag == Ignore || !Accepts(re, lines[j], inputs[i])
    requires AlignmentFrom(re, lines, inputs, i, j, ign, p)
    ensures lines[j].tag != Ignore && Accepts(re, lines[j], inputs[c]) && ign
  {
    assert Links(re, lines, inputs[c], j, j);
    assert p[i] == SKIPPED;
  }

  lemma {:induction false} AlignmentGivesPass(re: Matcher, lines: seq<Line>, inputs: seq<string>, i: nat, j: nat,
                                              ign: bool, p: seq<int>)
    requires i <= |inputs| && j <= |lines| && |p| == |inputs|
    requires NoSwitch(lines) && Unambiguous(re, lines, inputs) && (ign ==> IgnoreBehind(lines, j))
    requires AlignmentFrom(re, lines, inputs, i, j, ign, p)
    ensures Ordered(re, lines, inputs, i, j, ign) == Pass
    decreases |inputs| - i + |lines| - j
  {
    hide AlignmentFrom, Unambiguous, IgnoreBehind;
    if j == |lines| || i == |inputs| {
      AtEnd(re, lines, inputs, i, j, ign, p);
    } else if lines[j].tag == Plain {
      var c := AtPlain(re, lines, inputs, i, j, ign, p);
      if c == i {
        AfterPair(re, lines, inputs, i, j, ign, p);
        AlignmentGivesPass(re, lines, inputs, i + 1, j + 1, false, p);
      } else if Accepts(re, lines[j], inputs[i]) {
        ReopensBehind(re, lines, inputs, j, i, c);
        var q := Earlier(re, lines, inputs, i, j, ign, p, c, i + 1);
        AlignmentGivesPass(re, lines, inputs, i + 1, j + 1, false, q);
      } else {
        AfterSkip(re, lines, inputs, i, j, p);
        AlignmentGivesPass(re, lines, inputs, i + 1, j, true, p);
      }
    } else if lines[j].tag == Opt && Accepts(re, lines[j], inputs[i]) {
      var q := PastOpt(re, lines, inputs, i, j, ign, p);
      AlignmentGivesPass(re, lines, inputs, i + 1, j + 1, false, q);
    } else {
      var q := PastLine(re, lines, inputs, i, j, ign, p);
      IgnoreStaysBehind(lines, j, ign);
      AlignmentGivesPass(re, lines, inputs, i, j + 1, ign || lines[j].tag == Ignore, q);
    }
  }

  /** COMPLETENESS. On unambiguous input an ordered run passes exactly when there is an alignment. */
  lemma OrderedExact(re: Matcher, lines: seq<Line>, inputs: seq<string>)
    requires NoSwitch(lines) && Unambiguous(re, lines, inputs)
    ensures Run(re, lines, inputs) == Pass <==> exists p :: Alignment(re, lines, inputs, p)
  {
    NeverSwitches(re, lines, inputs, 0, 0, false);
    if Run(re, lines, inputs) == Pass {
      var p := OrderedSound(re, lines, inputs);
    }
    if p :| Alignment(re, lines, inputs, p) {
      AlignmentGivesPass(re, lines, inputs, 0, 0, false, p);
    }
  }

  // ---------------------------------------------------------------- every input

  ghost predicate PlainsSatisfiable(re: Matcher, lines: seq<Line>) {
    forall m :: 0 <= m < |lines| && lines[m].tag == Plain ==> exists s :: Accepts(re, lines[m], s)
  }

  /** No string at all is accepted by a plain line and by an OPT line of the run that it ends. */
  ghost predicate RunsDisjoint(re: Matcher, lines: seq<Line>) {
    forall j: nat, k: nat, s :: SameRun(lines, j, k) && lines[k].tag == Plain ==>
      !(Accepts(re, lines[j], s) && Accepts(re, lines[k], s))
  }

  /** The line can be paired with an input by an alignment. */
  ghost predicate CanTakeInput(re: Matcher, line: Line) {
    line.tag == Plain || (line.tag == Opt && exists s :: Accepts(re, line, s))
  }

  /** Behind an IGNORE the file reopens after every line that can take an input. */
  ghost predicate IgnoresReopen(re: Matcher, lines: seq<Line>) {
    forall g: nat, k: nat :: SameRun(lines, g, k) && lines[g].tag == Ignore && CanTakeInput(re, lines[k]) ==>
      Reopens(re, lines, k + 1, Everything())
  }

  ghost predicate OrderedIsExact(re: Matcher, lines: seq<Line>) {
    forall inputs :: Run(re, lines, inputs) == Pass <==> exists p :: Alignment(re, lines, inputs, p)
  }

  lemma ReopensAmong(re: Matcher, lines: seq<Line>, m: nat, inputs: seq<string>)
    requires Reopens(re, lines, m, Everything())
    ensures Reopens(re, lines, m, AmongInputs(inputs))
  {
    var g :| m <= g < |lines| && lines[g].tag == Ignore && AllAccepted(re, lines, m, g, Everything());
    forall l, s | m <= l < g && lines[l].tag == Plain && AmongInputs(inputs)(s)
      ensures Accepts(re, lines[l], s)
    {
      assert Everything()(s);
    }
  }

  lemma AlwaysUnambiguous(re: Matcher, lines: seq<Line>, inputs: seq<string>)
    requires RunsDisjoint(re, lines) && IgnoresReopen(re, lines)
    ensures Unambiguous(re, lines, inputs)
  {
    forall g: nat, k: nat | SameRun(lines, g, k) && lines[g].tag == Ignore && CanTakeInput(re, lines[k])
      ensures Reopens(re, lines, k + 1, AmongInputs(inputs))
    {
      ReopensAmong(re, lines, k + 1, inputs);
    }
  }

  lemma AlignedIsSatisfiable(re: Matcher, lines: seq<Line>, inputs: seq<string>, p: seq<int>)
    requires Alignment(re, lines, inputs, p)
    ensures PlainsSatisfiable(re, lines)
  {
    forall m | 0 <= m < |lines| && lines[m].tag == Plain
      ensures exists s :: Accepts(re, lines[m], s)
    {
      assert Covered(p, 0, m);
      var a :| 0 <= a < |p| && p[a] == m;
      assert Accepts(re, lines[m], inputs[a]);
    }
  }

  // ---------------------------------------------------------------- one input for each plain line

  /** Strings accepted by the plain lines from j on below `to`, one for each. */
  ghost predicate Fits(re: Matcher, lines: seq<Line>, j: nat, to: nat, xs: seq<string>)
    requires j <= to <= |lines|
    decreases |lines| - j
  {
    if j == to then xs == []
    else if lines[j].tag != Plain then Fits(re, lines, j + 1, to, xs)
    else xs != [] && Accepts(re, lines[j], xs[0]) && Fits(re, lines, j + 1, to, xs[1..])
  }

  lemma {:induction false} PlainWitnesses(re: Matcher, lines: seq<Line>, j: nat, to: nat) returns (xs: seq<string>)
    requires PlainsSatisfiable(re, lines) && j <= to <= |lines|
    ensures Fits(re, lines, j, to, xs)
    decreases |lines| - j
  {
    if j == to {
      xs := [];
    } else {
      xs := PlainWitnesses(re, lines, j + 1, to);
      if lines[j].tag == Plain {
        var x :| Accepts(re, lines[j], x);
        xs := [x] + xs;
      }
    }
  }

  /** The first of them belongs to the first plain line. */
  lemma {:induction false} FirstFit(re: Matcher, lines: seq<Line>, j: nat, to: nat, xs: seq<string>) returns (m: nat)
    requires j <= to <= |lines| && Fits(re, lines, j, to, xs)
    ensures j <= m <= to && forall l :: j <= l < m ==> lines[l].tag != Plain
    ensures if m == to then xs == [] else (xs != [] && lines[m].tag == Plain && Accepts(re, lines[m], xs[0]))
    decreases |lines| - j
  {
    if j == to || lines[j].tag == Plain {
      m := j;
    } else {
      m := FirstFit(re, lines, j + 1, to, xs);
    }
  }

  ghost function PlainCount(lines: seq<Line>, j: nat): nat
    requires j <= |lines|
    decreases |lines| - j
  {
    if j == |lines| then 0 else (if lines[j].tag == Plain then 1 else 0) + PlainCount(lines, j + 1)
  }

  lemma {:induction false} FitsCount(re: Matcher, lines: seq<Line>, j: nat, to: nat, xs: seq<string>)
    requires j <= to <= |lines| && Fits(re, lines, j, to, xs)
    ensures |xs| == PlainCount(lines, j) - PlainCount(lines, to)
    decreases |lines| - j
  {
    if j < to {
      FitsCount(re, lines, j + 1, to, if lines[j].tag == Plain then xs[1..] else xs);
    }
  }

  /** Every plain line costs an input line. */
  lemma {:induction false} PassNeedsInputs(re: Matcher, lines: seq<Line>, inputs: seq<string>, i: nat, j: nat,
                                           ign: bool)
    requires i <= |inputs| && j <= |lines| && Ordered(re, lines, inputs, i, j, ign) == Pass
    ensures PlainCount(lines, j) <= |inputs| - i
    decreases |inputs| - i + |lines| - j
  {
    if j == |lines| {
    } else if i == |inputs| {
      NoPlainCount(lines, j);
    } else if lines[j].tag == Ignore {
      PassNeedsInputs(re, lines, inputs, i, j + 1, true);
    } else if Accepts(re, lines[j], inputs[i]) {
      PassNeedsInputs(re, lines, inputs, i + 1, j + 1, false);
    } else if lines[j].tag == Opt {
      PassNeedsInputs(re, lines, inputs, i, j + 1, ign);
    } else {
      PassNeedsInputs(re, lines, inputs, i + 1, j, ign);
    }
  }

  lemma {:induction false} NoPlainCount(lines: seq<Line>, j: nat)
    requires j <= |lines| && NoPlainFrom(lines, j)
    ensures PlainCount(lines, j) == 0
    decreases |lines| - j
  {
    if j < |lines| {
      NoPlainCount(lines, j + 1);
    }
  }

  // ---------------------------------------------------------------- building alignments from the back

  /** Lines that are not plain may be put in front. */
  lemma {:induction false} LinesInFront(re: Matcher, lines: seq<Line>, inputs: seq<string>, i: nat, j: nat, to: nat,
                                        ign: bool, p: seq<int>)
    requires i <= |inputs| && j <= to <= |lines| && forall m :: j <= m < to ==> lines[m].tag != Plain
    requires AlignmentFrom(re, lines, inputs, i, to, ign, p)
    ensures AlignmentFrom(re, lines, inputs, i, j, ign, p)
    decreases |lines| - j
  {
    hide AlignmentFrom;
    if j < to {
      LinesInFront(re, lines, inputs, i, j + 1, to, ign, p);
      StillAligned(re, lines, inputs, i, j + 1, ign, lines[j].tag == Ignore, p);
      PassOver(re, lines, inputs, i, j, ign, p);
    }
  }

  /** While an IGNORE is in effect, inputs may be put in front. */
  lemma {:induction false} InputsInFront(re: Matcher, lines: seq<Line>, inputs: seq<string>, i: nat, from: nat, j: nat,
                                         p: seq<int>)
    returns (q: seq<int>)
    requires i <= from <= |inputs| && j <= |lines| && |p| == |inputs|
    requires AlignmentFrom(re, lines, inputs, from, j, true, p)
    ensures |q| == |inputs| && AlignmentFrom(re, lines, inputs, i, j, true, q)
    decreases from - i
  {
    hide AlignmentFrom;
    if i == from {
      q := p;
    } else {
      q := InputsInFront(re, lines, inputs, i + 1, from, j, p);
      Skip(re, lines, inputs, i, j, q);
      q := q[i := SKIPPED];
    }
  }

  /** Plain lines may be put in front together with an input for each. */
  lemma {:induction false} FitsInFront(re: Matcher, lines: seq<Line>, inputs: seq<string>, i: nat, j: nat, to: nat,
                                       xs: seq<string>, p: seq<int>)
    returns (q: seq<int>)
    requires j <= to <= |lines| && Fits(re, lines, j, to, xs) && |p| == |inputs|
    requires i + |xs| <= |inputs| && inputs[i..i + |xs|] == xs
    requires AlignmentFrom(re, lines, inputs, i + |xs|, to, false, p)
    ensures |q| == |inputs| && AlignmentFrom(re, lines, inputs, i, j, false, q)
    decreases |lines| - j
  {
    hide AlignmentFrom;
    if j == to {
      q := p;
    } else if lines[j].tag == Plain {
      assert inputs[i + 1..i + 1 + |xs[1..]|] == xs[1..];
      q := FitsInFront(re, lines, inputs, i + 1, j + 1, to, xs[1..], p);
      assert inputs[i] == xs[0];
      Pair(re, lines, inputs, i, j, false, q);
      q := q[i := j];
    } else {
      q := FitsInFront(re, lines, inputs, i, j + 1, to, xs, p);
      LinesInFront(re, lines, inputs, i, j, j + 1, false, q);
    }
  }

  lemma Empty(re: Matcher, lines: seq<Line>, inputs: seq<string>) returns (p: seq<int>)
    ensures |p| == |inputs| && AlignmentFrom(re, lines, inputs, |inputs|, |lines|, false, p)
  {
    p := seq(|inputs|, _ => SKIPPED);
  }

  // ---------------------------------------------------------------- a shared string

  /** With one input for each plain line, and s for line k, the scan gives some input to an OPT line, o at the latest,
      and ends up one short. */
  lemma {:induction false} OneShort(re: Matcher, lines: seq<Line>, inputs: seq<string>, i: nat, j: nat, ign: bool,
                                    o: nat, k: nat, xs: seq<string>, ys: seq<string>)
    requires i <= |inputs| && j <= o && SameRun(lines, o, k) && lines[k].tag == Plain && NoSwitch(lines)
    requires Fits(re, lines, j, k, xs) && Fits(re, lines, k + 1, |lines|, ys)
    requires |inputs| == i + |xs| + 1 + |ys| && inputs[i..i + |xs|] == xs
    requires Accepts(re, lines[o], inputs[i + |xs|])
    ensures Ordered(re, lines, inputs, i, j, ign) != Pass
    decreases |lines| - j
  {
    FitsCount(re, lines, j, k, xs);
    FitsCount(re, lines, k + 1, |lines|, ys);
    if lines[j].tag == Plain {
      assert inputs[i] == xs[0];
      assert inputs[i + 1..i + 1 + |xs[1..]|] == xs[1..];
      OneShort(re, lines, inputs, i + 1, j + 1, false, o, k, xs[1..], ys);
    } else if lines[j].tag == Opt && Accepts(re, lines[j], inputs[i]) {
      if Ordered(re, lines, inputs, i + 1, j + 1, false) == Pass {
        PassNeedsInputs(re, lines, inputs, i + 1, j + 1, false);
      }
    } else if j < o {
      OneShort(re, lines, inputs, i, j + 1, ign || lines[j].tag == Ignore, o, k, xs, ys);
    } else {
      var m := FirstFit(re, lines, o, k, xs);
    }
  }

  /** An OPT line shares s with the plain line that ends its run: some inputs can be aligned but do not pass. */
  lemma SharedStringDefeats(re: Matcher, lines: seq<Line>, o: nat, k: nat, s: string)
    returns (inputs: seq<string>, p: seq<int>)
    requires NoSwitch(lines) && PlainsSatisfiable(re, lines)
    requires SameRun(lines, o, k) && lines[k].tag == Plain && Accepts(re, lines[o], s) && Accepts(re, lines[k], s)
    ensures Alignment(re, lines, inputs, p)
    ensures Run(re, lines, inputs) != Pass
  {
    hide AlignmentFrom;
    var xs := PlainWitnesses(re, lines, 0, k);
    var ys := PlainWitnesses(re, lines, k + 1, |lines|);
    inputs := xs + [s] + ys;
    p := Empty(re, lines, inputs);
    p := FitsInFront(re, lines, inputs, |xs| + 1, k + 1, |lines|, ys, p);
    Pair(re, lines, inputs, |xs|, k, false, p);
    p := FitsInFront(re, lines, inputs, 0, 0, k, xs, p[|xs| := k]);
    OneShort(re, lines, inputs, 0, 0, false, o, k, xs, ys);
    NeverSwitches(re, lines, inputs, 0, 0, false);
  }

  // ---------------------------------------------------------------- a file that does not reopen

  /** Where the run of line k starts: behind a plain line or at the top of the file. */
  lemma {:induction false} RunStart(lines: seq<Line>, k: nat) returns (j: nat)
    requires k <= |lines|
    ensures j <= k && (j == 0 || lines[j - 1].tag == Plain) && forall m :: j <= m < k ==> lines[m].tag != Plain
    decreases k
  {
    if k == 0 || lines[k - 1].tag == Plain {
      j := k;
    } else {
      j := RunStart(lines, k - 1);
    }
  }

  /** With one input for each plain line the scan comes to the end of a run, if no OPT line can get in the way. */
  lemma {:induction false} Follow(re: Matcher, lines: seq<Line>, inputs: seq<string>, i: nat, j: nat, to: nat,
                                  ign: bool, xs: seq<string>)
    returns (ign': bool)
    requires j <= to <= |lines| && (j == to || lines[to - 1].tag == Plain)
    requires NoSwitch(lines) && RunsDisjoint(re, lines) && Fits(re, lines, j, to, xs)
    requires i + |xs| <= |inputs| && inputs[i..i + |xs|] == xs
    ensures Ordered(re, lines, inputs, i, j, ign) == Ordered(re, lines, inputs, i + |xs|, to, ign')
    decreases |lines| - j
  {
    hide RunsDisjoint;
    if j == to {
      ign' := ign;
    } else {
      OutOfTheWay(re, lines, j, to, xs);
      assert inputs[i] == xs[0];
      if lines[j].tag == Plain {
        assert inputs[i + 1..i + 1 + |xs[1..]|] == xs[1..];
        ign' := Follow(re, lines, inputs, i + 1, j + 1, to, false, xs[1..]);
      } else {
        ign' := Follow(re, lines, inputs, i, j + 1, to, ign || lines[j].tag == Ignore, xs);
      }
    }
  }

  /** Line j rejects the next input unless it is the plain line that needs it. */
  lemma OutOfTheWay(re: Matcher, lines: seq<Line>, j: nat, to: nat, xs: seq<string>)
    requires j < to <= |lines| && lines[to - 1].tag == Plain
    requires RunsDisjoint(re, lines) && Fits(re, lines, j, to, xs)
    ensures xs != [] && (Accepts(re, lines[j], xs[0]) <==> lines[j].tag == Plain)
  {
    hide Fits;
    var m := FirstFit(re, lines, j, to, xs);
    assert j < m ==> SameRun(lines, j, m);
  }

  /** How many lines accept s. */
  ghost function Eaters(re: Matcher, lines: seq<Line>, j: nat, k: nat, s: string): nat
    requires j <= k <= |lines|
    decreases |lines| - j
  {
    if j == k then 0 else (if Accepts(re, lines[j], s) then 1 else 0) + Eaters(re, lines, j + 1, k, s)
  }

  /** With enough copies of s at hand, line k takes one of them, and no IGNORE is in effect any more. */
  lemma {:induction false} Eat(re: Matcher, lines: seq<Line>, inputs: seq<string>, i: nat, j: nat, ign: bool, k: nat,
                               s: string)
    requires j <= k < |lines| && NoSwitch(lines) && (forall m :: j <= m < k ==> lines[m].tag != Plain)
    requires Accepts(re, lines[k], s) && i + Eaters(re, lines, j, k, s) < |inputs|
    requires forall a :: i <= a <= i + Eaters(re, lines, j, k, s) ==> inputs[a] == s
    ensures Ordered(re, lines, inputs, i, j, ign)
            == Ordered(re, lines, inputs, i + Eaters(re, lines, j, k, s) + 1, k + 1, false)
    decreases k - j
  {
    assert inputs[i] == s;
    if j < k {
      if Accepts(re, lines[j], s) {
        Eat(re, lines, inputs, i + 1, j + 1, false, k, s);
      } else {
        Eat(re, lines, inputs, i, j + 1, ign || lines[j].tag == Ignore, k, s);
      }
    }
  }

  /** A stop: the end of the file or a plain line that rejects y. */
  ghost predicate Stops(re: Matcher, lines: seq<Line>, at: nat, y: string) {
    at == |lines| || (at < |lines| && lines[at].tag == Plain && !Accepts(re, lines[at], y))
  }

  /** If the file does not reopen, it has a stop before the next IGNORE. */
  lemma Stop(re: Matcher, lines: seq<Line>, m: nat) returns (at: nat, y: string)
    requires m <= |lines| && !Reopens(re, lines, m, Everything())
    ensures m <= at <= |lines| && Stops(re, lines, at, y) && forall l :: m <= l < at ==> lines[l].tag != Ignore
  {
    var g := NextIgnore(lines, m);
    if g == |lines| {
      at, y := g, "";
    } else {
      assert !AllAccepted(re, lines, m, g, Everything());
      at, y :| m <= at < g && lines[at].tag == Plain && !Accepts(re, lines[at], y);
    }
  }

  lemma {:induction false} NextIgnore(lines: seq<Line>, m: nat) returns (g: nat)
    requires m <= |lines|
    ensures m <= g <= |lines| && (forall l :: m <= l < g ==> lines[l].tag != Ignore)
    ensures g < |lines| ==> lines[g].tag == Ignore
    decreases |lines| - m
  {
    if m == |lines| || lines[m].tag == Ignore {
      g := m;
    } else {
      g := NextIgnore(lines, m + 1);
    }
  }

  /** Enough copies of y run into the stop. */
  lemma {:induction false} RunsIntoStop(re: Matcher, lines: seq<Line>, inputs: seq<string>, i: nat, j: nat, at: nat,
                                        y: string)
    requires j <= at <= |lines| && Stops(re, lines, at, y) && forall l :: j <= l < at ==> lines[l].tag != Ignore
    requires i + at - j < |inputs| && forall a :: i <= a <= i + at - j ==> inputs[a] == y
    ensures Ordered(re, lines, inputs, i, j, false) != Pass
    decreases at - j
  {
    assert inputs[i] == y;
    if j < at {
      if Accepts(re, lines[j], inputs[i]) {
        RunsIntoStop(re, lines, inputs, i + 1, j + 1, at, y);
      } else {
        RunsIntoStop(re, lines, inputs, i, j + 1, at, y);
      }
    }
  }

  /** The inputs that defeat a file whose line k stands behind an IGNORE and takes s: what the lines in front of the run
      need, s as often as the run can take it, y until the scan stops, then s again and what the other lines need. */
  ghost function Defeating(w: seq<string>, s: string, c: nat, y: string, n: nat, b: seq<string>): seq<string> {
    w + Copies(s, c + 1) + Copies(y, n) + [s] + b
  }

  lemma DefeatingParts(w: seq<string>, s: string, c: nat, y: string, n: nat, b: seq<string>)
    ensures var inputs := Defeating(w, s, c, y, n, b);
            && |inputs| == |w| + c + 1 + n + 1 + |b| && inputs[..|w|] == w
            && (forall a :: |w| <= a < |w| + c + 1 ==> inputs[a] == s)
            && (forall a :: |w| + c + 1 <= a < |w| + c + 1 + n ==> inputs[a] == y)
            && inputs[|w| + c + 1 + n] == s && inputs[|w| + c + 1 + n + 1..] == b
  {
  }

  /** They can be aligned, with everything up to the last s skipped at the IGNORE. */
  lemma DefeatingAligned(re: Matcher, lines: seq<Line>, inputs: seq<string>, w: seq<string>, at: nat, b: seq<string>,
                         j: nat, g: nat, k: nat)
    returns (p: seq<int>)
    requires j <= g && SameRun(lines, g, k) && lines[g].tag == Ignore && lines[k].tag in {Plain, Opt}
    requires forall m :: j <= m < k ==> lines[m].tag != Plain
    requires Fits(re, lines, 0, j, w) && Fits(re, lines, k + 1, |lines|, b)
    requires |w| <= at && |inputs| == at + 1 + |b| && inputs[..|w|] == w && inputs[at + 1..] == b
    requires Accepts(re, lines[k], inputs[at])
    ensures Alignment(re, lines, inputs, p)
  {
    hide AlignmentFrom;
    p := Empty(re, lines, inputs);
    p := FitsInFront(re, lines, inputs, at + 1, k + 1, |lines|, b, p);
    Pair(re, lines, inputs, at, k, true, p);
    p := InputsInFront(re, lines, inputs, |w|, at, k, p[at := k]);
    LinesInFront(re, lines, inputs, |w|, g + 1, k, true, p);
    PassOver(re, lines, inputs, |w|, g, false, p);
    LinesInFront(re, lines, inputs, |w|, j, g, false, p);
    p := FitsInFront(re, lines, inputs, 0, 0, j, w, p);
  }

  /** A usable line behind an IGNORE without a reopening after it: some inputs can be aligned but do not pass. */
  lemma NotReopeningDefeats(re: Matcher, lines: seq<Line>, g: nat, k: nat)
    returns (inputs: seq<string>, p: seq<int>)
    requires NoSwitch(lines) && PlainsSatisfiable(re, lines) && RunsDisjoint(re, lines)
    requires SameRun(lines, g, k) && lines[g].tag == Ignore && CanTakeInput(re, lines[k])
    requires !Reopens(re, lines, k + 1, Everything())
    ensures Alignment(re, lines, inputs, p)
    ensures Run(re, lines, inputs) != Pass
  {
    hide AlignmentFrom, Alignment, RunsDisjoint, Reopens, NoSwitch, Fits, Eaters, Defeating, Ordered;
    var s :| Accepts(re, lines[k], s);
    var j := RunStart(lines, k);
    var at, y := Stop(re, lines, k + 1);
    var w := PlainWitnesses(re, lines, 0, j);
    var b := PlainWitnesses(re, lines, k + 1, |lines|);
    var c := Eaters(re, lines, j, k, s);
    inputs := Defeating(w, s, c, y, |lines| + 1, b);
    DefeatingParts(w, s, c, y, |lines| + 1, b);
    p := DefeatingAligned(re, lines, inputs, w, |w| + c + 1 + |lines| + 1, b, j, g, k);
    var ign := Follow(re, lines, inputs, 0, 0, j, false, w);
    Eat(re, lines, inputs, |w|, j, ign, k, s);
    RunsIntoStop(re, lines, inputs, |w| + c + 1, k + 1, at, y);
    NeverSwitches(re, lines, inputs, 0, 0, false);
  }

  // ---------------------------------------------------------------- the theorem

  /** EXACTNESS for every file without NONDETERMINISTIC. The scan finds an alignment of every input that has one if and
      only if no OPT line shares a string with the plain line that ends its run, and behind an IGNORE the file reopens
      after every line that can take an input (or some plain line accepts nothing, so that nothing ever passes). */
  lemma ExactlyWhenReopening(re: Matcher, lines: seq<Line>)
    requires NoSwitch(lines)
    ensures OrderedIsExact(re, lines)
            <==> !PlainsSatisfiable(re, lines) || (RunsDisjoint(re, lines) && IgnoresReopen(re, lines))
  {
    hide AlignmentFrom, Run;
    if !PlainsSatisfiable(re, lines) {
      Unsatisfiable(re, lines);
    } else if !RunsDisjoint(re, lines) {
      var j: nat, k: nat, s :| SameRun(lines, j, k) && lines[k].tag == Plain &&
                               Accepts(re, lines[j], s) && Accepts(re, lines[k], s);
      var inputs, p := SharedStringDefeats(re, lines, j, k, s);
    } else if !IgnoresReopen(re, lines) {
      var g: nat, k: nat :| SameRun(lines, g, k) && lines[g].tag == Ignore && CanTakeInput(re, lines[k]) &&
                            !Reopens(re, lines, k + 1, Everything());
      var inputs, p := NotReopeningDefeats(re, lines, g, k);
    } else {
      forall inputs
        ensures Run(re, lines, inputs) == Pass <==> exists p :: Alignment(re, lines, inputs, p)
      {
        AlwaysUnambiguous(re, lines, inputs);
        OrderedExact(re, lines, inputs);
      }
    }
  }

  lemma Unsatisfiable(re: Matcher, lines: seq<Line>)
    requires NoSwitch(lines) && !PlainsSatisfiable(re, lines)
    ensures OrderedIsExact(re, lines)
  {
    forall inputs
      ensures Run(re, lines, inputs) != Pass && !exists p :: Alignment(re, lines, inputs, p)
    {
      if p :| Alignment(re, lines, inputs, p) {
        AlignedIsSatisfiable(re, lines, inputs, p);
      }
      if Run(re, lines, inputs) == Pass {
        NeverSwitches(re, lines, inputs, 0, 0, false);
        var p := OrderedSound(re, lines, inputs);
        AlignedIsSatisfiable(re, lines, inputs, p);
      }
    }
  }

  /** Without IGNORE only the OPT lines matter. */
  lemma ExactlyWhenRunsDisjoint(re: Matcher, lines: seq<Line>)
    requires NoSwitch(lines) && forall m :: 0 <= m < |lines| ==> lines[m].tag != Ignore
    ensures OrderedIsExact(re, lines) <==> !PlainsSatisfiable(re, lines) || RunsDisjoint(re, lines)
  {
    ExactlyWhenReopening(re, lines);
  }

  /** Behind an IGNORE an alignment that is not leftmost is missed: the first "b" is taken, though the second fits. */
  lemma IgnoreStopsAtFirst(re: Matcher)
    requires forall x :: (re("b", x) <==> x == "b") && (re("c", x) <==> x == "c")
    ensures var lines := [Line(Ignore, "{{IGNORE}}"), Line(Plain, "b"), Line(Plain, "c")];
            Alignment(re, lines, ["b", "b", "c"], [SKIPPED, 1, 2]) && Run(re, lines, ["b", "b", "c"]) != Pass
  {
    var lines := [Line(Ignore, "{{IGNORE}}"), Line(Plain, "b"), Line(Plain, "c")];
    var p := [SKIPPED, 1, 2];
    assert InGap(p, 0, 0, 0);
    assert p[1] == 1 && p[2] == 2;
    assert "b"[0] != "c"[0];
    assert Ordered(re, lines, ["b", "b", "c"], 1, 2, false) == Fail;
  }
}
