/**
 Ordered mode of cmake/match.py against a declarative reading of a match file: an alignment pairs input lines with
 match lines in order, leaves no plain line out, and skips an input line only where an IGNORE stands in the gap.
 */
module MatchOrdered {
  import opened MatchFile

  const SKIPPED := -1

  /** From input i and line j on, with an IGNORE in effect or not: p[a] is the line paired with input a, or SKIPPED. */
  ghost predicate AlignmentFrom(re: Matcher, lines: seq<Line>, inputs: seq<string>, i: nat, j: nat, ign: bool,
                                p: seq<int>)
  {
    && |p| == |inputs|
    && (forall a :: i <= a < |p| && p[a] != SKIPPED ==> Links(re, lines, inputs[a], j, p[a]))
    && (forall a, b :: i <= a < b < |p| && p[a] != SKIPPED && p[b] != SKIPPED ==> p[a] < p[b])
    && (forall m :: j <= m < |lines| && lines[m].tag == Plain ==> Covered(p, i, m))
    && (forall a :: i <= a < |p| && p[a] == SKIPPED ==>
          (ign && NonePaired(p, i, a)) || exists g :: j <= g < |lines| && lines[g].tag == Ignore && InGap(p, i, a, g))
  }

  ghost predicate Links(re: Matcher, lines: seq<Line>, input: string, j: nat, m: int) {
    j <= m < |lines| && (lines[m].tag == Plain || lines[m].tag == Opt) && re(lines[m].pattern, input)
  }

  ghost predicate Covered(p: seq<int>, i: nat, m: int) {
    exists a :: i <= a < |p| && p[a] == m
  }

  ghost predicate NonePaired(p: seq<int>, i: nat, a: nat) {
    forall b :: i <= b < a && b < |p| ==> p[b] == SKIPPED
  }

  /** Line g lies after every line paired before input a and before every line paired after it. */
  ghost predicate InGap(p: seq<int>, i: nat, a: nat, g: nat) {
    && (forall b :: i <= b < a && b < |p| && p[b] != SKIPPED ==> p[b] < g)
    && (forall b :: a < b < |p| && p[b] != SKIPPED ==> g < p[b])
  }

  ghost predicate Alignment(re: Matcher, lines: seq<Line>, inputs: seq<string>, p: seq<int>) {
    AlignmentFrom(re, lines, inputs, 0, 0, false, p)
  }

  /** Input a is the one at hand when the scan comes to line o: all lines below o are done with, and none is after a. */
  ghost predicate AtHand(p: seq<int>, i: nat, a: nat, o: nat) {
    && i <= a < |p|
    && (a == i || (p[a - 1] != SKIPPED && p[a - 1] < o))
    && (forall b :: a <= b < |p| && p[b] != SKIPPED ==> o <= p[b])
  }

  /** Skipping goes on to the first input that the next paired line, a plain one, accepts. */
  ghost predicate SkipsToFirst(re: Matcher, lines: seq<Line>, inputs: seq<string>, i: nat, p: seq<int>)
    requires |p| == |inputs|
  {
    forall a, b :: i <= a < b < |p| && p[a] == SKIPPED && 0 <= p[b] < |lines| && NonePaired(p, a, b) ==>
      lines[p[b]].tag == Plain && !Accepts(re, lines[p[b]], inputs[a])
  }

  /** An OPT line is passed over only if it does not accept the input at hand. */
  ghost predicate OptsTried(re: Matcher, lines: seq<Line>, inputs: seq<string>, i: nat, j: nat, p: seq<int>)
    requires |p| == |inputs|
  {
    forall o: nat, a: nat :: j <= o < |lines| && lines[o].tag == Opt && AtHand(p, i, a, o) && !Covered(p, i, o) ==>
      !Accepts(re, lines[o], inputs[a])
  }

  ghost predicate LeftmostFrom(re: Matcher, lines: seq<Line>, inputs: seq<string>, i: nat, j: nat, p: seq<int>)
    requires |p| == |inputs|
  {
    SkipsToFirst(re, lines, inputs, i, p) && OptsTried(re, lines, inputs, i, j, p)
  }

  ghost predicate Leftmost(re: Matcher, lines: seq<Line>, inputs: seq<string>, p: seq<int>)
    requires |p| == |inputs|
  {
    LeftmostFrom(re, lines, inputs, 0, 0, p)
  }

  // ---------------------------------------------------------------- soundness

  /** Pairing input i with line j in front of an alignment of what follows. */
  lemma Pair(re: Matcher, lines: seq<Line>, inputs: seq<string>, i: nat, j: nat, ign: bool, p: seq<int>)
    requires i < |inputs| && j < |lines| && Links(re, lines, inputs[i], j, j)
    requires AlignmentFrom(re, lines, inputs, i + 1, j + 1, false, p)
    ensures AlignmentFrom(re, lines, inputs, i, j, ign, p[i := j])
  {
  }

  /** Skipping input i in front of an alignment of what follows, an IGNORE being in effect. */
  lemma Skip(re: Matcher, lines: seq<Line>, inputs: seq<string>, i: nat, j: nat, p: seq<int>)
    requires i < |inputs| && j <= |lines|
    requires AlignmentFrom(re, lines, inputs, i + 1, j, true, p)
    ensures AlignmentFrom(re, lines, inputs, i, j, true, p[i := SKIPPED])
  {
  }

  /** Passing over a line that pairs with nothing. */
  lemma PassOver(re: Matcher, lines: seq<Line>, inputs: seq<string>, i: nat, j: nat, ign: bool, p: seq<int>)
    requires i <= |inputs| && j < |lines| && lines[j].tag != Plain
    requires AlignmentFrom(re, lines, inputs, i, j + 1, ign || lines[j].tag == Ignore, p)
    ensures AlignmentFrom(re, lines, inputs, i, j, ign, p)
  {
  }

  /** What is said about inputs after i carries over to a pairing that agrees from there on. */
  lemma Agree(p: seq<int>, q: seq<int>, i: nat, a: nat, o: nat)
    requires |p| == |q| && i < a && forall b :: i < b < |p| ==> p[b] == q[b]
    ensures AtHand(q, i, a, o) && (a == i + 1 || q[a - 1] != SKIPPED) ==> AtHand(p, i + 1, a, o)
    ensures Covered(p, i + 1, o) ==> Covered(q, i, o)
    ensures forall b :: NonePaired(q, a, b) ==> NonePaired(p, a, b)
  {
  }

  lemma PairLeftmost(re: Matcher, lines: seq<Line>, inputs: seq<string>, i: nat, j: nat, p: seq<int>)
    requires i < |inputs| && j < |lines| && |p| == |inputs|
    requires LeftmostFrom(re, lines, inputs, i + 1, j + 1, p)
    ensures LeftmostFrom(re, lines, inputs, i, j, p[i := j])
  {
    var q := p[i := j];
    assert forall b :: i < b < |p| ==> p[b] == q[b];
    forall o: nat, a: nat | j <= o < |lines| && lines[o].tag == Opt && AtHand(q, i, a, o) && !Covered(q, i, o)
      ensures !Accepts(re, lines[o], inputs[a])
    {
      assert q[i] == j;
      Agree(p, q, i, a, o);
    }
    forall a, b | i <= a < b < |q| && q[a] == SKIPPED && 0 <= q[b] < |lines| && NonePaired(q, a, b)
      ensures lines[q[b]].tag == Plain && !Accepts(re, lines[q[b]], inputs[a])
    {
      Agree(p, q, i, a, 0);
    }
  }

  lemma SkipLeftmost(re: Matcher, lines: seq<Line>, inputs: seq<string>, i: nat, j: nat, p: seq<int>)
    requires i < |inputs| && j < |lines| && |p| == |inputs|
    requires lines[j].tag == Plain && !Accepts(re, lines[j], inputs[i])
    requires AlignmentFrom(re, lines, inputs, i + 1, j, true, p)
    requires LeftmostFrom(re, lines, inputs, i + 1, j, p)
    ensures LeftmostFrom(re, lines, inputs, i, j, p[i := SKIPPED])
  {
    var q := p[i := SKIPPED];
    assert forall b :: i < b < |p| ==> p[b] == q[b];
    var c := FirstPaired(re, lines, inputs, i + 1, j, p);
    forall o: nat, a: nat | j <= o < |lines| && lines[o].tag == Opt && AtHand(q, i, a, o) && !Covered(q, i, o)
      ensures !Accepts(re, lines[o], inputs[a])
    {
      assert a != i by { assert q[c] == j; }
      Agree(p, q, i, a, o);
    }
    forall a, b | i <= a < b < |q| && q[a] == SKIPPED && 0 <= q[b] < |lines| && NonePaired(q, a, b)
      ensures lines[q[b]].tag == Plain && !Accepts(re, lines[q[b]], inputs[a])
    {
      if a == i {
        assert b == c;
      } else {
        Agree(p, q, i, a, 0);
      }
    }
  }

  /** If line j is plain, it is the first line that is paired. */
  lemma FirstPaired(re: Matcher, lines: seq<Line>, inputs: seq<string>, i: nat, j: nat, p: seq<int>) returns (c: nat)
    requires i <= |inputs| && j < |lines| && lines[j].tag == Plain
    requires AlignmentFrom(re, lines, inputs, i, j, true, p)
    ensures i <= c < |p| && p[c] == j && NonePaired(p, i, c)
  {
    assert Covered(p, i, j);
    c :| i <= c < |p| && p[c] == j;
  }

  lemma PassOverLeftmost(re: Matcher, lines: seq<Line>, inputs: seq<string>, i: nat, j: nat, ign: bool, p: seq<int>)
    requires i < |inputs| && j < |lines| && |p| == |inputs|
    requires lines[j].tag == Opt ==> !Accepts(re, lines[j], inputs[i])
    requires AlignmentFrom(re, lines, inputs, i, j + 1, ign, p)
    requires LeftmostFrom(re, lines, inputs, i, j + 1, p)
    ensures LeftmostFrom(re, lines, inputs, i, j, p)
  {
  }

  lemma {:induction false} PassGivesAlignment(re: Matcher, lines: seq<Line>, inputs: seq<string>, i: nat, j: nat,
                                              ign: bool)
    returns (p: seq<int>)
    requires i <= |inputs| && j <= |lines|
    requires Ordered(re, lines, inputs, i, j, ign) == Pass
    ensures |p| == |inputs|
    ensures AlignmentFrom(re, lines, inputs, i, j, ign, p) && LeftmostFrom(re, lines, inputs, i, j, p)
    decreases |inputs| - i + |lines| - j
  {
    hide AlignmentFrom, LeftmostFrom;
    if j == |lines| || i == |inputs| {
      p := seq(|inputs|, _ => SKIPPED);
      NothingPaired(re, lines, inputs, i, j, ign, p);
    } else if lines[j].tag == Ignore {
      p := PassGivesAlignment(re, lines, inputs, i, j + 1, true);
      PassOver(re, lines, inputs, i, j, ign, p);
      PassOverLeftmost(re, lines, inputs, i, j, true, p);
    } else if Accepts(re, lines[j], inputs[i]) {
      var q := PassGivesAlignment(re, lines, inputs, i + 1, j + 1, false);
      Pair(re, lines, inputs, i, j, ign, q);
      PairLeftmost(re, lines, inputs, i, j, q);
      p := q[i := j];
    } else if lines[j].tag == Opt {
      p := PassGivesAlignment(re, lines, inputs, i, j + 1, ign);
      PassOver(re, lines, inputs, i, j, ign, p);
      PassOverLeftmost(re, lines, inputs, i, j, ign, p);
    } else {
      var q := PassGivesAlignment(re, lines, inputs, i + 1, j, ign);
      Skip(re, lines, inputs, i, j, q);
      SkipLeftmost(re, lines, inputs, i, j, q);
      p := q[i := SKIPPED];
    }
  }

  lemma NothingPaired(re: Matcher, lines: seq<Line>, inputs: seq<string>, i: nat, j: nat, ign: bool, p: seq<int>)
    requires i <= |inputs| && j <= |lines| && |p| == |inputs| && forall a :: 0 <= a < |p| ==> p[a] == SKIPPED
    requires (j == |lines| && (i == |inputs| || ign)) || (i == |inputs| && NoPlainFrom(lines, j))
    ensures AlignmentFrom(re, lines, inputs, i, j, ign, p) && LeftmostFrom(re, lines, inputs, i, j, p)
  {
  }

  /** SOUNDNESS. A run that passes without leaving ordered mode has an alignment, and a leftmost one. */
  lemma OrderedSound(re: Matcher, lines: seq<Line>, inputs: seq<string>) returns (p: seq<int>)
    requires Ordered(re, lines, inputs, 0, 0, false) == Pass
    ensures Alignment(re, lines, inputs, p) && Leftmost(re, lines, inputs, p)
  {
    p := PassGivesAlignment(re, lines, inputs, 0, 0, false);
  }

  // ---------------------------------------------------------------- following an alignment

  ghost predicate NoSwitch(lines: seq<Line>) {
    forall m :: 0 <= m < |lines| ==> lines[m].tag != NonDeterministic
  }

  lemma AfterPair(re: Matcher, lines: seq<Line>, inputs: seq<string>, i: nat, j: nat, ign: bool, p: seq<int>)
    requires i < |inputs| && j < |lines| && p != [] && AlignmentFrom(re, lines, inputs, i, j, ign, p)
    requires p[i] == j
    ensures AlignmentFrom(re, lines, inputs, i + 1, j + 1, false, p)
  {
  }

  lemma AfterSkip(re: Matcher, lines: seq<Line>, inputs: seq<string>, i: nat, j: nat, p: seq<int>)
    requires i < |inputs| && j <= |lines| && |p| == |inputs| && p[i] == SKIPPED
    requires AlignmentFrom(re, lines, inputs, i, j, true, p)
    ensures AlignmentFrom(re, lines, inputs, i + 1, j, true, p)
  {
  }

  /** Moving past a line that is paired with no input. */
  lemma AfterLine(re: Matcher, lines: seq<Line>, inputs: seq<string>, i: nat, j: nat, ign: bool, p: seq<int>)
    requires i <= |inputs| && j < |lines| && AlignmentFrom(re, lines, inputs, i, j, ign, p)
    requires forall a :: i <= a < |p| ==> p[a] != j
    ensures AlignmentFrom(re, lines, inputs, i, j + 1, ign || lines[j].tag == Ignore, p)
  {
  }

  /** With the lines or the inputs used up, an alignment leaves nothing to complain about. */
  lemma AtEnd(re: Matcher, lines: seq<Line>, inputs: seq<string>, i: nat, j: nat, ign: bool, p: seq<int>)
    requires i <= |inputs| && j <= |lines| && (i == |inputs| || j == |lines|)
    requires AlignmentFrom(re, lines, inputs, i, j, ign, p)
    ensures Ordered(re, lines, inputs, i, j, ign) == Pass
  {
    if i < |inputs| {
      assert p[i] == SKIPPED;
    }
  }

  lemma {:induction false} NeverSwitches(re: Matcher, lines: seq<Line>, inputs: seq<string>, i: nat, j: nat, ign: bool)
    requires i <= |inputs| && j <= |lines| && NoSwitch(lines)
    ensures Ordered(re, lines, inputs, i, j, ign) in {Pass, Fail}
    decreases |inputs| - i + |lines| - j
  {
    if j < |lines| && i < |inputs| {
      NeverSwitches(re, lines, inputs, i, j + 1, ign);
      NeverSwitches(re, lines, inputs, i, j + 1, true);
      NeverSwitches(re, lines, inputs, i + 1, j + 1, false);
      NeverSwitches(re, lines, inputs, i + 1, j, ign);
    }
  }

  // ---------------------------------------------------------------- every file, by leftmost alignments

  /** A leftmost alignment pairs a plain line with the input at hand exactly when the line accepts it. */
  lemma LeftmostAtPlain(re: Matcher, lines: seq<Line>, inputs: seq<string>, i: nat, j: nat, ign: bool, p: seq<int>)
    requires i < |inputs| && j < |lines| && lines[j].tag == Plain && |p| == |inputs|
    requires AlignmentFrom(re, lines, inputs, i, j, ign, p) && SkipsToFirst(re, lines, inputs, i, p)
    ensures Accepts(re, lines[j], inputs[i]) ==> p[i] == j
    ensures !Accepts(re, lines[j], inputs[i]) ==> p[i] == SKIPPED && ign
  {
  }

  /** An OPT line, exactly when it accepts it; otherwise it pairs it with nothing. */
  lemma LeftmostAtOpt(re: Matcher, lines: seq<Line>, inputs: seq<string>, i: nat, j: nat, ign: bool, p: seq<int>)
    requires i < |inputs| && j < |lines| && lines[j].tag == Opt && |p| == |inputs|
    requires AlignmentFrom(re, lines, inputs, i, j, ign, p) && LeftmostFrom(re, lines, inputs, i, j, p)
    ensures Accepts(re, lines[j], inputs[i]) ==> p[i] == j
    ensures !Accepts(re, lines[j], inputs[i]) ==> forall a :: i <= a < |p| ==> p[a] != j
  {
  }

  lemma LeftmostAfterPair(re: Matcher, lines: seq<Line>, inputs: seq<string>, i: nat, j: nat, p: seq<int>)
    requires i < |inputs| && j < |lines| && |p| == |inputs| && p[i] == j
    requires LeftmostFrom(re, lines, inputs, i, j, p)
    ensures LeftmostFrom(re, lines, inputs, i + 1, j + 1, p)
  {
  }

  lemma LeftmostAfterSkip(re: Matcher, lines: seq<Line>, inputs: seq<string>, i: nat, j: nat, p: seq<int>)
    requires i < |inputs| && j < |lines| && lines[j].tag == Plain && |p| == |inputs| && p[i] == SKIPPED
    requires AlignmentFrom(re, lines, inputs, i + 1, j, true, p) && LeftmostFrom(re, lines, inputs, i, j, p)
    ensures LeftmostFrom(re, lines, inputs, i + 1, j, p)
  {
  }

  lemma {:induction false} LeftmostGivesPass(re: Matcher, lines: seq<Line>, inputs: seq<string>, i: nat, j: nat,
                                             ign: bool, p: seq<int>)
    requires i <= |inputs| && j <= |lines| && |p| == |inputs| && NoSwitch(lines)
    requires AlignmentFrom(re, lines, inputs, i, j, ign, p) && LeftmostFrom(re, lines, inputs, i, j, p)
    ensures Ordered(re, lines, inputs, i, j, ign) == Pass
    decreases |inputs| - i + |lines| - j
  {
    hide AlignmentFrom, SkipsToFirst, OptsTried;
    if j == |lines| || i == |inputs| {
      AtEnd(re, lines, inputs, i, j, ign, p);
    } else if lines[j].tag == Plain {
      LeftmostAtPlain(re, lines, inputs, i, j, ign, p);
      if p[i] == j {
        AfterPair(re, lines, inputs, i, j, ign, p);
        LeftmostAfterPair(re, lines, inputs, i, j, p);
        LeftmostGivesPass(re, lines, inputs, i + 1, j + 1, false, p);
      } else {
        AfterSkip(re, lines, inputs, i, j, p);
        LeftmostAfterSkip(re, lines, inputs, i, j, p);
        LeftmostGivesPass(re, lines, inputs, i + 1, j, true, p);
      }
    } else {
      if lines[j].tag == Opt {
        LeftmostAtOpt(re, lines, inputs, i, j, ign, p);
      }
      if lines[j].tag == Opt && Accepts(re, lines[j], inputs[i]) {
        AfterPair(re, lines, inputs, i, j, ign, p);
        LeftmostAfterPair(re, lines, inputs, i, j, p);
        LeftmostGivesPass(re, lines, inputs, i + 1, j + 1, false, p);
      } else {
        IgnoreUnpaired(re, lines, inputs, i, j, ign, p);
        AfterLine(re, lines, inputs, i, j, ign, p);
        LeftmostAfterLine(re, lines, inputs, i, j, p);
        LeftmostGivesPass(re, lines, inputs, i, j + 1, ign || lines[j].tag == Ignore, p);
      }
    }
  }

  lemma IgnoreUnpaired(re: Matcher, lines: seq<Line>, inputs: seq<string>, i: nat, j: nat, ign: bool, p: seq<int>)
    requires j < |lines| && AlignmentFrom(re, lines, inputs, i, j, ign, p)
    ensures lines[j].tag == Ignore ==> forall a :: i <= a < |p| ==> p[a] != j
  {
  }

  lemma LeftmostAfterLine(re: Matcher, lines: seq<Line>, inputs: seq<string>, i: nat, j: nat, p: seq<int>)
    requires |p| == |inputs| && LeftmostFrom(re, lines, inputs, i, j, p)
    ensures LeftmostFrom(re, lines, inputs, i, j + 1, p)
  {
  }

  /** EXACTNESS for every file without NONDETERMINISTIC and every input: a run passes if and only if there is a leftmost
      alignment. */
  lemma OrderedIsLeftmost(re: Matcher, lines: seq<Line>, inputs: seq<string>)
    requires NoSwitch(lines)
    ensures Run(re, lines, inputs) == Pass
            <==> exists p :: Alignment(re, lines, inputs, p) && Leftmost(re, lines, inputs, p)
  {
    NeverSwitches(re, lines, inputs, 0, 0, false);
    if Run(re, lines, inputs) == Pass {
      var p := OrderedSound(re, lines, inputs);
    }
    if p :| Alignment(re, lines, inputs, p) && Leftmost(re, lines, inputs, p) {
      LeftmostGivesPass(re, lines, inputs, 0, 0, false, p);
    }
  }
}
