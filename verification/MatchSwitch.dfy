/**
 Files with a NONDETERMINISTIC line in cmake/match.py, wherever it stands: the lines in front of it are read in order,
 and if they are done with while input is left, everything starts over in unordered mode.
 */
module MatchSwitch {
  import opened MatchFile
  import opened MatchOrdered

  /** Line n is the first NONDETERMINISTIC line. */
  ghost predicate FirstSwitch(lines: seq<Line>, n: nat) {
    n < |lines| && lines[n].tag == NonDeterministic && NoSwitch(lines[..n])
  }

  /** The lines in front of the tag, and a plain line that matches anything. */
  ghost function Probe(lines: seq<Line>, n: nat, anything: string): seq<Line>
    requires n <= |lines|
  {
    lines[..n] + [Line(Plain, anything)]
  }

  /** The tag is reached with input a at hand: the lines in front of it take exactly the inputs before a. */
  ghost predicate ReachedAt(re: Matcher, lines: seq<Line>, n: nat, anything: string, inputs: seq<string>, a: nat)
    requires n <= |lines|
  {
    a < |inputs| && Run(re, Probe(lines, n, anything), inputs[..a + 1]) == Pass
  }

  lemma {:induction false} SwitchIsReached(re: Matcher, lines: seq<Line>, n: nat, anything: string, inputs: seq<string>,
                                           i: nat, j: nat, ign: bool)
    returns (a: nat)
    requires FirstSwitch(lines, n) && i <= |inputs| && j <= n && forall x :: re(anything, x)
    requires Ordered(re, lines, inputs, i, j, ign) == Switch
    ensures i <= a < |inputs| && Ordered(re, Probe(lines, n, anything), inputs[..a + 1], i, j, ign) == Pass
    decreases |inputs| - i + n - j
  {
    var probe := Probe(lines, n, anything);
    if j == n {
      a := i;
      assert Ordered(re, probe, inputs[..a + 1], i + 1, j + 1, false) == Pass;
    } else {
      assert probe[j] == lines[j] && lines[..n][j] == lines[j];
      if lines[j].tag == Ignore {
        a := SwitchIsReached(re, lines, n, anything, inputs, i, j + 1, true);
      } else if Accepts(re, lines[j], inputs[i]) {
        a := SwitchIsReached(re, lines, n, anything, inputs, i + 1, j + 1, false);
      } else if lines[j].tag == Opt {
        a := SwitchIsReached(re, lines, n, anything, inputs, i, j + 1, ign);
      } else {
        a := SwitchIsReached(re, lines, n, anything, inputs, i + 1, j, ign);
      }
    }
  }

  lemma {:induction false} ReachedIsSwitch(re: Matcher, lines: seq<Line>, n: nat, anything: string, inputs: seq<string>,
                                           i: nat, j: nat, ign: bool, a: nat)
    requires FirstSwitch(lines, n) && i <= a + 1 <= |inputs| && j <= n && forall x :: re(anything, x)
    requires Ordered(re, Probe(lines, n, anything), inputs[..a + 1], i, j, ign) == Pass
    ensures Ordered(re, lines, inputs, i, j, ign) == Switch
    decreases |inputs| - i + n - j
  {
    var probe := Probe(lines, n, anything);
    assert probe[n].tag == Plain;
    if i <= a && j < n {
      assert probe[j] == lines[j] && lines[..n][j] == lines[j] && inputs[..a + 1][i] == inputs[i];
      if lines[j].tag == Ignore {
        ReachedIsSwitch(re, lines, n, anything, inputs, i, j + 1, true, a);
      } else if Accepts(re, lines[j], inputs[i]) {
        ReachedIsSwitch(re, lines, n, anything, inputs, i + 1, j + 1, false, a);
      } else if lines[j].tag == Opt {
        ReachedIsSwitch(re, lines, n, anything, inputs, i, j + 1, ign, a);
      } else {
        ReachedIsSwitch(re, lines, n, anything, inputs, i + 1, j, ign, a);
      }
    }
  }

  /** A run that does not come to the tag is one of the lines in front of it, with the plain lines behind it pending. */
  lemma {:induction false} NotReached(re: Matcher, lines: seq<Line>, n: nat, inputs: seq<string>, i: nat, j: nat,
                                      ign: bool)
    requires FirstSwitch(lines, n) && i <= |inputs| && j <= n
    requires Ordered(re, lines, inputs, i, j, ign) != Switch
    ensures Ordered(re, lines, inputs, i, j, ign)
            == if Ordered(re, lines[..n], inputs, i, j, ign) == Pass && NoPlainFrom(lines, n) then Pass else Fail
    decreases |inputs| - i + n - j
  {
    if i == |inputs| {
      assert NoPlainFrom(lines, j) <==> NoPlainFrom(lines[..n], j) && NoPlainFrom(lines, n);
    } else if j < n {
      assert lines[..n][j] == lines[j];
      if lines[j].tag == Ignore {
        NotReached(re, lines, n, inputs, i, j + 1, true);
      } else if Accepts(re, lines[j], inputs[i]) {
        NotReached(re, lines, n, inputs, i + 1, j + 1, false);
      } else if lines[j].tag == Opt {
        NotReached(re, lines, n, inputs, i, j + 1, ign);
      } else if ign {
        NotReached(re, lines, n, inputs, i + 1, j, ign);
      }
    }
  }

  /** THE HAND-OVER. Every file with a NONDETERMINISTIC line, on every input: if the lines in front of it are done with
      while input is left, all inputs are judged by unordered mode; otherwise the run passes exactly if the input passes
      the lines in front of the tag and no plain line stands behind it. */
  lemma RunOfSwitchingFile(re: Matcher, lines: seq<Line>, n: nat, anything: string, inputs: seq<string>)
    requires FirstSwitch(lines, n) && forall x :: re(anything, x)
    ensures Run(re, lines, inputs)
            == if exists a :: ReachedAt(re, lines, n, anything, inputs, a) then Unordered(re, lines, inputs, {})
               else if Run(re, lines[..n], inputs) == Pass && NoPlainFrom(lines, n) then Pass
               else Fail
  {
    var v := Ordered(re, lines, inputs, 0, 0, false);
    NeverSwitches(re, lines[..n], inputs, 0, 0, false);
    ProbeNeverSwitches(lines, n, anything);
    if v == Switch {
      var a := SwitchIsReached(re, lines, n, anything, inputs, 0, 0, false);
      assert ReachedAt(re, lines, n, anything, inputs, a);
    } else {
      NotReached(re, lines, n, inputs, 0, 0, false);
      if a :| ReachedAt(re, lines, n, anything, inputs, a) {
        NeverSwitches(re, Probe(lines, n, anything), inputs[..a + 1], 0, 0, false);
        ReachedIsSwitch(re, lines, n, anything, inputs, 0, 0, false, a);
      }
    }
  }

  lemma ProbeNeverSwitches(lines: seq<Line>, n: nat, anything: string)
    requires FirstSwitch(lines, n)
    ensures NoSwitch(Probe(lines, n, anything))
  {
  }
}
