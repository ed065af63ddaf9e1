/**
 The match-file engine of cmake/match.py: match lines and their tags, the verdict of a run as two recursive
 functions (ordered mode, unordered mode), and the loop itself, proved to compute that verdict.

 `re.fullmatch` is a parameter: any predicate on a pattern and an input line.
 */
module MatchFile {

  datatype Tag = Plain | Opt | Ignore | NonDeterministic

  /** A match line: its tag, and the text handed to the regex translation. */
  datatype Line = Line(tag: Tag, pattern: string)

  /** `fullmatch(pattern, input)`. */
  type Matcher = (string, string) -> bool

  /** How a run ends. TagError is an IGNORE line met in unordered mode; Switch is not an end but the hand-over. */
  datatype Verdict = Pass | Fail | TagError | Switch

  /** An IGNORE line is never compared with an input line. */
  predicate Accepts(re: Matcher, line: Line, input: string) {
    line.tag != Ignore && re(line.pattern, input)
  }

  /** The strings a statement is about: those of some input, or all. */
  ghost function AmongInputs(inputs: seq<string>): string -> bool { x => x in inputs }

  ghost function Everything(): string -> bool { x => true }

  ghost function Copies(s: string, n: nat): (r: seq<string>)
    ensures |r| == n && forall a :: 0 <= a < n ==> r[a] == s
  {
    seq(n, _ => s)
  }

  predicate NoPlainFrom(lines: seq<Line>, j: nat) {
    forall m :: j <= m < |lines| ==> lines[m].tag != Plain
  }

  /** The verdict of ordered mode from input i and match line j on; `ign` says that an IGNORE is in effect. */
  function Ordered(re: Matcher, lines: seq<Line>, inputs: seq<string>, i: nat, j: nat, ign: bool): Verdict
    requires i <= |inputs| && j <= |lines|
    decreases |inputs| - i + |lines| - j
  {
    if j == |lines| then
      if i == |inputs| || ign then Pass else Fail
    else if i == |inputs| then
      if NoPlainFrom(lines, j) then Pass else Fail
    else
      match lines[j].tag
      case Ignore => Ordered(re, lines, inputs, i, j + 1, true)
      case NonDeterministic => Switch
      case Opt =>
        if Accepts(re, lines[j], inputs[i]) then Ordered(re, lines, inputs, i + 1, j + 1, false)
        else Ordered(re, lines, inputs, i, j + 1, ign)
      case Plain =>
        if Accepts(re, lines[j], inputs[i]) then Ordered(re, lines, inputs, i + 1, j + 1, false)
        else if ign then Ordered(re, lines, inputs, i + 1, j, ign)
        else Fail
  }

  datatype Scan = Found(line: nat) | NotFound | IgnoreMet

  /** The match line the unordered scan picks for an input line, looking from line j on. */
  function ScanFrom(re: Matcher, lines: seq<Line>, input: string, matched: set<nat>, j: nat): Scan
    requires j <= |lines|
    decreases |lines| - j
  {
    if j == |lines| then NotFound
    else if lines[j].tag == Ignore then IgnoreMet
    else if Accepts(re, lines[j], input) && j !in matched then Found(j)
    else ScanFrom(re, lines, input, matched, j + 1)
  }

  /** A line that may stay unpaired in unordered mode. */
  predicate Optional(line: Line) {
    line.tag == Opt || line.tag == NonDeterministic
  }

  predicate AllCovered(lines: seq<Line>, matched: set<nat>) {
    forall m :: 0 <= m < |lines| && m !in matched ==> Optional(lines[m])
  }

  /** The verdict of unordered mode for the input lines still to come. */
  function Unordered(re: Matcher, lines: seq<Line>, inputs: seq<string>, matched: set<nat>): Verdict {
    if inputs == [] then
      if AllCovered(lines, matched) then Pass else Fail
    else
      match ScanFrom(re, lines, inputs[0], matched, 0)
      case Found(j) => Unordered(re, lines, inputs[1..], matched + {j})
      case NotFound => Fail
      case IgnoreMet => TagError
  }

  /** The verdict of the whole program. */
  function Run(re: Matcher, lines: seq<Line>, inputs: seq<string>): Verdict {
    var v := Ordered(re, lines, inputs, 0, 0, false);
    if v == Switch then Unordered(re, lines, inputs, {}) else v
  }

  // ---------------------------------------------------------------- the loop

  /** The ordered-mode check at the end of the input: nothing but optional lines may be pending. */
  method CheckPending(lines: seq<Line>, from: nat) returns (verdict: Verdict)
    requires from <= |lines|
    ensures verdict == if NoPlainFrom(lines, from) then Pass else Fail
  {
    var j := from;
    while j < |lines|
      invariant from <= j <= |lines|
      invariant forall m :: from <= m < j ==> lines[m].tag != Plain
    {
      if lines[j].tag == Plain {
        return Fail;
      }
      j := j + 1;
    }
    return Pass;
  }

  /** The unordered-mode check at the end of the input: the unseen lines are visited in no particular order. */
  method CheckUnseen(lines: seq<Line>, matched: set<nat>) returns (verdict: Verdict)
    ensures verdict == if AllCovered(lines, matched) then Pass else Fail
  {
    var remaining := set m | 0 <= m < |lines| && m !in matched;
    ghost var seen := {};
    while remaining != {}
      invariant seen + remaining == set m | 0 <= m < |lines| && m !in matched
      invariant forall m :: m in seen ==> Optional(lines[m])
      decreases remaining
    {
      var m :| m in remaining;
      if !Optional(lines[m]) {
        return Fail;
      }
      seen := seen + {m};
      remaining := remaining - {m};
    }
    forall m | 0 <= m < |lines| && m !in matched
      ensures Optional(lines[m])
    {
      assert m in seen + remaining;
    }
    return Pass;
  }

  /** The main loop. It decides the run, within a bounded number of iterations, changing mode at most once. */
  method Match(re: Matcher, lines: seq<Line>, inputs: seq<string>)
    returns (verdict: Verdict, iterations: nat, switches: nat)
    ensures verdict == Run(re, lines, inputs)
    ensures iterations <= |inputs| * |lines| + |inputs| + |lines| + 1
    ensures switches == if Ordered(re, lines, inputs, 0, 0, false) == Switch then 1 else 0
  {
    hide Looks;
    iterations, switches := 0, 0;
    var matched: set<nat> := {};
    var inputIdx, matchIdx := 0, 0;
    var tags: seq<Tag> := [];
    var unordered := false;
    while true
      invariant 0 <= inputIdx <= |inputs| && 0 <= matchIdx <= |lines|
      invariant switches == if unordered then 1 else 0
      // ordered mode
      invariant !unordered ==> Opt !in tags && matched == {} && iterations <= inputIdx + matchIdx
      invariant !unordered ==> Ordered(re, lines, inputs, inputIdx, matchIdx, Ignore in tags)
                               == Ordered(re, lines, inputs, 0, 0, false)
      // unordered mode: the input and the match file never end together
      invariant unordered ==> Ordered(re, lines, inputs, 0, 0, false) == Switch && |lines| > 0 && |inputs| > 0
      invariant unordered ==> matchIdx == |lines| ==> inputIdx < |inputs|
      invariant unordered ==> inputIdx == |inputs| ==> matchIdx == 0
      invariant unordered ==> iterations < Looks(inputIdx, |lines|) + matchIdx + |inputs| + |lines|
      invariant unordered ==> Unordered(re, lines, inputs[inputIdx..], matched) == Unordered(re, lines, inputs, {})
      invariant unordered && inputIdx < |inputs| ==>
        ScanFrom(re, lines, inputs[inputIdx], matched, matchIdx) == ScanFrom(re, lines, inputs[inputIdx], matched, 0)
      decreases !unordered, |inputs| - inputIdx + (if unordered then 0 else |lines| - matchIdx), |lines| - matchIdx
    {
      LooksGrow(inputIdx, |inputs|, |lines|);
      iterations := iterations + 1;
      if unordered {
        if inputIdx == |inputs| {
          verdict := CheckUnseen(lines, matched);
          return;
        } else if matchIdx == |lines| {
          return Fail, iterations, switches;
        }
      } else {
        if matchIdx == |lines| {
          return if inputIdx == |inputs| || Ignore in tags then Pass else Fail, iterations, switches;
        } else if inputIdx == |inputs| {
          verdict := CheckPending(lines, matchIdx);
          return;
        }
      }

      var input := inputs[inputIdx];
      var line := lines[matchIdx];
      if line.tag == Opt {
        if !unordered { RemoveAppended(tags, Opt); }
        tags := tags + [Opt];
      } else if line.tag == NonDeterministic && !unordered {
        unordered, switches := true, 1;
        matchIdx, inputIdx := 0, 0;
        assert inputs[0..] == inputs;
        continue;
      } else if line.tag == Ignore {
        if unordered {
          return TagError, iterations, switches;
        }
        tags := tags + [Ignore];
        matchIdx := matchIdx + 1;
        continue;
      }

      if unordered {
        if re(line.pattern, input) && matchIdx !in matched {
          assert inputs[inputIdx..][1..] == inputs[inputIdx + 1..];
          matched := matched + {matchIdx};
          inputIdx, matchIdx, tags := inputIdx + 1, 0, [];
        } else {
          matchIdx := matchIdx + 1;
        }
      } else {
        if re(line.pattern, input) {
          inputIdx, matchIdx, tags := inputIdx + 1, matchIdx + 1, [];
        } else if Opt in tags {
          matchIdx := matchIdx + 1;
          tags := RemoveFirst(tags, Opt);
        } else if Ignore in tags {
          inputIdx := inputIdx + 1;
        } else {
          return Fail, iterations, switches;
        }
      }
    }
  }

  /** list.remove: drops the first occurrence, if any. */
  function RemoveFirst<T(==)>(s: seq<T>, x: T): seq<T> {
    if s == [] then [] else if s[0] == x then s[1..] else [s[0]] + RemoveFirst(s[1..], x)
  }

  lemma {:induction false} RemoveAppended<T>(s: seq<T>, x: T)
    requires x !in s
    ensures RemoveFirst(s + [x], x) == s
  {
    if s != [] {
      RemoveAppended(s[1..], x);
      assert (s + [x])[1..] == s[1..] + [x];
    }
  }

  /** How many lines the scans for the first i inputs may look at. */
  ghost function Looks(i: nat, lines: nat): nat { i * lines }

  lemma LooksGrow(i: nat, inputs: nat, lines: nat)
    requires i <= inputs
    ensures Looks(i + 1, lines) == Looks(i, lines) + lines
    ensures Looks(i, lines) <= Looks(inputs, lines) == inputs * lines
    ensures i < inputs ==> Looks(i + 1, lines) <= Looks(inputs, lines)
  {
  }
}
