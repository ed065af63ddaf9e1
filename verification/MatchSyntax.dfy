/** How cmake/match.py reads the tag at the start of a match line. */
module MatchSyntax {
  import opened MatchFile

  const OPT := "{{OPT}}"
  const IGNORE := "{{IGNORE}}"
  const NONDETERMINISTIC := "{{NONDETERMINISTIC}}"

  /** Only the OPT tag is cut off: in unordered mode a NONDETERMINISTIC line is matched with its tag text. */
  function Parse(raw: string): Line {
    if OPT <= raw then Line(Opt, raw[|OPT|..])
    else if NONDETERMINISTIC <= raw then Line(NonDeterministic, raw)
    else if IGNORE <= raw then Line(Ignore, raw)
    else Line(Plain, raw)
  }

  /** The tags exclude each other, so that the order in which they are tried does not matter. */
  lemma TagsExclusive(raw: string)
    ensures Parse(raw).tag == Opt <==> OPT <= raw
    ensures Parse(raw).tag == NonDeterministic <==> NONDETERMINISTIC <= raw
    ensures Parse(raw).tag == Ignore <==> IGNORE <= raw
  {
    assert OPT[2] == 'O' && NONDETERMINISTIC[2] == 'N' && IGNORE[2] == 'I';
  }

  /** A raw line without a tag. */
  predicate Untagged(raw: string) {
    !(OPT <= raw) && !(IGNORE <= raw) && !(NONDETERMINISTIC <= raw)
  }

  /** What a match line means to an input of one line: the pattern behind an OPT tag may match it, and a line without a
      tag has to; an IGNORE line lets any input pass. */
  lemma OneLine(re: Matcher, raw: string, x: string, inputs: seq<string>)
    ensures Run(re, [Parse(OPT + raw)], [x]) == Pass <==> re(raw, x)
    ensures Run(re, [Parse(OPT + raw)], []) == Pass
    ensures Untagged(raw) ==> (Run(re, [Parse(raw)], [x]) == Pass <==> re(raw, x))
    ensures Untagged(raw) ==> Run(re, [Parse(raw)], []) != Pass
    ensures Run(re, [Parse(IGNORE + raw)], inputs) == Pass
  {
    TagsExclusive(OPT + raw);
    TagsExclusive(IGNORE + raw);
    assert (OPT + raw)[|OPT|..] == raw;
    assert Ordered(re, [Parse(IGNORE + raw)], inputs, 0, 1, true) == Pass;
    OrderedLine(re, Parse(OPT + raw), x);
    if Untagged(raw) {
      OrderedLine(re, Parse(raw), x);
    }
  }

  lemma OrderedLine(re: Matcher, line: Line, x: string)
    requires line.tag in {Plain, Opt}
    ensures Run(re, [line], [x]) == Pass <==> re(line.pattern, x)
  {
    assert Ordered(re, [line], [x], 1, 1, false) == Pass;
    assert Ordered(re, [line], [x], 0, 1, false) == Fail;
  }

  /** The same behind a NONDETERMINISTIC line, whose own text is a pattern too and comes first. */
  lemma OneUnorderedLine(re: Matcher, tagged: string, raw: string, x: string)
    requires NONDETERMINISTIC <= tagged
    ensures Run(re, [Parse(tagged), Parse(OPT + raw)], [x]) == Pass <==> re(tagged, x) || re(raw, x)
    ensures Untagged(raw) ==> (Run(re, [Parse(tagged), Parse(raw)], [x]) == Pass <==> !re(tagged, x) && re(raw, x))
  {
    TagsExclusive(tagged);
    TagsExclusive(OPT + raw);
    assert (OPT + raw)[|OPT|..] == raw;
    UnorderedLine(re, Parse(tagged), Parse(OPT + raw), x);
    UnorderedLine(re, Parse(tagged), Parse(raw), x);
  }

  lemma UnorderedLine(re: Matcher, first: Line, line: Line, x: string)
    requires first.tag == NonDeterministic
    ensures Run(re, [first, line], [x]) == Unordered(re, [first, line], [x], {})
    ensures line.tag in {Plain, Opt} ==>
      (Unordered(re, [first, line], [x], {}) == Pass
       <==> if re(first.pattern, x) then line.tag == Opt else re(line.pattern, x))
  {
    var lines, inputs := [first, line], [x];
    var scan := ScanFrom(re, lines, x, {}, 0);
    assert lines[0] == first && lines[1] == line && inputs[1..] == [];
    if line.tag in {Plain, Opt} {
      assert ScanFrom(re, lines, x, {}, 2) == NotFound;
      assert ScanFrom(re, lines, x, {}, 1) == if re(line.pattern, x) then Found(1) else NotFound;
      assert re(first.pattern, x) ==> scan == Found(0);
      assert !re(first.pattern, x) ==> scan == if re(line.pattern, x) then Found(1) else NotFound;
      if scan.Found? {
        assert Unordered(re, lines, inputs, {}) == Unordered(re, lines, [], {} + {scan.line});
        assert AllCovered(lines, {} + {scan.line}) <==> scan == Found(1) || line.tag == Opt;
      }
    }
  }
}
