/**
  The section parser of the export step: a line-by-line state machine that
  splits the generated progress note into its four headed sections.

  The loop keeps a cursor (the current section, unset at first) and a map
  from heading to body text. A stripped line equal to one of the four
  headings resets that heading's body to "" and moves the cursor to it; any
  other line, once a section is current, is appended to it followed by one
  space; lines before the first heading are dropped.
*/
module Sections {
  import opened Wrappers
  import opened Text

  const PresentingProblems: string := "Presenting Problem(s):"
  const Assessment: string := "Assessment:"
  const Intervention: string := "Intervention:"
  const Plan: string := "Plan:"

  /** The four headings, in the order the parser lists them. */
  const Headings: seq<string> := [PresentingProblems, Assessment, Intervention, Plan]

  /** Heading recognition is exact: same case, same punctuation, no fuzzing. */
  predicate IsHeading(line: string) {
    line in Headings
  }

  /** No line of `lines` is a heading once stripped. */
  predicate NoHeadings(lines: seq<string>) {
    forall i :: 0 <= i < |lines| ==> !IsHeading(Strip(lines[i]))
  }

  /** The loop's variables: the cursor `section` and the dictionary `mapping`. */
  datatype ParserState = ParserState(section: Option<string>, mapping: map<string, string>)

  const Start: ParserState := ParserState(None, map[])

  /** What the loop keeps true: only headings are keys, and the current
      section is always a key (so appending to it never misses). */
  predicate Valid(st: ParserState) {
    (forall k :: k in st.mapping ==> IsHeading(k))
    && (st.section.Some? ==> st.section.value in st.mapping)
  }

  /** One iteration of the loop on one raw line. The program tests the cursor
      for truthiness; a heading is never empty, so that is "a section is set". */
  function Step(st: ParserState, raw: string): (r: ParserState)
    requires Valid(st)
    ensures Valid(r)
  {
    var line := Strip(raw);
    if IsHeading(line) then
      ParserState(Some(line), st.mapping[line := ""])
    else if st.section.Some? then
      var h := st.section.value;
      ParserState(st.section, st.mapping[h := st.mapping[h] + line + " "])
    else
      st
  }

  /** The loop run over `lines` from state `st`. */
  function RunFrom(st: ParserState, lines: seq<string>): (r: ParserState)
    requires Valid(st)
    ensures Valid(r)
    decreases |lines|
  {
    if lines == [] then st else Step(RunFrom(st, lines[..|lines| - 1]), lines[|lines| - 1])
  }

  function Run(lines: seq<string>): ParserState {
    RunFrom(Start, lines)
  }

  /** The map the parser returns for `lines`. */
  function Sections(lines: seq<string>): map<string, string>
  {
    Run(lines).mapping
  }

  /** Whatever the input, the keys of the result are among the four exact
      headings. */
  lemma SectionKeysAreHeadings(lines: seq<string>)
    ensures forall k :: k in Sections(lines) ==> IsHeading(k)
  {
  }

  /** The body a heading collects from the lines that follow it: each stripped
      line followed by exactly one space (a blank line gives " "). */
  function BodyText(body: seq<string>): string
  {
    if body == [] then "" else BodyText(body[..|body| - 1]) + Strip(body[|body| - 1]) + " "
  }

  /** The parsing loop itself, run over the lines of the generated text. */
  method ParseSections(lines: seq<string>) returns (mapping: map<string, string>)
    ensures mapping == Sections(lines)
    ensures forall k :: k in mapping ==> IsHeading(k)
  {
    mapping := map[];
    var section: Option<string> := None;
    for i := 0 to |lines|
      invariant ParserState(section, mapping) == Run(lines[..i])
    {
      var line := Strip(lines[i]);
      if line in Headings {
        section := Some(line);
        mapping := mapping[section.value := ""];
      } else if section.Some? {
        mapping := mapping[section.value := mapping[section.value] + line + " "];
      }
      assert lines[..i + 1][..i] == lines[..i];
    }
    assert lines[..|lines|] == lines;
  }

  // ---------------------------------------------------------------------------
  // Properties of the parser

  /** Running over two pieces is running over the first, then the second. */
  lemma {:induction false} RunFromAppend(st: ParserState, a: seq<string>, b: seq<string>)
    requires Valid(st)
    ensures RunFrom(st, a + b) == RunFrom(RunFrom(st, a), b)
    decreases |b|
  {
    if b == [] {
      assert a + b == a;
    } else {
      var n := |b| - 1;
      assert (a + b)[..|a + b| - 1] == a + b[..n];
      assert (a + b)[|a + b| - 1] == b[n];
      RunFromAppend(st, a, b[..n]);
    }
  }

  /** With no section current, lines that are not headings change nothing. */
  lemma {:induction false} NoHeadingsFromStart(lines: seq<string>)
    requires NoHeadings(lines)
    ensures Run(lines) == Start
    decreases |lines|
  {
    if lines != [] {
      NoHeadingsFromStart(lines[..|lines| - 1]);
    }
  }

  /** Without any recognised heading the parser returns the empty map. */
  lemma NoHeadingsNoSections(lines: seq<string>)
    requires NoHeadings(lines)
    ensures Sections(lines) == map[]
  {
    NoHeadingsFromStart(lines);
  }

  /** Lines before the first heading are attributed to no section: dropping
      them does not change the result. */
  lemma LeadingLinesDropped(pre: seq<string>, rest: seq<string>)
    requires NoHeadings(pre)
    ensures Sections(pre + rest) == Sections(rest)
  {
    RunFromAppend(Start, pre, rest);
    NoHeadingsFromStart(pre);
  }

  /** One body line after the current heading is appended to it. */
  lemma StepOnBody(st: ParserState, raw: string)
    requires Valid(st) && st.section.Some?
    requires !IsHeading(Strip(raw))
    ensures var h := st.section.value;
      Step(st, raw) == ParserState(st.section, st.mapping[h := st.mapping[h] + (Strip(raw) + " ")])
  {
    var h := st.section.value;
    assert st.mapping[h] + Strip(raw) + " " == st.mapping[h] + (Strip(raw) + " ");
  }

  lemma Regroup(a: string, b: string, c: string, d: string)
    ensures (a + b) + (c + d) == a + ((b + c) + d)
  {
  }

  lemma UpdateTwice(m: map<string, string>, h: string, a: string, b: string)
    ensures m[h := a][h := b] == m[h := b]
  {
  }

  /** Body lines after a heading accumulate into that heading and nothing else. */
  lemma {:induction false} BodyAccumulates(st: ParserState, body: seq<string>)
    requires Valid(st) && st.section.Some?
    requires NoHeadings(body)
    ensures var h := st.section.value;
      RunFrom(st, body) == ParserState(st.section, st.mapping[h := st.mapping[h] + BodyText(body)])
    decreases |body|
  {
    var h := st.section.value;
    if body == [] {
      assert st.mapping[h] + BodyText(body) == st.mapping[h];
      assert st.mapping[h := st.mapping[h]] == st.mapping;
    } else {
      var n := |body| - 1;
      var m, B, tail := st.mapping, BodyText(body[..n]), Strip(body[n]) + " ";
      BodyAccumulates(st, body[..n]);
      var S := RunFrom(st, body[..n]);
      StepOnBody(S, body[n]);
      assert BodyText(body) == (B + Strip(body[n])) + " ";
      Regroup(m[h], B, Strip(body[n]), " ");
      UpdateTwice(m, h, m[h] + B, m[h] + BodyText(body));
    }
  }

  /** Running over one more line is one more step. */
  lemma RunSnoc(lines: seq<string>, x: string)
    ensures Run(lines + [x]) == Step(Run(lines), x)
  {
    assert (lines + [x])[..|lines|] == lines;
  }

  /** The section opened by the last heading holds exactly the text of the
      lines after it and is the current one; every other section keeps what
      it had before. */
  lemma LastHeadingBody(before: seq<string>, h: string, body: seq<string>)
    requires IsHeading(Strip(h))
    requires NoHeadings(body)
    ensures Run(before + [h] + body)
         == ParserState(Some(Strip(h)), Run(before).mapping[Strip(h) := BodyText(body)])
  {
    var H := Strip(h);
    var m := Run(before).mapping;
    RunSnoc(before, h);
    var st := Run(before + [h]);
    assert st == ParserState(Some(H), m[H := ""]);
    RunFromAppend(Start, before + [h], body);
    BodyAccumulates(st, body);
    assert st.mapping[H] + BodyText(body) == BodyText(body);
    UpdateTwice(m, H, "", BodyText(body));
  }

  /** A heading that occurs again resets its section: the earlier occurrence
      and the body that followed it can be removed without changing the map. */
  lemma RepeatedHeadingDiscardsEarlierBody(
    a: seq<string>, h: string, b: seq<string>, h': string, c: seq<string>)
    requires IsHeading(Strip(h)) && Strip(h') == Strip(h)
    requires NoHeadings(b)
    ensures Sections(a + [h] + b + [h'] + c) == Sections(a + [h'] + c)
  {
    var H := Strip(h);
    LastHeadingBody(a, h, b);
    var m1 := Run(a + [h] + b).mapping;
    var m2 := Run(a).mapping;
    RunSnoc(a + [h] + b, h');
    RunSnoc(a, h');
    UpdateTwice(m2, H, BodyText(b), "");
    assert Run(a + [h] + b + [h']) == Run(a + [h']);
    RunFromAppend(Start, a + [h] + b + [h'], c);
    RunFromAppend(Start, a + [h'], c);
  }

  /** Matching is case- and punctuation-exact: "assessment:" is body text of
      the current section, not a heading. */
  lemma LowercaseHeadingIsBody()
    ensures Sections([Assessment, "assessment:"]) == map[Assessment := "assessment: "]
  {
    var body := "assessment:";
    StripUnchanged(Assessment);
    StripUnchanged(body);
    assert IsHeading(Assessment);
    assert !IsHeading(body);
    assert NoHeadings([body]);
    assert BodyText([body]) == "assessment: " by {
      assert [body][..0] == [];
      assert "" + body + " " == "assessment: ";
    }
    LastHeadingBody([], Assessment, [body]);
    assert [] + [Assessment] + [body] == [Assessment, body];
    assert Run([]).mapping == map[];
  }

  /** A heading followed by a single body line, both already stripped. */
  lemma OneLineSection(before: seq<string>, h: string, line: string)
    requires IsHeading(h) && Strip(h) == h
    requires Strip(line) == line && !IsHeading(line)
    ensures Sections(before + [h, line]) == Sections(before)[h := line + " "]
  {
    assert NoHeadings([line]);
    assert BodyText([line]) == line + " " by {
      assert [line][..0] == [];
    }
    LastHeadingBody(before, h, [line]);
    assert before + [h] + [line] == before + [h, line];
  }

  /** The four headings in order, each followed by one body line, give the
      four sections with those lines and a trailing space. */
  lemma FourSectionsInOrder()
    ensures Sections([PresentingProblems, "Anxiety.", Assessment, "GAD likely.",
                      Intervention, "CBT.", Plan, "Follow up in 2 weeks."])
         == map[PresentingProblems := "Anxiety. ", Assessment := "GAD likely. ",
                Intervention := "CBT. ", Plan := "Follow up in 2 weeks. "]
  {
    var l1, l2, l3, l4 := "Anxiety.", "GAD likely.", "CBT.", "Follow up in 2 weeks.";
    StripUnchanged(PresentingProblems); StripUnchanged(l1);
    StripUnchanged(Assessment); StripUnchanged(l2);
    StripUnchanged(Intervention); StripUnchanged(l3);
    StripUnchanged(Plan); StripUnchanged(l4);
    var p1 := [PresentingProblems, l1];
    var p2 := p1 + [Assessment, l2];
    var p3 := p2 + [Intervention, l3];
    var p4 := p3 + [Plan, l4];
    assert Run([]).mapping == map[];
    OneLineSection([], PresentingProblems, l1);
    assert [] + p1 == p1;
    OneLineSection(p1, Assessment, l2);
    OneLineSection(p2, Intervention, l3);
    OneLineSection(p3, Plan, l4);
    assert p4 == [PresentingProblems, l1, Assessment, l2, Intervention, l3, Plan, l4];
    assert l1 + " " == "Anxiety. " && l2 + " " == "GAD likely. ";
    assert l3 + " " == "CBT. " && l4 + " " == "Follow up in 2 weeks. ";
  }
}
