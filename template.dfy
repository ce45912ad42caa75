/**
  The document filler: a fixed, ordered table of eight placeholders and their
  values, replaced paragraph by paragraph in a copy of the Word template, and
  the default file name offered when saving it.

  A document is modelled as the sequence of its paragraphs' texts.
*/
module Template {
  import opened Wrappers
  import opened Text
  import Sections

  /** The metadata placeholders are "[Replace with input <field>]". */
  const InputPrefix: string := "[Replace with input "
  const NamePlaceholder: string := InputPrefix + "Name" + "]"
  const DatePlaceholder: string := InputPrefix + "Date" + "]"
  const TimePlaceholder: string := InputPrefix + "Time" + "]"
  const SessionsPlaceholder: string := InputPrefix + "Sessions" + "]"

  /** The body placeholders are "[Replace with output of <heading>]", two of
      them with a space before the closing bracket. */
  const OutputPrefix: string := "[Replace with output of "
  const ProblemsPlaceholder: string := OutputPrefix + Sections.PresentingProblems + " ]"
  const AssessmentPlaceholder: string := OutputPrefix + Sections.Assessment + "]"
  const InterventionPlaceholder: string := OutputPrefix + Sections.Intervention + " ]"
  const PlanPlaceholder: string := OutputPrefix + Sections.Plan + "]"

  /** The placeholders for the four section bodies, in heading order. */
  const BodyPlaceholders: seq<string> :=
    [ProblemsPlaceholder, AssessmentPlaceholder, InterventionPlaceholder, PlanPlaceholder]

  /** All eight placeholders, in the order the table lists them. */
  const Placeholders: seq<string> :=
    [NamePlaceholder, DatePlaceholder, TimePlaceholder, SessionsPlaceholder] + BodyPlaceholders

  /** `mapping.get(k, "")`. */
  function Lookup(mapping: map<string, string>, k: string): string {
    if k in mapping then mapping[k] else ""
  }

  /** Every key of a replacement table is non-empty. */
  predicate ValidTable(table: seq<(string, string)>) {
    forall i :: 0 <= i < |table| ==> |table[i].0| > 0
  }

  /** The replacement table, in insertion order: the four metadata
      placeholders get the metadata strings verbatim, and each body
      placeholder gets its heading's section, or "" when the section is
      missing from the map. */
  function Replacements(mapping: map<string, string>, clientName: string, sessionCount: string,
                        fullDate: string, fullTime: string): (table: seq<(string, string)>)
    ensures |table| == 8 && ValidTable(table)
    ensures forall i :: 0 <= i < 8 ==> table[i].0 == Placeholders[i]
    ensures table[0].1 == clientName && table[1].1 == fullDate
    ensures table[2].1 == fullTime && table[3].1 == sessionCount
    ensures forall j :: 0 <= j < 4 ==>
      table[4 + j].1 == (if Sections.Headings[j] in mapping then mapping[Sections.Headings[j]] else "")
  {
    [(NamePlaceholder, clientName),
     (DatePlaceholder, fullDate),
     (TimePlaceholder, fullTime),
     (SessionsPlaceholder, sessionCount),
     (ProblemsPlaceholder, Lookup(mapping, Sections.PresentingProblems)),
     (AssessmentPlaceholder, Lookup(mapping, Sections.Assessment)),
     (InterventionPlaceholder, Lookup(mapping, Sections.Intervention)),
     (PlanPlaceholder, Lookup(mapping, Sections.Plan))]
  }

  /** One step of the inner loop: `if key in text: text = text.replace(key, val)`. */
  function Substitute(text: string, entry: (string, string)): string
    requires |entry.0| > 0
  {
    if Contains(text, entry.0) then ReplaceAll(text, entry.0, entry.1) else text
  }

  /** The inner loop over the whole table for one paragraph's text. */
  function FillText(text: string, table: seq<(string, string)>): string
    requires ValidTable(table)
    decreases |table|
  {
    if table == [] then text else FillText(Substitute(text, table[0]), table[1..])
  }

  /** The document after the filler: every paragraph filled on its own. */
  function Filled(doc: seq<string>, table: seq<(string, string)>): seq<string>
    requires ValidTable(table)
  {
    seq(|doc|, i requires 0 <= i < |doc| => FillText(doc[i], table))
  }

  /** Reference definition without the guard: replace-all for each key in turn. */
  function ReplaceEach(text: string, table: seq<(string, string)>): string
    requires ValidTable(table)
    decreases |table|
  {
    if table == [] then text else ReplaceEach(ReplaceAll(text, table[0].0, table[0].1), table[1..])
  }

  /** The default file name: the client name with every space turned into an
      underscore, then `_Session_`, the session count and `.docx`. */
  function DefaultFilename(clientName: string, sessionCount: string): string {
    ReplaceAll(clientName, " ", "_") + "_Session_" + sessionCount + ".docx"
  }

  // ---------------------------------------------------------------------------
  // The filler's loops

  /** The nested loops over paragraphs and table entries, overwriting each
      paragraph's text in place. */
  method FillParagraphs(paras: array<string>, table: seq<(string, string)>)
    requires ValidTable(table)
    modifies paras
    ensures paras[..] == Filled(old(paras[..]), table)
  {
    for i := 0 to paras.Length
      invariant forall k :: 0 <= k < i ==> paras[k] == FillText(old(paras[k]), table)
      invariant forall k :: i <= k < paras.Length ==> paras[k] == old(paras[k])
    {
      assert table[0..] == table;
      for j := 0 to |table|
        invariant FillText(paras[i], table[j..]) == FillText(old(paras[i]), table)
        invariant forall k :: 0 <= k < i ==> paras[k] == FillText(old(paras[k]), table)
        invariant forall k :: i < k < paras.Length ==> paras[k] == old(paras[k])
      {
        var (key, val) := table[j];
        assert table[j..][1..] == table[j + 1..];
        if Contains(paras[i], key) {
          paras[i] := ReplaceAll(paras[i], key, val);
        }
      }
    }
  }

  /** `save_to_docx`: offers the default file name to the save dialog (a
      parameter here, returning "" when the user cancels), then fills a copy
      of the template. The result is the chosen path and the saved
      paragraphs, or `None` when cancelled, in which case nothing is written. */
  method SaveToDocx(template: seq<string>, mapping: map<string, string>, clientName: string,
                    sessionCount: string, fullDate: string, fullTime: string,
                    dialog: string -> string)
    returns (saved: Option<(string, seq<string>)>)
    ensures var path := dialog(DefaultFilename(clientName, sessionCount));
      saved == if path == "" then None
               else Some((path, Filled(template, Replacements(mapping, clientName, sessionCount, fullDate, fullTime))))
  {
    var defaultFilename := DefaultFilename(clientName, sessionCount);
    var savePath := dialog(defaultFilename);
    if savePath == "" {
      return None;
    }
    var doc := new string[|template|](i requires 0 <= i < |template| => template[i]);
    assert doc[..] == template;
    var replacements := Replacements(mapping, clientName, sessionCount, fullDate, fullTime);
    FillParagraphs(doc, replacements);
    saved := Some((savePath, doc[..]));
  }

  // ---------------------------------------------------------------------------
  // Properties of the filler

  /** The `key in text` guard changes nothing: each step is an unconditional
      replace-all. */
  lemma SubstituteIsReplaceAll(text: string, entry: (string, string))
    requires |entry.0| > 0
    ensures Substitute(text, entry) == ReplaceAll(text, entry.0, entry.1)
  {
    if !Contains(text, entry.0) {
      ReplaceAllAbsent(text, entry.0, entry.1);
    }
  }

  /** The guarded loop equals replacing each key in table order. */
  lemma {:induction false} FillTextIsReplaceEach(text: string, table: seq<(string, string)>)
    requires ValidTable(table)
    ensures FillText(text, table) == ReplaceEach(text, table)
    decreases |table|
  {
    if table != [] {
      SubstituteIsReplaceAll(text, table[0]);
      FillTextIsReplaceEach(Substitute(text, table[0]), table[1..]);
    }
  }

  /** A paragraph containing none of the placeholders is left unchanged. */
  lemma {:induction false} FillTextUntouched(text: string, table: seq<(string, string)>)
    requires ValidTable(table)
    requires forall i :: 0 <= i < |table| ==> !Contains(text, table[i].0)
    ensures FillText(text, table) == text
    decreases |table|
  {
    if table != [] {
      FillTextUntouched(text, table[1..]);
    }
  }

  /** A paragraph that is exactly one placeholder becomes that placeholder's
      value, provided no earlier key occurs in it and no later key occurs in
      the value. */
  lemma {:induction false} FillTextSolePlaceholder(table: seq<(string, string)>, j: nat)
    requires ValidTable(table) && j < |table|
    requires forall i :: 0 <= i < j ==> !Contains(table[j].0, table[i].0)
    requires forall i :: j < i < |table| ==> !Contains(table[j].1, table[i].0)
    ensures FillText(table[j].0, table) == table[j].1
    decreases j
  {
    var key := table[j].0;
    if j == 0 {
      assert Contains(key, key) by { assert key[..|key|] == key; }
      assert ReplaceAll(key, key, table[0].1) == table[0].1 by {
        assert key[..|key|] == key;
        assert key[|key|..] == [];
      }
      var rest := table[1..];
      assert forall i :: 0 <= i < |rest| ==> !Contains(table[0].1, rest[i].0) by {
        forall i | 0 <= i < |rest| ensures !Contains(table[0].1, rest[i].0) {
          assert rest[i] == table[i + 1];
        }
      }
      FillTextUntouched(table[0].1, rest);
    } else {
      FillTextSolePlaceholder(table[1..], j - 1);
    }
  }

  /** No square bracket in `s`. */
  predicate Plain(s: string) {
    forall i :: 0 <= i < |s| ==> s[i] != '[' && s[i] != ']'
  }

  /** `[`, then text without brackets, then `]`. */
  predicate Bracketed(s: string) {
    |s| >= 2 && s[0] == '[' && s[|s| - 1] == ']' && Plain(s[1..|s| - 1])
  }

  lemma FramedBracketed(prefix: string, h: string, tail: string)
    requires |prefix| > 0 && prefix[0] == '[' && Plain(prefix[1..]) && Plain(h)
    requires tail == "]" || tail == " ]"
    ensures Bracketed(prefix + h + tail)
  {
    var s := prefix + h + tail;
    var inner := s[1..|s| - 1];
    assert forall i :: 0 <= i < |prefix| - 1 ==> inner[i] == prefix[1..][i];
    assert forall i :: |prefix| - 1 <= i < |prefix| - 1 + |h| ==> inner[i] == h[i - |prefix| + 1];
  }

  lemma InputPlaceholdersBracketed()
    ensures forall j :: 0 <= j < 4 ==> Bracketed(Placeholders[j])
  {
    assert Plain(InputPrefix[1..]);
    assert Plain("Name") && Plain("Date") && Plain("Time") && Plain("Sessions");
    FramedBracketed(InputPrefix, "Name", "]");
    FramedBracketed(InputPrefix, "Date", "]");
    FramedBracketed(InputPrefix, "Time", "]");
    FramedBracketed(InputPrefix, "Sessions", "]");
  }

  lemma OutputPlaceholdersBracketed()
    ensures forall j :: 4 <= j < 8 ==> Bracketed(Placeholders[j])
  {
    assert Plain(OutputPrefix[1..]);
    assert Plain(Sections.PresentingProblems) && Plain(Sections.Assessment);
    assert Plain(Sections.Intervention) && Plain(Sections.Plan);
    FramedBracketed(OutputPrefix, Sections.PresentingProblems, " ]");
    FramedBracketed(OutputPrefix, Sections.Assessment, "]");
    FramedBracketed(OutputPrefix, Sections.Intervention, " ]");
    FramedBracketed(OutputPrefix, Sections.Plan, "]");
  }

  /** The eight placeholders are pairwise different. */
  lemma PlaceholdersDistinct()
    ensures forall i, j :: 0 <= i < j < |Placeholders| ==> Placeholders[i] != Placeholders[j]
  {
    assert NamePlaceholder[20] == 'N' && DatePlaceholder[20] == 'D';
    assert TimePlaceholder[20] == 'T' && SessionsPlaceholder[20] == 'S';
    assert |NamePlaceholder| == 25 && |SessionsPlaceholder| == 29 && |OutputPrefix| == 24;
    assert ProblemsPlaceholder[24] == 'P' && AssessmentPlaceholder[24] == 'A';
    assert InterventionPlaceholder[24] == 'I' && PlanPlaceholder[24] == 'P' && |PlanPlaceholder| == 30;
  }

  /** A bracketed key occurs inside a bracketed text only as the whole text:
      the only `[` is the first character and the only `]` the last. */
  lemma BracketedContains(p: string, k: string)
    requires Bracketed(p) && Bracketed(k) && Contains(p, k)
    ensures k == p
  {
    assert forall i :: 0 < i < |p| - 1 ==> p[i] == p[1..|p| - 1][i - 1];
    var w := ContainsWitness(p, k);
    assert p[w] == '[' by { assert p[w..w + |k|][0] == p[w]; }
    var e := |k| - 1;
    assert p[e] == ']' by { assert p[..|k|][e] == p[e]; }
    assert w == 0 && e == |p| - 1;
    assert p == p[..|k|];
  }

  /** No placeholder occurs inside another one. */
  lemma PlaceholderNotInOther(i: nat, j: nat)
    requires i < 8 && j < 8 && i != j
    ensures !Contains(Placeholders[j], Placeholders[i])
  {
    InputPlaceholdersBracketed();
    OutputPlaceholdersBracketed();
    PlaceholdersDistinct();
    if Contains(Placeholders[j], Placeholders[i]) {
      BracketedContains(Placeholders[j], Placeholders[i]);
    }
  }

  /** A bracketed key never occurs in a text without brackets. */
  lemma {:induction false} PlainLacksBracketed(t: string, k: string)
    requires Plain(t) && Bracketed(k)
    ensures !Contains(t, k)
    decreases |t|
  {
    if |k| <= |t| {
      assert t[..|k|][0] == t[0];
      PlainLacksBracketed(t[1..], k);
    }
  }

  /** Replacing a bracketed key that sits between two bracket-free texts
      replaces that one occurrence and keeps the texts around it. */
  lemma {:induction false} ReplaceFramed(pre: string, k: string, v: string, post: string)
    requires Plain(pre) && Plain(post) && Bracketed(k)
    ensures ReplaceAll(pre + k + post, k, v) == pre + v + post
    decreases |pre|
  {
    var s := pre + k + post;
    if pre == [] {
      assert s == k + post && s[..|k|] == k && s[|k|..] == post;
      PlainLacksBracketed(post, k);
      ReplaceAllAbsent(post, k, v);
    } else {
      assert s[..|k|][0] == pre[0];
      assert s[1..] == pre[1..] + k + post;
      ReplaceFramed(pre[1..], k, v, post);
      assert [s[0]] + (pre[1..] + v + post) == pre + v + post;
    }
  }

  /** A bracketed key found in `pre + v + post`, with `pre` and `post`
      bracket-free, lies inside `v`. */
  lemma ContainsFramed(pre: string, v: string, post: string, k: string)
    requires Plain(pre) && Plain(post) && Bracketed(k)
    requires Contains(pre + v + post, k)
    ensures Contains(v, k)
  {
    var s := pre + v + post;
    var w := ContainsWitness(s, k);
    assert forall i :: 0 <= i < |pre| ==> s[i] == pre[i];
    assert forall i :: |pre| + |v| <= i < |s| ==> s[i] == post[i - |pre| - |v|];
    assert s[w] == '[' by { assert s[w..w + |k|][0] == s[w]; }
    assert s[w + |k| - 1] == ']' by { assert s[w..w + |k|][|k| - 1] == s[w + |k| - 1]; }
    assert |pre| <= w && w + |k| <= |pre| + |v|;
    assert v[w - |pre|..w - |pre| + |k|] == s[w..w + |k|];
    ContainsAt(v, k, w - |pre|);
  }

  /** For a table of bracketed keys: a paragraph holding the j-th key between
      two bracket-free texts gets the j-th value in its place and keeps the
      texts around it, as long as no earlier key equals the j-th and the
      value holds no later key. */
  lemma {:induction false} FillFramed(table: seq<(string, string)>, j: nat, pre: string, post: string)
    requires ValidTable(table) && j < |table| && Plain(pre) && Plain(post)
    requires forall i :: 0 <= i < |table| ==> Bracketed(table[i].0)
    requires forall i :: 0 <= i < j ==> table[i].0 != table[j].0
    requires forall i :: j < i < |table| ==> !Contains(table[j].1, table[i].0)
    ensures FillText(pre + table[j].0 + post, table) == pre + table[j].1 + post
    decreases j
  {
    var key, s := table[j].0, pre + table[j].0 + post;
    var rest := table[1..];
    if j == 0 {
      assert s[|pre|..|pre| + |key|] == key;
      ContainsAt(s, key, |pre|);
      ReplaceFramed(pre, key, table[0].1, post);
      var r := pre + table[0].1 + post;
      forall i | 0 <= i < |rest| ensures !Contains(r, rest[i].0) {
        assert rest[i] == table[i + 1];
        if Contains(r, rest[i].0) {
          ContainsFramed(pre, table[0].1, post, rest[i].0);
        }
      }
      FillTextUntouched(r, rest);
    } else {
      var k0 := table[0].0;
      if Contains(s, k0) {
        ContainsFramed(pre, key, post, k0);
        BracketedContains(key, k0);
      }
      assert Substitute(s, table[0]) == s;
      FillFramed(rest, j - 1, pre, post);
    }
  }

  /** Every placeholder of the table is bracketed, and the keys are pairwise
      different. */
  lemma ReplacementsKeys(mapping: map<string, string>, clientName: string, sessionCount: string,
                         fullDate: string, fullTime: string)
    ensures var table := Replacements(mapping, clientName, sessionCount, fullDate, fullTime);
      (forall i :: 0 <= i < 8 ==> Bracketed(table[i].0))
      && (forall i, j :: 0 <= i < j < 8 ==> table[i].0 != table[j].0)
  {
    InputPlaceholdersBracketed();
    OutputPlaceholdersBracketed();
    PlaceholdersDistinct();
  }

  /** A paragraph holding the j-th placeholder between two bracket-free texts
      (such as "Plan: [Replace with output of Plan:]") gets that placeholder's
      value in its place, as long as the value does not itself contain a
      placeholder the table replaces later. */
  lemma PlaceholderFilled(mapping: map<string, string>, clientName: string, sessionCount: string,
                          fullDate: string, fullTime: string, j: nat, pre: string, post: string)
    requires j < 8 && Plain(pre) && Plain(post)
    requires forall i :: j < i < 8 ==>
      !Contains(Replacements(mapping, clientName, sessionCount, fullDate, fullTime)[j].1, Placeholders[i])
    ensures FillText(pre + Placeholders[j] + post, Replacements(mapping, clientName, sessionCount, fullDate, fullTime))
         == pre + Replacements(mapping, clientName, sessionCount, fullDate, fullTime)[j].1 + post
  {
    ReplacementsKeys(mapping, clientName, sessionCount, fullDate, fullTime);
    FillFramed(Replacements(mapping, clientName, sessionCount, fullDate, fullTime), j, pre, post);
  }

  /** A body placeholder whose section the parser did not find is replaced
      by the empty string, not left in place: only the text around it stays. */
  lemma MissingSectionErased(mapping: map<string, string>, clientName: string, sessionCount: string,
                             fullDate: string, fullTime: string, j: nat, pre: string, post: string)
    requires j < 4 && Sections.Headings[j] !in mapping && Plain(pre) && Plain(post)
    ensures FillText(pre + BodyPlaceholders[j] + post,
                     Replacements(mapping, clientName, sessionCount, fullDate, fullTime)) == pre + post
  {
    var table := Replacements(mapping, clientName, sessionCount, fullDate, fullTime);
    assert table[4 + j].1 == "";
    assert Placeholders[4 + j] == BodyPlaceholders[j];
    assert pre + "" + post == pre + post;
    PlaceholderFilled(mapping, clientName, sessionCount, fullDate, fullTime, 4 + j, pre, post);
  }

  /** The Plan placeholder, between two bracket-free texts, always becomes the
      Plan section or, when the parser found no Plan heading, the empty
      string: no later key can re-match inside its value. */
  lemma PlanPlaceholderFilled(mapping: map<string, string>, clientName: string,
                              sessionCount: string, fullDate: string, fullTime: string,
                              pre: string, post: string)
    requires Plain(pre) && Plain(post)
    ensures FillText(pre + PlanPlaceholder + post, Replacements(mapping, clientName, sessionCount, fullDate, fullTime))
         == pre + (if Sections.Plan in mapping then mapping[Sections.Plan] else "") + post
  {
    assert Sections.Headings[3] == Sections.Plan && Placeholders[7] == PlanPlaceholder;
    PlaceholderFilled(mapping, clientName, sessionCount, fullDate, fullTime, 7, pre, post);
  }

  /** Filling keeps the number and order of paragraphs, and each paragraph's
      result depends on its own text alone. */
  lemma FilledParagraphwise(doc: seq<string>, table: seq<(string, string)>)
    requires ValidTable(table)
    ensures |Filled(doc, table)| == |doc|
    ensures forall i :: 0 <= i < |doc| ==> Filled(doc, table)[i] == FillText(doc[i], table)
  {
  }

  /** Filling a document made of two parts fills each part in place. */
  lemma FilledAppend(a: seq<string>, b: seq<string>, table: seq<(string, string)>)
    requires ValidTable(table)
    ensures Filled(a + b, table) == Filled(a, table) + Filled(b, table)
  {
    assert forall i :: 0 <= i < |a| ==> (a + b)[i] == a[i];
    assert forall i :: |a| <= i < |a| + |b| ==> (a + b)[i] == b[i - |a|];
  }

  /** A template without placeholders is saved unchanged. */
  lemma FilledUntouched(doc: seq<string>, table: seq<(string, string)>)
    requires ValidTable(table)
    requires forall p, i :: 0 <= p < |doc| && 0 <= i < |table| ==> !Contains(doc[p], table[i].0)
    ensures Filled(doc, table) == doc
  {
    forall p | 0 <= p < |doc| ensures Filled(doc, table)[p] == doc[p] {
      FillTextUntouched(doc[p], table);
    }
  }

  /** The name part of the default file name has the client name's length,
      every space turned into `_` and every other character kept; the rest is
      `_Session_`, the session count and `.docx`. */
  lemma DefaultFilenameShape(clientName: string, sessionCount: string)
    ensures var f, n := DefaultFilename(clientName, sessionCount), |clientName|;
      |f| == n + 9 + |sessionCount| + 5
      && (forall i :: 0 <= i < n ==> f[i] == (if clientName[i] == ' ' then '_' else clientName[i]))
      && (forall i :: 0 <= i < n ==> f[i] != ' ')
      && f[n..] == "_Session_" + sessionCount + ".docx"
  {
    ReplaceAllChar(clientName, ' ', '_');
    var name := ReplaceAll(clientName, " ", "_");
    var f := DefaultFilename(clientName, sessionCount);
    assert f == name + ("_Session_" + sessionCount + ".docx");
    assert forall i :: 0 <= i < |name| ==> f[i] == name[i];
  }

  lemma JaneDoeName()
    ensures ReplaceAll("Jane Doe", " ", "_") == "Jane_Doe"
  {
    var name := ReplaceAll("Jane Doe", " ", "_");
    ReplaceAllChar("Jane Doe", ' ', '_');
    assert name[0] == 'J' && name[1] == 'a' && name[2] == 'n' && name[3] == 'e';
    assert name[4] == '_' && name[5] == 'D' && name[6] == 'o' && name[7] == 'e';
  }

  /** "Jane Doe" with session count "3" gives "Jane_Doe_Session_3.docx". */
  lemma DefaultFilenameExample(clientName: string, sessionCount: string)
    requires clientName == "Jane Doe" && sessionCount == "3"
    ensures DefaultFilename(clientName, sessionCount) == "Jane_Doe_Session_3.docx"
  {
    JaneDoeName();
    assert "Jane_Doe" + "_Session_" + "3" + ".docx" == "Jane_Doe_Session_3.docx";
  }
}
