/**
  The two button handlers of the form, without the window around them: the
  "Generate Draft" handler (required-field gate, prompt assembly, completion
  call, stripped draft) and the "Export to Word" handler (empty-output gate,
  section parsing, metadata strings, document filling).

  The form is a plain record of the strings its widgets hold. The remote
  completion service is the parameter `complete` (`None` when the call
  raises), and the save dialog is the parameter `dialog` (it receives the
  default file name and returns "" when the user cancels).
*/
module App {
  import opened Wrappers
  import opened Text
  import Sections
  import Template

  /** The widget contents the handlers read. */
  datatype Form = Form(
    clientName: string, sessionCount: string, notes: string,
    day: string, month: string, year: string,
    hour: string, minute: string, ampm: string)

  // ---------------------------------------------------------------------------
  // Prompt assembly

  /** The completion request: the base prompt, one newline, then the notes. */
  function AssemblePrompt(basePrompt: string, notes: string): (prompt: string)
    ensures |prompt| == |basePrompt| + 1 + |notes|
    ensures prompt[..|basePrompt|] == basePrompt
    ensures prompt[|basePrompt|] == '\n'
    ensures prompt[|basePrompt| + 1..] == notes
  {
    basePrompt + "\n" + notes
  }

  /** Nothing is lost in the request: knowing the length of the base prompt,
      base prompt and notes are determined by the request. */
  lemma AssemblePromptInjective(b1: string, n1: string, b2: string, n2: string)
    requires |b1| == |b2| && AssemblePrompt(b1, n1) == AssemblePrompt(b2, n2)
    ensures b1 == b2 && n1 == n2
  {
    var p := AssemblePrompt(b1, n1);
    assert b1 == p[..|b1|] == b2;
    assert n1 == p[|b1| + 1..] == n2;
  }

  /** `generate_progress_notes`: one completion call on the assembled
      prompt; its reply, stripped, or `None` when the call fails. */
  function GenerateProgressNotes(notes: string, basePrompt: string,
                                 complete: string -> Option<string>): (r: Option<string>)
    ensures r.None? <==> complete(AssemblePrompt(basePrompt, notes)).None?
    ensures r.Some? ==> r.value == Strip(complete(AssemblePrompt(basePrompt, notes)).value)
  {
    match complete(AssemblePrompt(basePrompt, notes))
    case None => None
    case Some(reply) => Some(Strip(reply))
  }

  // ---------------------------------------------------------------------------
  // Metadata strings

  /** The date as `day-month-year`. */
  function FullDate(day: string, month: string, year: string): string {
    day + "-" + month + "-" + year
  }

  /** The time as `hour:minute ampm`. */
  function FullTime(hour: string, minute: string, ampm: string): string {
    hour + ":" + minute + " " + ampm
  }

  /** `s` split at the first occurrence of `c`, or `None` without one. */
  function SplitAtFirst(s: string, c: char): (r: Option<(string, string)>)
    ensures r.None? <==> c !in s
    ensures r.Some? ==> s == r.value.0 + [c] + r.value.1 && c !in r.value.0
  {
    if s == [] then None
    else if s[0] == c then Some(([], s[1..]))
    else
      match SplitAtFirst(s[1..], c)
      case None => None
      case Some((a, b)) =>
        assert s == [s[0]] + s[1..];
        Some(([s[0]] + a, b))
  }

  /** Reading a date string back into its three fields. */
  function ParseDate(s: string): Option<(string, string, string)> {
    match SplitAtFirst(s, '-')
    case None => None
    case Some((day, rest)) =>
      match SplitAtFirst(rest, '-')
      case None => None
      case Some((month, year)) => Some((day, month, year))
  }

  /** Reading a time string back into its three fields. */
  function ParseTime(s: string): Option<(string, string, string)> {
    match SplitAtFirst(s, ':')
    case None => None
    case Some((hour, rest)) =>
      match SplitAtFirst(rest, ' ')
      case None => None
      case Some((minute, ampm)) => Some((hour, minute, ampm))
  }

  lemma {:induction false} SplitAtFirstOf(a: string, c: char, b: string)
    requires c !in a
    ensures SplitAtFirst(a + [c] + b, c) == Some((a, b))
  {
    if a != [] {
      assert (a + [c] + b)[1..] == a[1..] + [c] + b;
      SplitAtFirstOf(a[1..], c, b);
      assert [a[0]] + a[1..] == a;
    } else {
      assert (a + [c] + b)[1..] == b;
    }
  }

  /** Round trip: the date fields come back from the date string as long as
      day and month hold no '-' (the form offers "01".."31" and "JAN".."DEC"). */
  lemma DateRoundTrip(day: string, month: string, year: string)
    requires '-' !in day && '-' !in month
    ensures ParseDate(FullDate(day, month, year)) == Some((day, month, year))
  {
    assert FullDate(day, month, year) == day + "-" + (month + "-" + year);
    SplitAtFirstOf(day, '-', month + "-" + year);
    SplitAtFirstOf(month, '-', year);
  }

  /** Round trip: the time fields come back from the time string as long as
      the hour holds no ':' and the minute no space. */
  lemma TimeRoundTrip(hour: string, minute: string, ampm: string)
    requires ':' !in hour && ' ' !in minute
    ensures ParseTime(FullTime(hour, minute, ampm)) == Some((hour, minute, ampm))
  {
    assert FullTime(hour, minute, ampm) == hour + ":" + (minute + " " + ampm);
    SplitAtFirstOf(hour, ':', minute + " " + ampm);
    SplitAtFirstOf(minute, ' ', ampm);
  }

  // ---------------------------------------------------------------------------
  // "Generate Draft"

  /** The fields that must be non-empty; only the notes are stripped first. */
  function RequiredFields(f: Form): seq<string> {
    [f.clientName, f.day, f.month, f.year, f.hour, f.minute, f.ampm, f.sessionCount, Strip(f.notes)]
  }

  datatype GenerateOutcome = MissingFields | CompletionFailed | Drafted(draft: string)

  /** The generate handler: refused when a required field is empty, else one
      completion call whose stripped reply becomes the draft. */
  function OnGenerate(f: Form, basePrompt: string, complete: string -> Option<string>): (r: GenerateOutcome)
    ensures r.MissingFields? <==> exists i :: 0 <= i < |RequiredFields(f)| && RequiredFields(f)[i] == ""
    ensures r.Drafted? ==> complete(AssemblePrompt(basePrompt, Strip(f.notes))).Some?
                           && r.draft == Strip(complete(AssemblePrompt(basePrompt, Strip(f.notes))).value)
    ensures !r.MissingFields? ==> (r.CompletionFailed? <==> complete(AssemblePrompt(basePrompt, Strip(f.notes))).None?)
  {
    if "" in RequiredFields(f) then MissingFields
    else
      match GenerateProgressNotes(Strip(f.notes), basePrompt, complete)
      case None => CompletionFailed
      case Some(text) => Drafted(text)
  }

  /** A refused request makes no call: the outcome does not depend on the
      completion service at all. */
  lemma RefusalMakesNoCall(f: Form, basePrompt: string,
                           c1: string -> Option<string>, c2: string -> Option<string>)
    requires OnGenerate(f, basePrompt, c1).MissingFields?
    ensures OnGenerate(f, basePrompt, c2) == MissingFields
  {
  }

  /** Notes that are only whitespace count as empty. */
  lemma BlankNotesRefused(f: Form, basePrompt: string, complete: string -> Option<string>)
    requires AllSpace(f.notes)
    ensures OnGenerate(f, basePrompt, complete) == MissingFields
  {
    StripEmptyIff(f.notes);
    assert RequiredFields(f)[8] == "";
  }

  /** The draft shown to the user has no whitespace left at either end, so
      exporting it strips nothing more. */
  lemma DraftIsStripped(f: Form, basePrompt: string, complete: string -> Option<string>)
    requires OnGenerate(f, basePrompt, complete).Drafted?
    ensures var d := OnGenerate(f, basePrompt, complete).draft;
      Strip(d) == d && (d == [] || (!IsSpace(d[0]) && !IsSpace(d[|d| - 1])))
  {
    var reply := complete(AssemblePrompt(basePrompt, Strip(f.notes))).value;
    StripIdempotent(reply);
    StripSlice(reply);
  }

  // ---------------------------------------------------------------------------
  // "Export to Word"

  /** The sections parsed from the stripped output text. */
  function NoteSections(output: string): map<string, string> {
    Sections.Sections(SplitLines(Strip(output)))
  }

  datatype ExportOutcome = NoContent | Cancelled | Saved(path: string, document: seq<string>)

  /** The export handler: refused when the output is blank; otherwise parse
      the sections, build the date and time strings and fill the template. */
  method OnExport(output: string, f: Form, template: seq<string>, dialog: string -> string)
    returns (r: ExportOutcome)
    ensures r.NoContent? <==> AllSpace(output)
    ensures !AllSpace(output) ==>
      var path := dialog(Template.DefaultFilename(f.clientName, f.sessionCount));
      (r.Cancelled? <==> path == "")
      && (path != "" ==> r == Saved(path, Template.Filled(template,
            Template.Replacements(NoteSections(output), f.clientName, f.sessionCount,
                                  FullDate(f.day, f.month, f.year), FullTime(f.hour, f.minute, f.ampm)))))
  {
    StripEmptyIff(output);
    var generated := Strip(output);
    if generated == [] {
      return NoContent;
    }
    var mapping := Sections.ParseSections(SplitLines(generated));
    var fullDate := FullDate(f.day, f.month, f.year);
    var fullTime := FullTime(f.hour, f.minute, f.ampm);
    var saved := Template.SaveToDocx(template, mapping, f.clientName, f.sessionCount, fullDate, fullTime, dialog);
    match saved
    case None => r := Cancelled;
    case Some((path, doc)) => r := Saved(path, doc);
  }

  // ---------------------------------------------------------------------------
  // The end-to-end scenario

  /** The lines of the scenario reply. */
  const ScenarioReply: seq<string> :=
    [Sections.PresentingProblems, "Anxiety.", Sections.Assessment, "GAD likely.",
     Sections.Intervention, "CBT.", Sections.Plan, "Follow up in 2 weeks."]

  /** End to end: a reply made of the four headings, each followed by one
      line, exports as the four expected sections. */
  lemma ScenarioSections(lines: seq<string>, text: string)
    requires lines == ScenarioReply && text == JoinLines(lines)
    ensures NoteSections(text) == map["Presenting Problem(s):" := "Anxiety. ", "Assessment:" := "GAD likely. ",
                                      "Intervention:" := "CBT. ", "Plan:" := "Follow up in 2 weeks. "]
  {
    assert NoBreak(lines[0]) && NoBreak(lines[1]) && NoBreak(lines[2]) && NoBreak(lines[3]);
    assert NoBreak(lines[4]) && NoBreak(lines[5]) && NoBreak(lines[6]) && NoBreak(lines[7]);
    SplitJoinLines(lines);
    JoinLinesEnds(lines);
    assert lines[0][0] == 'P' && lines[7][|lines[7]| - 1] == '.';
    StripUnchanged(text);
    Sections.FourSectionsInOrder();
  }
}
