# Progress-note generator: the string pipeline, verified

The program is a desktop form that turns a therapist's raw case notes into a
formal progress note. It does this in five steps:

1. It checks that every field of the form is filled.
2. It sends the base prompt plus the notes to a chat-completion service.
3. It shows the stripped reply as a draft.
4. On export, it splits the draft into the four headed sections "Presenting
   Problem(s):", "Assessment:", "Intervention:" and "Plan:".
5. It fills a copy of a Word template. Eight literal placeholders are replaced
   paragraph by paragraph with the client name, the date, the time, the session
   count and the four section bodies. The save dialog is offered a default
   file name built from the client name and session count, and the copy is
   saved at the path the user picks.

This project models that pipeline in Dafny and proves its properties.

- `wrappers.dfy`: `Option`.
- `text.dfy`, module `Text`. The Python string operations the pipeline relies
  on:
  - `str.strip()`, with the full `str.isspace()` character set;
  - `str.splitlines()`, with its full set of line terminators, where "\r\n"
    counts as one;
  - the substring test `key in text`;
  - `str.replace(key, val)` as a left-to-right replacement of non-overlapping
    occurrences;
  - `split` and `join`, which serve as its reference definition.
- `sections.dfy`, module `Sections`. The section parser of the export handler:
  - `ParseSections` is the loop itself, with its cursor and its dictionary;
  - `Step` and `Run` are the functional specification the loop is proved
    against;
  - lemmas about the parser's behaviour follow them.
- `template.dfy`, module `Template`:
  - the eight placeholders and the replacement table;
  - `FillParagraphs`, the nested loops that overwrite each paragraph of a
    document held in an `array<string>`;
  - `SaveToDocx`;
  - the default file name;
  - lemmas about the filler.
- `app.dfy`, module `App`:
  - the form as a record;
  - prompt assembly;
  - the date and time strings, with parsers that read them back;
  - the "Generate Draft" handler `OnGenerate`, with its required-field gate;
  - the "Export to Word" handler `OnExport`, with its empty-output gate;
  - the end-to-end scenario.

The completion service is the parameter `complete: string -> Option<string>`.
`None` stands for a call that raises. The save dialog is the parameter
`dialog: string -> string`. It receives the default file name and returns the
chosen path, or "" when the user cancels. A document is the sequence of its
paragraphs' texts.

The parser tests the cursor `section` for truthiness. A heading is never the
empty string, so "section is truthy" is modelled as "a section is set".

**The "no placeholder remains" claim holds only conditionally.** Take a
paragraph that holds one placeholder between two texts without square
brackets, such as "Plan: [Replace with output of Plan:]". The placeholder is
replaced by its value, and the texts around it stay. This holds only when the
value holds no placeholder that the table replaces later
(`Template.PlaceholderFilled`). A client name such as
"[Replace with input Sessions]" is filled in and then replaced again. The code
does this, and the model follows the code. For such a paragraph the claim
holds without a condition on the value in two cases:

- for the Plan placeholder, which is the last key (`Template.PlanPlaceholderFilled`);
- for any body placeholder whose section is missing, because it becomes ""
  and only the surrounding text stays (`Template.MissingSectionErased`).

## Model

| member | source | states |
|---|---|---|
| Text.TrimStartSpec | app.py:51 | stripping the front removes a prefix made only of whitespace, and the result does not start with whitespace |
| Text.TrimEndSpec | app.py:51 | stripping the back removes a suffix made only of whitespace, and the result does not end with whitespace |
| Text.StripSlice | app.py:115 | `strip()` returns a contiguous slice of its input; only whitespace lies on either side of it, and it neither starts nor ends with whitespace |
| Text.StripUnchanged | app.py:123 | a string with no whitespace at either end is left unchanged by `strip()` |
| Text.StripIdempotent | app.py:115 | stripping twice is the same as stripping once |
| Text.StripEmptyIff | app.py:115-116 | the stripped text is empty exactly when the text is all whitespace, in both directions |
| Text.LineEnd | app.py:122 | splits a non-empty text into three parts: its first line, which holds no line break; that line's terminator; and the rest. The three concatenate back to the text |
| Text.SplitLines | app.py:122 | `splitlines()` produces lines that contain no line-break character |
| Text.LineEndOfLine | app.py:122 | a break-free line followed by "\n" is cut exactly at that newline |
| Text.JoinLinesEnds | app.py:122 | lines joined with "\n" start with the first line's first character and end with the last line's last character |
| Text.SplitJoinLines | app.py:122 | round trip: splitting lines joined with "\n" gives the same lines back, provided no line holds a break and the last line is non-empty |
| Text.Strip | app.py:51 | defined as `TrimEnd(TrimStart(s))`, i.e. `str.strip()`; see `Text.StripSlice`, `Text.StripEmptyIff` and `Text.StripIdempotent` |
| Text.Contains | app.py:77 | defined recursively as `key in text`; see `Text.ContainsWitness` and `Text.ContainsAt`, which together make it exactly substring occurrence |
| Text.ReplaceAll | app.py:56 | defined as the left-to-right, non-overlapping `str.replace` for a non-empty key; see `Text.ReplaceAllIsJoinOfSplit`, `Text.ReplaceAllAbsent` and `Text.ReplaceAllChar` |
| Text.ContainsWitness | app.py:77 | when `key in text` holds, the key occurs in the text at some actual position |
| Text.ContainsAt | app.py:77 | any occurrence of the key at any position makes `key in text` true |
| Text.Split | app.py:78 | split is never empty, its first piece is a prefix of the input, and no piece contains the key |
| Text.ReplaceAllIsJoinOfSplit | app.py:78 | `text.replace(k, v)` equals `v.join(text.split(k))` |
| Text.ReplaceAllSelf | app.py:78 | replacing a key by itself changes nothing |
| Text.SplitJoinRoundTrip | app.py:78 | round trip: `k.join(text.split(k)) == text` |
| Text.ReplaceAllAbsent | app.py:77-78 | a text that does not contain the key is returned unchanged by replace |
| Text.ReplaceAllChar | app.py:56 | replacing one character with another keeps the length and maps each position independently |
| Sections.Step | app.py:123-128 | one iteration of the parser keeps its invariant: every key is a heading, and the current section is always a key |
| Sections.RunFrom | app.py:122-128 | the whole loop keeps that invariant |
| Sections.ParseSections | app.py:120-128 | the imperative loop returns exactly the map of the functional parser `Sections`, and all its keys are headings |
| Sections.Sections | app.py:120-128 | defined as the map the loop's fold `Run` ends with; see `Sections.ParseSections` and the lemmas below |
| Sections.SectionKeysAreHeadings | app.py:124-126 | for every input, the keys of the result are among the four exact heading strings |
| Sections.RunFromAppend | app.py:122 | running the parser over `a + b` equals running it over `a` and then continuing over `b` |
| Sections.RunSnoc | app.py:122 | one more line is one more step of the loop |
| Sections.NoHeadingsFromStart | app.py:121-128 | before any heading, lines leave the parser in its initial state |
| Sections.NoHeadingsNoSections | app.py:121-128 | when no heading ever appears, the result is the empty map |
| Sections.LeadingLinesDropped | app.py:121-128 | lines before the first heading belong to no section: removing them leaves the result unchanged |
| Sections.StepOnBody | app.py:127-128 | a non-heading line, read while a section is current, appends the stripped line and one space to that section only |
| Sections.BodyAccumulates | app.py:127-128 | a run of non-heading lines appends their concatenation to the current section, each stripped line followed by one space; nothing else changes |
| Sections.LastHeadingBody | app.py:124-128 | after a heading and its body lines, that heading is the current section and holds exactly its body text; every other section keeps its previous value |
| Sections.RepeatedHeadingDiscardsEarlierBody | app.py:125-126 | a heading that occurs again resets its section: its earlier occurrence and that occurrence's body can be deleted without changing the result |
| Sections.LowercaseHeadingIsBody | app.py:124 | matching is exact in case and punctuation: "assessment:" after "Assessment:" becomes body text "assessment: " |
| Sections.OneLineSection | app.py:124-128 | a heading followed by one body line adds that line plus one space under that heading |
| Sections.FourSectionsInOrder | app.py:120-128 | the four headings in order, each followed by one line, give "Anxiety. ", "GAD likely. ", "CBT. " and "Follow up in 2 weeks. " |
| Template.Replacements | app.py:64-73 | builds eight entries in source order with the exact placeholder keys. The first four get the name, date, time and session strings verbatim; each body placeholder gets its heading's section, or "" when that heading is absent from the map |
| Template.Lookup | app.py:69-72 | defined as `mapping.get(k, "")`; see `Template.Replacements` |
| Template.Substitute | app.py:77-78 | defined as one guarded step `if key in text: text = text.replace(key, val)`; see `Template.SubstituteIsReplaceAll` |
| Template.FillText | app.py:76-78 | defined as the inner loop over the table for one paragraph; see `Template.FillTextIsReplaceEach`, `Template.FillTextUntouched` and `Template.FillFramed` |
| Template.Filled | app.py:75-78 | defined as every paragraph filled on its own; see `Template.FilledParagraphwise`, `Template.FilledAppend`, `Template.FilledUntouched` and `Template.FillParagraphs` |
| Template.DefaultFilename | app.py:56 | defined as the client name with spaces replaced by `_`, then `_Session_`, the count and `.docx`; see `Template.DefaultFilenameShape` and `Template.DefaultFilenameExample` |
| Template.FillParagraphs | app.py:75-78 | the nested in-place loops leave the array equal to every original paragraph filled with the table |
| Template.SaveToDocx | app.py:53-81 | offers the default file name; returns None when the dialog is cancelled, otherwise the chosen path and the filled template |
| Template.SubstituteIsReplaceAll | app.py:77-78 | the `key in para.text` guard changes nothing: each step equals an unconditional replace-all |
| Template.FillTextIsReplaceEach | app.py:76-78 | the guarded inner loop equals replacing every key in table order |
| Template.FillTextUntouched | app.py:75-78 | a paragraph containing none of the keys is left unchanged |
| Template.FillTextSolePlaceholder | app.py:76-78 | a paragraph that is exactly the j-th key becomes its value, provided no earlier key occurs in the key and no later key occurs in the value |
| Template.FramedBracketed | app.py:65-72 | a prefix that opens with `[`, a body without brackets and a closing `]` form a bracketed string |
| Template.InputPlaceholdersBracketed | app.py:65-68 | each metadata placeholder has `[` only at its start and `]` only at its end |
| Template.OutputPlaceholdersBracketed | app.py:69-72 | each body placeholder has `[` only at its start and `]` only at its end |
| Template.PlaceholdersDistinct | app.py:65-72 | the eight placeholders are pairwise different |
| Template.BracketedContains | app.py:77 | one bracketed string occurs inside another only when the two are equal |
| Template.PlaceholderNotInOther | app.py:65-72 | no placeholder occurs inside another |
| Template.PlainLacksBracketed | app.py:77 | a bracketed key never occurs in a text without square brackets |
| Template.ReplaceFramed | app.py:78 | replacing a bracketed key that sits between two bracket-free texts puts the value in its place and keeps both texts |
| Template.ContainsFramed | app.py:77 | a bracketed key found in `pre + v + post`, where `pre` and `post` have no brackets, occurs inside `v` |
| Template.FillFramed | app.py:76-78 | for a table of bracketed keys: a paragraph `pre + key_j + post` with bracket-free `pre` and `post` becomes `pre + value_j + post`, provided no earlier key equals key j and value j contains no later key |
| Template.ReplacementsKeys | app.py:64-73 | every key of the replacement table is bracketed, and the keys are pairwise different |
| Template.PlaceholderFilled | app.py:64-78 | a paragraph `pre + placeholder_j + post` with bracket-free `pre` and `post` becomes `pre + value_j + post`, provided the value contains no placeholder listed after it |
| Template.MissingSectionErased | app.py:69-78 | a body placeholder whose section is missing from the map, between bracket-free texts, is replaced by "": the paragraph becomes `pre + post` and the placeholder is not left in place |
| Template.PlanPlaceholderFilled | app.py:72-78 | the Plan placeholder between bracket-free texts always becomes the Plan section, or "" when that section is missing, with the surrounding text kept |
| Template.FilledParagraphwise | app.py:75-78 | filling keeps the paragraph count and order, and each paragraph's result depends only on its own text |
| Template.FilledAppend | app.py:75-78 | filling two concatenated parts is the same as filling each part |
| Template.FilledUntouched | app.py:75-78 | a template without placeholders is saved unchanged |
| Template.DefaultFilenameShape | app.py:56 | the name part has the client name's length, with every space turned into `_`, every other character kept and no space left; the suffix is `_Session_`, the count and `.docx` |
| Template.JaneDoeName | app.py:56 | "Jane Doe" becomes "Jane_Doe" |
| Template.DefaultFilenameExample | app.py:56 | "Jane Doe" with session count "3" gives "Jane_Doe_Session_3.docx" |
| App.AssemblePrompt | app.py:46 | the prompt has length `|base| + 1 + |notes|`; the base prompt is its prefix, exactly one newline follows it, and the notes are the rest |
| App.AssemblePromptInjective | app.py:46 | given the base prompt's length, the prompt determines both the base prompt and the notes |
| App.GenerateProgressNotes | app.py:45-51 | fails exactly when the completion call fails; otherwise returns the stripped reply to the assembled prompt |
| App.FullDate | app.py:99 | defined as `day-month-year`, the same string as at app.py:132; see `App.DateRoundTrip` |
| App.FullTime | app.py:100 | defined as `hour:minute ampm`, the same string as at app.py:133; see `App.TimeRoundTrip` |
| App.SplitAtFirst | app.py:99-100 | is None exactly when the separator is absent; otherwise cuts the string at the separator's first occurrence, so the part before it does not contain the separator and the two parts around the separator rejoin to the string |
| App.DateRoundTrip | app.py:99 | round trip: `day-month-year` parses back to the three fields when day and month contain no `-` |
| App.TimeRoundTrip | app.py:100 | round trip: `hour:minute ampm` parses back to the three fields when the hour contains no `:` and the minute no space |
| App.OnGenerate | app.py:84-112 | refused exactly when one of the nine required fields is empty (the notes after stripping); otherwise fails exactly when the call fails, or drafts the stripped reply to the base prompt plus the stripped notes |
| App.RequiredFields | app.py:95 | defined as the nine values `all([...])` tests, with the notes stripped as at app.py:87; see `App.OnGenerate` and `App.BlankNotesRefused` |
| App.RefusalMakesNoCall | app.py:95-97 | a refused request does not depend on the completion service: no call is made |
| App.BlankNotesRefused | app.py:87-97 | notes made only of whitespace count as empty, so generation is refused |
| App.DraftIsStripped | app.py:51 | the draft has no whitespace at either end |
| App.NoteSections | app.py:115-128 | defined as the parser's map over the lines of the stripped output; see `App.OnExport` and `App.ScenarioSections` |
| App.OnExport | app.py:114-136 | refused exactly when the output is only whitespace; otherwise cancelled exactly when the dialog returns ""; otherwise saves the template filled with the parsed sections and the `day-month-year` / `hour:minute ampm` strings |
| App.ScenarioSections | app.py:115-128 | the reply made of the four headings, each followed by one line, exports as the four expected sections |

## Left out

- The Tkinter window, with its widgets, layout, menus, progress bar, message boxes, reset handler and settings dialog (app.py:83-249). The form is a record of strings.
- The OpenAI client (app.py:14, 47-50). It is a network call into a foreign library, so it is the parameter `complete`.
- The `filedialog` call (app.py:54, 57). It is the parameter `dialog`, with "" meaning cancel; its file-type options are presentation.
- File I/O. This covers loading and saving the settings (app.py:35-43), loading `.env` (app.py:13), `shutil.copy`, `Document(...)` and `doc.save` (app.py:61-62, 80). A template is the sequence of its paragraphs' texts, and saving means returning the filled sequence.
- python-docx run semantics. How `para.text` is assembled from runs, and how it is rewritten on assignment, belong to python-docx and are not modelled. A paragraph is its whole text.
- Template.PlaceholderFilled, Template.MissingSectionErased, Template.PlanPlaceholderFilled: these cover a paragraph that holds one placeholder amid text without square brackets. A paragraph with several placeholders, or with other bracketed text, is filled by the same model (`FillText`). For them the model states only two things. `FillTextIsReplaceEach` says the result equals replacing every key in table order. `FillTextUntouched` says a paragraph with no key is unchanged. No closed form is stated for them.
- The messages of exceptions raised while generating or exporting, and the success notice (app.py:105-112, 139-141). A failed completion is `CompletionFailed`. Failures while writing the file are not modelled, because the file system is not modelled.
- Text.ReplaceAll: `str.replace` with an empty key is not modelled. All eight keys are non-empty, and `ReplaceAll` requires a non-empty key.
- App.OnGenerate: the date and time strings that the handler builds but never uses (app.py:99-100) are not produced. Only the export handler's strings (app.py:132-133) reach the document.
- Characters are Unicode scalar values. The whitespace and line-break sets are Python's, written out as code-point ranges in `Text.IsSpace` and `Text.IsLineBreak`, rather than a reduced set.
