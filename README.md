# Chat export extraction pipeline, in Dafny

This project models `parse_chat_file` of `main.py`: the part of the chat-export
tool that finds brace-delimited JSON fragments in a saved chat page, decodes each
one on its own (a fragment that fails to decode adds one line to the error log and
the run goes on), takes the string items of each fragment's `"parts"` list,
unescapes HTML entities in them, cleans each message into one output line (drop
disallowed characters, strip whitespace, upper-case the first character), and
computes the character and word counts of the newline-joined text. The file reads
and writes are stripped off: the model is a function from the page's text to what
would be written to `chat_export.txt`, `chat_export.json` and `errors.log`, and
which of them would be written at all.

The Python runtime pieces the pipeline calls are not modelled; they are fields of
the record `Runtime.Library` passed to every operation that uses them: `json.loads` (returning a
decoded object or the text of the decode error), `html.unescape`, membership in the
regex classes `\w` and `\s` (the latter is also what `str.strip` removes), and
`str.upper` on one character (never empty, possibly several characters long). Every
result holds for any such functions, unless a lemma names the facts it assumes about
them. The one outcome of those functions that the model cannot express is listed
under "Left out": an exception other than a decode error, which ends the run.

Modules, in pipeline order:

- `Scanner` — `re.finditer(r"\{.*?\}", text, re.DOTALL)`. `Scan` follows the regex
  engine position by position; `ScanFragments` is the index loop that jumps to the
  next `{` and then the next `}`; `IsLeftmostScan` is an independent, declarative
  description of a leftmost, shortest, non-overlapping scan, proved equivalent.
- `Extractor` — the loop that decodes each fragment, records diagnostics and
  collects the unescaped string items of `"parts"`.
- `Normalizer` — the per-message `re.sub` filter, `strip` and capitalisation.
- `Reporting` — `"\n".join`, `len` and `len(re.findall(r"\b\w+\b", ...))`; the
  reference count of words is the number of maximal runs of word characters.
- `Pipeline` — the whole body, with the gating of the outputs.

Two consequences of the code that are easy to miss:

- An unclosed brace such as `{bad json` with no `}` anywhere after it is not a
  fragment at all (the pattern needs a `}`), so it yields neither a message nor a
  diagnostic (`Pipeline.UnclosedBraceIsIgnored`). When a `}` does follow, the lazy
  match runs from that `{` to the next `}` and swallows any fragment that starts in
  between: `{bad json {"parts":["hi"]}` is one fragment, so if it fails to decode
  `hi` is lost and one diagnostic is written (`Pipeline.UnclosedBraceSwallowsFragment`).
- The text output split on newlines gives back the JSON `messages` list only when no
  line keeps an interior newline; the filter allows `\n` and `strip` removes it only
  at the ends, so a message `a\nb` becomes one JSON item but two text lines
  (`Reporting.SplitJoin`, `Reporting.InteriorNewlineBreaksSplit`).

## Model

| member | source | states |
|---|---|---|
| `Scanner.Scan` | main.py:23 | the matches of `finditer`, position by position; specified by `ScanWellFormed`, `ScanOrdered`, `ScanIsLeftmost` and `ScanUnique` |
| `Scanner.FragmentTexts` | main.py:28-30 | the `group(0)` texts of the matches, in scan order; each has the shape `FragmentText` states |
| `Scanner.MatchAt` | main.py:23 | the pattern matches at a position exactly when it holds `{` and some `}` follows; the match ends at the first such `}` |
| `Scanner.FragmentText` | main.py:30 | the text of a match starts with `{`, ends with `}`, and has no `}` before its last character |
| `Scanner.Seek` | main.py:23 | the index loop stops at the first occurrence of the character sought, or at the end |
| `Scanner.ScanFragments` | main.py:23 | the left-to-right index loop yields exactly the matches `finditer` yields |
| `Scanner.ScanWellFormed` | main.py:23 | every match is a `{`...`}` span with no interior `}`, at or after where the scan starts |
| `Scanner.ScanOrdered` | main.py:23 | matches come in strictly increasing position order and do not overlap |
| `Scanner.ScanIsLeftmost` | main.py:23 | the scan is leftmost, shortest and non-overlapping: no `{` is skipped before a match, and after the last match no `{` is followed by a `}` |
| `Scanner.ScanUnique` | main.py:23 | any leftmost, shortest, non-overlapping scan is the one `finditer` performs |
| `Scanner.ScanEmptyIff` | main.py:23 | the scan finds nothing exactly when no `{` is followed later by a `}` |
| `Scanner.NestedObjectCutShort` | main.py:23 | a nested object inside `"parts"` cuts the fragment short at the inner `}` |
| `Pipeline.Fragments` | main.py:23-30 | the `match.group(0)` texts of all matches, in scan order; specified by `ScanWellFormed`, `ScanOrdered` and `WholeTextFragment` |
| `Extractor.FoundMessages` | main.py:25-34 | `found_messages` after the loop; specified by `AccumulatorsAppend`, `FoundMessagesCount` and `FoundMessagesNonEmpty` |
| `Extractor.ErrorLogs` | main.py:26-37 | `error_logs` after the loop; specified by `AccumulatorsAppend`, `ErrorLogsCount`, `ErrorLogsAt` and `ErrorLogsNonEmpty` |
| `Extractor.Diagnostic` | main.py:37 | a diagnostic is the fixed prefix followed by the decode error's text, and nothing else |
| `Extractor.StringParts` | main.py:33 | every kept message is an unescaped string item, every string item is kept, and there are no more messages than items |
| `Extractor.StringPartsLength` | main.py:33 | exactly one message per string item of the list |
| `Extractor.StringPartsAt` | main.py:33 | the string item at position k becomes, unescaped, the message at the position counting the string items before it: list order is kept, non-strings dropped |
| `Extractor.StringPartsAllStrings` | main.py:33 | a list of strings only yields each item, unescaped, at its own position |
| `Extractor.StringPartsAppend` | main.py:33 | the comprehension distributes over list concatenation |
| `Extractor.PartsMessages` | main.py:32-33 | an object with no `"parts"` key, or a non-list `"parts"`, yields no message |
| `Extractor.FragmentMessages` | main.py:29-37 | a fragment that fails to decode contributes no message |
| `Extractor.FragmentErrors` | main.py:36-37 | a fragment adds one diagnostic when it fails to decode and none when it decodes |
| `Extractor.DecodeFragments` | main.py:25-37 | the loop's two accumulators end as the found messages and the diagnostics of all fragments, in scan order |
| `Extractor.AccumulatorsAppend` | main.py:25-37 | both accumulators are in-order concatenations of what each fragment adds |
| `Extractor.FoundMessagesCount` | main.py:28-34 | the number of found messages is the number of string items across the `"parts"` lists of fragments that decode |
| `Extractor.FoundMessagesNonEmpty` | main.py:25-34 | some message is found exactly when some fragment contributes one |
| `Extractor.ErrorLogsCount` | main.py:28-37 | there is exactly one diagnostic per fragment that fails to decode |
| `Extractor.ErrorLogsAt` | main.py:28-37 | the failing fragment at scan position k has its diagnostic at the position counting the failures before it |
| `Extractor.ErrorLogsNonEmpty` | main.py:26-37 | some diagnostic exists exactly when some fragment fails to decode |
| `Normalizer.Allowed` | main.py:42 | membership in the character class of the substitution: `\w`, `\s`, the listed punctuation and newline |
| `Normalizer.Filter` | main.py:42 | the substitution that deletes disallowed characters; specified by `FilterSpec`, `FilterAppend` and `FilterKeepsAllowed` |
| `Normalizer.LStrip` | main.py:43 | the leading half of `strip`; specified by `LStripSpec` |
| `Normalizer.RStrip` | main.py:43 | the trailing half of `strip`; specified by `RStripSpec` |
| `Normalizer.Strip` | main.py:43 | `str.strip`; specified by `StripSpec`, `StripEmpty` and `StripKeepsTrimmed` |
| `Normalizer.Capitalize` | main.py:44-45 | upper-case the first character of a non-empty line; specified by `NormalizeShape` and `CapitalizeStable` |
| `Normalizer.Normalize` | main.py:42-45 | one message to one line; specified by `CoreShape`, `NormalizeShape`, `NormalizeEmptyIff` and `NormalizeIdempotent` |
| `Normalizer.Core` | main.py:42-43 | the filtered, stripped message before capitalisation; specified by `CoreShape` and `NormalizeShape` |
| `Pipeline.NormalizeLines` | main.py:40-46 | `processed_lines` as the report uses it, one normalised line per message; specified by `ExportReport` and computed by `NormalizeAll` |
| `Normalizer.FilterSpec` | main.py:42 | the filter keeps exactly the allowed characters: all that remain are allowed, and every allowed one remains |
| `Normalizer.FilterAppend` | main.py:42 | the filter keeps character order (distributes over concatenation) |
| `Normalizer.FilterKeepsAllowed` | main.py:42 | text of allowed characters only is left unchanged by the filter |
| `Normalizer.LStripSpec` | main.py:43 | left stripping drops a whitespace prefix and leaves a suffix not starting with whitespace |
| `Normalizer.RStripSpec` | main.py:43 | right stripping drops a whitespace suffix and leaves a prefix not ending with whitespace |
| `Normalizer.StripSpec` | main.py:43 | stripping leaves the infix between leading and trailing whitespace, with no whitespace at either end |
| `Normalizer.StripEmpty` | main.py:43 | stripping leaves nothing exactly when the text is all whitespace |
| `Normalizer.StripKeepsTrimmed` | main.py:43 | text with no whitespace at either end is left unchanged by stripping |
| `Normalizer.CoreShape` | main.py:42-43 | the filtered, stripped text holds only allowed characters and has no whitespace at either end |
| `Normalizer.NormalizeShape` | main.py:42-45 | a line is empty exactly when the stripped text is; otherwise it is the upper case of that text's first character followed by the rest unchanged, all allowed, last one not whitespace |
| `Normalizer.FilterOnlySpaces` | main.py:42 | the filter leaves only whitespace exactly when every character was whitespace or disallowed |
| `Normalizer.NormalizeEmptyIff` | main.py:42-46 | a message normalises to the empty line exactly when it is made of whitespace and disallowed characters only |
| `Normalizer.NormalizeAll` | main.py:40-46 | one line per message, in the same order, each the normalised message, empty lines kept |
| `Normalizer.NormalizedIsFixpoint` | main.py:42-45 | a trimmed line of allowed characters whose first character is its own upper case normalises to itself |
| `Normalizer.CapitalizeStable` | main.py:44-45 | under a stable upper case, capitalising a trimmed text of allowed characters gives such a line |
| `Normalizer.NormalizeIdempotent` | main.py:42-45 | under a stable upper case, normalising a normalised line changes nothing |
| `Normalizer.NormalizeAmpersandExample` | main.py:42-45 | `hello & world` normalises to `Hello  world`: the `&` is dropped, both spaces stay |
| `Reporting.Join` | main.py:48 | `"\n".join`; specified by `JoinLength`, `SplitJoin` and `JoinWordCount` |
| `Reporting.Boundary` | main.py:51 | the regex assertion `\b`: exactly one side of the position is a word character; specified through `FindAllCountsRuns` |
| `Reporting.FindAllWords` | main.py:51 | the `findall` search for `\b\w+\b` from a position; specified by `FindAllCountsRuns` |
| `Reporting.WordCount` | main.py:51 | `word_count`; specified by `WordCountIsRuns` and `JoinWordCount` |
| `Reporting.BuildReport` | main.py:48-51 | `clean_text`, `char_count`, `word_count` and the lines; specified by `ExportReport` |
| `Reporting.JoinLength` | main.py:48-50 | `char_count` is the sum of the line lengths plus one separator between each two lines |
| `Reporting.SplitJoin` | main.py:48 | splitting the joined text on newlines gives back the lines when none holds a newline |
| `Reporting.InteriorNewlineBreaksSplit` | main.py:42-48 | a line with an interior newline comes back from the split as two lines |
| `Reporting.RunEnd` | main.py:51 | the greedy `\w+` stops at the first non-word character, or the end |
| `Reporting.FindAllCountsRuns` | main.py:51 | from a point outside a run, the `findall` search counts exactly the maximal runs of word characters that start later |
| `Reporting.WordCountIsRuns` | main.py:51 | `word_count` equals the number of maximal runs of word characters |
| `Reporting.RunsAcrossSeparator` | main.py:48-51 | a non-word newline between two texts neither adds nor merges runs |
| `Reporting.JoinWordCount` | main.py:48-51 | the word count of the joined text is the sum of the lines' word counts |
| `Pipeline.Export` | main.py:23-67 | what one run writes; specified by `ExportGating`, `ExportReport` and `ExportErrors` |
| `Pipeline.ParseChatFile` | main.py:23-67 | the step-by-step body computes exactly the outputs of one run |
| `Pipeline.ExportGating` | main.py:39-65 | text and JSON output exist exactly when some fragment yields a message; the error log exists exactly when some fragment fails to decode, independently |
| `Pipeline.ExportReport` | main.py:39-59 | the report's lines correspond one-to-one and in order to the found messages; its counts follow the line lengths and word counts; the text splits back into the JSON list when no line holds a newline |
| `Pipeline.ExportErrors` | main.py:65-67 | the error log is the diagnostics joined by newlines, one per failed fragment |
| `Pipeline.NoPairNoOutput` | main.py:23-65 | a text with no `{` followed by a `}` produces no output at all |
| `Pipeline.UnclosedBraceIsIgnored` | main.py:23-37 | `{bad json` yields neither messages nor a diagnostic |
| `Pipeline.UnclosedBraceSwallowsFragment` | main.py:23-37 | `{bad json {"parts":["hi"]}` is one fragment; when it fails to decode, `hi` is lost and the error log is written |
| `Pipeline.WholeTextFragment` | main.py:23-30 | a text that is one `{`...`}` with no inner `}` is its own single fragment |
| `Pipeline.SingleFragment` | main.py:28-37 | one fragment contributes its own messages and diagnostic |
| `Pipeline.NotAListIgnored` | main.py:32-34 | `{"parts": "not-a-list"}` yields no message and no diagnostic |
| `Pipeline.AmpersandScenario` | main.py:23-51 | `{"parts": ["hello &amp; world"]}` yields the one line `Hello  world`, 12 characters, 2 words, and no error log |
| `Pipeline.HelloWorldRuns` | main.py:51 | `Hello  world` holds two words |

## Left out

- File I/O (`os.makedirs`, `open`, `read`, `write`, `os.path.join`, main.py:12-21, 55-59, 66-67): the model takes the page's text as a value and returns what would be written; the fatal missing-input and write errors are not modelled.
- `json.dump` formatting (`indent=4`, `ensure_ascii=False`, main.py:59): only the `messages` list written to the JSON file is modelled (`Report.lines`).
- Console messages (main.py:52-53, 61, 63, 68): presentation only.
- The `ChatViewer` window and `main` (main.py:71-102): GUI and process glue with no data dependency on the pipeline.
- The behaviour of `json.loads`, `html.unescape`, the Unicode tables behind `\w` and `\s`, and `str.upper`: they are parameters (`Runtime.Library`); the decode error's text is whatever `json.loads` reports.
- `json.loads` is modelled as returning an object: a text that starts with `{` and ends with `}` can only decode to a JSON object, so no list, string, number, boolean or null ever reaches the test `"parts" in data`.
- Exceptions from `json.loads` other than `json.JSONDecodeError` (main.py:31, 36): a `RecursionError` on a fragment nested too deeply (arrays need no `}`, so such a fragment is kept whole), or the `ValueError` for an integer literal longer than the interpreter's digit limit, escape the loop and end the run before anything is written. `Runtime.Library.loads` returns either an object or a decode error, so the model does not capture this abort path; every result here describes a run in which `json.loads` raises nothing else.
- Normalizer.NormalizeShape: does not state that a line's first character is not whitespace, nor that it is allowed, because `str.upper` is a parameter and the model knows nothing of what it returns beyond being non-empty.
- Normalizer.NormalizeIdempotent: holds under the hypothesis `UpperStable` (upper-casing an allowed, non-space character gives one allowed, non-space character that is its own upper case), which real Unicode upper-casing does not meet for every character: `ß` becomes `SS`, and `ΐ` becomes `Ι` followed by combining marks that the filter drops on a second pass, so the source's normalisation is not idempotent on such lines.
- Reporting.JoinWordCount: assumes `Runtime.NewlineIsNotWord` (the newline is not in `\w`), which Python's class guarantees but the abstract class does not.
- Reporting.SplitJoin: holds only when no line keeps an interior newline; `Reporting.InteriorNewlineBreaksSplit` shows the round trip failing otherwise.
