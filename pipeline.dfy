/**
 * `parse_chat_file` (main.py:11-68) without its file reads and writes: from the
 * text of the chat export to the report that feeds chat_export.txt and
 * chat_export.json, and the text of errors.log.
 */
module Pipeline {
  import opened Wrappers
  import opened Runtime
  import opened Scanner
  import opened Extractor
  import opened Normalizer
  import opened Reporting

  /**
   * What one run writes: the report behind chat_export.txt (its `cleanText`) and
   * chat_export.json (its `lines`) when some message was found, and the text of
   * errors.log when some fragment failed to decode.
   */
  datatype Outputs = Outputs(report: Option<Report>, errorLog: Option<string>)

  /** The texts of the fragments the scanner finds, in scan order. */
  function Fragments(text: string): seq<string>
  {
    ScanWellFormed(text, 0);
    FragmentTexts(text, Scan(text, 0))
  }

  /** One normalised line per message, in order. */
  function NormalizeLines(lib: Library, messages: seq<string>): seq<string>
  {
    seq(|messages|, k requires 0 <= k < |messages| => Normalize(lib, messages[k]))
  }

  /** The outputs of one run on `text`. */
  function Export(lib: Library, text: string): Outputs
  {
    var fragments := Fragments(text);
    var found := FoundMessages(lib, fragments);
    var errors := ErrorLogs(lib, fragments);
    Outputs(
      if found != [] then Some(BuildReport(lib, NormalizeLines(lib, found))) else None,
      if errors != [] then Some(Join(errors)) else None)
  }

  /** The body of `parse_chat_file`, step by step. */
  method ParseChatFile(lib: Library, text: string) returns (out: Outputs)
    ensures out == Export(lib, text)
  {
    var spans := ScanFragments(text);
    ScanWellFormed(text, 0);
    var fragments := FragmentTexts(text, spans);
    assert fragments == Fragments(text);
    var found, errors := DecodeFragments(lib, fragments);
    var report: Option<Report> := None;
    if found != [] {
      var lines := NormalizeAll(lib, found);
      assert lines == NormalizeLines(lib, found);
      var cleanText := Join(lines);
      report := Some(Report(lines, cleanText, |cleanText|, WordCount(lib, cleanText)));
    }
    var errorLog: Option<string> := None;
    if errors != [] {
      errorLog := Some(Join(errors));
    }
    out := Outputs(report, errorLog);
  }

  /**
   * The text and JSON outputs exist exactly when some fragment yields a message;
   * the error log exists exactly when some fragment fails to decode, whatever
   * happened to the messages.
   */
  lemma ExportGating(lib: Library, text: string)
    ensures var fragments := Fragments(text);
      && (Export(lib, text).report.Some? <==>
            exists k :: 0 <= k < |fragments| && FragmentMessages(lib, fragments[k]) != [])
      && (Export(lib, text).errorLog.Some? <==>
            exists k :: 0 <= k < |fragments| && lib.loads(fragments[k]).Failure?)
  {
    FoundMessagesNonEmpty(lib, Fragments(text));
    ErrorLogsNonEmpty(lib, Fragments(text));
  }

  /**
   * The report: one line per found message, in order, each the normalised message;
   * `char_count` is the line lengths plus the separators; `word_count` is the sum of
   * the lines' word counts; and splitting the text output on newlines gives the JSON
   * list back when no line keeps an interior newline.
   */
  lemma ExportReport(lib: Library, text: string)
    requires Export(lib, text).report.Some?
    ensures var found := FoundMessages(lib, Fragments(text));
      var r := Export(lib, text).report.value;
      && |r.lines| == |found| > 0
      && (forall k :: 0 <= k < |found| ==> r.lines[k] == Normalize(lib, found[k]))
      && r.cleanText == Join(r.lines)
      && r.charCount == SumLengths(r.lines) + |r.lines| - 1
      && (NewlineIsNotWord(lib) ==> r.wordCount == SumWordCounts(lib, r.lines))
      && ((forall k :: 0 <= k < |r.lines| ==> '\n' !in r.lines[k]) ==> Split(r.cleanText) == r.lines)
  {
    var r := Export(lib, text).report.value;
    JoinLength(r.lines);
    if NewlineIsNotWord(lib) {
      JoinWordCount(lib, r.lines);
    }
    if forall k :: 0 <= k < |r.lines| ==> '\n' !in r.lines[k] {
      SplitJoin(r.lines);
    }
  }

  /** The error log holds one diagnostic per fragment that failed to decode, joined by newlines. */
  lemma ExportErrors(lib: Library, text: string)
    requires Export(lib, text).errorLog.Some?
    ensures var errors := ErrorLogs(lib, Fragments(text));
      && Export(lib, text).errorLog.value == Join(errors)
      && |errors| == |Failing(lib, Fragments(text))| > 0
  {
    ErrorLogsCount(lib, Fragments(text));
  }

  /**
   * An unclosed `{` followed, later, by a complete fragment swallows it: the match runs
   * from the unclosed `{` to the fragment's `}`, so when that text fails to decode the
   * fragment's message is lost and one diagnostic is written instead.
   */
  lemma UnclosedBraceSwallowsFragment(lib: Library)
    requires lib.loads("{bad json {\"parts\":[\"hi\"]}").Failure?
    ensures Fragments("{bad json {\"parts\":[\"hi\"]}") == ["{bad json {\"parts\":[\"hi\"]}"]
    ensures Export(lib, "{bad json {\"parts\":[\"hi\"]}").report == None
    ensures Export(lib, "{bad json {\"parts\":[\"hi\"]}").errorLog.Some?
  {
    var text := "{bad json {\"parts\":[\"hi\"]}";
    WholeTextFragment(text);
    SingleFragment(lib, text);
  }

  /** A text that is one `{`...`}` with no `}` inside is its own one fragment. */
  lemma WholeTextFragment(text: string)
    requires |text| >= 2 && text[0] == '{' && text[|text| - 1] == '}'
    requires forall k :: 0 < k < |text| - 1 ==> text[k] != '}'
    ensures Fragments(text) == [text]
  {
    var s := Span(0, |text| - 1);
    ScanAtMatch(text, s);
    assert Scan(text, |text|) == [];
    assert FragmentText(text, s) == text;
  }

  /** A single fragment contributes its own messages, and its diagnostic if it fails. */
  lemma SingleFragment(lib: Library, f: string)
    ensures FoundMessages(lib, [f]) == FragmentMessages(lib, f)
    ensures ErrorLogs(lib, [f]) == FragmentErrors(lib, f)
  {
  }

  /** A `"parts"` value that is not a list yields no message and no diagnostic. */
  lemma NotAListIgnored(lib: Library)
    requires lib.loads("{\"parts\": \"not-a-list\"}") == Success(map["parts" := JString("not-a-list")])
    ensures Export(lib, "{\"parts\": \"not-a-list\"}") == Outputs(None, None)
  {
    var text := "{\"parts\": \"not-a-list\"}";
    WholeTextFragment(text);
    SingleFragment(lib, text);
  }

  /**
   * One fragment holding `hello &amp; world`: after unescaping, the `&` is dropped,
   * so the one line is `Hello  world`, of 12 characters and 2 words, with no error log.
   */
  lemma AmpersandScenario(lib: Library)
    requires lib.loads("{\"parts\": [\"hello &amp; world\"]}") == Success(map["parts" := JArray([JString("hello &amp; world")])])
    requires lib.unescape("hello &amp; world") == "hello & world"
    requires lib.isWord('h') && lib.isWord('e') && lib.isWord('l') && lib.isWord('o')
    requires lib.isWord('w') && lib.isWord('r') && lib.isWord('d')
    requires !lib.isSpace('h') && !lib.isSpace('d')
    requires lib.isSpace(' ') && !lib.isWord(' ') && !lib.isWord('&') && !lib.isSpace('&')
    requires lib.upper('h') == "H" && lib.isWord('H')
    ensures Export(lib, "{\"parts\": [\"hello &amp; world\"]}")
      == Outputs(Some(Report(["Hello  world"], "Hello  world", 12, 2)), None)
  {
    var text := "{\"parts\": [\"hello &amp; world\"]}";
    WholeTextFragment(text);
    SingleFragment(lib, text);
    var parts := [JString("hello &amp; world")];
    assert StringParts(parts, lib.unescape) == ["hello & world"] by {
      assert parts[1..] == [];
    }
    NormalizeAmpersandExample(lib);
    assert NormalizeLines(lib, ["hello & world"]) == ["Hello  world"];
    assert Join(["Hello  world"]) == "Hello  world";
    assert WordCount(lib, "Hello  world") == 2 by {
      WordCountIsRuns(lib, "Hello  world");
      HelloWorldRuns(lib);
    }
  }

  /** `Hello  world` holds two maximal runs of word characters. */
  lemma HelloWorldRuns(lib: Library)
    requires lib.isWord('H') && lib.isWord('e') && lib.isWord('l') && lib.isWord('o')
    requires lib.isWord('w') && lib.isWord('r') && lib.isWord('d')
    requires !lib.isWord(' ')
    ensures WordRuns(lib, "Hello  world") == 2
  {
    var s := "Hello  world";
    assert s[..12] == s;
    RunsInsideRun(lib, s, 7, 12);
    assert s[..8][..7] == s[..7] && s[..7][..6] == s[..6] && s[..6][..5] == s[..5];
    assert WordRuns(lib, s[..8]) == WordRuns(lib, s[..7]) + 1;
    assert WordRuns(lib, s[..7]) == WordRuns(lib, s[..6]) == WordRuns(lib, s[..5]);
    RunsInsideRun(lib, s, 0, 5);
    assert s[..1][..0] == [];
    assert WordRuns(lib, s[..1]) == 1;
  }

  /** A text with no `{` followed later by a `}` produces no output at all. */
  lemma NoPairNoOutput(lib: Library, text: string)
    requires !HasPairFrom(text, 0)
    ensures Export(lib, text) == Outputs(None, None)
  {
    ScanEmptyIff(text);
    assert Fragments(text) == [];
  }

  /** An unclosed fragment is not a fragment: `{bad json` yields neither messages nor a diagnostic. */
  lemma UnclosedBraceIsIgnored(lib: Library)
    ensures Export(lib, "{bad json") == Outputs(None, None)
  {
  }
}
