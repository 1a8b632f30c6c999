/**
 * The report of main.py:48-51: the lines joined by newlines, its length, and the
 * number of `\b\w+\b` matches in it.
 */
module Reporting {
  import opened Runtime

  /** `"\n".join(lines)`. */
  function Join(lines: seq<string>): string
  {
    if |lines| == 0 then ""
    else if |lines| == 1 then lines[0]
    else lines[0] + "\n" + Join(lines[1..])
  }

  /** The sum of the lengths of the lines. */
  function SumLengths(lines: seq<string>): nat
  {
    if lines == [] then 0 else |lines[0]| + SumLengths(lines[1..])
  }

  /** `char_count`: every line's characters plus one separator between each two lines. */
  lemma {:induction false} JoinLength(lines: seq<string>)
    requires lines != []
    ensures |Join(lines)| == SumLengths(lines) + |lines| - 1
  {
    if |lines| > 1 {
      JoinLength(lines[1..]);
    }
  }

  /** `s.split("\n")`: the pieces between newlines, at least one. */
  function Split(s: string): (r: seq<string>)
    ensures |r| >= 1
    decreases |s|
  {
    if '\n' !in s then [s]
    else
      var i := FirstNewline(s);
      [s[..i]] + Split(s[i + 1..])
  }

  /** The position of the first newline of `s`. */
  function FirstNewline(s: string): (i: nat)
    requires '\n' in s
    ensures i < |s| && s[i] == '\n' && '\n' !in s[..i]
  {
    if s[0] == '\n' then 0
    else
      var i := FirstNewline(s[1..]) + 1;
      assert s[..i] == [s[0]] + s[1..][..i - 1];
      i
  }

  /** Splitting the joined text on newlines gives the lines back when no line holds a newline. */
  lemma {:induction false} SplitJoin(lines: seq<string>)
    requires lines != []
    requires forall k :: 0 <= k < |lines| ==> '\n' !in lines[k]
    ensures Split(Join(lines)) == lines
  {
    if |lines| > 1 {
      var rest := Join(lines[1..]);
      var s := lines[0] + "\n" + rest;
      assert s[|lines[0]|] == '\n' && s[..|lines[0]|] == lines[0];
      var i := FirstNewline(s);
      assert i == |lines[0]|;
      assert s[i + 1..] == rest;
      SplitJoin(lines[1..]);
    }
  }

  /** A line that keeps an interior newline does not survive the round trip. */
  lemma InteriorNewlineBreaksSplit()
    ensures Split(Join(["a\nb"])) == ["a", "b"] != ["a\nb"]
  {
    var s := "a\nb";
    assert Join(["a\nb"]) == s;
    assert s[1] == '\n';
    assert FirstNewline(s) == 1;
    assert s[..1] == "a" && s[2..] == "b";
    assert '\n' !in "b";
    assert Split("b") == ["b"];
    assert Split(s) == [s[..1]] + Split(s[2..]);
  }

  /** Position `k` starts a maximal run of word characters. */
  predicate StartsRun(lib: Library, s: string, k: nat)
    requires k < |s|
  {
    lib.isWord(s[k]) && (k == 0 || !lib.isWord(s[k - 1]))
  }

  /** The reference count of words: how many maximal runs of word characters `s` holds. */
  function WordRuns(lib: Library, s: string): nat
  {
    if s == [] then 0
    else WordRuns(lib, s[..|s| - 1]) + (if StartsRun(lib, s, |s| - 1) then 1 else 0)
  }

  /** The regex assertion `\b` at position `p`. */
  predicate Boundary(lib: Library, s: string, p: nat)
    requires p <= |s|
  {
    (p > 0 && lib.isWord(s[p - 1])) != (p < |s| && lib.isWord(s[p]))
  }

  /** Where the greedy `\w+` that starts at `p` stops. */
  function RunEnd(lib: Library, s: string, p: nat): (e: nat)
    requires p <= |s|
    ensures p <= e <= |s|
    ensures forall k :: p <= k < e ==> lib.isWord(s[k])
    ensures e < |s| ==> !lib.isWord(s[e])
    decreases |s| - p
  {
    if p < |s| && lib.isWord(s[p]) then RunEnd(lib, s, p + 1) else p
  }

  /** The number of matches `re.findall(r"\b\w+\b", s)` finds when it searches from `p` on. */
  function FindAllWords(lib: Library, s: string, p: nat): nat
    requires p <= |s|
    decreases |s| - p
  {
    if p == |s| then 0
    else if Boundary(lib, s, p) && lib.isWord(s[p]) then 1 + FindAllWords(lib, s, RunEnd(lib, s, p))
    else FindAllWords(lib, s, p + 1)
  }

  /** `word_count` of a text: `len(re.findall(r"\b\w+\b", s))`. */
  function WordCount(lib: Library, s: string): nat
  {
    FindAllWords(lib, s, 0)
  }

  /** Inside a run, one more character does not start a new one. */
  lemma {:induction false} RunsInsideRun(lib: Library, s: string, p: nat, q: nat)
    requires p < q <= |s|
    requires forall k :: p <= k < q ==> lib.isWord(s[k])
    ensures WordRuns(lib, s[..q]) == WordRuns(lib, s[..p + 1])
    decreases q - p
  {
    if q > p + 1 {
      RunsInsideRun(lib, s, p, q - 1);
      assert s[..q][..q - 1] == s[..q - 1];
      assert StartsRun(lib, s[..q], q - 1) == StartsRun(lib, s, q - 1);
    }
  }

  /** From a point outside any run, the regex search counts exactly the runs that start later. */
  lemma {:induction false} FindAllCountsRuns(lib: Library, s: string, p: nat)
    requires p <= |s|
    requires !(0 < p < |s| && lib.isWord(s[p - 1]) && lib.isWord(s[p]))
    ensures FindAllWords(lib, s, p) + WordRuns(lib, s[..p]) == WordRuns(lib, s)
    decreases |s| - p
  {
    if p == |s| {
      assert s[..p] == s;
    } else {
      assert s[..p + 1][..p] == s[..p];
      assert StartsRun(lib, s[..p + 1], p) == StartsRun(lib, s, p);
      if Boundary(lib, s, p) && lib.isWord(s[p]) {
        var e := RunEnd(lib, s, p);
        RunsInsideRun(lib, s, p, e);
        FindAllCountsRuns(lib, s, e);
      } else {
        FindAllCountsRuns(lib, s, p + 1);
      }
    }
  }

  /** `word_count` is the number of maximal runs of word characters. */
  lemma WordCountIsRuns(lib: Library, s: string)
    ensures WordCount(lib, s) == WordRuns(lib, s)
  {
    FindAllCountsRuns(lib, s, 0);
    assert s[..0] == [];
  }

  /** A separator that is not a word character adds no run and joins none. */
  lemma {:induction false} RunsAcrossSeparator(lib: Library, a: string, b: string)
    requires NewlineIsNotWord(lib)
    ensures WordRuns(lib, a + "\n" + b) == WordRuns(lib, a) + WordRuns(lib, b)
    decreases |b|
  {
    var s := a + "\n" + b;
    if b == [] {
      assert s[..|s| - 1] == a;
    } else {
      var b' := b[..|b| - 1];
      RunsAcrossSeparator(lib, a, b');
      assert s[..|s| - 1] == a + "\n" + b';
      assert s[|s| - 1] == b[|b| - 1];
      assert |b| > 1 ==> s[|s| - 2] == b[|b| - 2];
      assert |b| == 1 ==> s[|s| - 2] == '\n';
      assert StartsRun(lib, s, |s| - 1) == StartsRun(lib, b, |b| - 1);
    }
  }

  /** The sum of the word counts of the lines. */
  function SumWordCounts(lib: Library, lines: seq<string>): nat
  {
    if lines == [] then 0 else WordCount(lib, lines[0]) + SumWordCounts(lib, lines[1..])
  }

  /** Because a newline is not a word character, the word count of the joined text is the sum over the lines. */
  lemma {:induction false} JoinWordCount(lib: Library, lines: seq<string>)
    requires NewlineIsNotWord(lib)
    ensures WordCount(lib, Join(lines)) == SumWordCounts(lib, lines)
  {
    if lines == [] {
      assert Join(lines) == [];
    } else if |lines| == 1 {
      assert SumWordCounts(lib, lines[1..]) == 0;
    } else {
      JoinWordCount(lib, lines[1..]);
      RunsAcrossSeparator(lib, lines[0], Join(lines[1..]));
      WordCountIsRuns(lib, Join(lines));
      WordCountIsRuns(lib, lines[0]);
      WordCountIsRuns(lib, Join(lines[1..]));
    }
  }

  /** What main.py computes from the lines before writing them. */
  datatype Report = Report(lines: seq<string>, cleanText: string, charCount: nat, wordCount: nat)

  /** `clean_text`, `char_count` and `word_count` of main.py:48-51, with the lines for the JSON payload. */
  function BuildReport(lib: Library, lines: seq<string>): Report
  {
    var cleanText := Join(lines);
    Report(lines, cleanText, |cleanText|, WordCount(lib, cleanText))
  }
}
