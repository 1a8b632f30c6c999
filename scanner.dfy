/**
 * The fragment scanner: `re.finditer(r"\{.*?\}", text, re.DOTALL)` (main.py:23).
 * At each position the pattern matches when the character is `{`, and then the
 * lazy `.*?` stops at the first `}` after it, across line breaks. After a match
 * the search resumes just past its `}`; after a failed attempt, one position on.
 */
module Scanner {
  import opened Wrappers

  /** A match: the positions of its opening `{` and its closing `}`, both inclusive. */
  datatype Span = Span(open: nat, close: nat)

  /** The first position at or after `from` that holds `c`, or `|t|` when there is none. */
  function NextIndex(t: string, c: char, from: nat): (r: nat)
    requires from <= |t|
    ensures from <= r <= |t|
    ensures forall k :: from <= k < r ==> t[k] != c
    ensures r < |t| ==> t[r] == c
    decreases |t| - from
  {
    if from == |t| || t[from] == c then from else NextIndex(t, c, from + 1)
  }

  /** The pattern `\{.*?\}` tried at position `p`: the position of the `}` that ends the match. */
  function MatchAt(t: string, p: nat): (r: Option<nat>)
    requires p < |t|
    ensures r.Some? <==> t[p] == '{' && exists j :: p < j < |t| && t[j] == '}'
    ensures r.Some? ==> p < r.value < |t| && t[r.value] == '}'
    ensures r.Some? ==> forall k :: p < k < r.value ==> t[k] != '}'
  {
    if t[p] != '{' then None
    else
      var j := NextIndex(t, '}', p + 1);
      if j < |t| then Some(j) else None
  }

  /** A span that the pattern can match: `{` first, `}` last, and no `}` in between. */
  ghost predicate WellFormed(t: string, s: Span)
  {
    && s.open < s.close < |t|
    && t[s.open] == '{'
    && t[s.close] == '}'
    && forall k :: s.open < k < s.close ==> t[k] != '}'
  }

  /** `finditer` from position `p`: the matches in the order it yields them. */
  function Scan(t: string, p: nat): (r: seq<Span>)
    requires p <= |t|
    decreases |t| - p
  {
    if p == |t| then []
    else
      match MatchAt(t, p)
      case Some(j) => [Span(p, j)] + Scan(t, j + 1)
      case None => Scan(t, p + 1)
  }

  /** `match.group(0)`: the text of one match. */
  function FragmentText(t: string, s: Span): (f: string)
    requires WellFormed(t, s)
    ensures |f| == s.close - s.open + 1 >= 2
    ensures f[0] == '{' && f[|f| - 1] == '}'
    ensures forall k :: 0 <= k < |f| - 1 ==> f[k] != '}'
  {
    t[s.open..s.close + 1]
  }

  /** The texts of all matches, in scan order. */
  function FragmentTexts(t: string, spans: seq<Span>): seq<string>
    requires forall k :: 0 <= k < |spans| ==> WellFormed(t, spans[k])
  {
    seq(|spans|, k requires 0 <= k < |spans| => FragmentText(t, spans[k]))
  }

  /** The index loop that looks for the next `c` at or after `from`. */
  method Seek(text: string, c: char, from: nat) returns (r: nat)
    requires from <= |text|
    ensures r == NextIndex(text, c, from)
  {
    r := from;
    while r < |text| && text[r] != c
      invariant from <= r <= |text|
      invariant NextIndex(text, c, r) == NextIndex(text, c, from)
    {
      r := r + 1;
    }
  }

  /** The scan as a left-to-right index loop: jump to the next `{`, then to the next `}`. */
  method ScanFragments(text: string) returns (spans: seq<Span>)
    ensures spans == Scan(text, 0)
  {
    spans := [];
    var p := 0;
    while p < |text|
      invariant p <= |text|
      invariant spans + Scan(text, p) == Scan(text, 0)
      decreases |text| - p
    {
      var i := Seek(text, '{', p);
      ScanToOpen(text, p, i);
      if i == |text| {
        p := i;
        break;
      }
      var j := Seek(text, '}', i + 1);
      if j == |text| {
        ScanAtUnclosed(text, i);
        p := |text|;
        break;
      }
      ScanAtOpen(text, i, j);
      assert spans + ([Span(i, j)] + Scan(text, j + 1)) == (spans + [Span(i, j)]) + Scan(text, j + 1);
      spans, p := spans + [Span(i, j)], j + 1;
    }
    assert Scan(text, p) == [];
  }

  /** At a `{` with no `}` after it, the scan ends. */
  lemma ScanAtUnclosed(t: string, i: nat)
    requires i < |t| && t[i] == '{' && NextIndex(t, '}', i + 1) == |t|
    ensures Scan(t, i) == []
  {
    NoCloseScansNothing(t, i);
  }

  /** At a `{`, the scan yields the match up to the next `}` and goes on past it. */
  lemma ScanAtOpen(t: string, i: nat, j: nat)
    requires i < |t| && t[i] == '{' && j == NextIndex(t, '}', i + 1) < |t|
    ensures Scan(t, i) == [Span(i, j)] + Scan(t, j + 1)
  {
    ScanAtMatch(t, Span(i, j));
  }

  /** Positions before the next `{` are skipped. */
  lemma ScanToOpen(t: string, p: nat, i: nat)
    requires p <= |t| && i == NextIndex(t, '{', p)
    ensures Scan(t, p) == Scan(t, i)
  {
    SkipGap(t, p, i);
  }

  /** At the opening brace of a minimal match, the scan yields that match and goes on past it. */
  lemma ScanAtMatch(t: string, s: Span)
    requires WellFormed(t, s)
    ensures Scan(t, s.open) == [s] + Scan(t, s.close + 1)
  {
  }

  /** Every match lies at or after where the scan starts and is a minimal `{`...`}` match. */
  lemma {:induction false} ScanWellFormed(t: string, p: nat)
    requires p <= |t|
    ensures forall k :: 0 <= k < |Scan(t, p)| ==> p <= Scan(t, p)[k].open && WellFormed(t, Scan(t, p)[k])
    decreases |t| - p
  {
    if p < |t| {
      match MatchAt(t, p)
      case None =>
        ScanWellFormed(t, p + 1);
      case Some(j) =>
        ScanWellFormed(t, j + 1);
        assert Scan(t, p) == [Span(p, j)] + Scan(t, j + 1);
    }
  }

  /** The matches come in strictly increasing position order and do not overlap. */
  lemma {:induction false} ScanOrdered(t: string, p: nat)
    requires p <= |t|
    ensures forall k, l :: 0 <= k < l < |Scan(t, p)| ==> Scan(t, p)[k].close < Scan(t, p)[l].open
    decreases |t| - p
  {
    if p < |t| {
      match MatchAt(t, p)
      case None =>
        ScanOrdered(t, p + 1);
      case Some(j) =>
        ScanOrdered(t, j + 1);
        ScanWellFormed(t, j + 1);
        var r := Scan(t, j + 1);
        assert Scan(t, p) == [Span(p, j)] + r;
        assert forall l :: 0 <= l < |r| ==> j < r[l].open;
    }
  }

  /** With no `}` from `p` on, nothing more is matched. */
  lemma {:induction false} NoCloseScansNothing(t: string, p: nat)
    requires p <= |t|
    requires forall k :: p <= k < |t| ==> t[k] != '}'
    ensures Scan(t, p) == []
    decreases |t| - p
  {
    if p < |t| {
      NoCloseScansNothing(t, p + 1);
    }
  }

  /** Some `{` at or after `p` is followed, later, by a `}`. */
  ghost predicate HasPairFrom(t: string, p: nat)
  {
    exists i, j :: p <= i < j < |t| && t[i] == '{' && t[j] == '}'
  }

  /** Where the search for the `k`-th match of a scan that starts at `p` begins. */
  function ResumeAt(p: nat, spans: seq<Span>, k: nat): nat
    requires k <= |spans|
  {
    if k == 0 then p else spans[k - 1].close + 1
  }

  /** `s` is the first match found when the search starts at `from`. */
  ghost predicate Locates(t: string, from: nat, s: Span)
  {
    && WellFormed(t, s)
    && from <= s.open
    && forall q :: from <= q < s.open ==> t[q] != '{'
  }

  /**
   * An independent description of a leftmost, shortest, non-overlapping scan from `p`:
   * every span is a minimal `{`...`}` match, no `{` is skipped between the point where
   * the search resumes and the next span, and after the last span no `{` is followed by a `}`.
   */
  ghost predicate IsLeftmostScan(t: string, p: nat, spans: seq<Span>)
  {
    && (forall k :: 0 <= k < |spans| ==> LocatesAt(t, p, spans, k))
    && !HasPairFrom(t, ResumeAt(p, spans, |spans|))
  }

  /** The `k`-th span is the match found where the scan from `p` resumes after the `k - 1`-th. */
  ghost predicate LocatesAt(t: string, p: nat, spans: seq<Span>, k: nat)
    requires k < |spans|
  {
    Locates(t, ResumeAt(p, spans, k), spans[k])
  }

  /** A first match followed by a leftmost scan from just past it is a leftmost scan. */
  lemma LeftmostCons(t: string, p: nat, s: Span, rest: seq<Span>)
    requires Locates(t, p, s) && IsLeftmostScan(t, s.close + 1, rest)
    ensures IsLeftmostScan(t, p, [s] + rest)
  {
    var spans := [s] + rest;
    forall k | 0 <= k < |spans| ensures LocatesAt(t, p, spans, k) {
      if k > 0 {
        assert LocatesAt(t, s.close + 1, rest, k - 1);
        assert spans[k] == rest[k - 1];
        assert ResumeAt(p, spans, k) == ResumeAt(s.close + 1, rest, k - 1);
      }
    }
    assert ResumeAt(p, spans, |spans|) == ResumeAt(s.close + 1, rest, |rest|);
  }

  /** The matches after the first match of a leftmost scan are a leftmost scan from just past it. */
  lemma LeftmostTail(t: string, p: nat, spans: seq<Span>)
    requires IsLeftmostScan(t, p, spans) && spans != []
    ensures Locates(t, p, spans[0]) && IsLeftmostScan(t, spans[0].close + 1, spans[1..])
  {
    var q, rest := spans[0].close + 1, spans[1..];
    assert LocatesAt(t, p, spans, 0);
    forall k | 0 <= k < |rest| ensures LocatesAt(t, q, rest, k) {
      assert LocatesAt(t, p, spans, k + 1);
      assert ResumeAt(p, spans, k + 1) == ResumeAt(q, rest, k);
    }
    assert ResumeAt(p, spans, |spans|) == ResumeAt(q, rest, |rest|);
  }

  /** `Scan` is a leftmost, shortest, non-overlapping scan. */
  lemma {:induction false} ScanIsLeftmost(t: string, p: nat)
    requires p <= |t|
    ensures IsLeftmostScan(t, p, Scan(t, p))
    decreases |t| - p
  {
    if p == |t| {
      return;
    }
    match MatchAt(t, p)
    case None =>
      ScanIsLeftmost(t, p + 1);
      SkipFailedAttempt(t, p, Scan(t, p + 1));
    case Some(j) =>
      ScanIsLeftmost(t, j + 1);
      LeftmostCons(t, p, Span(p, j), Scan(t, j + 1));
  }

  /** A failed attempt at `p` can be prepended to a leftmost scan from `p + 1`. */
  lemma SkipFailedAttempt(t: string, p: nat, r: seq<Span>)
    requires p < |t| && MatchAt(t, p).None?
    requires IsLeftmostScan(t, p + 1, r)
    ensures IsLeftmostScan(t, p, r)
  {
    if r == [] {
      PairAfterFailedAttempt(t, p);
    } else {
      assert LocatesAt(t, p + 1, r, 0);
      assert t[p] != '{' by {
        assert t[r[0].close] == '}' && p < r[0].close < |t|;
      }
      forall k | 0 <= k < |r| ensures LocatesAt(t, p, r, k) {
        assert LocatesAt(t, p + 1, r, k);
      }
      assert ResumeAt(p, r, |r|) == ResumeAt(p + 1, r, |r|);
    }
  }

  /** Where no fragment starts at `p`, any `{` followed by a `}` from `p` on lies after `p`. */
  lemma PairAfterFailedAttempt(t: string, p: nat)
    requires p < |t| && MatchAt(t, p).None?
    ensures HasPairFrom(t, p) ==> HasPairFrom(t, p + 1)
  {
  }

  /** Skipping positions that hold no `{` does not change the scan. */
  lemma {:induction false} SkipGap(t: string, p: nat, q: nat)
    requires p <= q <= |t|
    requires forall k :: p <= k < q ==> t[k] != '{'
    ensures Scan(t, p) == Scan(t, q)
    decreases q - p
  {
    if p < q {
      SkipGap(t, p + 1, q);
    }
  }

  /** With no `{` followed by a `}` from `p` on, nothing more is matched. */
  lemma {:induction false} NoPairScansNothing(t: string, p: nat)
    requires p <= |t|
    requires !HasPairFrom(t, p)
    ensures Scan(t, p) == []
    decreases |t| - p
  {
    if p < |t| {
      NoPairScansNothing(t, p + 1);
    }
  }

  /** The leftmost, shortest, non-overlapping scan is unique: it is `Scan`. */
  lemma {:induction false} ScanUnique(t: string, p: nat, spans: seq<Span>)
    requires p <= |t|
    requires IsLeftmostScan(t, p, spans)
    ensures spans == Scan(t, p)
    decreases |t| - p
  {
    if spans == [] {
      NoPairScansNothing(t, p);
    } else {
      var s, rest := spans[0], spans[1..];
      assert spans == [s] + rest;
      LeftmostTail(t, p, spans);
      SkipGap(t, p, s.open);
      ScanAtMatch(t, s);
      ScanUnique(t, s.close + 1, rest);
    }
  }

  /**
   * The shortest match is not aware of nesting: in `{"parts":[{}]}` the match that
   * starts at the outer `{` stops at the inner `}`, so the one fragment found is cut
   * short, and the outer `}` is left over.
   */
  lemma NestedObjectCutShort()
    ensures var t := "{\"parts\":[{}]}";
      && Scan(t, 0) == [Span(0, 11)]
      && FragmentText(t, Span(0, 11)) == "{\"parts\":[{}"
  {
    var t := "{\"parts\":[{}]}";
    assert WellFormed(t, Span(0, 11));
    ScanAtMatch(t, Span(0, 11));
    assert t[12] == ']' && t[13] == '}';
    NoPairScansNothing(t, 12);
  }

  /** The scan yields nothing exactly when no `{` is followed, later, by a `}`. */
  lemma ScanEmptyIff(t: string)
    ensures Scan(t, 0) == [] <==> !HasPairFrom(t, 0)
  {
    ScanIsLeftmost(t, 0);
    if !HasPairFrom(t, 0) {
      NoPairScansNothing(t, 0);
    }
  }
}
