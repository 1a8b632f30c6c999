/**
 * Decoding each fragment with error recovery and taking the messages out of it
 * (main.py:25-37): a fragment that `json.loads` rejects adds one diagnostic and
 * nothing else; one it accepts adds the unescaped string items of its `"parts"`
 * list, when that key holds a list, and nothing otherwise.
 */
module Extractor {
  import opened Wrappers
  import opened Runtime

  /** The fixed text that starts every diagnostic line ("JSON parse error: "). */
  const DiagnosticPrefix: string := "Ошибка парсинга JSON: "

  /** The diagnostic for one decode error, the f-string of main.py:37. */
  function Diagnostic(e: string): (d: string)
    ensures |d| == |DiagnosticPrefix| + |e|
    ensures d[..|DiagnosticPrefix|] == DiagnosticPrefix && d[|DiagnosticPrefix|..] == e
  {
    DiagnosticPrefix + e
  }

  /** The list comprehension of main.py:33: the string items, in list order, each unescaped. */
  function StringParts(parts: seq<Json>, unescape: string -> string): (r: seq<string>)
    ensures |r| <= |parts|
    ensures forall m :: m in r ==> exists k :: 0 <= k < |parts| && parts[k].JString? && m == unescape(parts[k].str)
    ensures forall k :: 0 <= k < |parts| && parts[k].JString? ==> unescape(parts[k].str) in r
  {
    if parts == [] then []
    else
      var rest := StringParts(parts[1..], unescape);
      assert forall k :: 1 <= k < |parts| ==> parts[k] == parts[1..][k - 1];
      (if parts[0].JString? then [unescape(parts[0].str)] else []) + rest
  }

  /** The messages of one decoded object; none unless its `"parts"` key holds a list. */
  function PartsMessages(data: JsonObject, unescape: string -> string): (r: seq<string>)
    ensures "parts" !in data || !data["parts"].JArray? ==> r == []
  {
    if "parts" in data && data["parts"].JArray? then StringParts(data["parts"].items, unescape) else []
  }

  /** What one fragment adds to `found_messages`: nothing when it fails to decode. */
  function FragmentMessages(lib: Library, fragment: string): (r: seq<string>)
    ensures lib.loads(fragment).Failure? ==> r == []
  {
    match lib.loads(fragment)
    case Success(data) => PartsMessages(data, lib.unescape)
    case Failure(_) => []
  }

  /** What one fragment adds to `error_logs`: one entry exactly when it fails to decode. */
  function FragmentErrors(lib: Library, fragment: string): (r: seq<string>)
    ensures |r| == (if lib.loads(fragment).Failure? then 1 else 0)
  {
    match lib.loads(fragment)
    case Success(_) => []
    case Failure(e) => [Diagnostic(e)]
  }

  /** `found_messages` after the loop has visited `fragments`. */
  function FoundMessages(lib: Library, fragments: seq<string>): seq<string>
  {
    if fragments == [] then []
    else FoundMessages(lib, fragments[..|fragments| - 1]) + FragmentMessages(lib, fragments[|fragments| - 1])
  }

  /** `error_logs` after the loop has visited `fragments`. */
  function ErrorLogs(lib: Library, fragments: seq<string>): seq<string>
  {
    if fragments == [] then []
    else ErrorLogs(lib, fragments[..|fragments| - 1]) + FragmentErrors(lib, fragments[|fragments| - 1])
  }

  /** The loop of main.py:28-37 over the fragment texts. */
  method DecodeFragments(lib: Library, fragments: seq<string>) returns (found: seq<string>, errors: seq<string>)
    ensures found == FoundMessages(lib, fragments)
    ensures errors == ErrorLogs(lib, fragments)
  {
    found, errors := [], [];
    for k := 0 to |fragments|
      invariant found == FoundMessages(lib, fragments[..k])
      invariant errors == ErrorLogs(lib, fragments[..k])
    {
      assert fragments[..k + 1][..k] == fragments[..k];
      match lib.loads(fragments[k]) {
        case Success(data) =>
          if "parts" in data && data["parts"].JArray? {
            var messages := StringParts(data["parts"].items, lib.unescape);
            found := found + messages;
          }
        case Failure(e) =>
          errors := errors + [Diagnostic(e)];
      }
    }
    assert fragments[..|fragments|] == fragments;
  }

  /** The comprehension keeps list order: it distributes over concatenation. */
  lemma {:induction false} StringPartsAppend(a: seq<Json>, b: seq<Json>, unescape: string -> string)
    ensures StringParts(a + b, unescape) == StringParts(a, unescape) + StringParts(b, unescape)
  {
    if a == [] {
      assert a + b == b;
    } else {
      assert (a + b)[0] == a[0];
      assert (a + b)[1..] == a[1..] + b;
      StringPartsAppend(a[1..], b, unescape);
    }
  }

  /** A list of strings only yields every item, unescaped, at its own position. */
  lemma {:induction false} StringPartsAllStrings(parts: seq<Json>, unescape: string -> string)
    requires forall k :: 0 <= k < |parts| ==> parts[k].JString?
    ensures |StringParts(parts, unescape)| == |parts|
    ensures forall k :: 0 <= k < |parts| ==> StringParts(parts, unescape)[k] == unescape(parts[k].str)
  {
    if parts != [] {
      StringPartsAllStrings(parts[1..], unescape);
    }
  }

  /** How many items of a `"parts"` list are strings. */
  function CountStrings(parts: seq<Json>): nat
  {
    if parts == [] then 0 else (if parts[0].JString? then 1 else 0) + CountStrings(parts[1..])
  }

  /** The comprehension keeps one message per string item, and no other. */
  lemma {:induction false} StringPartsLength(parts: seq<Json>, unescape: string -> string)
    ensures |StringParts(parts, unescape)| == CountStrings(parts)
  {
    if parts != [] {
      StringPartsLength(parts[1..], unescape);
    }
  }

  /**
   * The string item at position `k` of the list becomes, unescaped, the message
   * whose position is the number of string items before it: the messages are the
   * string items in list order, non-strings dropped.
   */
  lemma StringPartsAt(parts: seq<Json>, unescape: string -> string, k: nat)
    requires k < |parts| && parts[k].JString?
    ensures CountStrings(parts[..k]) < |StringParts(parts, unescape)|
    ensures StringParts(parts, unescape)[CountStrings(parts[..k])] == unescape(parts[k].str)
  {
    var before, after := parts[..k], parts[k + 1..];
    assert parts == before + ([parts[k]] + after);
    StringPartsAppend(before, [parts[k]] + after, unescape);
    StringPartsAppend([parts[k]], after, unescape);
    assert [parts[k]][1..] == [];
    StringPartsLength(before, unescape);
  }

  /** How many messages one fragment contributes: the string items of its `"parts"` list, if it decodes and has one. */
  function FragmentPartsCount(lib: Library, fragment: string): nat
  {
    match lib.loads(fragment)
    case Success(data) => if "parts" in data && data["parts"].JArray? then CountStrings(data["parts"].items) else 0
    case Failure(_) => 0
  }

  /** The total number of string items across the `"parts"` lists of the fragments that decode. */
  function TotalParts(lib: Library, fragments: seq<string>): nat
  {
    if fragments == [] then 0
    else TotalParts(lib, fragments[..|fragments| - 1]) + FragmentPartsCount(lib, fragments[|fragments| - 1])
  }

  /** There is one found message per string item of a `"parts"` list of a fragment that decodes. */
  lemma {:induction false} FoundMessagesCount(lib: Library, fragments: seq<string>)
    ensures |FoundMessages(lib, fragments)| == TotalParts(lib, fragments)
  {
    if fragments != [] {
      var last := fragments[|fragments| - 1];
      FoundMessagesCount(lib, fragments[..|fragments| - 1]);
      match lib.loads(last)
      case Success(data) =>
        if "parts" in data && data["parts"].JArray? {
          StringPartsLength(data["parts"].items, lib.unescape);
        }
      case Failure(_) =>
    }
  }

  /** The loop's two accumulators are the in-order concatenations of what each fragment adds. */
  lemma {:induction false} AccumulatorsAppend(lib: Library, a: seq<string>, b: seq<string>)
    ensures FoundMessages(lib, a + b) == FoundMessages(lib, a) + FoundMessages(lib, b)
    ensures ErrorLogs(lib, a + b) == ErrorLogs(lib, a) + ErrorLogs(lib, b)
    decreases |b|
  {
    if b == [] {
      assert a + b == a;
    } else {
      var b', last := b[..|b| - 1], b[|b| - 1];
      assert (a + b)[..|a + b| - 1] == a + b';
      assert (a + b)[|a + b| - 1] == last;
      AccumulatorsAppend(lib, a, b');
      assert FoundMessages(lib, a + b) == FoundMessages(lib, a + b') + FragmentMessages(lib, last);
      assert ErrorLogs(lib, a + b) == ErrorLogs(lib, a + b') + FragmentErrors(lib, last);
    }
  }

  /** The fragments that fail to decode. */
  ghost function Failing(lib: Library, fragments: seq<string>): set<nat>
  {
    set k | 0 <= k < |fragments| && lib.loads(fragments[k]).Failure?
  }

  /** One diagnostic per fragment that fails to decode, and no other. */
  lemma {:induction false} ErrorLogsCount(lib: Library, fragments: seq<string>)
    ensures |ErrorLogs(lib, fragments)| == |Failing(lib, fragments)|
  {
    if fragments != [] {
      var n := |fragments| - 1;
      var init := fragments[..n];
      ErrorLogsCount(lib, init);
      var all, before := Failing(lib, fragments), Failing(lib, init);
      forall k | k in all ensures k in before || k == n {
        if k < n {
          assert init[k] == fragments[k];
        }
      }
      forall k | k in before ensures k in all && k < n {
        assert init[k] == fragments[k];
      }
      if lib.loads(fragments[n]).Failure? {
        assert all == before + {n};
      } else {
        assert all == before;
      }
    }
  }

  /** The diagnostics are exactly the decode errors, in scan order. */
  lemma {:induction false} ErrorLogsAt(lib: Library, fragments: seq<string>, k: nat)
    requires k < |fragments| && lib.loads(fragments[k]).Failure?
    ensures |Failing(lib, fragments[..k])| < |ErrorLogs(lib, fragments)|
    ensures ErrorLogs(lib, fragments)[|Failing(lib, fragments[..k])|] == Diagnostic(lib.loads(fragments[k]).error)
  {
    var before, after := fragments[..k], fragments[k + 1..];
    assert fragments == before + [fragments[k]] + after;
    AccumulatorsAppend(lib, before + [fragments[k]], after);
    AccumulatorsAppend(lib, before, [fragments[k]]);
    assert [fragments[k]][..0] == [];
    ErrorLogsCount(lib, before);
  }

  /** There is a diagnostic exactly when some fragment fails to decode. */
  lemma ErrorLogsNonEmpty(lib: Library, fragments: seq<string>)
    ensures ErrorLogs(lib, fragments) != [] <==> exists k :: 0 <= k < |fragments| && lib.loads(fragments[k]).Failure?
  {
  }

  /** There is a message exactly when some fragment contributes one. */
  lemma {:induction false} FoundMessagesNonEmpty(lib: Library, fragments: seq<string>)
    ensures FoundMessages(lib, fragments) != [] <==> exists k :: 0 <= k < |fragments| && FragmentMessages(lib, fragments[k]) != []
  {
    if fragments != [] {
      var n := |fragments| - 1;
      var init := fragments[..n];
      FoundMessagesNonEmpty(lib, init);
      assert forall k :: 0 <= k < n ==> init[k] == fragments[k];
    }
  }
}
