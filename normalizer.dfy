/**
 * The per-message normalisation of main.py:42-45: drop every character outside
 * the allowed class, strip whitespace at both ends, and upper-case the first
 * character of what is left.
 */
module Normalizer {
  import opened Runtime

  /** The literal punctuation of the character class in main.py:42 (en dash and em dash included). */
  const Punctuation: set<char> := {'.', ',', '!', '?', '(', ')', '"', '\'', ':', ';', '%', '–', '—', '-'}

  /** Membership in `[\w\s.,!?()\"':;%–—\-\n]`. */
  predicate Allowed(lib: Library, c: char)
  {
    lib.isWord(c) || lib.isSpace(c) || c in Punctuation || c == '\n'
  }

  /** `re.sub(r"[^...]", "", msg)`: the allowed characters of `s`, in order. */
  function Filter(lib: Library, s: string): string
  {
    if s == [] then [] else (if Allowed(lib, s[0]) then [s[0]] else []) + Filter(lib, s[1..])
  }

  /** Filtering keeps exactly the allowed characters: every character left is allowed, and every allowed one is left. */
  lemma {:induction false} FilterSpec(lib: Library, s: string)
    ensures |Filter(lib, s)| <= |s|
    ensures forall k :: 0 <= k < |Filter(lib, s)| ==> Allowed(lib, Filter(lib, s)[k])
    ensures forall c :: c in Filter(lib, s) <==> c in s && Allowed(lib, c)
  {
    if s != [] {
      FilterSpec(lib, s[1..]);
      assert s == [s[0]] + s[1..];
    }
  }

  /** Filtering keeps the order of the characters: it distributes over concatenation. */
  lemma {:induction false} FilterAppend(lib: Library, a: string, b: string)
    ensures Filter(lib, a + b) == Filter(lib, a) + Filter(lib, b)
  {
    if a == [] {
      assert a + b == b;
    } else {
      assert (a + b)[0] == a[0] && (a + b)[1..] == a[1..] + b;
      FilterAppend(lib, a[1..], b);
    }
  }

  /** `str.lstrip()`: drop leading whitespace. */
  function LStrip(lib: Library, s: string): string
  {
    if s != [] && lib.isSpace(s[0]) then LStrip(lib, s[1..]) else s
  }

  /** Left stripping leaves a suffix that starts with no whitespace, after dropping whitespace only. */
  lemma {:induction false} LStripSpec(lib: Library, s: string)
    ensures var r := LStrip(lib, s);
      && |r| <= |s| && r == s[|s| - |r|..]
      && (forall k :: 0 <= k < |s| - |r| ==> lib.isSpace(s[k]))
      && (r != [] ==> !lib.isSpace(r[0]))
  {
    if s != [] && lib.isSpace(s[0]) {
      LStripSpec(lib, s[1..]);
    }
  }

  /** `str.rstrip()`: drop trailing whitespace. */
  function RStrip(lib: Library, s: string): string
  {
    if s != [] && lib.isSpace(s[|s| - 1]) then RStrip(lib, s[..|s| - 1]) else s
  }

  /** Right stripping leaves a prefix that ends with no whitespace, after dropping whitespace only. */
  lemma {:induction false} RStripSpec(lib: Library, s: string)
    ensures var r := RStrip(lib, s);
      && |r| <= |s| && r == s[..|r|]
      && (forall k :: |r| <= k < |s| ==> lib.isSpace(s[k]))
      && (r != [] ==> !lib.isSpace(r[|r| - 1]))
  {
    if s != [] && lib.isSpace(s[|s| - 1]) {
      RStripSpec(lib, s[..|s| - 1]);
    }
  }

  /** `str.strip()`. */
  function Strip(lib: Library, s: string): string
  {
    RStrip(lib, LStrip(lib, s))
  }

  /** Stripping leaves the infix of `s` between leading and trailing whitespace, with no whitespace at either end. */
  lemma StripSpec(lib: Library, s: string)
    ensures var r, a := Strip(lib, s), |s| - |LStrip(lib, s)|;
      && 0 <= a && a + |r| <= |s| && r == s[a..a + |r|]
      && (forall k :: 0 <= k < a ==> lib.isSpace(s[k]))
      && (forall k :: a + |r| <= k < |s| ==> lib.isSpace(s[k]))
      && (r != [] ==> !lib.isSpace(r[0]) && !lib.isSpace(r[|r| - 1]))
  {
    var l := LStrip(lib, s);
    LStripSpec(lib, s);
    RStripSpec(lib, l);
    var r, a := Strip(lib, s), |s| - |l|;
    assert r == l[..|r|];
    forall k | a + |r| <= k < |s| ensures lib.isSpace(s[k]) {
      assert s[k] == l[k - a];
    }
    if r != [] {
      assert r[0] == l[0];
    }
  }

  /** `line[0].upper() + line[1:]` when the line is non-empty. */
  function Capitalize(lib: Library, s: string): string
  {
    if s == [] then [] else lib.upper(s[0]) + s[1..]
  }

  /** What is left of a message before its first character is upper-cased. */
  function Core(lib: Library, msg: string): string
  {
    Strip(lib, Filter(lib, msg))
  }

  /** One message turned into one output line. */
  function Normalize(lib: Library, msg: string): string
  {
    Capitalize(lib, Core(lib, msg))
  }

  /** The loop of main.py:40-46: one line per message, in order, empty lines kept. */
  method NormalizeAll(lib: Library, messages: seq<string>) returns (lines: seq<string>)
    ensures |lines| == |messages|
    ensures forall k :: 0 <= k < |messages| ==> lines[k] == Normalize(lib, messages[k])
  {
    lines := [];
    for k := 0 to |messages|
      invariant |lines| == k
      invariant forall l :: 0 <= l < k ==> lines[l] == Normalize(lib, messages[l])
    {
      lines := lines + [Normalize(lib, messages[k])];
    }
  }

  /** The core of a message holds only allowed characters and has no whitespace at either end. */
  lemma CoreShape(lib: Library, msg: string)
    ensures var core := Core(lib, msg);
      && (forall k :: 0 <= k < |core| ==> Allowed(lib, core[k]))
      && (core != [] ==> !lib.isSpace(core[0]) && !lib.isSpace(core[|core| - 1]))
  {
    var f := Filter(lib, msg);
    FilterSpec(lib, msg);
    StripSpec(lib, f);
    var core := Core(lib, msg);
    var a := |f| - |LStrip(lib, f)|;
    forall k | 0 <= k < |core| ensures Allowed(lib, core[k]) {
      assert core[k] == f[a + k];
    }
  }

  /**
   * The shape of a normalised line: empty exactly when the core is; otherwise the
   * upper case of the core's first character followed by the rest of the core, so
   * every character after the upper-cased prefix is allowed, and the last one,
   * when the core has more than one, is not whitespace.
   */
  lemma NormalizeShape(lib: Library, msg: string)
    ensures var core, line := Core(lib, msg), Normalize(lib, msg);
      && (line == [] <==> core == [])
      && (core != [] ==> line == lib.upper(core[0]) + core[1..])
      && (core != [] ==> forall k :: |lib.upper(core[0])| <= k < |line| ==> Allowed(lib, line[k]))
      && (|core| > 1 ==> !lib.isSpace(line[|line| - 1]))
  {
    CoreShape(lib, msg);
    var core, line := Core(lib, msg), Normalize(lib, msg);
    if core != [] {
      var u := lib.upper(core[0]);
      assert forall k :: |u| <= k < |line| ==> line[k] == core[k - |u| + 1];
    }
  }

  /** Filtering leaves only whitespace exactly when every character was whitespace or disallowed. */
  lemma FilterOnlySpaces(lib: Library, s: string)
    ensures (forall k :: 0 <= k < |Filter(lib, s)| ==> lib.isSpace(Filter(lib, s)[k]))
        <==> (forall k :: 0 <= k < |s| ==> !Allowed(lib, s[k]) || lib.isSpace(s[k]))
  {
    FilterSpec(lib, s);
    var f := Filter(lib, s);
    if forall k :: 0 <= k < |f| ==> lib.isSpace(f[k]) {
      forall k | 0 <= k < |s| && Allowed(lib, s[k]) ensures lib.isSpace(s[k]) {
        assert s[k] in f;
        var j :| 0 <= j < |f| && f[j] == s[k];
      }
    }
    if forall k :: 0 <= k < |s| ==> !Allowed(lib, s[k]) || lib.isSpace(s[k]) {
      forall k | 0 <= k < |f| ensures lib.isSpace(f[k]) {
        assert f[k] in f;
        var j :| 0 <= j < |s| && s[j] == f[k];
      }
    }
  }

  /** Stripping leaves nothing exactly when the text is all whitespace. */
  lemma StripEmpty(lib: Library, s: string)
    ensures Strip(lib, s) == [] <==> forall k :: 0 <= k < |s| ==> lib.isSpace(s[k])
  {
    StripSpec(lib, s);
    var r := Strip(lib, s);
    var a := |s| - |LStrip(lib, s)|;
    if r != [] {
      assert !lib.isSpace(s[a]);
    }
  }

  /**
   * A message normalises to the empty line exactly when it consists of whitespace
   * and disallowed characters only; that empty line is still one of the output lines.
   */
  lemma NormalizeEmptyIff(lib: Library, msg: string)
    ensures Normalize(lib, msg) == [] <==> forall k :: 0 <= k < |msg| ==> !Allowed(lib, msg[k]) || lib.isSpace(msg[k])
  {
    FilterOnlySpaces(lib, msg);
    StripEmpty(lib, Filter(lib, msg));
    var core := Core(lib, msg);
    if core != [] {
      assert Normalize(lib, msg) == lib.upper(core[0]) + core[1..];
    }
  }

  /**
   * A worked example: once `&amp;` has been unescaped, the `&` is not an allowed
   * character and is dropped, leaving the two spaces around it.
   */
  lemma NormalizeAmpersandExample(lib: Library)
    requires lib.isWord('h') && lib.isWord('e') && lib.isWord('l') && lib.isWord('o')
    requires lib.isWord('w') && lib.isWord('r') && lib.isWord('d')
    requires !lib.isSpace('h') && !lib.isSpace('d')
    requires lib.isSpace(' ') && !lib.isWord('&') && !lib.isSpace('&')
    requires lib.upper('h') == "H"
    ensures Normalize(lib, "hello & world") == "Hello  world"
  {
    var a, b, f := "hello ", " world", "hello  world";
    assert Filter(lib, "&") == [] by {
      assert !('&' in Punctuation);
    }
    assert Filter(lib, "&" + b) == b by {
      FilterAppend(lib, "&", b);
      FilterKeepsAllowed(lib, b);
    }
    assert Filter(lib, "hello & world") == f by {
      assert "hello & world" == a + ("&" + b);
      FilterAppend(lib, a, "&" + b);
      FilterKeepsAllowed(lib, a);
      assert a + b == f;
    }
    StripKeepsTrimmed(lib, f);
    assert Core(lib, "hello & world") == f;
    assert "H" + f[1..] == "Hello  world";
  }

  /** Filtering text that holds only allowed characters leaves it unchanged. */
  lemma {:induction false} FilterKeepsAllowed(lib: Library, s: string)
    requires forall k :: 0 <= k < |s| ==> Allowed(lib, s[k])
    ensures Filter(lib, s) == s
  {
    if s != [] {
      assert forall k :: 1 <= k < |s| ==> s[k] == s[1..][k - 1];
      FilterKeepsAllowed(lib, s[1..]);
    }
  }

  /** Stripping text with no whitespace at either end leaves it unchanged. */
  lemma StripKeepsTrimmed(lib: Library, s: string)
    requires s != [] ==> !lib.isSpace(s[0]) && !lib.isSpace(s[|s| - 1])
    ensures Strip(lib, s) == s
  {
  }

  /** Upper-casing sends each allowed, non-space character to a single allowed, non-space character that is its own upper case. */
  ghost predicate UpperStable(lib: Library)
  {
    forall c :: Allowed(lib, c) && !lib.isSpace(c) ==>
      && |lib.upper(c)| == 1
      && Allowed(lib, lib.upper(c)[0])
      && !lib.isSpace(lib.upper(c)[0])
      && lib.upper(lib.upper(c)[0]) == lib.upper(c)
  }

  /** A line of allowed characters, trimmed, whose first character is its own upper case, normalises to itself. */
  lemma NormalizedIsFixpoint(lib: Library, line: string)
    requires forall k :: 0 <= k < |line| ==> Allowed(lib, line[k])
    requires line != [] ==> !lib.isSpace(line[0]) && !lib.isSpace(line[|line| - 1])
    requires line != [] ==> lib.upper(line[0]) == [line[0]]
    ensures Normalize(lib, line) == line
  {
    FilterKeepsAllowed(lib, line);
    StripKeepsTrimmed(lib, line);
    assert Core(lib, line) == line;
    if line != [] {
      assert [line[0]] + line[1..] == line;
    }
  }

  /** Under a stable upper case, capitalising a trimmed text of allowed characters gives such a line. */
  lemma CapitalizeStable(lib: Library, core: string)
    requires UpperStable(lib)
    requires forall k :: 0 <= k < |core| ==> Allowed(lib, core[k])
    requires core != [] ==> !lib.isSpace(core[0]) && !lib.isSpace(core[|core| - 1])
    ensures var line := Capitalize(lib, core);
      && (forall k :: 0 <= k < |line| ==> Allowed(lib, line[k]))
      && (line != [] ==> !lib.isSpace(line[0]) && !lib.isSpace(line[|line| - 1]))
      && (line != [] ==> lib.upper(line[0]) == [line[0]])
  {
  }

  /** When upper-casing is stable in that sense, normalising a normalised line changes nothing. */
  lemma NormalizeIdempotent(lib: Library, msg: string)
    requires UpperStable(lib)
    ensures Normalize(lib, Normalize(lib, msg)) == Normalize(lib, msg)
  {
    CoreShape(lib, msg);
    CapitalizeStable(lib, Core(lib, msg));
    NormalizedIsFixpoint(lib, Normalize(lib, msg));
  }
}
