/**
 * The pieces of the Python runtime that main.py calls but that are not part of
 * this model: strict JSON decoding (`json.loads`), HTML entity unescaping
 * (`html.unescape`), the Unicode classes behind the regex escapes `\w` and `\s`
 * (and `str.strip`), and `str.upper` on one character. They are given to the
 * pipeline as a record of functions, so every result proved here holds for any
 * behaviour of them, unless a lemma says which facts about them it needs.
 */
module Runtime {
  import opened Wrappers

  /** A decoded JSON value. Numbers are kept as their literal text. */
  datatype Json =
    | JNull
    | JBool(b: bool)
    | JNumber(literal: string)
    | JString(str: string)
    | JArray(items: seq<Json>)
    | JObject(fields: map<string, Json>)

  /** A decoded JSON object: what `json.loads` yields for a text that starts with `{`. */
  type JsonObject = map<string, Json>

  /** `str.upper` never returns the empty string, but may return several characters. */
  type NonEmptyString = s: string | |s| > 0 witness "A"

  datatype Library = Library(
    /** `json.loads` on a fragment: the object, or the text of the JSONDecodeError. */
    loads: string -> Result<JsonObject, string>,
    /** `html.unescape`. */
    unescape: string -> string,
    /** Membership in the regex class `\w`. */
    isWord: char -> bool,
    /** Membership in the regex class `\s`, which is also what `str.strip()` removes. */
    isSpace: char -> bool,
    /** `c.upper()` for a one-character string `c`. */
    upper: char -> NonEmptyString)

  /** What Python's `\w` guarantees of the newline: it is not a word character. */
  predicate NewlineIsNotWord(lib: Library)
  {
    !lib.isWord('\n')
  }
}
