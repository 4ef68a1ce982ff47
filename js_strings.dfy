/** The JavaScript string methods the server relies on: `replace` with a string pattern
    (through `indexOf`) and `endsWith`. */
module JsStrings {
  import opened Base

  /** `pattern` occurs in `s` starting at index `i`. */
  predicate OccursAt(s: string, pattern: string, i: nat)
  {
    i + |pattern| <= |s| && s[i..i + |pattern|] == pattern
  }

  /** `i` is the leftmost index at which `pattern` occurs in `s`. */
  ghost predicate IsFirstOccurrence(s: string, pattern: string, i: nat)
  {
    OccursAt(s, pattern, i) && forall j: nat :: j < i ==> !OccursAt(s, pattern, j)
  }

  /** `s.indexOf(pattern, from)`, with `None` for JavaScript's -1. The two agree whenever
      `from <= |s|` or the pattern is non-empty: for an empty pattern and a larger `from`,
      JavaScript clamps `from` to `|s|` and answers `|s|`. `replace` searches from 0. */
  function IndexOf(s: string, pattern: string, from: nat): (r: Option<nat>)
    decreases |s| - from
    ensures r.Some? ==> from <= r.value && OccursAt(s, pattern, r.value)
    ensures r.Some? ==> forall j: nat :: from <= j < r.value ==> !OccursAt(s, pattern, j)
    ensures r.None? ==> forall j: nat :: from <= j ==> !OccursAt(s, pattern, j)
  {
    if |s| < from + |pattern| then None
    else if s[from..from + |pattern|] == pattern then Some(from)
    else IndexOf(s, pattern, from + 1)
  }

  /** `s.replace(pattern, replacement)` with a string pattern: only the leftmost occurrence
      is replaced, and a string without one is returned as it is. The replacement is
      inserted literally (the server's replacement holds no `$` substitution pattern). */
  function ReplaceFirst(s: string, pattern: string, replacement: string): (r: string)
    ensures (forall j: nat :: !OccursAt(s, pattern, j)) ==> r == s
    ensures forall i: nat :: IsFirstOccurrence(s, pattern, i) ==>
              r == s[..i] + replacement + s[i + |pattern|..]
  {
    match IndexOf(s, pattern, 0)
    case None => s
    case Some(i) => s[..i] + replacement + s[i + |pattern|..]
  }

  /** Whenever the pattern occurs at all, there is a leftmost occurrence, so one of the
      two cases of ReplaceFirst's contract always applies. */
  lemma FirstOccurrenceExists(s: string, pattern: string, i: nat)
    requires OccursAt(s, pattern, i)
    ensures exists k: nat :: k <= i && IsFirstOccurrence(s, pattern, k)
  {
    var r := IndexOf(s, pattern, 0);
    assert r.Some? && IsFirstOccurrence(s, pattern, r.value);
  }

  /** `s.endsWith(suffix)`. */
  predicate EndsWith(s: string, suffix: string)
    ensures EndsWith(s, suffix) <==> exists front: string :: s == front + suffix
  {
    |suffix| <= |s| &&
    assert s == s[..|s| - |suffix|] + s[|s| - |suffix|..];
    s[|s| - |suffix|..] == suffix
  }
}
