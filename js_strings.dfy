/**
 The JavaScript string operations the error filter relies on, with their
 ECMAScript semantics: `indexOf(c, from)`, `lastIndexOf(c)` and
 `substring(start, end)` (which clamps its arguments into the string and swaps
 them when they are out of order). `startsWith(p)` is Dafny's prefix test `p <= s`.
 */
module JsString {

  /** `x` clamped into `[0, n]`, as the string methods clamp positions. */
  function Clamp(x: int, n: nat): (r: nat)
    ensures r <= n
    ensures 0 <= x <= n ==> r == x
  {
    if x < 0 then 0 else if x > n then n else x
  }

  /** `s.indexOf(c, from)`: the first position at or after `from` that holds `c`, or -1. */
  function IndexOf(s: string, c: char, from: int): (r: int)
    ensures r == -1 || (Clamp(from, |s|) <= r < |s| && s[r] == c)
    ensures forall i :: Clamp(from, |s|) <= i < |s| && (r == -1 || i < r) ==> s[i] != c
    decreases |s| - Clamp(from, |s|)
  {
    var i := Clamp(from, |s|);
    if i == |s| then -1
    else if s[i] == c then i
    else IndexOf(s, c, i + 1)
  }

  /** `s.lastIndexOf(c)`: the last position that holds `c`, or -1. */
  function LastIndexOf(s: string, c: char): (r: int)
    ensures -1 <= r < |s|
    ensures r != -1 ==> s[r] == c
    ensures forall i :: r < i < |s| ==> s[i] != c
  {
    if s == [] then -1
    else if s[|s| - 1] == c then |s| - 1
    else LastIndexOf(s[..|s| - 1], c)
  }

  /** `s.substring(start, end)`. */
  function Substring(s: string, start: int, end: int): string
  {
    var a, b := Clamp(start, |s|), Clamp(end, |s|);
    if a <= b then s[a..b] else s[b..a]
  }

  /** Within the string and in order, `substring` is plain slicing. */
  lemma SubstringSlice(s: string, start: int, end: int)
    requires 0 <= start <= end <= |s|
    ensures Substring(s, start, end) == s[start..end]
  {
  }

  /**
   With a negative end (an `indexOf` that found nothing) `substring` swaps its
   arguments and returns the prefix up to `start`.
   */
  lemma SubstringNegativeEnd(s: string, start: int, end: int)
    requires end < 0
    ensures Substring(s, start, end) == s[..Clamp(start, |s|)]
  {
  }
}
