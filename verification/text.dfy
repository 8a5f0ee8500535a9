/** String helpers standing for the Python `str` operations the source uses:
    `lower()`, `startswith`, `endswith`, `in`, and `re.match` with a pattern of
    the shape `^[class]{lo,hi}$`. */
module Text {

  /** ASCII lowercase of one character (Python's `str.lower` on ASCII). */
  function LowerChar(c: char): char {
    if 'A' <= c <= 'Z' then (c as int + 32) as char else c
  }

  predicate IsUpperAscii(c: char) {
    'A' <= c <= 'Z'
  }

  /** `s.lower()`, restricted to ASCII letters. */
  function Lower(s: string): (r: string)
    ensures |r| == |s|
    ensures forall i :: 0 <= i < |s| ==> r[i] == LowerChar(s[i])
  {
    seq(|s|, i requires 0 <= i < |s| => LowerChar(s[i]))
  }

  /** A lowered string holds no upper-case ASCII letter. */
  lemma LowerHasNoUpper(s: string)
    ensures forall i :: 0 <= i < |Lower(s)| ==> !IsUpperAscii(Lower(s)[i])
  {
  }

  /** `prefix` is a prefix of `s` (Python's `s.startswith(prefix)`). */
  predicate StartsWith(s: string, prefix: string) {
    |prefix| <= |s| && s[..|prefix|] == prefix
  }

  /** Python's `s.endswith(suffix)`. */
  predicate EndsWith(s: string, suffix: string) {
    |suffix| <= |s| && s[|s| - |suffix|..] == suffix
  }

  /** Python's `c in s` for a one-character string `c`. */
  predicate Contains(s: string, c: char) {
    exists i :: 0 <= i < |s| && s[i] == c
  }

  /** Python's `"y" in answer.lower()`: the answer contains `y` or `Y`. */
  predicate SaysYes(answer: string) {
    Contains(Lower(answer), 'y')
  }

  /** Python's `"n" in answer.lower()`. */
  predicate SaysNo(answer: string) {
    Contains(Lower(answer), 'n')
  }

  /** The whole of `s` is `lo` to `hi` characters, each in the class `cls`. */
  predicate Repeats(s: string, cls: char -> bool, lo: nat, hi: nat) {
    && lo <= |s| <= hi
    && forall i :: 0 <= i < |s| ==> cls(s[i])
  }

  /** `re.match("^[cls]{lo,hi}$", s)` is truthy. Python's `$` also matches
      just before a final newline, so a string that ends in one newline
      matches when the rest does. */
  predicate PyAnchoredMatch(s: string, cls: char -> bool, lo: nat, hi: nat) {
    || Repeats(s, cls, lo, hi)
    || (|s| > 0 && s[|s| - 1] == '\n' && Repeats(s[..|s| - 1], cls, lo, hi))
  }

  /** A line as `input()` returns it: the terminating newline is stripped. */
  predicate IsLine(s: string) {
    !Contains(s, '\n')
  }

  /** On a line, the regular expression means exactly what its class and
      bounds say: the trailing-newline allowance never applies. */
  lemma LineMatch(s: string, cls: char -> bool, lo: nat, hi: nat)
    requires IsLine(s)
    ensures PyAnchoredMatch(s, cls, lo, hi) <==> Repeats(s, cls, lo, hi)
  {
    if |s| > 0 && s[|s| - 1] == '\n' {
      assert Contains(s, '\n');
    }
  }
}
