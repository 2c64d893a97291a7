/** String helpers used for matching guesses against the reference list. */
module Text {

  /** `toLowerCase` on one character, restricted to ASCII letters. */
  function LowerChar(c: char): char
  {
    if 'A' <= c <= 'Z' then (c as int + 32) as char else c
  }

  /** `toLowerCase` on a string, restricted to ASCII letters. */
  function Lower(s: string): string
  {
    seq(|s|, i requires 0 <= i < |s| => LowerChar(s[i]))
  }

  /** `s.startsWith(prefix)`. */
  predicate StartsWith(s: string, prefix: string)
  {
    |prefix| <= |s| && s[..|prefix|] == prefix
  }

  /** Lower-casing a second time changes nothing. */
  lemma LowerIdempotent(s: string)
    ensures Lower(Lower(s)) == Lower(s)
  {
  }

  /** For a one-character prefix, `s.startsWith(l)` is the test `s[0] === l`. */
  lemma StartsWithLetter(s: string, l: char)
    ensures StartsWith(s, [l]) <==> |s| > 0 && s[0] == l
  {
    if |s| > 0 {
      assert s[..1] == [s[0]];
    }
  }
}
