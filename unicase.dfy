/**
 * ASCII case-insensitive comparison of strings, as the `unicase::eq_ascii`
 * helper and `str::to_ascii_lowercase` do: only the letters A-Z are folded,
 * every other character compares as itself.
 */
module Unicase {

  /** Folds one ASCII upper-case letter to lower case; every other character is kept. */
  function ToAsciiLower(c: char): (r: char)
    ensures 'A' <= c <= 'Z' ==> 'a' <= r <= 'z' && r as int == c as int + 32
    ensures !('A' <= c <= 'Z') ==> r == c
  {
    if 'A' <= c <= 'Z' then (c as int + 32) as char else c
  }

  /** `to_ascii_lowercase`: the string with every ASCII letter folded. */
  function ToAsciiLowercase(s: string): (r: string)
    ensures |r| == |s|
    ensures forall i :: 0 <= i < |s| ==> r[i] == ToAsciiLower(s[i])
  {
    seq(|s|, i requires 0 <= i < |s| => ToAsciiLower(s[i]))
  }

  /** `eq_ascii`: same length, and equal character by character once folded. */
  predicate EqAscii(a: string, b: string)
  {
    |a| == |b| && forall i :: 0 <= i < |a| ==> ToAsciiLower(a[i]) == ToAsciiLower(b[i])
  }

  /** Two strings are equal ignoring ASCII case exactly when their lowercased forms are equal. */
  lemma EqAsciiIffSameLowercase(a: string, b: string)
    ensures EqAscii(a, b) <==> ToAsciiLowercase(a) == ToAsciiLowercase(b)
  {
    if ToAsciiLowercase(a) == ToAsciiLowercase(b) {
      assert |a| == |b|;
      forall i | 0 <= i < |a|
        ensures ToAsciiLower(a[i]) == ToAsciiLower(b[i])
      {
        assert ToAsciiLowercase(a)[i] == ToAsciiLowercase(b)[i];
      }
    }
  }

  /** `eq_ascii` is an equivalence relation. */
  lemma EqAsciiIsEquivalence(a: string, b: string, c: string)
    ensures EqAscii(a, a)
    ensures EqAscii(a, b) ==> EqAscii(b, a)
    ensures EqAscii(a, b) && EqAscii(b, c) ==> EqAscii(a, c)
  {
  }
}
