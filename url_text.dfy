/** `utils.sanitizeForUrl(str)`: `str.toLowerCase().replace(/[^a-z0-9]/g, '')`,
    over characters whose lower case is decided by the ASCII table. */
module UrlText {

  /** `toLowerCase` on one character: A-Z become a-z, everything else is
      kept as it is. */
  function Lower(ch: char): char
  {
    if 'A' <= ch <= 'Z' then (ch as int + 32) as char else ch
  }

  /** The characters the pattern `[a-z0-9]` matches. */
  predicate UrlChar(ch: char)
  {
    'a' <= ch <= 'z' || '0' <= ch <= '9'
  }

  predicate UrlSafe(s: string)
  {
    forall i :: 0 <= i < |s| ==> UrlChar(s[i])
  }

  function SanitizeForUrl(s: string): (r: string)
    ensures UrlSafe(r)
    ensures |r| <= |s|
  {
    if s == [] then []
    else (if UrlChar(Lower(s[0])) then [Lower(s[0])] else []) + SanitizeForUrl(s[1..])
  }

  /** A string made only of `[a-z0-9]` passes through unchanged. */
  lemma {:induction false} SanitizeKeepsSafe(s: string)
    requires UrlSafe(s)
    ensures SanitizeForUrl(s) == s
  {
    if s != [] {
      assert UrlSafe(s[1..]);
      SanitizeKeepsSafe(s[1..]);
      assert [s[0]] + s[1..] == s;
    }
  }

  /** Sanitizing twice is sanitizing once. */
  lemma SanitizeIdempotent(s: string)
    ensures SanitizeForUrl(SanitizeForUrl(s)) == SanitizeForUrl(s)
  {
    SanitizeKeepsSafe(SanitizeForUrl(s));
  }

  /** The global replace works character by character, so the result of a
      concatenation is the concatenation of the results. */
  lemma {:induction false} SanitizeConcat(a: string, b: string)
    ensures SanitizeForUrl(a + b) == SanitizeForUrl(a) + SanitizeForUrl(b)
  {
    if a != [] {
      assert (a + b)[0] == a[0] && (a + b)[1..] == a[1..] + b;
      SanitizeConcat(a[1..], b);
    } else {
      assert a + b == b;
    }
  }

  /** Case does not matter: an upper-case letter yields the same character
      as its lower-case form, and a character outside the class yields
      nothing. */
  lemma SanitizeChar(ch: char)
    ensures 'A' <= ch <= 'Z' ==> SanitizeForUrl([ch]) == SanitizeForUrl([Lower(ch)]) == [Lower(ch)]
    ensures !UrlChar(Lower(ch)) ==> SanitizeForUrl([ch]) == []
  {
    assert [ch][1..] == [];
    assert [Lower(ch)][1..] == [];
  }
}
