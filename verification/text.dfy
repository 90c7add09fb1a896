/**
 Whitespace stripping, as done by Python's `str.strip()` with no argument.
 Only the ASCII characters that Python counts as whitespace are modelled.
 */
module Text {

  /** Space, the controls \t \n \v \f \r (9..13), and the separators U+001C..U+001F. */
  predicate IsWhitespace(c: char)
  {
    c == ' ' || 9 <= c as int <= 13 || 28 <= c as int <= 31
  }

  predicate AllWhitespace(s: string)
  {
    forall i :: 0 <= i < |s| ==> IsWhitespace(s[i])
  }

  /** Neither end of `s` is whitespace (vacuously true of the empty string). */
  predicate IsStripped(s: string)
  {
    |s| == 0 || (!IsWhitespace(s[0]) && !IsWhitespace(s[|s| - 1]))
  }

  /** Length of the longest all-whitespace prefix of `s`. */
  function LeadingSpace(s: string): (k: nat)
    ensures k <= |s|
    ensures AllWhitespace(s[..k])
    ensures k < |s| ==> !IsWhitespace(s[k])
  {
    if |s| > 0 && IsWhitespace(s[0]) then
      var k := 1 + LeadingSpace(s[1..]);
      assert forall i :: 1 <= i < k ==> s[i] == s[1..][i - 1];
      k
    else 0
  }

  /** Length of the longest all-whitespace suffix of `s`. */
  function TrailingSpace(s: string): (k: nat)
    ensures k <= |s|
    ensures AllWhitespace(s[|s| - k..])
    ensures k < |s| ==> !IsWhitespace(s[|s| - 1 - k])
  {
    if |s| > 0 && IsWhitespace(s[|s| - 1]) then
      var t := s[..|s| - 1];
      var k := 1 + TrailingSpace(t);
      assert forall i :: |s| - k <= i < |s| - 1 ==> s[i] == t[i];
      k
    else 0
  }

  /** Where the stripped text ends: before the trailing whitespace, or at `start` if there is no text. */
  function StripEnd(s: string): (j: nat)
    ensures LeadingSpace(s) <= j <= |s|
    ensures AllWhitespace(s[j..])
    ensures LeadingSpace(s) < j ==> !IsWhitespace(s[j - 1])
    ensures LeadingSpace(s) < |s| ==> LeadingSpace(s) < j
  {
    var i := LeadingSpace(s);
    if i == |s| then |s|
    else |s| - TrailingSpace(s)
  }

  /** `s` without leading and trailing whitespace. */
  function Strip(s: string): (r: string)
    ensures |r| <= |s|
    ensures IsStripped(r)
    ensures |r| == 0 <==> AllWhitespace(s)
  {
    var i, j := LeadingSpace(s), StripEnd(s);
    assert i == |s| ==> s[..i] == s;
    s[i..j]
  }

  /** Every string is whitespace, its stripped core, and whitespace again. */
  lemma StripDecompose(s: string)
    ensures s == s[..LeadingSpace(s)] + Strip(s) + s[StripEnd(s)..]
    ensures AllWhitespace(s[..LeadingSpace(s)]) && AllWhitespace(s[StripEnd(s)..])
  {
    var i, j := LeadingSpace(s), StripEnd(s);
    assert s == s[..i] + s[i..j] + s[j..];
  }

  /** Round trip: padding a stripped string with whitespace and stripping gives it back. */
  lemma StripPadded(pre: string, core: string, post: string)
    requires AllWhitespace(pre) && AllWhitespace(post) && IsStripped(core)
    ensures Strip(pre + core + post) == core
  {
    var s := pre + core + post;
    if |core| == 0 {
      assert s == pre + post;
      assert AllWhitespace(s) by {
        forall i | 0 <= i < |s| ensures IsWhitespace(s[i]) {
          if i < |pre| { assert s[i] == pre[i]; } else { assert s[i] == post[i - |pre|]; }
        }
      }
    } else {
      PaddedStart(pre, core, post);
      PaddedEnd(pre, core, post);
      assert s[|pre|..|pre| + |core|] == core;
    }
  }

  lemma PaddedStart(pre: string, core: string, post: string)
    requires AllWhitespace(pre) && |core| > 0 && !IsWhitespace(core[0])
    ensures LeadingSpace(pre + core + post) == |pre|
  {
    var s := pre + core + post;
    assert s[|pre|] == core[0];
    assert forall i :: 0 <= i < |pre| ==> s[i] == pre[i];
  }

  lemma PaddedEnd(pre: string, core: string, post: string)
    requires AllWhitespace(pre) && AllWhitespace(post) && |core| > 0 && IsStripped(core)
    ensures StripEnd(pre + core + post) == |pre| + |core|
  {
    var s := pre + core + post;
    PaddedStart(pre, core, post);
    var n := |pre| + |core|;
    assert s[n - 1] == core[|core| - 1];
    assert forall i :: n <= i < |s| ==> s[i] == post[i - n];
  }

  /** Stripping is idempotent. */
  lemma StripIdempotent(s: string)
    ensures Strip(Strip(s)) == Strip(s)
  {
    StripPadded([], Strip(s), []);
    assert [] + Strip(s) + [] == Strip(s);
  }
}
