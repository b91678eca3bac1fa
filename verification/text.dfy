/**
 * JavaScript's `String.prototype.trim` over strings of Unicode scalar values.
 *
 * `trim` removes every leading and trailing code point of the ECMAScript
 * WhiteSpace and LineTerminator productions (section 12.2 and 12.3 of
 * ECMA-262).  The proofs elsewhere only rely on a few members of that set
 * (line feed, space) and on a few characters lying outside it.
 */
module Text {

  /** The code points that `trim` strips: WhiteSpace (TAB, VT, FF, SP, NBSP,
      ZWNBSP and the Zs category) and LineTerminator (LF, CR, LS, PS). */
  predicate IsWhitespace(c: char) {
    || c == '\t' || c == '\U{000B}' || c == '\U{000C}' || c == ' '
    || c == '\U{00A0}' || c == '\U{FEFF}' || c == '\U{1680}'
    || ('\U{2000}' <= c <= '\U{200A}')
    || c == '\U{202F}' || c == '\U{205F}' || c == '\U{3000}'
    || c == '\n' || c == '\r' || c == '\U{2028}' || c == '\U{2029}'
  }

  /** Every character of `s` is whitespace (the empty string included). */
  predicate AllWhitespace(s: string) {
    forall i :: 0 <= i < |s| ==> IsWhitespace(s[i])
  }

  /** `s` neither starts nor ends with whitespace. */
  predicate Trimmed(s: string) {
    s == [] || (!IsWhitespace(s[0]) && !IsWhitespace(s[|s| - 1]))
  }

  /** Scanning forward from `i`: the index of the first character that is
      not whitespace, or `|s|` when there is none. */
  function SkipForward(s: string, i: nat): (n: nat)
    requires i <= |s|
    ensures i <= n <= |s|
    ensures forall k :: i <= k < n ==> IsWhitespace(s[k])
    ensures n == |s| || !IsWhitespace(s[n])
    decreases |s| - i
  {
    if i < |s| && IsWhitespace(s[i]) then SkipForward(s, i + 1) else i
  }

  /** Scanning backward from `j` down to `lo`: the index just past the last
      character that is not whitespace, or `lo` when there is none. */
  function SkipBackward(s: string, lo: nat, j: nat): (n: nat)
    requires lo <= j <= |s|
    ensures lo <= n <= j
    ensures forall k :: n <= k < j ==> IsWhitespace(s[k])
    ensures n == lo || !IsWhitespace(s[n - 1])
    decreases j - lo
  {
    if lo < j && IsWhitespace(s[j - 1]) then SkipBackward(s, lo, j - 1) else j
  }

  /** `s.trim()`: the result has no whitespace at either end, and it is empty
      exactly when `s` consists of whitespace only. */
  function Trim(s: string): (r: string)
    ensures |r| <= |s|
    ensures Trimmed(r)
    ensures r == [] <==> AllWhitespace(s)
  {
    var i := SkipForward(s, 0);
    var j := SkipBackward(s, i, |s|);
    assert i < j ==> s[i..j][0] == s[i] && s[i..j][j - i - 1] == s[j - 1];
    s[i..j]
  }

  /** Trim has a unique answer: whenever `s` is a whitespace run, then a
      trimmed core `m`, then another whitespace run, Trim(s) is that core. */
  lemma TrimUnique(a: string, m: string, b: string)
    requires AllWhitespace(a) && AllWhitespace(b) && Trimmed(m)
    ensures Trim(a + m + b) == m
  {
    var s := a + m + b;
    if m == [] {
      assert AllWhitespace(s) by {
        assert forall k :: 0 <= k < |s| ==> s[k] == if k < |a| then a[k] else b[k - |a|];
      }
    } else {
      assert s[|a|] == m[0];
      assert forall k :: 0 <= k < |a| ==> s[k] == a[k];
      var i := SkipForward(s, 0);
      assert i == |a|;
      assert s[|a| + |m| - 1] == m[|m| - 1];
      assert forall k :: |a| + |m| <= k < |s| ==> s[k] == b[k - |a| - |m|];
      var j := SkipBackward(s, i, |s|);
      assert j == |a| + |m|;
      assert s[|a|..|a| + |m|] == m;
    }
  }

  /** Trimming splits `s` into leading whitespace, Trim(s) and trailing
      whitespace, with nothing lost; `i` is where the trimmed text starts. */
  lemma TrimSplits(s: string) returns (i: nat)
    ensures i + |Trim(s)| <= |s|
    ensures s == s[..i] + Trim(s) + s[i + |Trim(s)|..]
    ensures AllWhitespace(s[..i]) && AllWhitespace(s[i + |Trim(s)|..])
  {
    i := SkipForward(s, 0);
    var j := SkipBackward(s, i, |s|);
    assert Trim(s) == s[i..j];
    assert s == s[..i] + s[i..j] + s[j..];
  }

  /** Trim is idempotent. */
  lemma TrimIdempotent(s: string)
    ensures Trim(Trim(s)) == Trim(s)
  {
    TrimUnique([], Trim(s), []);
    assert [] + Trim(s) + [] == Trim(s);
  }
}
