/**
 * Decimal rendering of slide numbers, as JavaScript's template literal
 * `${n}` renders a non-negative integer: base ten, no sign, no leading zero.
 */
module Decimal {

  predicate IsDigit(c: char) {
    '0' <= c <= '9'
  }

  predicate AllDigits(s: string) {
    forall i :: 0 <= i < |s| ==> IsDigit(s[i])
  }

  /** A numeral in canonical form: non-empty, and starting with `0` only
      when it is `0` itself. */
  predicate Canonical(s: string) {
    |s| >= 1 && AllDigits(s) && (s[0] == '0' ==> s == "0")
  }

  function DigitChar(n: nat): (c: char)
    requires n < 10
    ensures IsDigit(c) && c as int - '0' as int == n
  {
    ('0' as int + n) as char
  }

  /** The value a string of digits denotes, read most significant first. */
  function ValueOf(s: string): nat
    requires AllDigits(s)
  {
    if s == [] then 0
    else 10 * ValueOf(s[..|s| - 1]) + (s[|s| - 1] as int - '0' as int)
  }

  /** The decimal numeral of `n`: a canonical numeral denoting `n`. */
  function Show(n: nat): (r: string)
    ensures Canonical(r)
    ensures ValueOf(r) == n
    decreases n
  {
    if n < 10 then [DigitChar(n)]
    else
      var r := Show(n / 10) + [DigitChar(n % 10)];
      assert r[..|r| - 1] == Show(n / 10);
      r
  }

  /** A numeral of k digits denotes less than 10^k, and at least 10^(k-1)
      when it does not start with `0`. */
  lemma {:induction false} ValueBound(s: string)
    requires AllDigits(s)
    ensures |s| >= 1 && s[0] != '0' ==> ValueOf(s) >= Pow10(|s| - 1)
    ensures ValueOf(s) < Pow10(|s|)
    decreases |s|
  {
    if |s| > 0 {
      var init := s[..|s| - 1];
      ValueBound(init);
      if |s| > 1 {
        assert init[0] == s[0];
      }
    }
  }

  function Pow10(k: nat): (p: nat)
    ensures p >= 1
  {
    if k == 0 then 1 else 10 * Pow10(k - 1)
  }

  /** Canonical numerals and natural numbers correspond one to one: every
      canonical numeral is the rendering of the number it denotes. */
  lemma {:induction false} ShowCanonical(s: string)
    requires Canonical(s)
    ensures Show(ValueOf(s)) == s
    decreases |s|
  {
    var n := ValueOf(s);
    if |s| == 1 {
      assert s == [s[0]];
    } else {
      var init := s[..|s| - 1];
      assert init[0] == s[0];
      ValueBound(init);
      assert ValueOf(init) >= 1;
      assert n / 10 == ValueOf(init) && n % 10 == s[|s| - 1] as int - '0' as int;
      ShowCanonical(init);
      assert s == init + [s[|s| - 1]];
    }
  }
}
