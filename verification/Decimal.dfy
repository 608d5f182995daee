/** Decimal numerals: printing a number, reading digits, and the canonical form. */
module Decimal {

  predicate IsDigit(c: char) {
    '0' <= c <= '9'
  }

  predicate AllDigits(s: string) {
    forall i :: 0 <= i < |s| ==> IsDigit(s[i])
  }

  function DigitChar(d: nat): char
    requires d < 10
  {
    ('0' as int + d) as char
  }

  /** str(n) */
  function Dec(n: nat): (s: string)
    ensures |s| > 0 && AllDigits(s)
    ensures |s| > 1 ==> s[0] != '0'
    ensures n > 0 ==> s[0] != '0'
  {
    if n < 10 then [DigitChar(n)] else Dec(n / 10) + [DigitChar(n % 10)]
  }

  /** int(s) for a string of ASCII digits */
  function IntOf(s: string): nat
    requires AllDigits(s)
  {
    if s == "" then 0 else 10 * IntOf(s[..|s| - 1]) + (s[|s| - 1] as int - '0' as int)
  }

  /** Digits without a superfluous leading zero. */
  predicate Canonical(s: string) {
    s != "" && AllDigits(s) && !(|s| > 1 && s[0] == '0')
  }

  lemma {:induction false} PrintThenRead(n: nat)
    ensures IntOf(Dec(n)) == n
  {
    var s := Dec(n);
    if n >= 10 {
      PrintThenRead(n / 10);
      assert s[..|s| - 1] == Dec(n / 10);
    } else {
      assert s[..|s| - 1] == "";
    }
  }

  lemma {:induction false} CanonicalNonZero(s: string)
    requires Canonical(s) && s[0] != '0'
    ensures IntOf(s) > 0
  {
    if |s| > 1 {
      CanonicalNonZero(s[..|s| - 1]);
    }
  }

  lemma {:induction false} ReadThenPrint(s: string)
    requires Canonical(s)
    ensures Dec(IntOf(s)) == s
  {
    var init, last := s[..|s| - 1], s[|s| - 1];
    assert s == init + [last];
    if |s| == 1 {
      assert IntOf(init) == 0;
    } else {
      CanonicalNonZero(init);
      ReadThenPrint(init);
      var n, d := IntOf(init), last as int - '0' as int;
      assert (10 * n + d) / 10 == n && (10 * n + d) % 10 == d;
    }
  }
}
