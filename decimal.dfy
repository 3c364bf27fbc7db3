/**
 * Python's `str` on a non-negative integer: its decimal digits, most
 * significant first, with no leading zero. The exporter uses it to turn a
 * process id into the `pid` label of every metric series.
 */
module Decimal {

  /** The character of one decimal digit. */
  function DigitChar(d: nat): (c: char)
    requires d < 10
    ensures '0' <= c <= '9'
    ensures c as int - '0' as int == d
  {
    ('0' as int + d) as char
  }

  /** `str(n)` for `n >= 0`. */
  function Show(n: nat): (s: string)
    ensures 1 <= |s|
    ensures forall i :: 0 <= i < |s| ==> '0' <= s[i] <= '9'
    ensures n < 10 <==> |s| == 1
    ensures s[0] == '0' ==> n == 0
  {
    if n < 10 then [DigitChar(n)] else Show(n / 10) + [DigitChar(n % 10)]
  }

  /**
   * The number a digit string denotes, most significant digit first; the
   * empty string denotes 0.
   */
  function Value(s: string): int
    decreases |s|
  {
    if s == [] then 0 else 10 * Value(s[..|s| - 1]) + (s[|s| - 1] as int - '0' as int)
  }

  /** The digits of `str(n)` denote `n`. */
  lemma {:induction false} ShowValue(n: nat)
    ensures Value(Show(n)) == n
  {
    if n >= 10 {
      var s := Show(n);
      assert s[..|s| - 1] == Show(n / 10);
      ShowValue(n / 10);
    }
  }

  /** Different numbers are shown differently, so `str` keeps pids apart. */
  lemma {:induction false} ShowInjective(a: nat, b: nat)
    ensures Show(a) == Show(b) ==> a == b
  {
    if Show(a) == Show(b) {
      var s := Show(a);
      if a < 10 || b < 10 {
        assert a < 10 && b < 10;
        assert s[0] == DigitChar(a) && s[0] == DigitChar(b);
      } else {
        assert s[|s| - 1] == DigitChar(a % 10) == DigitChar(b % 10);
        assert Show(a / 10) == s[..|s| - 1] == Show(b / 10);
        ShowInjective(a / 10, b / 10);
      }
    }
  }

  lemma ShowHundred()
    ensures Show(100) == "100"
  {
    assert Show(10) == "10";
  }
}
