/** Decimal digit strings: reading them (`int(...)` on a `[0-9]+` match) and
    writing them (`%d` and `%04d`). */
module Decimal {

  predicate IsDigit(c: char) {
    '0' <= c <= '9'
  }

  predicate AllDigits(s: string) {
    forall i :: 0 <= i < |s| ==> IsDigit(s[i])
  }

  function DigitValue(c: char): (d: nat)
    requires IsDigit(c)
    ensures d < 10
  {
    (c as int) - ('0' as int)
  }

  function DigitChar(d: nat): (c: char)
    requires d < 10
    ensures IsDigit(c) && DigitValue(c) == d
  {
    (('0' as int) + d) as char
  }

  /** `10` to the power `k`. */
  function Pow10(k: nat): (p: nat)
    ensures p >= 1
  {
    if k == 0 then 1 else 10 * Pow10(k - 1)
  }

  /** The number a string of decimal digits denotes, most significant first;
      `k` digits denote less than `10^k`. */
  function Value(s: string): (v: nat)
    requires AllDigits(s)
    ensures v < Pow10(|s|)
  {
    if s == [] then 0 else Value(s[..|s| - 1]) * 10 + DigitValue(s[|s| - 1])
  }

  /** The shortest decimal rendering of `n`, as `"%d" % n` writes it: one
      digit below ten, and no leading zero except for `0` itself. */
  function Show(n: nat): (s: string)
    ensures |s| > 0 && AllDigits(s)
    ensures |s| == 1 <==> n < 10
    ensures s[0] == '0' <==> n == 0
  {
    if n < 10 then [DigitChar(n)] else Show(n / 10) + [DigitChar(n % 10)]
  }

  /** Reading back what `Show` writes gives the number. */
  lemma {:induction false} ValueShow(n: nat)
    ensures Value(Show(n)) == n
  {
    if n >= 10 {
      var s := Show(n);
      assert s[..|s| - 1] == Show(n / 10);
      ValueShow(n / 10);
    }
  }

  /** A number below `10^k` takes at most `k` digits, for `k >= 1`. */
  lemma {:induction false} ShowFits(n: nat, k: nat)
    requires k >= 1 && n < Pow10(k)
    ensures |Show(n)| <= k
  {
    if n >= 10 {
      assert n / 10 < Pow10(k - 1);
      ShowFits(n / 10, k - 1);
    }
  }

  lemma ShowFitsFour(n: nat)
    ensures n < 10000 ==> |Show(n)| <= 4
  {
    if n < 10000 {
      assert Pow10(4) == 10000;
      ShowFits(n, 4);
    }
  }

  function Zeros(k: nat): (s: string)
    ensures |s| == k && AllDigits(s)
  {
    if k == 0 then [] else ['0'] + Zeros(k - 1)
  }

  /** Leading zeros do not change the value of a digit string. */
  lemma {:induction false} ValueLeadingZeros(k: nat, s: string)
    requires AllDigits(s)
    ensures Value(Zeros(k) + s) == Value(s)
  {
    if s == [] {
      assert Zeros(k) + s == Zeros(k);
      ZerosValue(k);
    } else {
      var t := Zeros(k) + s;
      assert t[..|t| - 1] == Zeros(k) + s[..|s| - 1];
      ValueLeadingZeros(k, s[..|s| - 1]);
    }
  }

  lemma {:induction false} ZerosValue(k: nat)
    ensures Value(Zeros(k)) == 0
  {
    if k > 0 {
      var z := Zeros(k);
      assert z[..|z| - 1] == Zeros(k - 1) by {
        if k > 1 {
          assert z[..|z| - 1] == ['0'] + Zeros(k - 1)[..k - 2];
          assert Zeros(k - 1) == ['0'] + Zeros(k - 2);
          ZerosPrefix(k - 1);
        }
      }
      ZerosValue(k - 1);
    }
  }

  lemma {:induction false} ZerosPrefix(k: nat)
    requires k > 0
    ensures Zeros(k)[..k - 1] == Zeros(k - 1)
  {
    if k > 1 {
      ZerosPrefix(k - 1);
    }
  }

  /** `"%04d" % n` for a non-negative `n`: exactly four digits below 10000,
      and above that the plain digits with no leading zero. */
  function Pad4(n: nat): (s: string)
    ensures |s| >= 4 && AllDigits(s) && Value(s) == n
    ensures n < 10000 ==> |s| == 4
    ensures |s| > 4 ==> s[0] != '0'
  {
    var digits := Show(n);
    ShowFitsFour(n);
    ValueShow(n);
    ValueLeadingZeros(if |digits| < 4 then 4 - |digits| else 0, digits);
    Zeros(if |digits| < 4 then 4 - |digits| else 0) + digits
  }
}
