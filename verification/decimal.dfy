/** Decimal digit strings and their values: the building blocks of JavaScript's
    `parseInt`, `Number` and `Number.prototype.toString` as used on version
    segments and install counters. */
module Decimal {

  function Pow10(k: nat): (r: nat)
    ensures r >= 1
    ensures k >= 1 ==> r >= 10
  {
    if k == 0 then 1 else 10 * Pow10(k - 1)
  }

  /** An ASCII decimal digit: the only digits JavaScript's number grammar accepts. */
  predicate IsDigit(c: char) {
    '0' <= c <= '9'
  }

  function DigitValue(c: char): (d: nat)
    requires IsDigit(c)
    ensures d < 10
  {
    c as int - '0' as int
  }

  function DigitChar(d: nat): (c: char)
    requires d < 10
    ensures IsDigit(c) && DigitValue(c) == d
  {
    ('0' as int + d) as char
  }

  predicate AllDigits(s: string) {
    forall i :: 0 <= i < |s| ==> IsDigit(s[i])
  }

  /** The value of a string of decimal digits, most significant first
      (the empty string has value 0). */
  function DigitsValue(s: string): nat
    requires AllDigits(s)
    decreases |s|
  {
    if s == [] then 0 else 10 * DigitsValue(s[..|s| - 1]) + DigitValue(s[|s| - 1])
  }

  /** The shortest decimal rendering of `n`: no sign, no leading zero. */
  function NatToDecimal(n: nat): (r: string)
    ensures |r| >= 1 && AllDigits(r)
    ensures DigitsValue(r) == n
    ensures r[0] == '0' ==> n == 0 && |r| == 1
  {
    if n < 10 then [DigitChar(n)]
    else
      var r := NatToDecimal(n / 10) + [DigitChar(n % 10)];
      assert r[..|r| - 1] == NatToDecimal(n / 10);
      r
  }

  /** A string of `k` zero digits. */
  function Zeros(k: nat): (r: string)
    ensures |r| == k
    ensures forall i :: 0 <= i < k ==> r[i] == '0'
  {
    if k == 0 then "" else Zeros(k - 1) + "0"
  }

  /** A digit string as `NatToDecimal` produces it: non-empty, and a leading
      zero only in "0" itself. */
  predicate Canonical(s: string) {
    |s| >= 1 && AllDigits(s) && (s[0] == '0' ==> |s| == 1)
  }

  lemma {:induction false} LeadingNonZeroPositive(s: string)
    requires |s| >= 1 && AllDigits(s) && s[0] != '0'
    ensures DigitsValue(s) >= Pow10(|s| - 1)
    decreases |s|
  {
    if |s| > 1 {
      var t := s[..|s| - 1];
      assert t[0] == s[0];
      LeadingNonZeroPositive(t);
    }
  }

  /** Canonical digit strings and naturals are in one-to-one correspondence:
      rendering the value of a canonical string gives the string back. */
  lemma {:induction false} CanonicalRoundTrip(s: string)
    requires Canonical(s)
    ensures NatToDecimal(DigitsValue(s)) == s
    decreases |s|
  {
    if |s| > 1 {
      var t := s[..|s| - 1];
      assert t[0] == s[0];
      LeadingNonZeroPositive(t);
      CanonicalRoundTrip(t);
      var n := DigitsValue(s);
      assert n / 10 == DigitsValue(t) && n % 10 == DigitValue(s[|s| - 1]);
      assert s == t + [s[|s| - 1]];
    }
  }

  /** The decimal rendering of `n` has at most `k` digits exactly when `n < 10^k`. */
  lemma {:induction false} DecimalLength(n: nat, k: nat)
    requires k >= 1
    ensures |NatToDecimal(n)| <= k <==> n < Pow10(k)
    decreases n
  {
    if n >= 10 {
      if k == 1 {
        assert |NatToDecimal(n)| >= 2;
      } else {
        DecimalLength(n / 10, k - 1);
      }
    }
  }

  /** Multiplying a positive number by `10^z` appends `z` zeros to its rendering. */
  lemma {:induction false} NatToDecimalShift(s: nat, z: nat)
    requires s > 0
    ensures NatToDecimal(s * Pow10(z)) == NatToDecimal(s) + Zeros(z)
    decreases z
  {
    if z == 0 {
      assert s * Pow10(z) == s;
    } else {
      var m := s * Pow10(z - 1);
      assert m >= 1 by { MulPositive(s, Pow10(z - 1)); }
      assert s * Pow10(z) == m * 10 by { MulAssoc10(s, Pow10(z - 1)); }
      calc {
        NatToDecimal(s * Pow10(z));
        NatToDecimal(m * 10);
        { AppendZero(m); }
        NatToDecimal(m) + "0";
        { NatToDecimalShift(s, z - 1); }
        NatToDecimal(s) + Zeros(z - 1) + "0";
        NatToDecimal(s) + Zeros(z);
      }
    }
  }

  lemma MulPositive(a: nat, b: nat)
    requires a >= 1 && b >= 1
    ensures a * b >= 1
  {
  }

  lemma MulAssoc10(a: nat, b: nat)
    ensures a * (10 * b) == (a * b) * 10
  {
  }

  /** Rendering `10 * m` appends one zero to the rendering of `m`. */
  lemma AppendZero(m: nat)
    requires m >= 1
    ensures NatToDecimal(m * 10) == NatToDecimal(m) + "0"
  {
    assert (m * 10) / 10 == m && (m * 10) % 10 == 0;
  }

  lemma {:induction false} Pow10Add(a: nat, b: nat)
    ensures Pow10(a + b) == Pow10(a) * Pow10(b)
    decreases a
  {
    if a > 0 {
      Pow10Add(a - 1, b);
    }
  }

  /** A single digit is its own decimal rendering. */
  lemma SingleDigitText(x: char)
    requires IsDigit(x)
    ensures NatToDecimal(DigitValue(x)) == [x]
  {
    assert DigitChar(DigitValue(x)) == x;
  }
}
