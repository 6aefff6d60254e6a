/**
 Natural numbers written in decimal, as `format!("{index}")` and `BigInt.toString()` write
 them, and read back.
 */
module Decimal {
  predicate IsDigit(c: char) { '0' <= c <= '9' }

  predicate AllDigits(s: string) {
    forall k :: 0 <= k < |s| ==> IsDigit(s[k])
  }

  function DigitChar(d: nat): (c: char)
    requires d < 10
    ensures IsDigit(c) && DigitValue(c) == d
  {
    ('0' as int + d) as char
  }

  function DigitValue(c: char): (d: nat)
    requires IsDigit(c)
    ensures d < 10
  {
    c as int - '0' as int
  }

  function Digits(n: nat): (s: string)
    ensures s != "" && AllDigits(s)
  {
    if n < 10 then [DigitChar(n)] else Digits(n / 10) + [DigitChar(n % 10)]
  }

  // The number a digit string spells; the empty string spells 0.
  function Value(s: string): nat
    requires AllDigits(s)
  {
    if s == "" then 0 else 10 * Value(s[..|s| - 1]) + DigitValue(s[|s| - 1])
  }

  lemma {:induction false} ValueOfDigits(n: nat)
    ensures Value(Digits(n)) == n
  {
    if n < 10 {
    } else {
      ValueOfDigits(n / 10);
      assert Digits(n)[..|Digits(n)| - 1] == Digits(n / 10);
    }
  }

  lemma DigitsAreInjective(m: nat, n: nat)
    requires Digits(m) == Digits(n)
    ensures m == n
  {
    ValueOfDigits(m);
    ValueOfDigits(n);
  }

  function Pow10(n: nat): (p: nat)
    ensures p > 0
  {
    if n == 0 then 1 else 10 * Pow10(n - 1)
  }

  function Zeros(n: nat): (s: string)
    ensures |s| == n && AllDigits(s)
  {
    seq(n, _ => '0')
  }

  // Writing digits side by side shifts the number on the left.
  lemma {:induction false} ValueOfConcat(a: string, b: string)
    requires AllDigits(a) && AllDigits(b)
    ensures AllDigits(a + b) && Value(a + b) == Value(a) * Pow10(|b|) + Value(b)
    decreases |b|
  {
    if b == "" {
      assert a + b == a;
    } else {
      var init, last := b[..|b| - 1], b[|b| - 1];
      ValueOfConcat(a, init);
      assert (a + b)[..|a + b| - 1] == a + init;
      Carried(Value(a), Pow10(|init|), Value(init), DigitValue(last));
    }
  }

  lemma Carried(x: nat, power: nat, y: nat, digit: nat)
    ensures x * (10 * power) + (10 * y + digit) == 10 * (x * power + y) + digit
  {
  }

  lemma {:induction false} ValueOfZeros(n: nat)
    ensures Value(Zeros(n)) == 0
  {
    if n == 0 {
    } else {
      ValueOfZeros(n - 1);
      assert Zeros(n)[..n - 1] == Zeros(n - 1);
    }
  }

  lemma {:induction false} ValueBound(s: string)
    requires AllDigits(s)
    ensures Value(s) < Pow10(|s|)
    decreases |s|
  {
    if s == "" {
    } else {
      ValueBound(s[..|s| - 1]);
    }
  }

  // A number below 10^d has at most d digits, one digit at least.
  lemma {:induction false} DigitsLength(n: nat, d: nat)
    requires n < Pow10(d) && d > 0
    ensures |Digits(n)| <= d
    decreases d
  {
    if n < 10 {
    } else {
      assert Pow10(d) == 10 * Pow10(d - 1);
      assert d > 1 by {
        assert Pow10(0) == 1;
      }
      DigitsLength(n / 10, d - 1);
    }
  }
}
