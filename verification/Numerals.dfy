/** Decimal numerals: the number a string of digits denotes, and how numerals compare as texts. */
module Numerals {
  import opened Ordering

  predicate IsDigit(c: char) {
    '0' <= c <= '9'
  }

  predicate AllDigitChars(s: string) {
    forall i :: 0 <= i < |s| ==> IsDigit(s[i])
  }

  function ToNat(digits: string): nat
    requires AllDigitChars(digits)
  {
    if digits == [] then 0
    else
      assert IsDigit(digits[|digits| - 1]) && AllDigitChars(digits[..|digits| - 1]);
      ToNat(digits[..|digits| - 1]) * 10 + (digits[|digits| - 1] as int - '0' as int)
  }

  ghost function Stripped(digits: string): string {
    if digits != [] && digits[0] == '0' then Stripped(digits[1..]) else digits
  }

  /** Leading zeros do not count ... */
  ghost predicate SameNumeral(s: string, t: string) {
    Stripped(s) == Stripped(t)
  }

  /** ... a shorter numeral is lower, and of two of one length the one with the lower digit where
      they first differ. */
  ghost predicate NumeralBefore(s: string, t: string) {
    var x, y := Stripped(s), Stripped(t);
    |x| < |y| || (|x| == |y| && Before(x, y, (c: char, d: char) => c < d))
  }

  ghost function Power(n: nat): nat {
    if n == 0 then 1 else 10 * Power(n - 1)
  }

  lemma {:induction false} PowerGrows(m: nat, n: nat)
    requires m <= n
    ensures 1 <= Power(m) <= Power(n)
    decreases n
  {
    if m < n {
      PowerGrows(m, n - 1);
    } else if n > 0 {
      PowerGrows(m - 1, n - 1);
    }
  }

  lemma {:induction false} FirstDigit(c: char, s: string)
    requires IsDigit(c) && AllDigitChars(s)
    ensures AllDigitChars([c] + s)
    ensures ToNat([c] + s) == (c as int - '0' as int) * Power(|s|) + ToNat(s)
  {
    if s == [] {
      assert [c] + s == [c] && [c][..0] == [];
    } else {
      var k := |s| - 1;
      FirstDigit(c, s[..k]);
      assert ([c] + s)[..k + 1] == [c] + s[..k];
    }
  }

  lemma {:induction false} NumeralBelow(s: string)
    requires AllDigitChars(s)
    ensures ToNat(s) < Power(|s|)
  {
    if s != [] {
      NumeralBelow(s[..|s| - 1]);
    }
  }

  lemma NumeralAbove(s: string)
    requires s != [] && AllDigitChars(s) && s[0] != '0'
    ensures ToNat(s) >= Power(|s| - 1)
  {
    FirstDigit(s[0], s[1..]);
    assert s == [s[0]] + s[1..];
    PowerGrows(0, |s| - 1);
    AtLeastOnce(s[0] as int - '0' as int, Power(|s| - 1));
  }

  lemma AtLeastOnce(x: int, y: nat)
    requires x >= 1
    ensures x * y >= y
  {
    assert x * y == (x - 1) * y + y;
  }

  lemma {:induction false} StrippedDigits(s: string)
    requires AllDigitChars(s)
    ensures AllDigitChars(Stripped(s)) && ToNat(Stripped(s)) == ToNat(s)
    ensures Stripped(s) != [] ==> Stripped(s)[0] != '0'
  {
    if s != [] && s[0] == '0' {
      StrippedDigits(s[1..]);
      FirstDigit('0', s[1..]);
      assert s == ['0'] + s[1..];
    }
  }

  lemma {:induction false} SameLengthNumerals(s: string, t: string)
    requires AllDigitChars(s) && AllDigitChars(t) && |s| == |t|
    ensures ToNat(s) == ToNat(t) <==> s == t
    ensures ToNat(s) < ToNat(t) <==> Before(s, t, (c: char, d: char) => c < d)
  {
    if s != [] {
      var k := |s| - 1;
      var less := (c: char, d: char) => c < d;
      SameLengthNumerals(s[..k], t[..k]);
      BeforeSnoc(s, t, less);
      assert s == s[..k] + [s[k]] && t == t[..k] + [t[k]];
    }
  }

  lemma ShorterNumeral(s: string, t: string)
    requires AllDigitChars(s) && AllDigitChars(t) && |s| < |t| && t[0] != '0'
    ensures ToNat(s) < ToNat(t)
  {
    NumeralBelow(s);
    NumeralAbove(t);
    PowerGrows(|s|, |t| - 1);
  }

  /** Numbers are equal and ordered as their numerals are. */
  lemma NumeralOrder(s: string, t: string)
    requires AllDigitChars(s) && AllDigitChars(t)
    ensures ToNat(s) == ToNat(t) <==> SameNumeral(s, t)
    ensures ToNat(s) < ToNat(t) <==> NumeralBefore(s, t)
  {
    StrippedDigits(s);
    StrippedDigits(t);
    var x, y := Stripped(s), Stripped(t);
    if |x| < |y| {
      ShorterNumeral(x, y);
    } else if |y| < |x| {
      ShorterNumeral(y, x);
    } else {
      SameLengthNumerals(x, y);
    }
  }
}
