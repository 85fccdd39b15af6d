/**
 Decimal text of integers: the rendering JavaScript uses when a number is
 concatenated to a string, the zero padding `toString` applies to minutes and
 seconds, and the `parseInt` reading of a field made of decimal digits.
 */
module Decimal {

  predicate IsDigit(c: char) {
    '0' <= c <= '9'
  }

  /** A non-empty run of decimal digits: the only fields this model parses. */
  predicate IsDigits(s: string) {
    |s| > 0 && AllDigits(s)
  }

  predicate AllDigits(s: string) {
    forall i :: 0 <= i < |s| ==> IsDigit(s[i])
  }

  function DigitChar(d: nat): (c: char)
    requires d < 10
    ensures IsDigit(c) && DigitValue(c) == d
  {
    ('0' as int + d) as char
  }

  function DigitValue(c: char): nat
    requires IsDigit(c)
  {
    c as int - '0' as int
  }

  /** Decimal digits of `n`, most significant first, without leading zeros. */
  function ShowNat(n: nat): (s: string)
    ensures IsDigits(s)
    ensures |s| == 1 <==> n < 10
    ensures s[0] == '0' ==> n == 0
    decreases n
  {
    if n < 10 then [DigitChar(n)] else ShowNat(n / 10) + [DigitChar(n % 10)]
  }

  /**
   `parseInt` of a digit run: the value read most significant digit first.
   A run whose first digit is not `0` reads as a positive number, so only a
   run starting with `0` can read as the falsy 0.
   */
  function ParseNat(s: string): (r: nat)
    requires AllDigits(s)
    ensures |s| > 0 && s[0] != '0' ==> r > 0
    decreases |s|
  {
    if |s| == 0 then 0
    else
      var init := s[..|s| - 1];
      assert |init| > 0 ==> init[0] == s[0];
      ParseNat(init) * 10 + DigitValue(s[|s| - 1])
  }

  /**
   JavaScript's text for an integer-valued number of magnitude below 10^21;
   larger numbers print in exponent notation, which is not modelled.
   */
  function ShowInt(n: int): (s: string)
    ensures 0 <= n ==> s == ShowNat(n)
    ensures |s| > 0 && (s[0] == '-' <==> n < 0)
  {
    if n < 0 then "-" + ShowNat(-n) else ShowNat(n)
  }

  /** `if (x < 10) x = '0' + x`: a single leading zero below ten. */
  function Pad2(n: int): (s: string)
    ensures 0 <= n < 100 ==> |s| == 2 && IsDigits(s)
    ensures 10 <= n ==> s == ShowNat(n)
  {
    if n < 10 then "0" + ShowInt(n) else ShowInt(n)
  }

  /** Reading back the decimal text of a natural number gives the number. */
  lemma {:induction false} ParseShow(n: nat)
    ensures ParseNat(ShowNat(n)) == n
    decreases n
  {
    if n >= 10 {
      var s := ShowNat(n / 10);
      var c := DigitChar(n % 10);
      assert (s + [c])[..|s|] == s;
      ParseShow(n / 10);
    }
  }

  /** A leading zero does not change the value read. */
  lemma {:induction false} ParseLeadingZero(s: string)
    requires AllDigits(s)
    ensures AllDigits("0" + s) && ParseNat("0" + s) == ParseNat(s)
    decreases |s|
  {
    var z := "0" + s;
    assert AllDigits(z) by {
      forall i | 0 <= i < |z| ensures IsDigit(z[i]) {
        if i > 0 { assert z[i] == s[i - 1]; }
      }
    }
    if |s| == 0 {
      assert z[..0] == [];
    } else {
      var init := s[..|s| - 1];
      assert z[..|z| - 1] == "0" + init;
      assert z[|z| - 1] == s[|s| - 1];
      ParseLeadingZero(init);
    }
  }

  /** A digit run holds neither of the separators the clock texts use. */
  lemma DigitsLack(s: string)
    requires IsDigits(s)
    ensures ':' !in s && '-' !in s
  {
  }

  /** The padded text of a natural number is all digits and reads back as the number. */
  lemma Pad2Parse(n: nat)
    ensures IsDigits(Pad2(n)) && ParseNat(Pad2(n)) == n
  {
    ParseShow(n);
    if n < 10 {
      ParseLeadingZero(ShowNat(n));
    }
  }
}
