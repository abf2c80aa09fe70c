/** Decimal numerals, and hexadecimal digits. */
module Decimals {
  import opened Basics

  predicate IsDigit(c: bv8) { 0x30 <= c <= 0x39 }

  function Digit(c: bv8): (d: nat)
    requires IsDigit(c)
    ensures d <= 9
  {
    DigitIsSmall(c);
    (c - 0x30) as nat
  }

  lemma {:induction false} DigitIsSmall(c: bv8)
    requires IsDigit(c)
    ensures (c - 0x30) as nat <= 9
  {
    assert c - 0x30 <= 9;
  }

  function Letter(d: nat): (c: bv8)
    requires d < 10
  {
    if d == 0 then 0x30 else if d == 1 then 0x31 else if d == 2 then 0x32 else if d == 3 then 0x33
    else if d == 4 then 0x34 else if d == 5 then 0x35 else if d == 6 then 0x36 else if d == 7 then 0x37
    else if d == 8 then 0x38 else 0x39
  }

  function Numeral(n: nat): (s: Bytes)
    ensures |s| > 0
  {
    if n < 10 then [Letter(n)] else Numeral(n / 10) + [Letter(n % 10)]
  }

  /** A numeral has no leading zeros. */
  lemma {:induction false} NumeralIsDigits(n: nat)
    ensures forall i | 0 <= i < |Numeral(n)| :: IsDigit(Numeral(n)[i])
    ensures Numeral(n)[0] == 0x30 <==> n == 0
    decreases n
  {
    if n >= 10 {
      NumeralIsDigits(n / 10);
      LetterIsDigit(n % 10);
    } else {
      LetterIsDigit(n);
    }
  }

  lemma {:induction false} LetterIsDigit(d: nat)
    requires d < 10
    ensures IsDigit(Letter(d)) && Digit(Letter(d)) == d && (Letter(d) == 0x30 <==> d == 0)
  {}

  /** Different numbers have different numerals. */
  lemma {:induction false} NumeralIsInjective(m: nat, n: nat)
    requires Numeral(m) == Numeral(n)
    ensures m == n
    decreases m
  {
    var s := Numeral(m);
    var last := s[|s| - 1];
    if m >= 10 && n >= 10 {
      assert s[..|s| - 1] == Numeral(m / 10) == Numeral(n / 10);
      NumeralIsInjective(m / 10, n / 10);
      LetterIsInjective(m % 10, n % 10);
    } else if m < 10 && n < 10 {
      LetterIsInjective(m, n);
    }
  }

  lemma {:induction false} LetterIsInjective(d: nat, e: nat)
    requires d < 10 && e < 10 && Letter(d) == Letter(e)
    ensures d == e
  {}

  /** The value of a hexadecimal digit of either case. */
  function HexDigit(c: bv8): Option<bv8> {
    if 0x30 <= c <= 0x39 then Some(c - 0x30)
    else if 0x41 <= c <= 0x46 then Some(c - 0x37)
    else if 0x61 <= c <= 0x66 then Some(c - 0x57)
    else None
  }
}
