/** Decimal rendering of integers, as Go's `%d` verb and strconv.Itoa write
    them: an optional minus sign followed by the digits, no leading zeros. */
module Decimal {

  predicate IsDigit(c: char) {
    '0' <= c <= '9'
  }

  function DigitChar(d: nat): (c: char)
    requires d < 10
    ensures IsDigit(c)
  {
    ('0' as int + d) as char
  }

  function DigitValue(c: char): nat
    requires IsDigit(c)
  {
    (c as int - '0' as int) as nat
  }

  /** The digits of `n`, most significant first. */
  function Digits(n: nat): (s: string)
    ensures 1 <= |s|
    ensures forall i | 0 <= i < |s| :: IsDigit(s[i])
    decreases n
  {
    if n < 10 then [DigitChar(n)] else Digits(n / 10) + [DigitChar(n % 10)]
  }

  /** `%d` of an integer. */
  function Itoa(n: int): string
  {
    if n < 0 then "-" + Digits(-n) else Digits(n)
  }

  /** The value of a string of digits (most significant first). */
  function ParseDigits(s: string): nat
    requires forall i | 0 <= i < |s| :: IsDigit(s[i])
    decreases |s|
  {
    if |s| == 0 then 0 else 10 * ParseDigits(s[..|s| - 1]) + DigitValue(s[|s| - 1])
  }

  /** strconv.Atoi restricted to what Itoa writes. */
  function Atoi(s: string): int
    requires 1 <= |s|
    requires s[0] == '-' || IsDigit(s[0])
    requires forall i | 1 <= i < |s| :: IsDigit(s[i])
  {
    if s[0] == '-' then 0 - ParseDigits(s[1..]) as int else ParseDigits(s)
  }

  /** Reading the digits back gives the number. */
  lemma {:induction false} ParseDigitsOfDigits(n: nat)
    ensures ParseDigits(Digits(n)) == n
    decreases n
  {
    if n >= 10 {
      var s := Digits(n);
      assert s[..|s| - 1] == Digits(n / 10);
      ParseDigitsOfDigits(n / 10);
    } else {
      assert DigitValue(DigitChar(n)) == n;
    }
  }

  /** The rendering starts with a digit or a minus sign and continues with
      digits only, and it is lossless. */
  lemma ItoaShape(n: int)
    ensures 1 <= |Itoa(n)|
    ensures Itoa(n)[0] == '-' || IsDigit(Itoa(n)[0])
    ensures forall i | 1 <= i < |Itoa(n)| :: IsDigit(Itoa(n)[i])
    ensures IsDigit(Itoa(n)[|Itoa(n)| - 1])
    ensures Atoi(Itoa(n)) == n
  {
    if n < 0 {
      AtoiMinus(Digits(-n));
    }
    ParseDigitsOfDigits(if n < 0 then -n else n);
  }

  /** A minus sign in front of digits reads as the negated digits. */
  lemma AtoiMinus(d: string)
    requires 1 <= |d|
    requires forall i | 0 <= i < |d| :: IsDigit(d[i])
    ensures forall i | 1 <= i < |"-" + d| :: IsDigit(("-" + d)[i])
    ensures Atoi("-" + d) == 0 - ParseDigits(d)
  {
    var s := "-" + d;
    assert s[1..] == d;
    assert forall i | 1 <= i < |s| :: s[i] == d[i - 1];
  }
}
