/** Numbers in decimal notation, and the numbers that runs of digits stand for. */
module Digits {

  function DigitChar(d: nat): char
    requires d < 10
  {
    '0' + d as char
  }

  function Decimal(n: nat): string {
    if n < 10 then [DigitChar(n)] else Decimal(n / 10) + [DigitChar(n % 10)]
  }

  predicate IsDigit(c: char) {
    '0' <= c <= '9'
  }

  function Value(c: char): nat
    requires IsDigit(c)
  {
    (c - '0') as nat
  }

  lemma {:induction false} DecimalDigits(n: nat)
    ensures forall c <- Decimal(n) :: IsDigit(c)
  {
    if n < 10 {
    } else {
      DecimalDigits(n / 10);
    }
  }

  lemma DigitValue(d: nat)
    requires d < 10
    ensures IsDigit(DigitChar(d)) && Value(DigitChar(d)) == d
  {
  }

  /** The number a run of digits stands for. */
  function Number(s: string): nat
    requires forall c <- s :: IsDigit(c)
  {
    if s == "" then 0 else 10 * Number(s[..|s| - 1]) + Value(s[|s| - 1])
  }

  lemma {:induction false} NumberOfDecimal(n: nat)
    ensures forall c <- Decimal(n) :: IsDigit(c)
    ensures Number(Decimal(n)) == n
  {
    var s := Decimal(n);
    DecimalDigits(n);
    DigitValue(n % 10);
    if n >= 10 {
      NumberOfDecimal(n / 10);
      assert s[..|s| - 1] == Decimal(n / 10);
    } else {
      assert s[..0] == "";
    }
  }

  lemma {:induction false} NumberZero(s: string)
    requires forall c <- s :: IsDigit(c)
    ensures Number("0" + s) == Number(s)
  {
    if s == "" {
      assert ("0")[..0] == "";
    } else {
      assert ("0" + s)[..|s|] == "0" + s[..|s| - 1];
      NumberZero(s[..|s| - 1]);
    }
  }
}
