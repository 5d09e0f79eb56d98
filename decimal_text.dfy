/** The decimal texts that Python's `str()` writes for whole numbers, and
    the digits they are made of. */
module DecimalText {
  import opened PyInt

  function DigitChar(d: nat): (c: char)
    requires d < 10
    ensures IsDigit(c) && c as int - '0' as int == d
  {
    ('0' as int + d) as char
  }

  /** The decimal digits of `n`, as Python's `str(n)` writes them. */
  function Decimal(n: nat): (s: string)
    ensures |s| > 0
    decreases n
  {
    if n < 10 then [DigitChar(n)] else Decimal(n / 10) + [DigitChar(n % 10)]
  }

  lemma {:induction false} DecimalDigits(n: nat)
    ensures forall k :: 0 <= k < |Decimal(n)| ==> IsDigit(Decimal(n)[k])
    ensures DigitCount(Decimal(n)) == |Decimal(n)|
    ensures DigitsValue(Decimal(n)) == n
    decreases n
  {
    if n >= 10 {
      var front := Decimal(n / 10);
      DecimalDigits(n / 10);
      assert (front + [DigitChar(n % 10)])[..|front|] == front;
      DigitCountAppend(front, DigitChar(n % 10));
    }
  }

  /** `n` below 100 written with two digits, as clock times are. */
  function TwoDigits(n: nat): string
    requires n < 100
  {
    [DigitChar(n / 10), DigitChar(n % 10)]
  }

  lemma TwoDigitsNoColon(n: nat)
    requires n < 100
    ensures ':' !in TwoDigits(n)
  {
    assert IsDigit(TwoDigits(n)[0]) && IsDigit(TwoDigits(n)[1]);
  }

  /** The two digits of `n` spell `n`. */
  lemma TwoDigitsValue(n: nat)
    requires n < 100
    ensures |TwoDigits(n)| == 2 && IsDigit(TwoDigits(n)[0]) && IsDigit(TwoDigits(n)[1])
    ensures DigitCount(TwoDigits(n)) == 2 && DigitsValue(TwoDigits(n)) == n
  {
    var d := TwoDigits(n);
    assert d[..1] == [d[0]] && d[..1][..0] == [];
    assert DigitsValue(d[..1]) == n / 10;
    assert d[1..] == [d[1]] && d[1..][1..] == [];
    assert DigitCount(d[1..]) == 1;
  }
}
