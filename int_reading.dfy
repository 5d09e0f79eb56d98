/** What `int()` reads from the texts `str()` writes, and the whitespace it
    ignores around them. */
module IntReading {
  import opened Wrappers
  import opened PyText
  import opened PyInt
  import opened DecimalText

  /** `int()` reads a plain run of digits, with or without a minus sign. */
  lemma PlainDigits(d: string)
    requires |d| > 0 && forall k :: 0 <= k < |d| ==> IsDigit(d[k])
    requires DigitCount(d) <= MaxStrDigits
    ensures ParseInt(d) == Some(DigitsValue(d) as int)
    ensures ParseInt("-" + d) == Some(-(DigitsValue(d) as int))
  {
    UnpaddedDigits(d);
    UnpaddedNegative(d);
    SignedDigits(d);
  }

  /** `int()` reads a digit run after a plus sign as its value. */
  lemma PlusDigits(d: string)
    requires IsDigitRun(d) && DigitCount(d) <= MaxStrDigits
    ensures ParseInt("+" + d) == Some(DigitsValue(d) as int)
  {
    var m := "+" + d;
    assert m[0] == '+' && m[|m| - 1] == d[|d| - 1];
    NoPadding(m);
    PositiveRun(d);
  }

  lemma UnpaddedDigits(d: string)
    requires |d| > 0 && IsDigit(d[0]) && IsDigit(d[|d| - 1])
    ensures ParseInt(d) == ParseSigned(d)
  {
    NoPadding(d);
  }

  lemma UnpaddedNegative(d: string)
    requires |d| > 0 && IsDigit(d[|d| - 1])
    ensures ParseInt("-" + d) == ParseSigned("-" + d)
  {
    var m := "-" + d;
    assert m[0] == '-' && m[|m| - 1] == d[|d| - 1];
    NoPadding(m);
  }

  /** `int()` refuses a text holding a character that is no digit, no
      underscore, no sign and no whitespace to it, such as `1.5` or `1a`. */
  lemma NonNumericRefused(s: string, k: nat)
    requires k < |s|
    requires !IsDigit(s[k]) && s[k] != '_' && s[k] != '-' && s[k] != '+' && !IsIntSpace(s[k])
    ensures ParseInt(s).None?
  {
    var i := StripKeeps(s, IsIntSpace, k);
    var t := Strip(s, IsIntSpace);
    assert ParseInt(s) == ParseSigned(t);
    assert t[i] == s[k];
  }

  /** `int()` accepts an underscore only between two digits, so `1__0`,
      `-_1`, `_1` and `1_` are refused. */
  lemma MisplacedUnderscoreRefused(s: string, i: nat)
    requires i < |s| && s[i] == '_'
    requires !(0 < i < |s| - 1 && IsDigit(s[i - 1]) && IsDigit(s[i + 1]))
    ensures ParseInt(s).None?
  {
    var t := Strip(s, IsIntSpace);
    var j := StripKeeps(s, IsIntSpace, i);
    UnderscoreBetweenDigits(t, j);
    if 0 < j < |t| - 1 {
      assert t[j - 1] == s[i - 1] && t[j + 1] == s[i + 1];
    }
    assert ParseInt(s) == ParseSigned(t);
  }

  /** `int()` refuses a text with more than `MaxStrDigits` digits. */
  lemma TooManyDigitsRefused(s: string)
    requires DigitCount(s) > MaxStrDigits
    ensures ParseInt(s).None?
  {
    var t := Strip(s, IsIntSpace);
    StripDigits(s);
    assert DigitCount(Unsigned(t)) == DigitCount(t);
  }

  /** Stripping whitespace keeps every digit. */
  lemma StripDigits(s: string)
    ensures DigitCount(Strip(s, IsIntSpace)) == DigitCount(s)
  {
    TrimStartDigits(s);
    TrimEndDigits(TrimStart(s, IsIntSpace));
  }

  lemma TrimStartDigits(s: string)
    ensures DigitCount(TrimStart(s, IsIntSpace)) == DigitCount(s)
  {
    var t := TrimStart(s, IsIntSpace);
    var off := |s| - |t|;
    assert s == s[..off] + t;
    DigitCountConcat(s[..off], t);
    SpacesHaveNoDigits(s[..off]);
  }

  lemma TrimEndDigits(s: string)
    ensures DigitCount(TrimEnd(s, IsIntSpace)) == DigitCount(s)
  {
    var t := TrimEnd(s, IsIntSpace);
    assert s == t + s[|t|..];
    DigitCountConcat(t, s[|t|..]);
    SpacesHaveNoDigits(s[|t|..]);
  }

  lemma SpacesHaveNoDigits(w: string)
    requires forall k :: 0 <= k < |w| ==> IsIntSpace(w[k])
    ensures DigitCount(w) == 0
  {
    forall k | 0 <= k < |w|
      ensures !IsDigit(w[k])
    {
      assert IsSpace(w[k]);
    }
    NoDigits(w);
  }

  /** A text whose ends are not whitespace is its own strip. */
  lemma NoPadding(t: string)
    requires |t| > 0 && !IsIntSpace(t[0]) && !IsIntSpace(t[|t| - 1])
    ensures Strip(t, IsIntSpace) == t
  {
    StripPadding("", t, "", IsIntSpace);
    assert "" + t + "" == t;
  }

  /** `int()` ignores whitespace around the number: ` 07 ` reads as `07`. */
  lemma ParseIntPadding(lead: string, core: string, trail: string)
    requires forall k :: 0 <= k < |lead| ==> IsIntSpace(lead[k])
    requires forall k :: 0 <= k < |trail| ==> IsIntSpace(trail[k])
    requires |core| > 0 && !IsIntSpace(core[0]) && !IsIntSpace(core[|core| - 1])
    ensures ParseInt(lead + core + trail) == ParseInt(core)
  {
    StripPadding(lead, core, trail, IsIntSpace);
    NoPadding(core);
  }

  /** `int()` reads back what `str()` writes, with or without a minus sign. */
  lemma ParseIntDecimal(n: nat)
    requires |Decimal(n)| <= MaxStrDigits
    ensures ParseInt(Decimal(n)) == Some(n)
    ensures ParseInt("-" + Decimal(n)) == Some(-(n as int))
  {
    DecimalDigits(n);
    DigitsRead(Decimal(n), n);
  }

  /** A run of digits that spells `n` reads as `n`, and with a minus sign
      as `-n`. */
  lemma DigitsRead(d: string, n: nat)
    requires |d| > 0 && forall k :: 0 <= k < |d| ==> IsDigit(d[k])
    requires DigitCount(d) <= MaxStrDigits && DigitsValue(d) == n
    ensures ParseInt(d) == Some(n)
    ensures ParseInt("-" + d) == Some(-(n as int))
  {
    DigitsReadPlain(d, n);
    DigitsReadNegative(d, n);
  }

  lemma DigitsReadPlain(d: string, n: nat)
    requires |d| > 0 && forall k :: 0 <= k < |d| ==> IsDigit(d[k])
    requires DigitCount(d) <= MaxStrDigits && DigitsValue(d) == n
    ensures ParseInt(d) == Some(n)
  {
    PlainDigits(d);
  }

  lemma DigitsReadNegative(d: string, n: nat)
    requires |d| > 0 && forall k :: 0 <= k < |d| ==> IsDigit(d[k])
    requires DigitCount(d) <= MaxStrDigits && DigitsValue(d) == n
    ensures ParseInt("-" + d) == Some(-(n as int))
  {
    UnpaddedNegative(d);
    SignedRead(d, n);
  }

  lemma SignedRead(d: string, n: nat)
    requires |d| > 0 && forall k :: 0 <= k < |d| ==> IsDigit(d[k])
    requires DigitCount(d) <= MaxStrDigits && n == DigitsValue(d)
    ensures ParseSigned("-" + d) == Some(-(n as int))
  {
    SignedDigits(d);
  }

  /** `int()` reads a two-digit field, leading zero included. */
  lemma ParseIntTwoDigits(n: nat)
    requires n < 100
    ensures ParseInt(TwoDigits(n)) == Some(n)
  {
    TwoDigitsValue(n);
    DigitsRead(TwoDigits(n), n);
  }
}
