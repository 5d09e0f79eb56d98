/** Python's `int()` applied to a text, and the decimal texts it reads
    back. */
module PyInt {
  import opened Wrappers
  import opened PyText

  predicate IsDigit(c: char)
  {
    '0' <= c <= '9'
  }

  /** Decimal digits in which single underscores may stand between two
      digits: what `int()` accepts after the sign. */
  predicate IsDigitRun(s: string)
  {
    && |s| > 0 && IsDigit(s[0]) && IsDigit(s[|s| - 1])
    && (forall k :: 0 <= k < |s| ==> IsDigit(s[k]) || s[k] == '_')
    && (forall i, j :: 0 <= i < |s| && j == i + 1 && j < |s| && s[i] == '_' ==> s[j] != '_')
  }

  /** How many digits `s` holds, underscores not counted. */
  function DigitCount(s: string): nat
  {
    if |s| == 0 then 0 else (if IsDigit(s[0]) then 1 else 0) + DigitCount(s[1..])
  }

  /** The number the digits of `s` spell, underscores skipped. */
  function DigitsValue(s: string): nat
    decreases |s|
  {
    if |s| == 0 then 0
    else if IsDigit(s[|s| - 1]) then DigitsValue(s[..|s| - 1]) * 10 + (s[|s| - 1] as int - '0' as int)
    else DigitsValue(s[..|s| - 1])
  }

  /** The most digits `int()` converts from a decimal string: CPython's
      default limit in 3.11 and in 3.10 from its 3.10.7 security release.
      Longer strings raise `ValueError`. */
  const MaxStrDigits: nat := 4300

  /** Python's `int(s)`; `None` where it raises `ValueError`. */
  function ParseInt(s: string): (r: Option<int>)
    ensures (forall k :: 0 <= k < |s| ==> IsIntSpace(s[k])) ==> r.None?
  {
    ParseSigned(Strip(s, IsIntSpace))
  }

  /** The text after an optional leading sign. */
  function Unsigned(t: string): string
  {
    if |t| > 0 && (t[0] == '-' || t[0] == '+') then t[1..] else t
  }

  /** `int()` once the surrounding whitespace is gone: an optional sign, then
      a digit run of at most `MaxStrDigits` digits. */
  function ParseSigned(t: string): (r: Option<int>)
    ensures r.Some? ==> |t| > 0 && (IsDigit(t[0]) || t[0] == '-' || t[0] == '+')
    ensures r.Some? && t[0] == '-' ==> r.value <= 0
    ensures r.Some? && t[0] != '-' ==> r.value >= 0
    ensures r.Some? ==> IsDigit(t[|t| - 1])
    ensures r.Some? ==> forall k :: 0 < k < |t| ==> IsDigit(t[k]) || t[k] == '_'
    ensures r.Some? ==> IsDigitRun(Unsigned(t)) && DigitCount(Unsigned(t)) <= MaxStrDigits
  {
    var digits := Unsigned(t);
    if IsDigitRun(digits) && DigitCount(digits) <= MaxStrDigits then
      Some(if |t| > 0 && t[0] == '-' then -(DigitsValue(digits) as int) else DigitsValue(digits))
    else None
  }

  lemma {:induction false} DigitCountAppend(s: string, c: char)
    ensures DigitCount(s + [c]) == DigitCount(s) + (if IsDigit(c) then 1 else 0)
    decreases |s|
  {
    if |s| > 0 {
      assert (s + [c])[1..] == s[1..] + [c];
      DigitCountAppend(s[1..], c);
    }
  }

  lemma {:induction false} DigitCountConcat(a: string, b: string)
    ensures DigitCount(a + b) == DigitCount(a) + DigitCount(b)
    decreases |a|
  {
    if |a| > 0 {
      assert (a + b)[0] == a[0] && (a + b)[1..] == a[1..] + b;
      DigitCountConcat(a[1..], b);
    } else {
      assert a + b == b;
    }
  }

  /** A text without digits counts none. */
  lemma {:induction false} NoDigits(s: string)
    requires forall k :: 0 <= k < |s| ==> !IsDigit(s[k])
    ensures DigitCount(s) == 0
    decreases |s|
  {
    if |s| > 0 {
      NoDigits(s[1..]);
    }
  }

  lemma SignedDigits(d: string)
    requires |d| > 0 && forall k :: 0 <= k < |d| ==> IsDigit(d[k])
    requires DigitCount(d) <= MaxStrDigits
    ensures ParseSigned(d) == Some(DigitsValue(d) as int)
    ensures ParseSigned("-" + d) == Some(-(DigitsValue(d) as int))
  {
    DigitsAreRun(d);
    UnsignedRun(d);
    NegativeRun(d);
  }

  lemma DigitsAreRun(d: string)
    requires |d| > 0 && forall k :: 0 <= k < |d| ==> IsDigit(d[k])
    ensures IsDigitRun(d)
  {
  }

  lemma UnsignedRun(d: string)
    requires IsDigitRun(d) && DigitCount(d) <= MaxStrDigits
    ensures ParseSigned(d) == Some(DigitsValue(d) as int)
  {
  }

  lemma NegativeRun(d: string)
    requires IsDigitRun(d) && DigitCount(d) <= MaxStrDigits
    ensures ParseSigned("-" + d) == Some(-(DigitsValue(d) as int))
  {
    assert ("-" + d)[1..] == d;
  }

  /** In a text `int()` accepts, an underscore stands between two digits. */
  lemma UnderscoreBetweenDigits(t: string, j: nat)
    requires j < |t| && t[j] == '_'
    ensures ParseSigned(t).Some? ==> 0 < j < |t| - 1 && IsDigit(t[j - 1]) && IsDigit(t[j + 1])
  {
    var d := Unsigned(t);
    var o := |t| - |d|;
    assert d == t[o..];
    if 0 < j && o < j {
      assert d[j - 1 - o] == t[j - 1];
    }
    if j + 1 < |t| && o <= j {
      assert d[j - o] == t[j] && d[j + 1 - o] == t[j + 1];
    }
  }

  /** A plus sign changes nothing: `int("+7")` is 7. */
  lemma PositiveRun(d: string)
    requires IsDigitRun(d) && DigitCount(d) <= MaxStrDigits
    ensures ParseSigned("+" + d) == Some(DigitsValue(d) as int)
  {
    assert ("+" + d)[1..] == d;
  }

}
