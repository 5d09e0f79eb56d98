/** `_parse_time_fraction`: a clock time `HH:MM` or `HH:MM:SS` as a position
    in the day. The builder divides the seconds by 86400 in floating point;
    here a time is kept as whole seconds and its fraction is exact. Dividing
    distinct whole numbers up to 86400 by 86400 in double precision keeps them
    distinct and in order, so every comparison the builder makes comes out
    the same. */
module TimeParser {
  import opened Wrappers
  import opened Errors
  import opened PyText
  import opened PyInt
  import opened DecimalText
  import opened IntReading

  const SecondsPerDay: nat := 86400

  /** Seconds since midnight; 86400 is the end-of-day time `24:00`. */
  type DaySeconds = s: nat | s <= SecondsPerDay

  /** The fraction of the day that `seconds` marks. */
  function DayFraction(seconds: DaySeconds): (f: real)
    ensures 0.0 <= f <= 1.0
    ensures f == 1.0 <==> seconds == SecondsPerDay
  {
    seconds as real / SecondsPerDay as real
  }

  /** The hour, minute and second numbers of `text` (a missing second is 0),
      or why there are none. */
  function Fields(text: string): (r: Result<(int, int, int), BuildError>)
    ensures Occurrences(text, ':') != 1 && Occurrences(text, ':') != 2 ==> r == Failure(TimeFormat(text))
    ensures r.Failure? ==> r == Failure(TimeFormat(text)) || r == Failure(TimeNumbers(text))
    ensures r.Success? && Occurrences(text, ':') == 1 ==> r.value.2 == 0
    ensures var parts := Split(text, ':');
      |parts| == 2 || |parts| == 3 ==>
        && (r.Success? <==>
              ParseInt(parts[0]).Some? && ParseInt(parts[1]).Some? && (|parts| == 3 ==> ParseInt(parts[2]).Some?))
        && (r.Failure? ==> r == Failure(TimeNumbers(text)))
    ensures var parts := Split(text, ':');
      r.Success? && |parts| == 3 ==>
        r.value == (ParseInt(parts[0]).value, ParseInt(parts[1]).value, ParseInt(parts[2]).value)
    ensures var parts := Split(text, ':');
      r.Success? && |parts| == 2 ==> r.value == (ParseInt(parts[0]).value, ParseInt(parts[1]).value, 0)
  {
    var parts := Split(text, ':');
    if |parts| != 2 && |parts| != 3 then Failure(TimeFormat(text))
    else
      var hours := ParseInt(parts[0]);
      var minutes := ParseInt(parts[1]);
      var seconds := if |parts| == 3 then ParseInt(parts[2]) else Some(0);
      if hours.Some? && minutes.Some? && seconds.Some? then
        Success((hours.value, minutes.value, seconds.value))
      else Failure(TimeNumbers(text))
  }

  /** `_parse_time_fraction`: the seconds since midnight that `text` names. */
  function ParseTime(text: string): (r: Result<DaySeconds, BuildError>)
    ensures Occurrences(text, ':') != 1 && Occurrences(text, ':') != 2 ==> r == Failure(TimeFormat(text))
    ensures r == Success(SecondsPerDay) <==> Fields(text) == Success((24, 0, 0))
    ensures r.Success? && r.value < SecondsPerDay ==>
      Fields(text).Success? && var (h, m, s) := Fields(text).value;
      0 <= h < 24 && 0 <= m < 60 && 0 <= s < 60 && r.value == h * 3600 + m * 60 + s
    ensures Fields(text).Failure? ==> r == Failure(Fields(text).error)
    ensures Fields(text).Success? && Fields(text).value != (24, 0, 0) && !(0 <= Fields(text).value.0 < 24) ==>
      r == Failure(HourOutOfRange(text))
    ensures Fields(text).Success? ==> var (h, m, s) := Fields(text).value;
      0 <= h < 24 && !(0 <= m < 60 && 0 <= s < 60) ==> r == Failure(MinuteSecondOutOfRange(text))
  {
    match Fields(text)
    case Failure(e) => Failure(e)
    case Success(fields) => FromFields(text, fields.0, fields.1, fields.2)
  }

  /** The range checks on the fields of `text`, with `24:00:00` let through
      ahead of them. */
  function FromFields(text: string, h: int, m: int, s: int): (r: Result<DaySeconds, BuildError>)
    ensures r.Success? <==> (h, m, s) == (24, 0, 0) || (0 <= h < 24 && 0 <= m < 60 && 0 <= s < 60)
    ensures r == Success(SecondsPerDay) <==> (h, m, s) == (24, 0, 0)
    ensures r.Success? && r.value < SecondsPerDay ==>
      0 <= h < 24 && 0 <= m < 60 && 0 <= s < 60 && r.value == h * 3600 + m * 60 + s
    ensures (h, m, s) != (24, 0, 0) && !(0 <= h < 24) ==> r == Failure(HourOutOfRange(text))
    ensures 0 <= h < 24 && !(0 <= m < 60 && 0 <= s < 60) ==> r == Failure(MinuteSecondOutOfRange(text))
  {
    if h == 24 && m == 0 && s == 0 then Success(SecondsPerDay)
    else if !(0 <= h < 24) then Failure(HourOutOfRange(text))
    else if !(0 <= m < 60) || !(0 <= s < 60) then Failure(MinuteSecondOutOfRange(text))
    else Success(h * 3600 + m * 60 + s)
  }

  /** A clock reading written `HH:MM:SS`. */
  function Clock(h: nat, m: nat, s: nat): string
    requires h < 100 && m < 100 && s < 100
  {
    TwoDigits(h) + ":" + TwoDigits(m) + ":" + TwoDigits(s)
  }

  /** A clock reading written `HH:MM`. */
  function ClockHM(h: nat, m: nat): string
    requires h < 100 && m < 100
  {
    TwoDigits(h) + ":" + TwoDigits(m)
  }

  /** The fields of a text that splits into three numbers. */
  lemma FieldsOfThree(text: string, a: string, b: string, c: string)
    requires Split(text, ':') == [a, b, c]
    requires ParseInt(a).Some? && ParseInt(b).Some? && ParseInt(c).Some?
    ensures Fields(text) == Success((ParseInt(a).value, ParseInt(b).value, ParseInt(c).value))
  {
  }

  /** The fields of a text that splits into two numbers. */
  lemma FieldsOfTwo(text: string, a: string, b: string)
    requires Split(text, ':') == [a, b]
    requires ParseInt(a).Some? && ParseInt(b).Some?
    ensures Fields(text) == Success((ParseInt(a).value, ParseInt(b).value, 0))
  {
  }

  lemma JoinThree(a: string, b: string, c: string, sep: char)
    ensures Join([a, b, c], sep) == a + [sep] + b + [sep] + c
  {
    assert [a, b, c][1..] == [b, c];
    JoinTwo(b, c, sep);
    assert a + [sep] + (b + [sep] + c) == a + [sep] + b + [sep] + c;
  }

  lemma JoinTwo(a: string, b: string, sep: char)
    ensures Join([a, b], sep) == a + [sep] + b
  {
    assert [a, b][1..] == [b];
  }

  lemma FieldsOfClock(h: nat, m: nat, s: nat)
    requires h < 100 && m < 100 && s < 100
    ensures Fields(Clock(h, m, s)) == Success((h, m, s))
    ensures Fields(ClockHM(h, m)) == Success((h, m, 0))
  {
    FieldsOfClockHMS(h, m, s);
    FieldsOfClockHM(h, m);
  }

  lemma FieldsOfClockHMS(h: nat, m: nat, s: nat)
    requires h < 100 && m < 100 && s < 100
    ensures Fields(Clock(h, m, s)) == Success((h, m, s))
  {
    var hh, mm, ss := TwoDigits(h), TwoDigits(m), TwoDigits(s);
    TwoDigitsNoColon(h);
    TwoDigitsNoColon(m);
    TwoDigitsNoColon(s);
    SplitThree(hh, mm, ss);
    assert Split(Clock(h, m, s), ':') == [hh, mm, ss];
    ParseIntTwoDigits(h);
    ParseIntTwoDigits(m);
    ParseIntTwoDigits(s);
    FieldsOfThree(Clock(h, m, s), hh, mm, ss);
  }

  lemma FieldsOfClockHM(h: nat, m: nat)
    requires h < 100 && m < 100
    ensures Fields(ClockHM(h, m)) == Success((h, m, 0))
  {
    var hh, mm := TwoDigits(h), TwoDigits(m);
    TwoDigitsNoColon(h);
    TwoDigitsNoColon(m);
    SplitHM(hh, mm);
    assert Split(ClockHM(h, m), ':') == [hh, mm];
    ParseIntTwoDigits(h);
    ParseIntTwoDigits(m);
    FieldsOfTwo(ClockHM(h, m), hh, mm);
  }

  /** Every clock time of the day parses to its seconds since midnight,
      written with or without seconds. */
  lemma ClockRoundTrip(h: nat, m: nat, s: nat)
    requires h < 24 && m < 60 && s < 60
    ensures ParseTime(Clock(h, m, s)).Success? && ParseTime(Clock(h, m, s)).value == h * 3600 + m * 60 + s
    ensures ParseTime(ClockHM(h, m)).Success? && ParseTime(ClockHM(h, m)).value == h * 3600 + m * 60
  {
    FieldsOfClock(h, m, s);
    InRange(Clock(h, m, s), h, m, s);
    InRange(ClockHM(h, m), h, m, 0);
  }

  /** Fields within the clock's ranges give their seconds since midnight. */
  lemma InRange(text: string, h: int, m: int, s: int)
    requires Fields(text) == Success((h, m, s))
    requires 0 <= h < 24 && 0 <= m < 60 && 0 <= s < 60
    ensures ParseTime(text).Success? && ParseTime(text).value == h * 3600 + m * 60 + s
  {
  }

  /** `24:00` and `24:00:00` are the end of the day, fraction exactly 1. */
  lemma EndOfDay()
    ensures ParseTime("24:00").Success? && ParseTime("24:00").value == SecondsPerDay
    ensures ParseTime("24:00:00").Success? && ParseTime("24:00:00").value == SecondsPerDay
    ensures DayFraction(SecondsPerDay) == 1.0
  {
    EndOfDayFields();
    Sentinel("24:00");
    Sentinel("24:00:00");
  }

  lemma EndOfDayFields()
    ensures Fields("24:00") == Success((24, 0, 0))
    ensures Fields("24:00:00") == Success((24, 0, 0))
  {
    EndOfDayFieldsHM();
    EndOfDayFieldsHMS();
  }

  lemma EndOfDayFieldsHM()
    ensures Fields("24:00") == Success((24, 0, 0))
  {
    FieldsOfClockHM(24, 0);
    EndOfDayClockHM();
  }

  lemma EndOfDayClockHM()
    ensures ClockHM(24, 0) == "24:00"
  {
    assert TwoDigits(24) == "24" && TwoDigits(0) == "00";
  }

  lemma EndOfDayFieldsHMS()
    ensures Fields("24:00:00") == Success((24, 0, 0))
  {
    FieldsOfClockHMS(24, 0, 0);
    EndOfDayClock();
  }

  lemma EndOfDayClock()
    ensures Clock(24, 0, 0) == "24:00:00"
  {
    assert TwoDigits(24) == "24" && TwoDigits(0) == "00";
  }

  lemma Sentinel(text: string)
    requires Fields(text) == Success((24, 0, 0))
    ensures ParseTime(text).Success? && ParseTime(text).value == SecondsPerDay
  {
  }

  /** Texts with the same fields parse to the same time. */
  lemma SameFields(a: string, b: string)
    requires Fields(a).Success? && Fields(b).Success? && Fields(a).value == Fields(b).value
    ensures ParseTime(a).Success? <==> ParseTime(b).Success?
    ensures ParseTime(a).Success? ==> ParseTime(a).value == ParseTime(b).value
  {
    var f := Fields(a).value;
    assert ParseTime(a) == FromFields(a, f.0, f.1, f.2);
    assert ParseTime(b) == FromFields(b, f.0, f.1, f.2);
  }

  /** The clock reading that a number of seconds before midnight stands for. */
  function ClockOf(seconds: nat): (nat, nat, nat)
  {
    (seconds / 3600, seconds % 3600 / 60, seconds % 60)
  }

  /** Seconds since midnight determine the clock reading they came from, so
      two different times of the day never parse to the same fraction. */
  lemma {:induction false} ClockOfSeconds(h: nat, m: nat, s: nat)
    requires h < 24 && m < 60 && s < 60
    ensures ClockOf(h * 3600 + m * 60 + s) == (h, m, s)
  {
    var v := h * 3600 + m * 60 + s;
    assert 0 <= m * 60 + s < 3600;
    assert v / 3600 == h;
    assert v % 3600 == m * 60 + s;
    assert (m * 60 + s) / 60 == m;
    assert v % 60 == s;
  }

  /** A time parsed from `HH:MM` is the one parsed from `HH:MM:00`: the
      seconds field defaults to zero. */
  lemma MissingSecondsAreZero(hh: string, mm: string)
    requires ':' !in hh && ':' !in mm
    ensures ParseTime(hh + ":" + mm).Success? <==> ParseTime(hh + ":" + mm + ":00").Success?
    ensures ParseTime(hh + ":" + mm).Success? ==>
      ParseTime(hh + ":" + mm).value == ParseTime(hh + ":" + mm + ":00").value
  {
    var short, long := hh + ":" + mm, hh + ":" + mm + ":00";
    SplitHM(hh, mm);
    SplitHMZero(hh, mm);
    if ParseInt(hh).Some? && ParseInt(mm).Some? {
      ParseIntTwoDigits(0);
      assert TwoDigits(0) == "00";
      FieldsOfTwo(short, hh, mm);
      FieldsOfThree(long, hh, mm, "00");
      SameFields(short, long);
    } else {
      BadNumbers(short);
      BadNumbers(long);
    }
  }

  lemma SplitHM(hh: string, mm: string)
    requires ':' !in hh && ':' !in mm
    ensures Split(hh + ":" + mm, ':') == [hh, mm]
  {
    JoinTwo(hh, mm, ':');
    SplitJoin([hh, mm], ':');
  }

  lemma SplitHMZero(hh: string, mm: string)
    requires ':' !in hh && ':' !in mm
    ensures Split(hh + ":" + mm + ":00", ':') == [hh, mm, "00"]
  {
    var z := "00";
    assert ':' !in z;
    SplitThree(hh, mm, z);
    assert hh + ":" + mm + ":00" == hh + ":" + mm + ":" + z;
  }

  lemma SplitThree(a: string, b: string, c: string)
    requires ':' !in a && ':' !in b && ':' !in c
    ensures Split(a + ":" + b + ":" + c, ':') == [a, b, c]
  {
    JoinThree(a, b, c, ':');
    SplitJoin([a, b, c], ':');
  }

  /** A text of two or three parts whose hour, minute or second `int()`
      refuses fails with the number error. */
  lemma BadNumbers(text: string)
    requires |Split(text, ':')| == 2 || |Split(text, ':')| == 3
    requires var parts := Split(text, ':');
      ParseInt(parts[0]).None? || ParseInt(parts[1]).None? || (|parts| == 3 && ParseInt(parts[2]).None?)
    ensures ParseTime(text).Failure? && ParseTime(text).error == TimeNumbers(text)
  {
    assert Fields(text) == Failure(TimeNumbers(text));
  }
}
