/**
 * Calendar dates and their external `DD.MM.YYYY` text form, as
 * `datetime.strptime(s, '%d.%m.%Y')` and `d.strftime('%d.%m.%Y')` treat the
 * zero-padded form.
 */
module Dates {
  import opened Wrappers
  import opened Errors

  datatype Date = Date(year: nat, month: nat, day: nat)

  predicate IsLeapYear(y: nat) {
    y % 4 == 0 && (y % 100 != 0 || y % 400 == 0)
  }

  function DaysInMonth(y: nat, m: nat): nat {
    if m == 2 then (if IsLeapYear(y) then 29 else 28)
    else if m == 4 || m == 6 || m == 9 || m == 11 then 30
    else 31
  }

  /** A date that `datetime` can represent. */
  predicate ValidDate(d: Date) {
    1 <= d.year <= 9999 && 1 <= d.month <= 12 && 1 <= d.day <= DaysInMonth(d.year, d.month)
  }

  predicate IsDigit(c: char) {
    '0' <= c <= '9'
  }

  predicate AllDigits(s: string) {
    forall i :: 0 <= i < |s| ==> IsDigit(s[i])
  }

  function Digit(n: nat): (c: char)
    requires n < 10
    ensures IsDigit(c)
  {
    ('0' as int + n) as char
  }

  /** The number a string of decimal digits denotes. */
  function DecimalValue(s: string): nat
    requires AllDigits(s)
  {
    if s == [] then 0
    else DecimalValue(s[..|s| - 1]) * 10 + (s[|s| - 1] as int - '0' as int)
  }

  /** The last `width` decimal digits of `n`, zero-padded on the left. */
  function ZeroPadded(n: nat, width: nat): (s: string)
    ensures |s| == width && AllDigits(s)
  {
    if width == 0 then [] else ZeroPadded(n / 10, width - 1) + [Digit(n % 10)]
  }

  function Pow10(k: nat): nat {
    if k == 0 then 1 else 10 * Pow10(k - 1)
  }

  /** Writing a number that fits in `width` digits and reading it back gives the number. */
  lemma {:induction false} ZeroPaddedValue(n: nat, width: nat)
    requires n < Pow10(width)
    ensures DecimalValue(ZeroPadded(n, width)) == n
  {
    if width > 0 {
      ZeroPaddedValue(n / 10, width - 1);
      var s := ZeroPadded(n, width);
      assert s[..|s| - 1] == ZeroPadded(n / 10, width - 1);
    }
  }

  /** Reading a digit string and writing it back with the same width gives the string. */
  lemma {:induction false} ZeroPaddedOfValue(s: string)
    requires AllDigits(s)
    ensures ZeroPadded(DecimalValue(s), |s|) == s
  {
    if s != [] {
      var init := s[..|s| - 1];
      ZeroPaddedOfValue(init);
      var v := DecimalValue(s);
      assert v / 10 == DecimalValue(init) && v % 10 == s[|s| - 1] as int - '0' as int;
      assert s == init + [s[|s| - 1]];
    }
  }

  /** `strftime('%d.%m.%Y')` with every field zero-padded. */
  function FormatDate(d: Date): (s: string)
    ensures |s| == 10
  {
    ZeroPadded(d.day, 2) + "." + ZeroPadded(d.month, 2) + "." + ZeroPadded(d.year, 4)
  }

  /** The shape `DD.MM.YYYY`: digits with dots at positions 2 and 5. */
  predicate WellShaped(s: string) {
    |s| == 10 && s[2] == '.' && s[5] == '.'
    && AllDigits(s[0..2]) && AllDigits(s[3..5]) && AllDigits(s[6..10])
  }

  function FormatMismatch(s: string): Error {
    ValueError("time data '" + s + "' does not match format '%d.%m.%Y'")
  }

  /** The first ten characters, where `strptime`'s pattern match ends for the zero-padded form. */
  function Head(s: string): (h: string)
    ensures |h| == if |s| > 10 then 10 else |s|
  {
    if |s| > 10 then s[..10] else s
  }

  /**
   * `datetime.strptime(s, '%d.%m.%Y')` on the zero-padded form: the text must
   * start with the shape, with day and month 01-31 and 01-12; nothing may
   * follow; and the date must exist in the calendar.
   */
  function ParseDate(s: string): (r: Result<Date, Error>)
    ensures r.Success? ==> ValidDate(r.value) && |s| == 10
    ensures r.Failure? ==> r.error.ValueError?
  {
    var h := Head(s);
    if !WellShaped(h) then Failure(FormatMismatch(s))
    else
      var day, month, year := DecimalValue(h[0..2]), DecimalValue(h[3..5]), DecimalValue(h[6..10]);
      if !(1 <= day <= 31 && 1 <= month <= 12) then Failure(FormatMismatch(s))
      else if |s| > 10 then Failure(ValueError("unconverted data remains: " + s[10..]))
      else if year == 0 then Failure(ValueError("year 0 is out of range"))
      else if day > DaysInMonth(year, month) then Failure(ValueError("day is out of range for month"))
      else
        assert year < Pow10(4) by { DecimalValueBound(h[6..10]); }
        Success(Date(year, month, day))
  }

  lemma {:induction false} DecimalValueBound(s: string)
    requires AllDigits(s)
    ensures DecimalValue(s) < Pow10(|s|)
  {
    if s != [] {
      DecimalValueBound(s[..|s| - 1]);
    }
  }

  /** Formatting a valid date and parsing the text gives the date back. */
  lemma FormatThenParse(d: Date)
    requires ValidDate(d)
    ensures ParseDate(FormatDate(d)) == Success(d)
  {
    var s := FormatDate(d);
    assert s[0..2] == ZeroPadded(d.day, 2);
    assert s[3..5] == ZeroPadded(d.month, 2);
    assert s[6..10] == ZeroPadded(d.year, 4);
    ZeroPaddedValue(d.day, 2);
    ZeroPaddedValue(d.month, 2);
    ZeroPaddedValue(d.year, 4);
  }

  /** Only the canonical text of a date parses to it. */
  lemma ParseThenFormat(s: string)
    requires ParseDate(s).Success?
    ensures FormatDate(ParseDate(s).value) == s
  {
    assert Head(s) == s;
    var dd, mm, yyyy := s[0..2], s[3..5], s[6..10];
    assert ParseDate(s).value == Date(DecimalValue(yyyy), DecimalValue(mm), DecimalValue(dd));
    ZeroPaddedOfValue(dd);
    ZeroPaddedOfValue(mm);
    ZeroPaddedOfValue(yyyy);
    assert s == dd + "." + mm + "." + yyyy by {
      assert s[..2] == dd && s[2] == '.' && s[3..5] == mm && s[5] == '.' && s[6..] == yyyy;
    }
  }

  lemma PaddedFieldsExample()
    ensures ZeroPadded(31, 2) == "31" && ZeroPadded(12, 2) == "12" && ZeroPadded(2019, 4) == "2019"
  {
  }

  lemma FormatExample()
    ensures FormatDate(Date(2019, 12, 31)) == "31.12.2019"
  {
    PaddedFieldsExample();
  }

  lemma ParseExample()
    ensures ParseDate("31.12.2019") == Success(Date(2019, 12, 31))
  {
    FormatExample();
    FormatThenParse(Date(2019, 12, 31));
  }

  lemma MalformedShapesRejected()
    ensures ParseDate("aaa").Failure?
    ensures ParseDate("-10.02.1008").Failure?
  {
  }

  lemma DayOutOfRangeRejected()
    ensures ParseDate("35.02.1998").Failure?
  {
    var s := "35.02.1998";
    assert s[0..2] == "35";
    assert DecimalValue("35") == 35 by {
      assert "35"[..1] == "3";
      assert DecimalValue("3") == 3 by { assert "3"[..0] == ""; }
    }
  }

  lemma MonthOutOfRangeRejected()
    ensures ParseDate("12.14.2019").Failure?
  {
    var s := "12.14.2019";
    assert s[3..5] == "14";
    assert DecimalValue("14") == 14 by {
      assert "14"[..1] == "1";
      assert DecimalValue("1") == 1 by { assert "1"[..0] == ""; }
    }
  }

  /**
   * Text after a well-shaped date with day and month in range is reported as
   * unconverted data, before the date is checked against the calendar.
   */
  lemma TrailingDataRejected(s: string)
    requires |s| > 10 && WellShaped(s[..10])
    requires 1 <= DecimalValue(s[..10][0..2]) <= 31 && 1 <= DecimalValue(s[..10][3..5]) <= 12
    ensures ParseDate(s) == Failure(ValueError("unconverted data remains: " + s[10..]))
  {
  }

  lemma DigitsValue()
    ensures DecimalValue("01") == 1 && DecimalValue("31") == 31 && DecimalValue("02") == 2
  {
    assert "01"[..1] == "0" && "31"[..1] == "3" && "02"[..1] == "0";
    assert "0"[..0] == "" && "3"[..0] == "";
  }

  lemma TrailingDataExamples()
    ensures ParseDate("01.01.20190") == Failure(ValueError("unconverted data remains: 0"))
    ensures ParseDate("31.02.20190") == Failure(ValueError("unconverted data remains: 0"))
  {
    DigitsValue();
    var s, t := "01.01.20190", "31.02.20190";
    assert s[..10] == "01.01.2019" && t[..10] == "31.02.2019";
    assert s[..10][0..2] == "01" && s[..10][3..5] == "01" && t[..10][0..2] == "31" && t[..10][3..5] == "02";
    assert s[..10][6..10] == "2019" && t[..10][6..10] == "2019";
    assert s[10..] == "0" && t[10..] == "0";
    TrailingDataRejected(s);
    TrailingDataRejected(t);
    assert "unconverted data remains: " + "0" == "unconverted data remains: 0";
  }
}
