/** Calendar dates written as ISO 8601 extended calendar dates `YYYY-MM-DD`
    (section 4.1.2.2 of ISO 8601:2004; the `full-date` of RFC 3339 section 5.6),
    read the way `LocalDate.parse(s, DateTimeFormatter.ISO_LOCAL_DATE)` reads them,
    and turned into day numbers so that `ChronoUnit.DAYS.between` is a subtraction. */
module Dates {
  import opened Wrappers
  import opened Text

  datatype Date = Date(year: nat, month: nat, day: nat)

  /** Proleptic Gregorian leap years. */
  predicate IsLeapYear(y: nat) {
    y % 4 == 0 && (y % 100 != 0 || y % 400 == 0)
  }

  function YearLength(y: nat): nat {
    if IsLeapYear(y) then 366 else 365
  }

  function DaysInMonth(y: nat, m: nat): nat
    requires 1 <= m <= 12
  {
    if m == 2 then (if IsLeapYear(y) then 29 else 28)
    else if m == 4 || m == 6 || m == 9 || m == 11 then 30
    else 31
  }

  predicate ValidDate(d: Date) {
    1 <= d.month <= 12 && 1 <= d.day <= DaysInMonth(d.year, d.month)
  }

  /** Four digits, '-', two digits, '-', two digits. */
  predicate WellFormed(s: string) {
    |s| == 10 && AllDigits(s[..4]) && s[4] == '-' && AllDigits(s[5..7]) && s[7] == '-' && AllDigits(s[8..])
  }

  /** The date a string denotes, or None when it is not a valid `YYYY-MM-DD` date
      (the parse exception, which the callers catch and skip). */
  function ParseIsoDate(s: string): (r: Option<Date>)
    ensures r.Some? ==> WellFormed(s) && ValidDate(r.value)
  {
    if !WellFormed(s) then None
    else
      var d := Date(DigitsValue(s[..4]), DigitsValue(s[5..7]), DigitsValue(s[8..]));
      if ValidDate(d) then Some(d) else None
  }

  /** Days from 0000-01-01 to the first day of year `y`: 365 a year plus one for each
      leap year among 0 .. y - 1. */
  function DaysBeforeYear(y: nat): nat {
    365 * y + (y + 3) / 4 - (y + 99) / 100 + (y + 399) / 400
  }

  lemma NextYear(y: nat)
    ensures DaysBeforeYear(y + 1) == DaysBeforeYear(y) + YearLength(y)
  {
    StepOverFour(y);
    StepOverHundred(y);
    StepOverFourHundred(y);
    LeapDays(y);
    var d4, d100, d400 := (y + 4) / 4 - (y + 3) / 4, (y + 100) / 100 - (y + 99) / 100, (y + 400) / 400 - (y + 399) / 400;
    assert DaysBeforeYear(y + 1) == DaysBeforeYear(y) + 365 + d4 - d100 + d400;
  }

  /** The leap day is counted by adding the multiples of 4, removing those of 100 and adding
      back those of 400. */
  lemma LeapDays(y: nat)
    ensures YearLength(y) == 365 + (if y % 4 == 0 then 1 else 0) - (if y % 100 == 0 then 1 else 0)
                                 + (if y % 400 == 0 then 1 else 0)
  {
    if y % 100 == 0 {
      HundredIsFour(y);
    }
    if y % 400 == 0 {
      FourHundredIsHundred(y);
    }
  }

  lemma HundredIsFour(y: nat)
    requires y % 100 == 0
    ensures y % 4 == 0
  {
    var q := y / 100;
    assert y == 100 * q;
    assert y / 4 == 25 * q;
  }

  lemma FourHundredIsHundred(y: nat)
    requires y % 400 == 0
    ensures y % 100 == 0
  {
    var q := y / 400;
    assert y == 400 * q;
    assert y / 100 == 4 * q;
  }

  /** Counting the multiples of 4, 100 and 400 below `y + 1` instead of below `y`. */
  lemma StepOverFour(y: nat)
    ensures (y + 4) / 4 == (y + 3) / 4 + (if y % 4 == 0 then 1 else 0)
  {
  }

  lemma StepOverHundred(y: nat)
    ensures (y + 100) / 100 == (y + 99) / 100 + (if y % 100 == 0 then 1 else 0)
  {
  }

  lemma StepOverFourHundred(y: nat)
    ensures (y + 400) / 400 == (y + 399) / 400 + (if y % 400 == 0 then 1 else 0)
  {
  }

  /** Days from the first of January to the first day of month `m`. */
  function DaysBeforeMonth(y: nat, m: nat): nat
    requires 1 <= m <= 12
  {
    var common :=
      if m == 1 then 0 else if m == 2 then 31 else if m == 3 then 59 else if m == 4 then 90
      else if m == 5 then 120 else if m == 6 then 151 else if m == 7 then 181 else if m == 8 then 212
      else if m == 9 then 243 else if m == 10 then 273 else if m == 11 then 304 else 334;
    common + (if m > 2 && IsLeapYear(y) then 1 else 0)
  }

  /** Days since 0000-01-01 (the epoch does not matter: only differences are used). */
  function DayNumber(d: Date): int
    requires ValidDate(d)
  {
    DaysBeforeYear(d.year) + DaysBeforeMonth(d.year, d.month) + d.day - 1
  }

  /** The next calendar day: the day after the last of a month is the first of the next
      month, and the day after 31 December is 1 January of the next year. */
  function Succ(d: Date): (r: Date)
    requires ValidDate(d)
    ensures ValidDate(r)
  {
    if d.day < DaysInMonth(d.year, d.month) then Date(d.year, d.month, d.day + 1)
    else if d.month < 12 then Date(d.year, d.month + 1, 1)
    else Date(d.year + 1, 1, 1)
  }

  /** The calendar day `n` days after `d`. */
  function After(d: Date, n: nat): (r: Date)
    requires ValidDate(d)
    ensures ValidDate(r)
    decreases n
  {
    if n == 0 then d else After(Succ(d), n - 1)
  }

  /** Day numbers count calendar days: the next day is numbered one more, across month and
      year ends and through 29 February. */
  lemma SuccIsNextDay(d: Date)
    requires ValidDate(d)
    ensures DayNumber(Succ(d)) == DayNumber(d) + 1
  {
    if d.day == DaysInMonth(d.year, d.month) && d.month == 12 {
      NextYear(d.year);
    }
  }

  /** `n` days later is numbered `n` more. */
  lemma {:induction false} AfterCounts(d: Date, n: nat)
    requires ValidDate(d)
    ensures DayNumber(After(d, n)) == DayNumber(d) + n
    decreases n
  {
    if n > 0 {
      SuccIsNextDay(d);
      AfterCounts(Succ(d), n - 1);
    }
  }

  /** `ChronoUnit.DAYS.between(start, end)`, or None when either string fails to parse. */
  function DaysBetween(start: string, end: string): (r: Option<int>)
    ensures r.Some? <==> ParseIsoDate(start).Some? && ParseIsoDate(end).Some?
    ensures r.Some? ==> r.value == DayNumber(ParseIsoDate(end).value) - DayNumber(ParseIsoDate(start).value)
  {
    match (ParseIsoDate(start), ParseIsoDate(end))
    case (Some(a), Some(b)) => Some(DayNumber(b) - DayNumber(a))
    case _ => None
  }

  /** The span from a date to the date `n` calendar days later is `n`, and back again `-n`. */
  lemma DaysBetweenCountsDays(start: string, end: string, d: Date, n: nat)
    requires ValidDate(d) && ParseIsoDate(start) == Some(d) && ParseIsoDate(end) == Some(After(d, n))
    ensures DaysBetween(start, end) == Some(n)
    ensures DaysBetween(end, start) == Some(-(n as int))
  {
    AfterCounts(d, n);
  }

  /** `a` comes no later than `b` in (year, month, day) order. */
  predicate KeyLe(a: Date, b: Date) {
    a.year < b.year || (a.year == b.year && (a.month < b.month || (a.month == b.month && a.day <= b.day)))
  }

  lemma MonthsFit(y: nat, m1: nat, m2: nat)
    requires 1 <= m1 < m2 <= 12
    ensures DaysBeforeMonth(y, m1) + DaysInMonth(y, m1) <= DaysBeforeMonth(y, m2)
  {
  }

  lemma MonthsFitYear(y: nat, m: nat)
    requires 1 <= m <= 12
    ensures DaysBeforeMonth(y, m) + DaysInMonth(y, m) <= YearLength(y)
  {
  }

  lemma {:induction false} YearsFit(y1: nat, y2: nat)
    requires y1 < y2
    ensures DaysBeforeYear(y1) + YearLength(y1) <= DaysBeforeYear(y2)
    decreases y2 - y1
  {
    NextYear(y1);
    if y1 + 1 < y2 {
      YearsFit(y1 + 1, y2);
      NextYear(y1 + 1);
    }
  }

  /** Day numbers increase strictly along the calendar. */
  lemma DayNumberStrictlyIncreasing(a: Date, b: Date)
    requires ValidDate(a) && ValidDate(b) && KeyLe(a, b) && a != b
    ensures DayNumber(a) < DayNumber(b)
  {
    if a.year < b.year {
      MonthsFitYear(a.year, a.month);
      YearsFit(a.year, b.year);
    } else if a.month < b.month {
      MonthsFit(a.year, a.month, b.month);
    }
  }

  /** Comparing day numbers is comparing dates. */
  lemma DayNumberOrder(a: Date, b: Date)
    requires ValidDate(a) && ValidDate(b)
    ensures KeyLe(a, b) <==> DayNumber(a) <= DayNumber(b)
    ensures a == b <==> DayNumber(a) == DayNumber(b)
  {
    if a != b {
      if KeyLe(a, b) { DayNumberStrictlyIncreasing(a, b); } else { DayNumberStrictlyIncreasing(b, a); }
    }
  }

  /** On well-formed strings, string order is (year, month, day) order of the digit fields. */
  lemma LexOrderOfFields(a: string, b: string)
    requires WellFormed(a) && WellFormed(b)
    ensures LexLe(a, b) <==>
      var ya, yb := DigitsValue(a[..4]), DigitsValue(b[..4]);
      var ma, mb := DigitsValue(a[5..7]), DigitsValue(b[5..7]);
      var da, db := DigitsValue(a[8..]), DigitsValue(b[8..]);
      ya < yb || (ya == yb && (ma < mb || (ma == mb && da <= db)))
  {
    DigitsOrder(a[..4], b[..4]);
    assert a == a[..4] + a[4..] && b == b[..4] + b[4..];
    LexLeConcat(a[..4], a[4..], b[..4], b[4..]);
    LexOrderAfterYear(a, b);
  }

  /** From the first '-' on, string order is (month, day) order. */
  lemma LexOrderAfterYear(a: string, b: string)
    requires WellFormed(a) && WellFormed(b)
    ensures LexLe(a[4..], b[4..]) <==>
      var ma, mb := DigitsValue(a[5..7]), DigitsValue(b[5..7]);
      var da, db := DigitsValue(a[8..]), DigitsValue(b[8..]);
      ma < mb || (ma == mb && da <= db)
  {
    assert a[4..] == a[4..5] + a[5..] && b[4..] == b[4..5] + b[5..];
    assert a[4..5] == b[4..5];
    LexLeConcat(a[4..5], a[5..], b[4..5], b[5..]);
    DigitsOrder(a[5..7], b[5..7]);
    assert a[5..] == a[5..7] + a[7..] && b[5..] == b[5..7] + b[7..];
    LexLeConcat(a[5..7], a[7..], b[5..7], b[7..]);
    LexOrderOfDay(a, b);
  }

  /** From the second '-' on, string order is day order. */
  lemma LexOrderOfDay(a: string, b: string)
    requires WellFormed(a) && WellFormed(b)
    ensures LexLe(a[7..], b[7..]) <==> DigitsValue(a[8..]) <= DigitsValue(b[8..])
  {
    DigitsOrder(a[8..], b[8..]);
    assert a[7..] == a[7..8] + a[8..] && b[7..] == b[7..8] + b[8..];
    assert a[7..8] == b[7..8];
    LexLeConcat(a[7..8], a[8..], b[7..8], b[8..]);
  }

  /** Why the library can filter on dates by comparing strings: for valid `YYYY-MM-DD` dates,
      `a <= b` as strings exactly when `a` is no later than `b` (sections 5.1 and 5.6 of RFC 3339). */
  lemma IsoOrderIsChronological(a: string, b: string)
    requires ParseIsoDate(a).Some? && ParseIsoDate(b).Some?
    ensures LexLe(a, b) <==> DayNumber(ParseIsoDate(a).value) <= DayNumber(ParseIsoDate(b).value)
  {
    LexOrderOfFields(a, b);
    DayNumberOrder(ParseIsoDate(a).value, ParseIsoDate(b).value);
  }

  /** Two valid date strings denote the same day only if they are the same string. */
  lemma IsoDateInjective(a: string, b: string)
    requires ParseIsoDate(a).Some? && ParseIsoDate(b).Some?
    requires DayNumber(ParseIsoDate(a).value) == DayNumber(ParseIsoDate(b).value)
    ensures a == b
  {
    var pa, pb := ParseIsoDate(a).value, ParseIsoDate(b).value;
    DayNumberOrder(pa, pb);
    DigitsOrder(a[..4], b[..4]);
    DigitsOrder(a[5..7], b[5..7]);
    DigitsOrder(a[8..], b[8..]);
    assert a == a[..4] + "-" + a[5..7] + "-" + a[8..];
    assert b == b[..4] + "-" + b[5..7] + "-" + b[8..];
  }

  lemma FourDigitYear(y: nat)
    requires 1000 <= y <= 9999
    ensures |NatToString(y)| == 4
  {
    assert |NatToString(y / 10 / 10 / 10)| == 1;
    assert |NatToString(y / 10 / 10)| == 2;
    assert |NatToString(y / 10)| == 3;
  }

  /** The "this year" test `endDate.startsWith(year.toString())`: for a valid date and
      a four-digit year it holds exactly when the date lies in that year. */
  lemma YearPrefixMeansSameYear(s: string, y: nat)
    requires ParseIsoDate(s).Some? && 1000 <= y <= 9999
    ensures StartsWith(s, IntToString(y)) <==> ParseIsoDate(s).value.year == y
  {
    var ys := IntToString(y);
    FourDigitYear(y);
    NatToStringValue(y);
    DigitsOrder(s[..4], ys);
  }

  lemma TwoDigits(s: string)
    requires |s| == 2 && AllDigits(s)
    ensures DigitsValue(s) == 10 * DigitValue(s[0]) + DigitValue(s[1])
  {
    assert DigitsValue(s[..1]) == DigitValue(s[0]) by { assert s[..1][..0] == []; }
  }

  lemma FourDigits(s: string)
    requires |s| == 4 && AllDigits(s)
    ensures DigitsValue(s) == 1000 * DigitValue(s[0]) + 100 * DigitValue(s[1]) + 10 * DigitValue(s[2]) + DigitValue(s[3])
  {
    assert DigitsValue(s[..1]) == DigitValue(s[0]) by { assert s[..1][..0] == []; }
    assert DigitsValue(s[..2]) == 10 * DigitValue(s[0]) + DigitValue(s[1]) by { assert s[..2][..1] == s[..1]; }
    assert DigitsValue(s[..3]) == 100 * DigitValue(s[0]) + 10 * DigitValue(s[1]) + DigitValue(s[2]) by {
      assert s[..3][..2] == s[..2];
    }
    assert s[..4] == s;
  }

  /** The fields a well-formed string denotes, digit by digit. */
  lemma FieldsOf(s: string)
    requires WellFormed(s)
    ensures DigitsValue(s[..4]) == 1000 * DigitValue(s[0]) + 100 * DigitValue(s[1]) + 10 * DigitValue(s[2]) + DigitValue(s[3])
    ensures DigitsValue(s[5..7]) == 10 * DigitValue(s[5]) + DigitValue(s[6])
    ensures DigitsValue(s[8..]) == 10 * DigitValue(s[8]) + DigitValue(s[9])
  {
    FourDigits(s[..4]);
    TwoDigits(s[5..7]);
    TwoDigits(s[8..]);
  }

  /** What a well-formed string parses to, written with its digits. */
  lemma ParseFields(s: string)
    requires WellFormed(s)
    ensures var d := Date(1000 * DigitValue(s[0]) + 100 * DigitValue(s[1]) + 10 * DigitValue(s[2]) + DigitValue(s[3]),
                          10 * DigitValue(s[5]) + DigitValue(s[6]), 10 * DigitValue(s[8]) + DigitValue(s[9]));
            ParseIsoDate(s) == if ValidDate(d) then Some(d) else None
  {
    FieldsOf(s);
  }

  /** 2024-01-01 to 2024-01-11 is 10 days. */
  lemma JanuarySpan()
    ensures DaysBetween("2024-01-01", "2024-01-11") == Some(10)
  {
    ParsesJan1();
    ParsesJan11();
  }

  /** 2024-02-01 to 2024-02-06 is 5 days. */
  lemma FebruarySpan()
    ensures DaysBetween("2024-02-01", "2024-02-06") == Some(5)
  {
    ParsesFeb1();
    ParsesFeb6();
  }

  /** 2024-03-05 to 2024-03-01 runs four days backwards. */
  lemma BackwardsMarchSpan()
    ensures DaysBetween("2024-03-05", "2024-03-01") == Some(-4)
  {
    ParsesMar5();
    ParsesMar1();
  }

  /** 2024-01-31 to 2024-02-01 is one day. */
  lemma MonthEndSpan()
    ensures DaysBetween("2024-01-31", "2024-02-01") == Some(1)
  {
    ParsesJan31();
    ParsesFeb1();
  }

  /** 2023-12-31 to 2024-01-01 is one day. */
  lemma YearEndSpan()
    ensures DaysBetween("2023-12-31", "2024-01-01") == Some(1)
  {
    ParsesDec31Of2023();
    ParsesJan1();
    SuccIsNextDay(Date(2023, 12, 31));
  }

  /** 2024-02-28 to 2024-03-01 is two days, across the leap day. */
  lemma LeapDaySpan()
    ensures DaysBetween("2024-02-28", "2024-03-01") == Some(2)
  {
    ParsesFeb28();
    ParsesMar1();
  }

  /** 2023-02-28 to 2023-03-01 is one day, in a common year. */
  lemma CommonFebruarySpan()
    ensures DaysBetween("2023-02-28", "2023-03-01") == Some(1)
  {
    ParsesFeb28Of2023();
    ParsesMar1Of2023();
  }

  lemma ParsesJan1()
    ensures ParseIsoDate("2024-01-01") == Some(Date(2024, 1, 1))
  {
    ParseFields("2024-01-01");
  }

  lemma ParsesJan11()
    ensures ParseIsoDate("2024-01-11") == Some(Date(2024, 1, 11))
  {
    ParseFields("2024-01-11");
  }

  lemma ParsesFeb1()
    ensures ParseIsoDate("2024-02-01") == Some(Date(2024, 2, 1))
  {
    ParseFields("2024-02-01");
  }

  lemma ParsesFeb6()
    ensures ParseIsoDate("2024-02-06") == Some(Date(2024, 2, 6))
  {
    ParseFields("2024-02-06");
  }

  lemma ParsesMar1()
    ensures ParseIsoDate("2024-03-01") == Some(Date(2024, 3, 1))
  {
    ParseFields("2024-03-01");
  }

  lemma ParsesMar5()
    ensures ParseIsoDate("2024-03-05") == Some(Date(2024, 3, 5))
  {
    ParseFields("2024-03-05");
  }

  lemma ParsesFeb28Of2023()
    ensures ParseIsoDate("2023-02-28") == Some(Date(2023, 2, 28))
  {
    ParseFields("2023-02-28");
  }

  lemma ParsesMar1Of2023()
    ensures ParseIsoDate("2023-03-01") == Some(Date(2023, 3, 1))
  {
    ParseFields("2023-03-01");
  }

  lemma ParsesDec31Of2023()
    ensures ParseIsoDate("2023-12-31") == Some(Date(2023, 12, 31))
  {
    ParseFields("2023-12-31");
  }

  lemma ParsesJan31()
    ensures ParseIsoDate("2024-01-31") == Some(Date(2024, 1, 31))
  {
    ParseFields("2024-01-31");
  }

  lemma ParsesFeb28()
    ensures ParseIsoDate("2024-02-28") == Some(Date(2024, 2, 28))
  {
    ParseFields("2024-02-28");
  }
}
