/** The calendar fields that PHP's date() prints for a timestamp, in the
    proleptic Gregorian calendar, for the timestamp already shifted to local
    time. Days are counted from 1970-01-01, a Thursday; a timestamp before it
    belongs to the day that starts at or before it (floor division). */
module Calendar {
  import opened Php

  const SECONDS_PER_DAY := 86400

  predicate IsLeap(y: int) { y % 4 == 0 && (y % 100 != 0 || y % 400 == 0) }

  function YearLength(y: int): int { if IsLeap(y) then 366 else 365 }

  /** The number of days from 1970-01-01 to January 1st of year y. */
  function DaysFromEpoch(y: int): int
    decreases if y < 1970 then 1970 - y else y - 1970
  {
    if y == 1970 then 0
    else if y > 1970 then DaysFromEpoch(y - 1) + YearLength(y - 1)
    else DaysFromEpoch(y + 1) - YearLength(y)
  }

  lemma {:induction false} DaysFromEpochStep(y: int)
    ensures DaysFromEpoch(y + 1) == DaysFromEpoch(y) + YearLength(y)
    decreases if y < 1970 then 1970 - y else y - 1970
  {
    if y >= 1970 {
    } else {
      assert DaysFromEpoch(y) == DaysFromEpoch(y + 1) - YearLength(y);
    }
  }

  /** The year and the 0-based day within it of the day lying d days after
      January 1st of year y. */
  function YearOfDay(y: int, d: int): (r: (int, int))
    ensures 0 <= r.1 < YearLength(r.0)
    ensures DaysFromEpoch(r.0) + r.1 == DaysFromEpoch(y) + d
    decreases if d < 0 then 1 else 0, if d < 0 then -d else d
  {
    if d < 0 then
      DaysFromEpochStep(y - 1);
      YearOfDay(y - 1, d + YearLength(y - 1))
    else if d >= YearLength(y) then
      DaysFromEpochStep(y);
      YearOfDay(y + 1, d - YearLength(y))
    else (y, d)
  }

  function MonthLength(m: int, leap: bool): (n: int)
    requires 1 <= m <= 12
    ensures 28 <= n <= 31
  {
    if m == 2 then (if leap then 29 else 28)
    else if m == 4 || m == 6 || m == 9 || m == 11 then 30
    else 31
  }

  /** The days of the year before the first of month m; month 13 stands for
      the end of the year. */
  function DaysBeforeMonth(m: int, leap: bool): int
    requires 1 <= m <= 13
  {
    if m == 1 then 0 else DaysBeforeMonth(m - 1, leap) + MonthLength(m - 1, leap)
  }

  lemma {:induction false} YearIsTwelveMonths(y: int)
    ensures DaysBeforeMonth(13, IsLeap(y)) == YearLength(y)
  {
    var leap := IsLeap(y);
    var feb := if leap then 29 else 28;
    assert DaysBeforeMonth(2, leap) == 31;
    assert DaysBeforeMonth(3, leap) == 31 + feb;
    assert DaysBeforeMonth(4, leap) == 62 + feb;
    assert DaysBeforeMonth(5, leap) == 92 + feb;
    assert DaysBeforeMonth(6, leap) == 123 + feb;
    assert DaysBeforeMonth(7, leap) == 153 + feb;
    assert DaysBeforeMonth(8, leap) == 184 + feb;
    assert DaysBeforeMonth(9, leap) == 215 + feb;
    assert DaysBeforeMonth(10, leap) == 245 + feb;
    assert DaysBeforeMonth(11, leap) == 276 + feb;
    assert DaysBeforeMonth(12, leap) == 306 + feb;
  }

  /** The month and the 0-based day within it of the day lying d days after the
      first of month m. */
  function MonthOfDay(m: int, d: int, leap: bool): (r: (int, int))
    requires 1 <= m <= 12 && 0 <= d
    ensures 1 <= r.0 <= 12 && 0 <= r.1
    ensures DaysBeforeMonth(r.0, leap) + r.1 == DaysBeforeMonth(m, leap) + d
    ensures DaysBeforeMonth(m, leap) + d < DaysBeforeMonth(13, leap) ==> r.1 < MonthLength(r.0, leap)
    decreases 12 - m
  {
    if m == 12 || d < MonthLength(m, leap) then (m, d)
    else MonthOfDay(m + 1, d - MonthLength(m, leap), leap)
  }

  /** A broken-down local time. `dayOfYear` is 0-based, `weekday` is 0 for Sunday. */
  datatype DateTime = DateTime(year: int, month: int, day: int, hour: int, minute: int, second: int,
                               dayOfYear: int, weekday: int)

  predicate WellFormed(t: DateTime)
  {
    && 1 <= t.month <= 12 && 1 <= t.day <= MonthLength(t.month, IsLeap(t.year))
    && 0 <= t.hour < 24 && 0 <= t.minute < 60 && 0 <= t.second < 60
    && t.dayOfYear == DaysBeforeMonth(t.month, IsLeap(t.year)) + t.day - 1
    && 0 <= t.dayOfYear < YearLength(t.year)
    && 0 <= t.weekday < 7
  }

  /** The timestamp a broken-down time stands for: the partner of Breakdown. */
  function Timestamp(t: DateTime): int
  {
    (DaysFromEpoch(t.year) + t.dayOfYear) * SECONDS_PER_DAY + t.hour * 3600 + t.minute * 60 + t.second
  }

  /** The fields of a local timestamp. */
  function Breakdown(ts: int): (t: DateTime)
    ensures WellFormed(t)
    ensures Timestamp(t) == ts
    ensures t.weekday == (ts / SECONDS_PER_DAY + 4) % 7
    ensures WeekdayMatches(t)
  {
    var days, secs := ts / SECONDS_PER_DAY, ts % SECONDS_PER_DAY;
    var (year, doy) := YearOfDay(1970, days);
    var leap := IsLeap(year);
    YearIsTwelveMonths(year);
    var (month, md) := MonthOfDay(1, doy, leap);
    DateTime(year, month, md + 1, secs / 3600, secs % 3600 / 60, secs % 60, doy, (days + 4) % 7)
  }

  /** The weekday agrees with the date: days are counted from 1970-01-01, a
      Thursday. */
  predicate WeekdayMatches(t: DateTime)
  {
    t.weekday == (DaysFromEpoch(t.year) + t.dayOfYear + 4) % 7
  }

  /** date('N'): the ISO-8601 day of the week, 1 for Monday to 7 for Sunday. */
  function IsoWeekday(t: DateTime): int
  {
    if t.weekday == 0 then 7 else t.weekday
  }

  /** The weekday (0 for Sunday) of January 1st of year y. */
  function NewYearWeekday(y: int): int { (DaysFromEpoch(y) + 4) % 7 }

  /** ISO-8601 years have 53 weeks when they start on a Thursday, or on a
      Wednesday in a leap year. */
  function WeeksInYear(y: int): int
  {
    if NewYearWeekday(y) == 4 || (IsLeap(y) && NewYearWeekday(y) == 3) then 53 else 52
  }

  /** date('W'): the ISO-8601 week number; a week belongs to the year that holds
      its Thursday. */
  function IsoWeek(t: DateTime): (w: int)
    requires WellFormed(t)
    ensures 1 <= w <= 53
  {
    var wk := (t.dayOfYear + 1 - IsoWeekday(t) + 10) / 7;
    if wk < 1 then WeeksInYear(t.year - 1)
    else if wk > WeeksInYear(t.year) then 1
    else wk
  }

  /** The Thursday of t's Monday-to-Sunday week, as a 0-based day of t's year:
      negative when it falls in the year before, past the end when it falls in
      the year after. */
  function WeekThursday(t: DateTime): int
  {
    t.dayOfYear + 4 - IsoWeekday(t)
  }

  /** The 0-based day of that Thursday within the year that holds it. */
  function ThursdayInItsYear(t: DateTime): int
  {
    var th := WeekThursday(t);
    if th < 0 then th + YearLength(t.year - 1)
    else if th >= YearLength(t.year) then th - YearLength(t.year)
    else th
  }

  /** The ISO-8601 rule, independently of the formula date('W') uses: the week
      is numbered by the Thursdays of the year holding its Thursday, counted up
      to and including that one. */
  lemma IsoWeekByThursday(t: DateTime)
    requires WellFormed(t) && WeekdayMatches(t)
    ensures IsoWeek(t) == 1 + ThursdayInItsYear(t) / 7
  {
    var y := t.year;
    var n := DaysFromEpoch(y);
    var th := WeekThursday(t);
    ThursdayIsMultipleOf7(n, t.dayOfYear, t.weekday);
    var q := ThursdayOffset(n, th);
    assert (th + 7) / 7 == q + 1;
    if th < 0 {
      DaysFromEpochStep(y - 1);
      var p := th + YearLength(y - 1);
      var q0 := ThursdayOffset(DaysFromEpoch(y - 1), p);
      assert p / 7 == q0;
      WeeksOfLastThursday(YearLength(y - 1), (4 - NewYearWeekday(y - 1)) % 7, q0, IsLeap(y - 1), NewYearWeekday(y - 1));
    } else if th >= YearLength(y) {
      ThursdaysPastYear(YearLength(y), (4 - NewYearWeekday(y)) % 7, q, IsLeap(y), NewYearWeekday(y));
    } else {
      ThursdaysWithinYear(YearLength(y), (4 - NewYearWeekday(y)) % 7, q, IsLeap(y), NewYearWeekday(y));
    }
  }

  /** The Thursday of a week lies a multiple of 7 days from 1970-01-01. */
  lemma ThursdayIsMultipleOf7(n: int, doy: int, wd: int)
    requires wd == (n + doy + 4) % 7
    ensures (n + doy + 4 - (if wd == 0 then 7 else wd)) % 7 == 0
  {
    var b := (n + doy + 4) / 7;
    assert n + doy + 4 == 7 * b + wd;
    var c := if wd == 0 then b - 1 else b;
    assert n + doy + 4 - (if wd == 0 then 7 else wd) == 7 * c;
  }

  /** A day th of the year starting on absolute day n that is a Thursday lies
      7q days after the year's first Thursday. */
  lemma ThursdayOffset(n: int, th: int) returns (q: int)
    requires (n + th) % 7 == 0
    ensures th == 7 * q + (4 - (n + 4) % 7) % 7
  {
    var w0 := (n + 4) % 7;
    var a := (n + 4) / 7;
    assert n + 4 == 7 * a + w0;
    var k := (n + th) / 7;
    assert n + th == 7 * k;
    var f := (4 - w0) % 7;
    assert f == if w0 <= 4 then 4 - w0 else 11 - w0;
    q := if w0 <= 4 then k - a else k - a - 1;
  }

  /** In a year of yl days whose first Thursday is day f, the Thursday 7q + f
      closing the year's last days is week WeeksInYear. */
  lemma WeeksOfLastThursday(yl: int, f: int, q: int, leap: bool, w0: int)
    requires yl == (if leap then 366 else 365) && 0 <= w0 < 7 && f == (4 - w0) % 7
    requires yl - 3 <= 7 * q + f < yl
    ensures 1 + q == (if w0 == 4 || (leap && w0 == 3) then 53 else 52)
  {
  }

  /** A Thursday 7q + f at or past the year's end comes after its last week. */
  lemma ThursdaysPastYear(yl: int, f: int, q: int, leap: bool, w0: int)
    requires yl == (if leap then 366 else 365) && 0 <= w0 < 7 && f == (4 - w0) % 7
    requires yl <= 7 * q + f
    ensures 1 + q > (if w0 == 4 || (leap && w0 == 3) then 53 else 52)
  {
  }

  /** A Thursday 7q + f inside the year is in one of its weeks. */
  lemma ThursdaysWithinYear(yl: int, f: int, q: int, leap: bool, w0: int)
    requires yl == (if leap then 366 else 365) && 0 <= w0 < 7 && f == (4 - w0) % 7
    requires 0 <= 7 * q + f < yl
    ensures 1 <= 1 + q <= (if w0 == 4 || (leap && w0 == 3) then 53 else 52)
  {
  }

  // ---------------------------------------------------------------------------
  // The strings date() prints

  /** Two digits with a leading zero ('m', 'd', 'W', 'H', 'i', 's'). */
  function Pad2(n: int): (r: string)
    requires 0 <= n < 100
    ensures |r| == 2 && AllDigits(r) && DigitsValue(r) == n
  {
    var r := [DigitChar(n / 10), DigitChar(n % 10)];
    TwoDigitsValue(r);
    r
  }

  /** Leading zeros up to four digits. */
  function PadTo4(s: string): (r: string)
    requires AllDigits(s)
    ensures AllDigits(r) && |r| >= 4 && |r| >= |s|
    ensures DigitsValue(r) == DigitsValue(s)
    decreases 4 - |s|
  {
    if |s| >= 4 then s
    else
      ZeroPrefix(s);
      PadTo4("0" + s)
  }

  lemma {:induction false} ZeroPrefix(s: string)
    requires AllDigits(s)
    ensures AllDigits("0" + s) && DigitsValue("0" + s) == DigitsValue(s)
    decreases |s|
  {
    if s != [] {
      var p := s[..|s| - 1];
      ZeroPrefix(p);
      assert ("0" + s)[..|s|] == "0" + p;
    }
  }

  /** date('Y'): at least four digits, with '-' in front for a negative year (2 BC and earlier). */
  function YearString(y: int): string
  {
    var n: nat := if y < 0 then -y else y;
    (if y < 0 then "-" else "") + PadTo4(NatToString(n))
  }

  /** date('z') and date('w'), date('N'): no padding. */
  function Unpadded(n: nat): string { NatToString(n) }

  /** The decimal value of digits followed by two more. */
  lemma {:induction false} DigitsValueAppend2(a: string, b: string)
    requires AllDigits(a) && AllDigits(b) && |b| == 2
    ensures AllDigits(a + b) && DigitsValue(a + b) == DigitsValue(a) * 100 + DigitsValue(b)
  {
    var s := a + b;
    assert AllDigits(s) by {
      forall i | 0 <= i < |s| ensures IsDigit(s[i]) {
        if i < |a| { assert s[i] == a[i]; } else { assert s[i] == b[i - |a|]; }
      }
    }
    var a1 := a + [b[0]];
    assert AllDigits(a1) by {
      forall i | 0 <= i < |a1| ensures IsDigit(a1[i]) {
        if i < |a| { assert a1[i] == a[i]; }
      }
    }
    assert s[..|s| - 1] == a1 && s[|s| - 1] == b[1];
    assert a1[..|a1| - 1] == a && a1[|a1| - 1] == b[0];
    assert DigitsValue(a1) == 10 * DigitsValue(a) + DigitValue(b[0]);
    TwoDigitsValue(b);
  }

  /** (int) date('Y'): the year itself, read as a decimal (exact within 64 bits). */
  lemma YearStringCast(y: int, floatCast: string -> int)
    ensures IntCast(YearString(y), floatCast) == DecimalCast(y)
  {
    var n: nat := if y < 0 then -y else y;
    var d := PadTo4(NatToString(n));
    if y < 0 {
      IntCastNegativeDigits(d, floatCast);
    } else {
      assert YearString(y) == d + [];
      IntCastDigits(d, [], floatCast);
    }
  }

  /** (int) (date('Y') . date('m')): the year and the month read as one number;
      for a negative year (2 BC and earlier) the month is subtracted, since the sign covers both. */
  lemma YearMonthCast(y: int, m: int, floatCast: string -> int)
    requires 1 <= m <= 12
    ensures IntCast(YearString(y) + Pad2(m), floatCast) == DecimalCast(if y >= 0 then 100 * y + m else 100 * y - m)
  {
    if y < 0 {
      NegativeYearMonthCast(y, m, floatCast);
    } else {
      var e := YearMonthDigits(y, m);
      assert YearString(y) + Pad2(m) == e + [];
      IntCastDigits(e, [], floatCast);
    }
  }

  lemma NegativeYearMonthCast(y: int, m: int, floatCast: string -> int)
    requires 1 <= m <= 12 && y < 0
    ensures IntCast(YearString(y) + Pad2(m), floatCast) == DecimalCast(100 * y - m)
  {
    var n: nat := -y;
    var e := YearMonthDigits(n, m);
    var v := 100 * y - m;
    assert -(DigitsValue(e) as int) == v by {
      assert DigitsValue(e) == 100 * n + m;
      assert 100 * n == -(100 * y);
    }
    NegatedCast(YearString(y) + Pad2(m), e, v, floatCast);
  }

  lemma NegatedCast(s: string, e: string, v: int, floatCast: string -> int)
    requires |e| > 0 && AllDigits(e) && s == "-" + e && v == -(DigitsValue(e) as int)
    ensures IntCast(s, floatCast) == DecimalCast(v)
  {
    IntCastNegativeDigits(e, floatCast);
    assert IntCast(s, floatCast) == DecimalCast(-(DigitsValue(e) as int));
  }

  /** The digits of a year (without its sign) and a month, side by side. */
  function YearMonthDigits(n: nat, m: int): (e: string)
    requires 1 <= m <= 12
    ensures e == PadTo4(NatToString(n)) + Pad2(m)
    ensures |e| > 0 && AllDigits(e) && DigitsValue(e) == 100 * n + m
  {
    var d := PadTo4(NatToString(n));
    DigitsValueAppend2(d, Pad2(m));
    d + Pad2(m)
  }

  /** (int) of a field printed with a leading zero or unpadded: its value. */
  lemma FieldCast(n: int, floatCast: string -> int)
    requires 0 <= n < 100
    ensures IntCast(Pad2(n), floatCast) == n
    ensures IntCast(Unpadded(n), floatCast) == n
  {
    IntCastInRange(Pad2(n), floatCast);
    IntCastInRange(Unpadded(n), floatCast);
  }

  lemma UnpaddedCast(n: int, floatCast: string -> int)
    requires 0 <= n < 1000
    ensures IntCast(Unpadded(n), floatCast) == n
  {
    IntCastInRange(Unpadded(n), floatCast);
  }
}
