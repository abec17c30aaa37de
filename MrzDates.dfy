/**
 * Dates in the MRZ: `parseDate` reads a `YYMMDD` field into the arguments of
 * `new Date(year, monthIndex, day)`, with years 50..99 in the 1900s and 00..49
 * in the 2000s, and the expiry check compares the resulting local midnight with
 * the current time.
 *
 * JavaScript's `Date` is modelled by its time value: `new Date(y, m, d)` is local
 * midnight of the day ECMAScript's MakeDay computes, which carries an
 * out-of-range month into the year and an out-of-range day into the
 * neighbouring months. Time values here are LOCAL milliseconds since the epoch.
 */
module MrzDates {
  import opened Wrappers
  import opened JsText

  const MsPerDay: int := 86_400_000

  /** The arguments `parseDate` passes to `new Date`: a full year, a 0-based month
      and a day of the month, none of them range-checked. */
  datatype LocalDate = LocalDate(year: int, month: int, day: int)

  /** `parseDate(yyMMdd)`; `None` is the Invalid Date that a NaN component gives. */
  function ParseDate(yyMMdd: string): (r: Option<LocalDate>)
    ensures r.Some? ==> 1950 <= r.value.year <= 2049
  {
    ParseIntOfShort(Substring(yyMMdd, 0, 2));
    DateOfParts(ParseInt(Substring(yyMMdd, 0, 2)), ParseInt(Substring(yyMMdd, 2, 4)),
                ParseInt(Substring(yyMMdd, 4, 6)))
  }

  /** The date `parseDate` builds from the three parsed numbers: the century is 1900
      for years from 50 on and 2000 below, and the month becomes 0-based. */
  function DateOfParts(year: Option<int>, month: Option<int>, day: Option<int>): (r: Option<LocalDate>)
    ensures r.Some? ==> year.Some? && month.Some? && day.Some?
    ensures year.Some? && -9 <= year.value <= 99 && r.Some? ==> 1950 <= r.value.year <= 2049
  {
    if year.None? || month.None? || day.None? then None
    else
      var y := year.value;
      var fullYear := if y >= 50 then 1900 + y else 2000 + y;
      Some(LocalDate(fullYear, month.value - 1, day.value))
  }

  /** The two-digit year, month and day of a field of six digits. */
  function TwoDigits(s: string, k: nat): (v: int)
    requires k + 1 < |s| && IsDigit(s[k]) && IsDigit(s[k + 1])
    ensures 0 <= v <= 99
  {
    10 * DigitValue(s[k]) + DigitValue(s[k + 1])
  }

  lemma ParseTwoDigitsAt(s: string, k: nat)
    requires k + 1 < |s| && IsDigit(s[k]) && IsDigit(s[k + 1])
    ensures ParseInt(Substring(s, k, k + 2)) == Some(TwoDigits(s, k))
  {
    var t := Substring(s, k, k + 2);
    assert t == s[k..k + 2];
    assert t[0] == s[k] && t[1] == s[k + 1];
    ParseIntOfTwoDigits(t);
  }

  /** On six digits `YYMMDD`, `parseDate` pivots the century at 50 and turns the
      1-based month into a 0-based one. */
  lemma ParseDateOfDigits(s: string)
    requires |s| >= 6 && forall k :: 0 <= k < 6 ==> IsDigit(s[k])
    ensures var yy, mm, dd := TwoDigits(s, 0), TwoDigits(s, 2), TwoDigits(s, 4);
      ParseDate(s) == Some(LocalDate(if yy >= 50 then 1900 + yy else 2000 + yy, mm - 1, dd))
  {
    var yy, mm, dd := TwoDigits(s, 0), TwoDigits(s, 2), TwoDigits(s, 4);
    ParseTwoDigitsAt(s, 0);
    ParseTwoDigitsAt(s, 2);
    ParseTwoDigitsAt(s, 4);
    DateOfPartsSome(yy, mm, dd);
  }

  lemma DateOfPartsSome(y: int, m: int, d: int)
    ensures DateOfParts(Some(y), Some(m), Some(d)) == Some(LocalDate(if y >= 50 then 1900 + y else 2000 + y, m - 1, d))
  {
  }

  // ECMAScript's calendar arithmetic (DaysInYear, DayFromYear, MakeDay).

  function DaysInYear(y: int): int {
    if y % 4 != 0 then 365
    else if y % 100 != 0 then 366
    else if y % 400 != 0 then 365
    else 366
  }

  /** The day number of January 1st of year `y`, counted from 1970-01-01. */
  function DayFromYear(y: int): int {
    365 * (y - 1970) + (y - 1969) / 4 - (y - 1901) / 100 + (y - 1601) / 400
  }

  function DaysInMonth(y: int, m: int): int
    requires 0 <= m < 12
  {
    if m == 1 then DaysInYear(y) - 337
    else [31, 28, 31, 30, 31, 30, 31, 31, 30, 31, 30, 31][m]
  }

  /** The number of days of year `y` before the first of (0-based) month `m`. */
  function DaysBeforeMonth(y: int, m: int): int
    requires 0 <= m < 12
  {
    [0, 31, 59, 90, 120, 151, 181, 212, 243, 273, 304, 334][m]
      + (if m >= 2 then DaysInYear(y) - 365 else 0)
  }

  /** ECMAScript's MakeDay: the month is first carried into the year, then the day
      counts on from the first of that month, whatever its size. */
  function MakeDay(year: int, month: int, date: int): int {
    var ym := year + month / 12;
    var mn := month % 12;
    DayFromYear(ym) + DaysBeforeMonth(ym, mn) + date - 1
  }

  /** The time value of `new Date(d.year, d.month, d.day)`: local midnight. */
  function TimeValue(d: LocalDate): (t: int)
    ensures t % MsPerDay == 0
  {
    MakeDay(d.year, d.month, d.day) * MsPerDay
  }

  /** `expirationDateObj >= currentDate`; an Invalid Date compares false. */
  function NotExpired(expiry: Option<LocalDate>, now: int): (b: bool)
    ensures b ==> expiry.Some? && now <= TimeValue(expiry.value)
  {
    match expiry
    case None => false
    case Some(d) => TimeValue(d) >= now
  }

  /** A real calendar day: a 0-based month and a day that month has. */
  predicate IsCalendarDate(d: LocalDate) {
    0 <= d.month < 12 && 1 <= d.day <= DaysInMonth(d.year, d.month)
  }

  /** `a` is an earlier calendar day than `b`. */
  predicate Before(a: LocalDate, b: LocalDate) {
    a.year < b.year
    || (a.year == b.year && a.month < b.month)
    || (a.year == b.year && a.month == b.month && a.day < b.day)
  }

  lemma DayFromYearStep(y: int)
    ensures DayFromYear(y + 1) == DayFromYear(y) + DaysInYear(y)
  {
    FloorStep4(y);
    FloorStep100(y);
    FloorStep400(y);
    CenturyDivisibility(y);
  }

  lemma CenturyDivisibility(y: int)
    ensures y % 100 == 0 ==> y % 4 == 0
    ensures y % 400 == 0 ==> y % 100 == 0
  {
    if y % 100 == 0 {
      assert y == 4 * (25 * (y / 100));
    }
    if y % 400 == 0 {
      assert y == 100 * (4 * (y / 400));
    }
  }

  lemma FloorStep4(y: int)
    ensures (y + 1 - 1969) / 4 == (y - 1969) / 4 + (if y % 4 == 0 then 1 else 0)
  {
  }

  lemma FloorStep100(y: int)
    ensures (y + 1 - 1901) / 100 == (y - 1901) / 100 + (if y % 100 == 0 then 1 else 0)
  {
  }

  lemma FloorStep400(y: int)
    ensures (y + 1 - 1601) / 400 == (y - 1601) / 400 + (if y % 400 == 0 then 1 else 0)
  {
  }

  lemma {:induction false} DayFromYearIncreasing(y1: int, y2: int)
    requires y1 < y2
    ensures DayFromYear(y1) + DaysInYear(y1) <= DayFromYear(y2)
    decreases y2 - y1
  {
    DayFromYearStep(y1);
    if y1 + 1 < y2 {
      DayFromYearIncreasing(y1 + 1, y2);
    }
  }

  /** On real calendar days, MakeDay is strictly increasing: day numbers compare as
      the dates do. */
  lemma MakeDayOrder(a: LocalDate, b: LocalDate)
    requires IsCalendarDate(a) && IsCalendarDate(b)
    ensures Before(a, b) <==> MakeDay(a.year, a.month, a.day) < MakeDay(b.year, b.month, b.day)
    ensures a == b <==> MakeDay(a.year, a.month, a.day) == MakeDay(b.year, b.month, b.day)
  {
    if Before(a, b) {
      MakeDayBefore(a, b);
    } else if Before(b, a) {
      MakeDayBefore(b, a);
    }
  }

  lemma MakeDayBefore(a: LocalDate, b: LocalDate)
    requires IsCalendarDate(a) && IsCalendarDate(b) && Before(a, b)
    ensures MakeDay(a.year, a.month, a.day) < MakeDay(b.year, b.month, b.day)
  {
    if a.year < b.year {
      DayWithinYear(a);
      DayWithinYear(b);
      DayFromYearIncreasing(a.year, b.year);
    } else {
      MakeDayOfCalendarDate(a);
      MakeDayOfCalendarDate(b);
      if a.month < b.month {
        MonthsIncreasing(a.year, a.month, b.month);
      }
    }
  }

  /** A calendar date falls within its own year. */
  lemma DayWithinYear(d: LocalDate)
    requires IsCalendarDate(d)
    ensures DayFromYear(d.year) <= MakeDay(d.year, d.month, d.day) < DayFromYear(d.year) + DaysInYear(d.year)
  {
    MakeDayOfCalendarDate(d);
    MonthEndBound(d.year, d.month);
  }

  lemma MakeDayOfCalendarDate(d: LocalDate)
    requires IsCalendarDate(d)
    ensures MakeDay(d.year, d.month, d.day) == DayFromYear(d.year) + DaysBeforeMonth(d.year, d.month) + d.day - 1
  {
    assert d.month / 12 == 0 && d.month % 12 == d.month;
  }

  lemma MonthEndBound(y: int, m: int)
    requires 0 <= m < 12
    ensures DaysBeforeMonth(y, m) + DaysInMonth(y, m) <= DaysInYear(y)
  {
  }

  lemma MonthsIncreasing(y: int, m1: int, m2: int)
    requires 0 <= m1 < m2 < 12
    ensures DaysBeforeMonth(y, m1) + DaysInMonth(y, m1) <= DaysBeforeMonth(y, m2)
  {
  }

  /** The expiry check against a clock reading `time` milliseconds into the local
      day `today`: the document counts as not expired exactly when its expiry day
      is later than today, or is today and the clock reads exactly midnight. */
  lemma NotExpiredByCalendar(expiry: LocalDate, today: LocalDate, time: int)
    requires IsCalendarDate(expiry) && IsCalendarDate(today)
    requires 0 <= time < MsPerDay
    ensures NotExpired(Some(expiry), TimeValue(today) + time)
        <==> Before(today, expiry) || (expiry == today && time == 0)
  {
    MakeDayOrder(today, expiry);
    var de := MakeDay(expiry.year, expiry.month, expiry.day);
    var dn := MakeDay(today.year, today.month, today.day);
    if de > dn {
      assert de * MsPerDay >= dn * MsPerDay + MsPerDay;
    } else if de < dn {
      assert de * MsPerDay <= dn * MsPerDay - MsPerDay;
    }
  }
}
