/**
 The calendar arithmetic of the formatter's strftime (cbase/fmt.c): the day count behind `%s` and the ISO week
 of `%V` and `%G`, for every year, negative ones included.
 */
module Calendar {
  import opened Powers

  // ---- the calendar itself -----------------------------------------------------------------

  /** The leap rule of fmt_strftime_days_in_year; a remainder is zero for the same years in C. */
  predicate IsLeap(year: int) { year % 4 == 0 && (year % 100 != 0 || year % 400 == 0) }

  /** fmt_strftime_days_in_year */
  function DaysInYear(year: int): int { if IsLeap(year) then 366 else 365 }

  datatype Date = Date(year: int, month: int, day: int)

  function DaysInMonth(year: int, month: int): int {
    if month == 2 then if IsLeap(year) then 29 else 28
    else if month == 4 || month == 6 || month == 9 || month == 11 then 30 else 31
  }

  predicate IsDate(d: Date) { 1 <= d.month <= 12 && 1 <= d.day <= DaysInMonth(d.year, d.month) }

  /** The day after. */
  function NextDay(d: Date): (e: Date)
    requires IsDate(d)
    ensures IsDate(e)
  {
    if d.day < DaysInMonth(d.year, d.month) then d.(day := d.day + 1)
    else if d.month < 12 then Date(d.year, d.month + 1, 1)
    else Date(d.year + 1, 1, 1)
  }

  // ---- the day count of `%s` ------------------------------------------------------------------

  /** The era of 400 years, by the two divisions of the code. */
  function Era(epochYear: int): int {
    if epochYear >= 0 then TruncatedDiv(epochYear, 400) else TruncatedDiv(epochYear - 399, 400)
  }

  lemma EraIsFloor(epochYear: int)
    ensures Era(epochYear) == epochYear / 400
    ensures 0 <= epochYear - Era(epochYear) * 400 < 400
  {
    if epochYear < 0 {
      assert (399 - epochYear) / 400 == -(epochYear / 400);
    }
  }

  /** Days since 1970-01-01. Years begin in March, so that the leap day comes last. */
  function DayNumber(d: Date): int {
    var epochYear := if d.month <= 2 then d.year - 1 else d.year;
    var month := if d.month > 2 then d.month - 3 else d.month + 9;
    DaysBefore(epochYear) + (153 * month + 2) / 5 + d.day - 1
  }

  /** Days before March 1 of the epoch year. */
  function DaysBefore(epochYear: int): int {
    var era := Era(epochYear);
    var yearOfEra := epochYear - era * 400;
    era * 146097 + yearOfEra * 365 + TruncatedDiv(yearOfEra, 4) - TruncatedDiv(yearOfEra, 100) - 719468
  }

  /** A year that begins in March is as long as the February at its end makes it. */
  lemma MarchYearLength(epochYear: int)
    ensures DaysBefore(epochYear + 1) - DaysBefore(epochYear) == DaysInYear(epochYear + 1)
  {
    EraIsFloor(epochYear);
    EraIsFloor(epochYear + 1);
    var era := Era(epochYear);
    var r := epochYear - era * 400;
    LeapInEra(era, r + 1);
    if r == 399 {
      assert Era(epochYear + 1) == era + 1;
    } else {
      assert Era(epochYear + 1) == era;
    }
    YearsInEra(r);
  }

  lemma LeapInEra(era: int, r: int)
    requires 1 <= r <= 400
    ensures IsLeap(era * 400 + r) <==> r % 4 == 0 && (r % 100 != 0 || r == 400)
  {
    SameByFour(era, r);
    SameByHundred(era, r);
    SameByFourHundred(era, r);
  }

  lemma SameByFour(era: int, r: int)
    ensures (era * 400 + r) % 4 == r % 4
  {
    ByFour(era * 400 + r, era * 100 + r / 4, r % 4);
  }

  lemma ByFour(n: int, quotient: int, remainder: int)
    requires n == 4 * quotient + remainder && 0 <= remainder < 4
    ensures n % 4 == remainder
  {
  }

  lemma SameByHundred(era: int, r: int)
    ensures (era * 400 + r) % 100 == r % 100
  {
  }

  lemma SameByFourHundred(era: int, r: int)
    ensures (era * 400 + r) % 400 == r % 400
  {
  }

  lemma YearsInEra(r: int)
    requires 0 <= r < 400
    ensures (r + 1) / 4 - r / 4 == if (r + 1) % 4 == 0 then 1 else 0
    ensures (r + 1) / 100 - r / 100 == if (r + 1) % 100 == 0 then 1 else 0
  {
  }

  lemma UnixEpoch()
    ensures DayNumber(Date(1970, 1, 1)) == 0
  {
  }

  /** From each day to the next the count rises by exactly one. */
  lemma DayAfterDay(d: Date)
    requires IsDate(d)
    ensures DayNumber(NextDay(d)) == DayNumber(d) + 1
  {
    hide DaysBefore;
    if d.month == 2 && d.day == DaysInMonth(d.year, d.month) { MarchYearLength(d.year - 1); }
  }

  /** A whole year, from January to January, has the length the leap rule gives it. */
  lemma YearAfterYear(year: int)
    ensures YearStart(year + 1) - YearStart(year) == DaysInYear(year)
  {
    hide DaysBefore;
    MarchYearLength(year - 1);
  }

  /** The day number of January 1. */
  function YearStart(year: int): int { DayNumber(Date(year, 1, 1)) }

  // ---- the ISO week ---------------------------------------------------------------------------

  /** What the week code looks at: year, day of the year from 0, day of the week from Sunday. */
  datatype Time = Time(year: int, yday: int, wday: int)

  /** The day number of a time. */
  function DayOf(t: Time): int { YearStart(t.year) + t.yday }

  /** 1970-01-01 was a Thursday. */
  function WeekDay(n: int): int { (n + 4) % 7 }

  predicate IsTime(t: Time) { 0 <= t.yday < DaysInYear(t.year) && t.wday == WeekDay(DayOf(t)) }

  /** fmt_strftime_iso_week: the year and the number of the week. */
  function IsoWeek(t: Time): (int, int) {
    var isoWday := if t.wday == 0 then 7 else t.wday;
    var thursday := t.yday + 4 - isoWday;
    if thursday < 0 then
      (t.year - 1, TruncatedDiv(thursday + DaysInYear(t.year - 1), 7) + 1)
    else if thursday >= DaysInYear(t.year) then
      (t.year + 1, TruncatedDiv(thursday - DaysInYear(t.year), 7) + 1)
    else (t.year, TruncatedDiv(thursday, 7) + 1)
  }

  /** The Thursday of the week from Monday to Sunday that day n lies in. */
  function ThursdayOf(n: int): int { (n + 3) / 7 * 7 }

  /** The week belongs to the year of its Thursday, and its number counts the Thursdays of that year. */
  ghost predicate WeekOfThursday(thursday: int, week: (int, int)) {
    && YearStart(week.0) <= thursday < YearStart(week.0 + 1)
    && week.1 == (thursday - YearStart(week.0)) / 7 + 1
  }

  lemma IsoWeekIsThursdays(t: Time)
    requires IsTime(t)
    ensures WeekOfThursday(ThursdayOf(DayOf(t)), IsoWeek(t))
  {
    hide DayNumber;
    hide IsLeap;
    YearAfterYear(t.year - 1);
    YearAfterYear(t.year);
    YearAfterYear(t.year + 1);
    var isoWday := if t.wday == 0 then 7 else t.wday;
    ThursdayByWeekDay(DayOf(t), isoWday);
  }

  lemma ThursdayByWeekDay(n: int, isoWday: int)
    requires 1 <= isoWday <= 7 && isoWday % 7 == WeekDay(n)
    ensures ThursdayOf(n) == n + 4 - isoWday
  {
  }

  lemma {:induction false} YearsInOrder(y: int, z: int)
    requires y <= z
    ensures YearStart(y) + 365 * (z - y) <= YearStart(z)
    decreases z - y
  {
    hide DayNumber;
    if y < z {
      YearsInOrder(y, z - 1);
      YearAfterYear(z - 1);
    }
  }

  /** A Thursday has one week. */
  lemma OneWeek(thursday: int, v: (int, int), w: (int, int))
    requires WeekOfThursday(thursday, v) && WeekOfThursday(thursday, w)
    ensures v == w
  {
    hide DayNumber;
    if v.0 < w.0 { YearsInOrder(v.0 + 1, w.0); } else if w.0 < v.0 { YearsInOrder(w.0 + 1, v.0); }
  }

  /** All seven days of a week have the same year and number, also across the end of a year. */
  lemma SameWeek(t: Time, u: Time)
    requires IsTime(t) && IsTime(u) && (DayOf(t) + 3) / 7 == (DayOf(u) + 3) / 7
    ensures IsoWeek(t) == IsoWeek(u)
  {
    hide DayNumber;
    IsoWeekIsThursdays(t);
    IsoWeekIsThursdays(u);
    OneWeek(ThursdayOf(DayOf(t)), IsoWeek(t), IsoWeek(u));
  }

  /** The number stays in 1..53. */
  lemma WeekRange(t: Time)
    requires IsTime(t)
    ensures 1 <= IsoWeek(t).1 <= 53
  {
    hide DayNumber;
    IsoWeekIsThursdays(t);
    YearAfterYear(IsoWeek(t).0);
  }

  /** A week later the number is one more, or it is the first of the next year. */
  lemma NextWeek(t: Time, u: Time)
    requires IsTime(t) && IsTime(u) && DayOf(u) == DayOf(t) + 7
    ensures var (year, week) := IsoWeek(t);
            IsoWeek(u) == (year, week + 1) || IsoWeek(u) == (year + 1, 1)
  {
    hide DayNumber;
    hide IsoWeek;
    IsoWeekIsThursdays(t);
    IsoWeekIsThursdays(u);
    var (year, week) := IsoWeek(t);
    var thursday := ThursdayOf(DayOf(t));
    assert ThursdayOf(DayOf(u)) == thursday + 7;
    YearAfterYear(year);
    YearAfterYear(year + 1);
    if thursday + 7 < YearStart(year + 1) {
      OneWeek(thursday + 7, IsoWeek(u), (year, week + 1));
    } else {
      OneWeek(thursday + 7, IsoWeek(u), (year + 1, 1));
    }
  }

  /** The fourth of January always lies in week 1 of its year. */
  lemma FourthOfJanuary(t: Time)
    requires IsTime(t) && t.yday == 3
    ensures IsoWeek(t) == (t.year, 1)
  {
    hide DayNumber;
    hide IsLeap;
    assert 0 <= t.wday < 7;
  }
}
