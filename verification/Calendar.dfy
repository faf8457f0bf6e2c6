// Gregorian calendar arithmetic as the Date object performs it (the "Day Number
// and Time within Day", "Year Number", "Month Number" and "MakeDay" clauses of
// ECMA-262): dates to day numbers since 1970-01-01, back again, and weekdays.

module Calendar {

  /** A calendar date with a 1-12 month. */
  datatype Date = Date(year: int, month: int, day: int)

  predicate Leap(year: int) {
    year % 4 == 0 && (year % 100 != 0 || year % 400 == 0)
  }

  function DaysInYear(year: int): int {
    if Leap(year) then 366 else 365
  }

  function DaysInMonth(year: int, month: int): int {
    if month == 2 then if Leap(year) then 29 else 28
    else if month in {4, 6, 9, 11} then 30
    else 31
  }

  predicate ValidDate(d: Date) {
    1 <= d.month <= 12 && 1 <= d.day <= DaysInMonth(d.year, d.month)
  }

  /** Day number of January 1st, with flooring division. */
  function DayFromYear(year: int): int {
    365 * (year - 1970) + (year - 1969) / 4 - (year - 1901) / 100 + (year - 1601) / 400
  }

  /** Days of the year before the 1st of `month` (13 gives the length of the year). */
  function DaysBeforeMonth(year: int, month: int): int
    requires 1 <= month <= 13
  {
    if month == 1 then 0 else DaysBeforeMonth(year, month - 1) + DaysInMonth(year, month - 1)
  }

  /** Day number of a date in the proleptic Gregorian calendar. */
  function DayNumber(d: Date): int
    requires 1 <= d.month <= 12
  {
    DayFromYear(d.year) + DaysBeforeMonth(d.year, d.month) + d.day - 1
  }

  /** `Date.UTC` reads a year from 0 to 99 as a year of the twentieth century. */
  predicate Remapped(year: int) {
    0 <= year <= 99
  }

  /** The day number of `Date.UTC(year, month - 1, day)`; `day` may overflow its month. */
  function UtcDay(d: Date): int
    requires 1 <= d.month <= 12
  {
    DayNumber(if Remapped(d.year) then Date(1900 + d.year, d.month, d.day) else d)
  }

  // ----- from day numbers back to dates -----

  lemma YearStep(year: int)
    ensures DayFromYear(year + 1) == DayFromYear(year) + DaysInYear(year)
  {
    EveryFour(year);
    EveryHundred(year);
    EveryFourHundred(year);
    LeapCount(year);
  }

  lemma LeapCount(year: int)
    ensures DaysInYear(year) == 365 + (if year % 4 == 0 then 1 else 0)
                                - (if year % 100 == 0 then 1 else 0) + (if year % 400 == 0 then 1 else 0)
  {
    assert year % 400 == 0 ==> year % 100 == 0 by {
      assert year == 400 * (year / 400) + year % 400;
    }
    assert year % 100 == 0 ==> year % 4 == 0 by {
      assert year == 100 * (year / 100) + year % 100;
    }
  }

  lemma EveryFour(year: int)
    ensures (year - 1968) / 4 - (year - 1969) / 4 == if year % 4 == 0 then 1 else 0
  {
    var q, r := year / 4, year % 4;
    assert (year - 1968) / 4 == q - 492;
  }

  lemma EveryHundred(year: int)
    ensures (year - 1900) / 100 - (year - 1901) / 100 == if year % 100 == 0 then 1 else 0
  {
    var q, r := year / 100, year % 100;
    assert (year - 1900) / 100 == q - 19;
  }

  lemma EveryFourHundred(year: int)
    ensures (year - 1600) / 400 - (year - 1601) / 400 == if year % 400 == 0 then 1 else 0
  {
    var q, r := year / 400, year % 400;
    assert (year - 1600) / 400 == q - 4;
  }

  lemma {:induction false} YearsGrow(y1: int, y2: int)
    requires y1 <= y2
    ensures DayFromYear(y1) + 365 * (y2 - y1) <= DayFromYear(y2)
    decreases y2 - y1
  {
    if y1 < y2 {
      YearStep(y1);
      YearsGrow(y1 + 1, y2);
    }
  }

  function YearUp(day: int, year: int): (r: int)
    requires DayFromYear(year) <= day
    ensures DayFromYear(r) <= day < DayFromYear(r + 1)
    decreases day - DayFromYear(year)
  {
    YearStep(year);
    if day < DayFromYear(year + 1) then year else YearUp(day, year + 1)
  }

  function YearDown(day: int, year: int): (r: int)
    requires day < DayFromYear(year + 1)
    ensures DayFromYear(r) <= day < DayFromYear(r + 1)
    decreases DayFromYear(year + 1) - day
  {
    YearStep(year);
    if DayFromYear(year) <= day then year else YearDown(day, year - 1)
  }

  /** `getUTCFullYear`: the year whose first day is the last one not after `day`. */
  function YearOfDay(day: int): (r: int)
    ensures DayFromYear(r) <= day < DayFromYear(r + 1)
  {
    if day >= 0 then YearUp(day, 1970) else YearDown(day, 1969)
  }

  lemma YearUnique(day: int, year: int)
    requires DayFromYear(year) <= day < DayFromYear(year + 1)
    ensures YearOfDay(day) == year
  {
    var r := YearOfDay(day);
    if r < year {
      YearsGrow(r + 1, year);
    } else if year < r {
      YearsGrow(year + 1, r);
    }
  }

  lemma MonthTable(year: int)
    ensures DaysBeforeMonth(year, 13) == DaysInYear(year)
  {
    var leap := if Leap(year) then 1 else 0;
    assert DaysBeforeMonth(year, 2) == 31;
    assert DaysBeforeMonth(year, 3) == 59 + leap;
    assert DaysBeforeMonth(year, 4) == 90 + leap;
    assert DaysBeforeMonth(year, 5) == 120 + leap;
    assert DaysBeforeMonth(year, 6) == 151 + leap;
    assert DaysBeforeMonth(year, 7) == 181 + leap;
    assert DaysBeforeMonth(year, 8) == 212 + leap;
    assert DaysBeforeMonth(year, 9) == 243 + leap;
    assert DaysBeforeMonth(year, 10) == 273 + leap;
    assert DaysBeforeMonth(year, 11) == 304 + leap;
    assert DaysBeforeMonth(year, 12) == 334 + leap;
  }

  lemma {:induction false} MonthsGrow(year: int, m1: int, m2: int)
    requires 1 <= m1 <= m2 <= 13
    ensures DaysBeforeMonth(year, m1) <= DaysBeforeMonth(year, m2)
    ensures m1 < m2 ==> DaysBeforeMonth(year, m1) + DaysInMonth(year, m1) <= DaysBeforeMonth(year, m2)
    decreases m2 - m1
  {
    if m1 < m2 {
      MonthsGrow(year, m1 + 1, m2);
    }
  }

  function MonthFrom(year: int, offset: int, month: int): (r: int)
    requires 1 <= month <= 12
    requires DaysBeforeMonth(year, month) <= offset < DaysInYear(year)
    ensures 1 <= r <= 12
    ensures DaysBeforeMonth(year, r) <= offset < DaysBeforeMonth(year, r + 1)
    decreases 12 - month
  {
    MonthTable(year);
    if offset < DaysBeforeMonth(year, month + 1) then month else MonthFrom(year, offset, month + 1)
  }

  /** `getUTCFullYear`, `getUTCMonth() + 1` and `getUTCDate`. */
  function DateOfDay(day: int): (d: Date)
    ensures ValidDate(d) && DayNumber(d) == day
  {
    var year := YearOfDay(day);
    YearStep(year);
    var offset := day - DayFromYear(year);
    var month := MonthFrom(year, offset, 1);
    Date(year, month, offset - DaysBeforeMonth(year, month) + 1)
  }

  /** A valid date is determined by its day number. */
  lemma DateUnique(d: Date)
    requires ValidDate(d)
    ensures DateOfDay(DayNumber(d)) == d
  {
    var day := DayNumber(d);
    var r := DateOfDay(day);
    MonthTable(d.year);
    MonthsGrow(d.year, 1, d.month);
    MonthsGrow(d.year, d.month + 1, 13);
    YearStep(d.year);
    YearUnique(day, d.year);
    if r.month < d.month {
      MonthsGrow(d.year, r.month, d.month);
    } else if d.month < r.month {
      MonthsGrow(d.year, d.month, r.month);
    }
  }

  /** Date to `Date.UTC` and back is the identity exactly on years `Date.UTC` does not remap. */
  lemma DateRoundTrip(d: Date)
    requires ValidDate(d)
    ensures DateOfDay(UtcDay(d)) == d <==> !(0 <= d.year <= 99)
  {
    hide DayNumber, DateOfDay;
    DateUnique(d);
    if Remapped(d.year) {
      var later := Date(1900 + d.year, d.month, d.day);
      DayInYear(d);
      DayInYear(later);
      YearsGrow(d.year + 1, later.year);
    }
  }

  /** A day of some month lies in its year, also when it overflows a 28-day February. */
  lemma DayInYear(d: Date)
    requires 1 <= d.month <= 12 && 1 <= d.day <= DaysInMonth(d.year, d.month) + 1
    ensures DayFromYear(d.year) <= DayNumber(d)
    ensures d.day <= DaysInMonth(d.year, d.month) ==> DayNumber(d) < DayFromYear(d.year + 1)
  {
    hide DayFromYear;
    MonthTable(d.year);
    MonthsGrow(d.year, 1, d.month);
    MonthsGrow(d.year, d.month + 1, 13);
    YearStep(d.year);
  }

  // ----- weekdays and shifting -----

  /** `getUTCDay`: 0 = Sunday … 6 = Saturday. */
  function LocalWeekday(d: Date): int
    requires 1 <= d.month <= 12
  {
    (UtcDay(d) + 4) % 7
  }

  /** ISO 8601 weekday: 1 = Monday … 7 = Sunday. */
  function IsoWeekday(d: Date): (w: int)
    requires 1 <= d.month <= 12
    ensures 1 <= w <= 7
  {
    (LocalWeekday(d) + 6) % 7 + 1
  }

  /** The date `n` days later, by `Date.UTC` arithmetic. */
  function AddDays(d: Date, n: int): (r: Date)
    requires 1 <= d.month <= 12
    ensures ValidDate(r)
  {
    DateOfDay(UtcDay(Date(d.year, d.month, d.day + n)))
  }

  /** First day number that `Date.UTC` reaches without remapping the year. */
  const FIRST_MODERN_DAY := DayFromYear(100)

  predicate Modern(d: Date) {
    ValidDate(d) && d.year >= 100
  }

  lemma ModernDay(day: int)
    requires day >= FIRST_MODERN_DAY
    ensures Modern(DateOfDay(day)) && UtcDay(DateOfDay(day)) == day
  {
    var y := DateOfDay(day).year;
    var d := DateOfDay(day);
    MonthTable(y);
    MonthsGrow(y, d.month + 1, 13);
    YearStep(y);
    if y < 100 {
      YearsGrow(y + 1, 100);
    }
  }

  /** Shifting dates is addition on day numbers, across month and leap-year ends. */
  lemma AddDaysIsAddition(d: Date, n: int)
    requires Modern(d)
    ensures AddDays(d, n) == DateOfDay(DayNumber(d) + n)
  {
    hide DateOfDay, DayFromYear, DaysBeforeMonth;
  }

  /** Weekdays advance by one each day and repeat every seven. */
  lemma WeekdayOfDay(day: int)
    requires day >= FIRST_MODERN_DAY
    ensures IsoWeekday(DateOfDay(day)) == (day + 3) % 7 + 1
  {
    hide DateOfDay, DayFromYear, UtcDay;
    ModernDay(day);
    ModuloShift(day);
  }

  lemma ModuloShift(day: int)
    ensures ((day + 4) % 7 + 6) % 7 == (day + 3) % 7
  {
    var q := (day + 4) / 7;
    assert day + 4 == 7 * q + (day + 4) % 7;
    if (day + 4) % 7 == 0 {
      assert day + 3 == 7 * (q - 1) + 6;
    } else {
      assert day + 3 == 7 * q + ((day + 4) % 7 - 1);
    }
  }

  /** The days before each month of a year, as the calendar prints them. */
  lemma {:induction false} MonthStarts(year: int, month: int)
    requires 1 <= month <= 12
    ensures var common := [0, 31, 59, 90, 120, 151, 181, 212, 243, 273, 304, 334];
            DaysBeforeMonth(year, month)
            == common[month - 1] + if month > 2 && year % 4 == 0 && (year % 100 != 0 || year % 400 == 0) then 1 else 0
  {
    if month > 1 {
      MonthStarts(year, month - 1);
    }
  }

  /** Known days: the epoch, and a century leap day kept and one dropped. */
  lemma KnownDays()
    ensures DayNumber(Date(1970, 1, 1)) == 0
    ensures DayNumber(Date(2000, 2, 29)) == 11_016 && DayNumber(Date(2000, 3, 1)) == 11_017
    ensures DayNumber(Date(1900, 2, 28)) == -25_509 && DayNumber(Date(1900, 3, 1)) == -25_508
    ensures DayNumber(Date(2024, 1, 1)) == 19_723 && DayNumber(Date(2023, 12, 31)) == 19_722
  {
    MonthStarts(1970, 1);
    MonthStarts(2000, 2);
    MonthStarts(2000, 3);
    MonthStarts(1900, 2);
    MonthStarts(1900, 3);
    MonthStarts(2024, 1);
    MonthStarts(2023, 12);
    hide DaysBeforeMonth;
  }

  /** Known weekdays: Thursday the epoch, Monday 1 January 2024 and the Sunday before it. */
  lemma KnownWeekdays()
    ensures IsoWeekday(Date(1970, 1, 1)) == 4
    ensures IsoWeekday(Date(2024, 1, 1)) == 1 && IsoWeekday(Date(2023, 12, 31)) == 7
  {
    hide IsoWeekday, DayNumber;
    KnownDays();
    WeekdayOfDate(Date(1970, 1, 1));
    WeekdayOfDate(Date(2024, 1, 1));
    WeekdayOfDate(Date(2023, 12, 31));
  }

  lemma WeekdayOfDate(d: Date)
    requires 1 <= d.month <= 12 && !Remapped(d.year)
    ensures IsoWeekday(d) == (DayNumber(d) + 3) % 7 + 1
  {
    hide DayNumber;
    ModuloShift(DayNumber(d));
  }
}
