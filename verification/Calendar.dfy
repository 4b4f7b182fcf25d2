/** ECMAScript's day arithmetic (ECMA-262, Time Values and Time Range) against the Gregorian calendar. */
module Calendar {

  // ---------------------------------------------- the engine's arithmetic

  /** The day number of the first of January. */
  function DayFromYear(y: int): int {
    365 * (y - 1970) + (y - 1969) / 4 - (y - 1901) / 100 + (y - 1601) / 400
  }

  predicate InLeapYear(y: int) {
    (y % 4 == 0 && y % 100 != 0) || y % 400 == 0
  }

  /** The day within its year on which a month starts; month 13 stands for the end of the year. */
  function MonthStart(m: int, leap: bool): int
    requires 1 <= m <= 13
  {
    var ordinary := [0, 31, 59, 90, 120, 151, 181, 212, 243, 273, 304, 334, 365][m - 1];
    if leap && m > 2 then ordinary + 1 else ordinary
  }

  /** `Date.UTC(y, m - 1, d)` in days: a day beyond its month runs over into the next. */
  function MakeDay(y: int, m: int, d: int): int
    requires 1 <= m <= 12
  {
    DayFromYear(y) + MonthStart(m, InLeapYear(y)) + d - 1
  }

  /** The largest year that starts on or before `day`, searching upwards from `y`. */
  function YearFrom(y: int, day: int): int
    requires DayFromYear(y) <= day
    decreases day - DayFromYear(y)
  {
    YearLength(y);
    if DayFromYear(y + 1) <= day then YearFrom(y + 1, day) else y
  }

  const FIRST_YEAR := 1

  function YearOf(day: int): int
    requires DayFromYear(FIRST_YEAR) <= day
  {
    YearFrom(FIRST_YEAR, day)
  }

  function MonthFrom(m: int, within: int, leap: bool): (r: int)
    requires 1 <= m <= 12
    ensures 1 <= r <= 12
    decreases 12 - m
  {
    if m < 12 && MonthStart(m + 1, leap) <= within then MonthFrom(m + 1, within, leap) else m
  }

  /** `getUTCMonth() + 1` of the start of a day. */
  function MonthOf(day: int): (m: int)
    requires DayFromYear(FIRST_YEAR) <= day
    ensures 1 <= m <= 12
  {
    var y := YearOf(day);
    MonthFrom(1, day - DayFromYear(y), InLeapYear(y))
  }

  /** `getUTCDate()` of the start of a day. */
  function DateOf(day: int): int
    requires DayFromYear(FIRST_YEAR) <= day
  {
    var y := YearOf(day);
    day - DayFromYear(y) - MonthStart(MonthOf(day), InLeapYear(y)) + 1
  }

  // ------------------------------------------------ the civil calendar

  function DaysInMonth(y: int, m: int): int
    requires 1 <= m <= 12
  {
    if m in {4, 6, 9, 11} then 30
    else if m == 2 then (if InLeapYear(y) then 29 else 28)
    else 31
  }

  predicate DayExists(y: int, m: int, d: int) {
    1 <= m <= 12 && 1 <= d <= DaysInMonth(y, m)
  }

  // -------------------------------------------------------------- proofs

  lemma Every4(y: int)
    ensures (y - 1968) / 4 == (y - 1969) / 4 + if y % 4 == 0 then 1 else 0
  {
  }

  lemma Every100(y: int)
    ensures (y - 1900) / 100 == (y - 1901) / 100 + if y % 100 == 0 then 1 else 0
  {
  }

  lemma Every400(y: int)
    ensures (y - 1600) / 400 == (y - 1601) / 400 + if y % 400 == 0 then 1 else 0
  {
  }

  lemma MultipleOf4(y: int, k: int)
    requires y == 4 * k
    ensures y % 4 == 0
  {
  }

  lemma MultipleOf100(y: int, k: int)
    requires y == 100 * k
    ensures y % 100 == 0
  {
  }

  lemma Multiples(y: int)
    ensures y % 100 == 0 ==> y % 4 == 0
    ensures y % 400 == 0 ==> y % 100 == 0
  {
    if y % 100 == 0 {
      MultipleOf4(y, 25 * (y / 100));
    }
    if y % 400 == 0 {
      MultipleOf100(y, 4 * (y / 400));
    }
  }

  lemma YearLength(y: int)
    ensures DayFromYear(y + 1) == DayFromYear(y) + if InLeapYear(y) then 366 else 365
  {
    Every4(y);
    Every100(y);
    Every400(y);
    Multiples(y);
    assert DayFromYear(y + 1) == 365 * (y - 1970) + 365 + (y - 1968) / 4 - (y - 1900) / 100 + (y - 1600) / 400;
  }

  lemma MonthLength(y: int, m: int)
    requires 1 <= m <= 12
    ensures MonthStart(m + 1, InLeapYear(y)) == MonthStart(m, InLeapYear(y)) + DaysInMonth(y, m)
  {
  }

  lemma {:induction false} YearsAscend(y: int, z: int)
    requires y <= z
    ensures DayFromYear(z) >= DayFromYear(y) + 365 * (z - y)
    decreases z - y
  {
    if y < z {
      YearsAscend(y, z - 1);
      YearLength(z - 1);
    }
  }

  lemma {:induction false} YearFromFinds(y: int, day: int)
    requires DayFromYear(y) <= day
    ensures DayFromYear(YearFrom(y, day)) <= day < DayFromYear(YearFrom(y, day) + 1)
    ensures YearFrom(y, day) >= y
    decreases day - DayFromYear(y)
  {
    hide DayFromYear;
    YearLength(y);
    if DayFromYear(y + 1) <= day {
      YearFromFinds(y + 1, day);
    }
  }

  /** The year of a day is the only one that contains it. */
  lemma YearUnique(y: int, day: int)
    requires y >= FIRST_YEAR && DayFromYear(y) <= day < DayFromYear(y + 1)
    ensures DayFromYear(FIRST_YEAR) <= day && YearOf(day) == y
  {
    hide DayFromYear;
    YearsAscend(FIRST_YEAR, y);
    var found := YearOf(day);
    YearFromFinds(FIRST_YEAR, day);
    if found < y {
      YearsAscend(found + 1, y);
    } else if found > y {
      YearsAscend(y + 1, found);
    }
  }

  lemma {:induction false} MonthFromFinds(m: int, within: int, leap: bool)
    requires 1 <= m <= 12 && MonthStart(m, leap) <= within < MonthStart(13, leap)
    ensures var r := MonthFrom(m, within, leap); m <= r && MonthStart(r, leap) <= within < MonthStart(r + 1, leap)
    decreases 12 - m
  {
    if m < 12 && MonthStart(m + 1, leap) <= within {
      MonthFromFinds(m + 1, within, leap);
    }
  }

  lemma {:induction false} MonthsAscend(m: int, n: int, leap: bool)
    requires 1 <= m <= n <= 13
    ensures MonthStart(m, leap) <= MonthStart(n, leap)
    decreases n - m
  {
    if m < n {
      MonthsAscend(m, n - 1, leap);
    }
  }

  lemma MonthUnique(m: int, within: int, leap: bool)
    requires 1 <= m <= 12 && MonthStart(m, leap) <= within < MonthStart(m + 1, leap)
    ensures MonthFrom(1, within, leap) == m
  {
    MonthsAscend(1, m, leap);
    MonthsAscend(m + 1, 13, leap);
    MonthFromFinds(1, within, leap);
    var found := MonthFrom(1, within, leap);
    if found < m {
      MonthsAscend(found + 1, m, leap);
    } else if found > m {
      MonthsAscend(m + 1, found, leap);
    }
  }

  /** A day that exists lies within its year. */
  lemma DayInYear(y: int, m: int, d: int)
    requires DayExists(y, m, d)
    ensures DayFromYear(y) <= MakeDay(y, m, d) < DayFromYear(y + 1)
  {
    hide DayFromYear, InLeapYear;
    var leap := InLeapYear(y);
    MonthLength(y, m);
    MonthsAscend(1, m, leap);
    MonthsAscend(m + 1, 13, leap);
    YearLength(y);
  }

  /** A day that exists comes back unchanged. */
  lemma CivilToDayToCivil(y: int, m: int, d: int)
    requires y >= FIRST_YEAR && DayExists(y, m, d)
    ensures var day := MakeDay(y, m, d);
            DayFromYear(FIRST_YEAR) <= day && YearOf(day) == y && MonthOf(day) == m && DateOf(day) == d
  {
    var day, leap := MakeDay(y, m, d), InLeapYear(y);
    MonthLength(y, m);
    MonthsAscend(1, m, leap);
    MonthsAscend(m + 1, 13, leap);
    YearLength(y);
    YearUnique(y, day);
    MonthUnique(m, day - DayFromYear(y), leap);
  }

  /** Every day number is the day of exactly the civil date read from it. */
  lemma DayToCivilToDay(day: int)
    requires DayFromYear(FIRST_YEAR) <= day
    ensures var y, m, d := YearOf(day), MonthOf(day), DateOf(day);
            y >= FIRST_YEAR && DayExists(y, m, d) && MakeDay(y, m, d) == day
  {
    hide DayFromYear, InLeapYear;
    var y := YearOf(day);
    YearFromFinds(FIRST_YEAR, day);
    YearLength(y);
    MonthFromFinds(1, day - DayFromYear(y), InLeapYear(y));
    MonthLength(y, MonthOf(day));
  }

  /** Main result: the roll-over test of the script is the Gregorian calendar. */
  lemma RollOverIsCalendar(y: int, m: int, d: int)
    requires y >= FIRST_YEAR && 1 <= m <= 12 && 1 <= d <= 31
    ensures var day := MakeDay(y, m, d);
            && DayFromYear(FIRST_YEAR) <= day
            && (MonthOf(day) == m && DateOf(day) == d <==> DayExists(y, m, d))
  {
    if DayExists(y, m, d) {
      CivilToDayToCivil(y, m, d);
    } else {
      // The day runs over into the following month, which exists because December has 31 days.
      MonthLength(y, m);
      CivilToDayToCivil(y, m + 1, d - DaysInMonth(y, m));
    }
  }
}
