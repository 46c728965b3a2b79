/** Civil dates and day numbers, as ECMA-262 section 21.4.1 defines them. */
module CivilTime {

  predicate Leap(y: int) {
    y % 4 == 0 && (y % 100 != 0 || y % 400 == 0)
  }

  /** DayFromYear: days from 1970-01-01 to the first of January of `y`. */
  function DayFromYear(y: int): int {
    365 * (y - 1970) + (y - 1969) / 4 - (y - 1901) / 100 + (y - 1601) / 400
  }

  /** Days of the year before month `m` (0 is January, 12 the whole year). */
  function DaysBefore(leap: bool, m: nat): nat
    requires m <= 12
  {
    [0, 31, 59, 90, 120, 151, 181, 212, 243, 273, 304, 334, 365][m] + if leap && m >= 2 then 1 else 0
  }

  /** MakeDay: the day number of any year, month from zero and day, carrying months over. */
  function MakeDay(y: int, m: int, d: int): int {
    var ym := y + m / 12;
    DayFromYear(ym) + DaysBefore(Leap(ym), m % 12) + d - 1
  }

  datatype Date = Date(y: int, m: int, d: int) {
    /** A day of the calendar, months and days counted from one. */
    predicate Valid() {
      1 <= m <= 12 && 1 <= d <= DaysBefore(Leap(y), m) - DaysBefore(Leap(y), m - 1)
    }

    function Day(): int {
      MakeDay(y, m - 1, d)
    }
  }

  predicate Before(a: Date, b: Date) {
    a.y < b.y || (a.y == b.y && (a.m < b.m || (a.m == b.m && a.d < b.d)))
  }

  lemma FourthYear(y: int)
    ensures (y - 1968) / 4 - (y - 1969) / 4 == if y % 4 == 0 then 1 else 0
  {
  }

  lemma Century(y: int)
    ensures (y - 1900) / 100 - (y - 1901) / 100 == if y % 100 == 0 then 1 else 0
  {
  }

  lemma FourthCentury(y: int)
    ensures (y - 1600) / 400 - (y - 1601) / 400 == if y % 400 == 0 then 1 else 0
  {
  }

  lemma YearLength(y: int)
    ensures DayFromYear(y + 1) - DayFromYear(y) == DaysBefore(Leap(y), 12)
  {
    FourthYear(y);
    Century(y);
    FourthCentury(y);
    LeapCounts(y);
    YearsDays(Leap(y));
  }

  lemma LeapCounts(y: int)
    ensures (if y % 4 == 0 then 1 else 0) - (if y % 100 == 0 then 1 else 0) + (if y % 400 == 0 then 1 else 0)
         == if Leap(y) then 1 else 0
  {
    if y % 100 == 0 {
      HundredthIsFourth(y);
    }
    if y % 400 == 0 {
      FourHundredthIsHundredth(y);
    }
  }

  lemma HundredthIsFourth(y: int)
    requires y % 100 == 0
    ensures y % 4 == 0
  {
    assert y == 4 * (25 * (y / 100));
  }

  lemma FourHundredthIsHundredth(y: int)
    requires y % 400 == 0
    ensures y % 100 == 0
  {
    assert y == 100 * (4 * (y / 400));
  }

  lemma YearsDays(leap: bool)
    ensures DaysBefore(leap, 12) == if leap then 366 else 365
  {
  }

  lemma {:induction false} YearsAscend(y: int, z: int)
    requires y <= z
    ensures DayFromYear(y) + 365 * (z - y) <= DayFromYear(z)
    decreases z - y
  {
    if y < z {
      YearLength(y);
      YearsAscend(y + 1, z);
    }
  }

  lemma DaysBeforeAscends(leap: bool, m: nat, n: nat)
    requires m < n <= 12
    ensures DaysBefore(leap, m) + 28 <= DaysBefore(leap, n)
  {
  }

  lemma WithinYear(a: Date)
    requires a.Valid()
    ensures a.Day() == DayFromYear(a.y) + DaysBefore(Leap(a.y), a.m - 1) + a.d - 1
    ensures DayFromYear(a.y) + DaysBefore(Leap(a.y), a.m - 1) <= a.Day() < DayFromYear(a.y) + DaysBefore(Leap(a.y), a.m)
    ensures DayFromYear(a.y) <= a.Day() < DayFromYear(a.y + 1)
  {
    assert (a.m - 1) / 12 == 0 && (a.m - 1) % 12 == a.m - 1;
    YearLength(a.y);
    if a.m < 12 {
      DaysBeforeAscends(Leap(a.y), a.m, 12);
    }
  }

  /** The day number is strictly monotone over the calendar, leap years included. */
  lemma DayOrder(a: Date, b: Date)
    requires a.Valid() && b.Valid()
    ensures Before(a, b) <==> a.Day() < b.Day()
    ensures a == b <==> a.Day() == b.Day()
  {
    DayAscends(a, b);
    DayAscends(b, a);
  }

  lemma DayAscends(a: Date, b: Date)
    requires a.Valid() && b.Valid()
    ensures Before(a, b) ==> a.Day() < b.Day()
  {
    if a.y < b.y {
      AcrossYears(a, b);
    } else if Before(a, b) {
      WithinOneYear(a, b);
    }
  }

  lemma AcrossYears(a: Date, b: Date)
    requires a.Valid() && b.Valid() && a.y < b.y
    ensures a.Day() < b.Day()
  {
    WithinYear(a);
    WithinYear(b);
    YearsAscend(a.y + 1, b.y);
  }

  lemma WithinOneYear(a: Date, b: Date)
    requires a.Valid() && b.Valid() && a.y == b.y && Before(a, b)
    ensures a.Day() < b.Day()
  {
    WithinYear(a);
    WithinYear(b);
    if a.m < b.m {
      MonthsAscend(Leap(a.y), a.m, b.m - 1);
    }
  }

  lemma MonthsAscend(leap: bool, m: nat, n: nat)
    requires m <= n <= 12
    ensures DaysBefore(leap, m) <= DaysBefore(leap, n)
  {
    if m < n {
      DaysBeforeAscends(leap, m, n);
    }
  }

  // ---- back from a day number ---------------------------------------------

  function YearFrom(n: int, y: int): (r: int)
    requires DayFromYear(y) <= n
    ensures DayFromYear(r) <= n < DayFromYear(r + 1)
    decreases n - DayFromYear(y)
  {
    YearLength(y);
    if n < DayFromYear(y + 1) then y else YearFrom(n, y + 1)
  }

  function MonthFrom(leap: bool, n: nat, m: nat): (r: nat)
    requires m < 12 && DaysBefore(leap, m) <= n < DaysBefore(leap, 12)
    ensures r < 12 && DaysBefore(leap, r) <= n < DaysBefore(leap, r + 1)
    decreases 12 - m
  {
    if n < DaysBefore(leap, m + 1) then m else MonthFrom(leap, n, m + 1)
  }

  /** A year that starts no later than day `n`. */
  function EarlyYear(n: int): (y: int)
    ensures DayFromYear(y) <= n
  {
    if n >= 0 then 1970 + n / 366 else 1969 + n / 365
  }

  /** A day of a year, counted from zero. */
  function DateIn(y: int, rest: nat): (date: Date)
    requires rest < DaysBefore(Leap(y), 12)
    ensures date.Valid() && date.Day() == DayFromYear(y) + rest
  {
    var m := MonthFrom(Leap(y), rest, 0);
    var date := Date(y, m + 1, rest - DaysBefore(Leap(y), m) + 1);
    WithinYear(date);
    date
  }

  /** The calendar day a day number names. */
  function CivilOf(n: int): (date: Date)
    ensures date.Valid() && date.Day() == n
  {
    var y := YearFrom(n, EarlyYear(n));
    YearLength(y);
    DateIn(y, n - DayFromYear(y))
  }
}
