/** A ticket's dates: the calendar day a value names, and how far it is from today. */
module IssueDates {
  import opened Text
  import opened CivilTime

  /** The local calendar day of a timestamp, for values that are not bare dates. */
  type Timestamps = string -> Option<Date>

  predicate Bare(value: string) {
    && |value| == 10 && value[4] == '-' && value[7] == '-'
    && AllDigits(value[0..4]) && AllDigits(value[5..7]) && AllDigits(value[8..10])
  }

  /** `Date` reads the years 0 to 99 as 1900 to 1999. */
  function FullYear(y: int): int {
    if 0 <= y <= 99 then 1900 + y else y
  }

  /** The calendar day of a year, month and day, overflowing months and days carried over. */
  function BareDay(y: int, m: int, d: int): (date: Date)
    ensures date.Valid()
  {
    CivilOf(MakeDay(FullYear(y), m - 1, d))
  }

  /** A bare date is a local calendar day. */
  function ParseDate(value: string, timestamps: Timestamps): (r: Option<Date>)
    ensures Bare(value) ==> r.Some? && r.value.Valid()
  {
    if Bare(value) then
      Some(BareDay(DigitsValue(value[0..4]), DigitsValue(value[5..7]), DigitsValue(value[8..10])))
    else timestamps(value)
  }

  /** `Date.UTC` of a calendar day, in days. */
  function StartOf(date: Date): int {
    MakeDay(FullYear(date.y), date.m - 1, date.d)
  }

  /** Division that drops the remainder toward zero. */
  function Trunc(a: int, b: int): int
    requires b > 0
  {
    if a >= 0 then a / b else -(-a / b)
  }

  datatype Unit = Day | Week | Month | Year

  function Length(unit: Unit): int {
    match unit
    case Day => 1
    case Week => 7
    case Month => 30
    case Year => 365
  }

  datatype Distance = Distance(value: int, unit: Unit) {
    /** The days it stands for. */
    function Days(): int {
      value * Length(unit)
    }

    function Opposite(): Distance {
      Distance(-value, unit)
    }
  }

  function Abs(n: int): nat {
    if n < 0 then -n else n
  }

  /** The unit grows with the distance. */
  function InWords(days: int): Distance {
    var magnitude := Abs(days);
    if magnitude < 7 then Distance(days, Day)
    else if magnitude < 30 then Distance(Trunc(days, 7), Week)
    else if magnitude < 365 then Distance(Trunc(days, 30), Month)
    else Distance(Trunc(days, 365), Year)
  }

  function FromToday(value: Option<string>, now: Date, timestamps: Timestamps): Option<Distance> {
    var text :- value;
    var date :- ParseDate(text, timestamps);
    Some(InWords(StartOf(date) - StartOf(now)))
  }

  predicate IsOverdue(value: Option<string>, today: Date, timestamps: Timestamps) {
    && value.Some?
    && ParseDate(value.value, timestamps).Some?
    && StartOf(ParseDate(value.value, timestamps).value) < StartOf(today)
  }

  // ---- distances ----------------------------------------------------------

  /** The words round toward today, by less than one unit; only today is nothing. */
  lemma WordsBoundDays(days: int)
    ensures var d := InWords(days);
            && Abs(d.value) * Length(d.unit) <= Abs(days) < (Abs(d.value) + 1) * Length(d.unit)
            && (d.value < 0 <==> days < 0) && (d.value == 0 <==> days == 0)
  {
  }

  /** The unit is the longest that fits in the days; nothing is shorter than a day. */
  lemma UnitIsLongest(days: int, unit: Unit)
    ensures var chosen := InWords(days).unit;
            && (chosen == Day || Length(chosen) <= Abs(days))
            && (Length(chosen) < Length(unit) ==> Abs(days) < Length(unit))
    ensures Length(Day) == 1 && Length(Week) == 7 && Length(Month) == 30 && Length(Year) == 365
  {
  }

  /** Seen from the other side, the same distance back. */
  lemma WordsAreAntisymmetric(days: int)
    ensures InWords(-days) == InWords(days).Opposite()
  {
  }

  /** Rounding never reverses two distances, across units too. */
  lemma WordsKeepOrder(a: int, b: int)
    requires a <= b
    ensures InWords(a).Days() <= InWords(b).Days()
  {
    if 0 <= a {
      ForwardOrder(a, b);
    } else if b <= 0 {
      ForwardOrder(-b, -a);
      OppositeDays(a);
      OppositeDays(b);
    } else {
      SignOfDays(a);
      SignOfDays(b);
    }
  }

  lemma OppositeDays(days: int)
    ensures InWords(-days).Days() == -InWords(days).Days()
  {
    WordsAreAntisymmetric(days);
    var d := InWords(days);
    assert -d.value * Length(d.unit) == -(d.value * Length(d.unit));
  }

  lemma SignOfDays(days: int)
    ensures days <= 0 ==> InWords(days).Days() <= 0
    ensures days >= 0 ==> InWords(days).Days() >= 0
  {
    WordsBoundDays(days);
  }

  lemma ForwardOrder(a: int, b: int)
    requires 0 <= a <= b
    ensures InWords(a).Days() <= InWords(b).Days()
  {
    var x, y := InWords(a), InWords(b);
    if x.unit == y.unit {
      assert a / Length(x.unit) <= b / Length(x.unit);
    } else {
      assert x.Days() <= a;
      assert y.Days() >= if y.unit == Week then 7 else if y.unit == Month then 30 else 365;
      assert a < if y.unit == Week then 7 else if y.unit == Month then 30 else 365;
    }
  }

  // ---- dates --------------------------------------------------------------

  /** Words and warning agree: a date is overdue exactly when its distance is negative. */
  lemma OverdueMeansNegative(value: string, today: Date, timestamps: Timestamps, date: Date)
    requires ParseDate(value, timestamps) == Some(date)
    ensures IsOverdue(Some(value), today, timestamps) <==> FromToday(Some(value), today, timestamps).value.value < 0
    ensures FromToday(Some(value), today, timestamps).value.value == 0 <==> StartOf(date) == StartOf(today)
  {
    WordsBoundDays(StartOf(date) - StartOf(today));
  }

  /** Two dates, each seen from the other. */
  lemma DatesAreAntisymmetric(a: string, b: string, timestamps: Timestamps, x: Date, y: Date)
    requires ParseDate(a, timestamps) == Some(x) && ParseDate(b, timestamps) == Some(y)
    ensures FromToday(Some(a), y, timestamps).value == FromToday(Some(b), x, timestamps).value.Opposite()
  {
    WordsAreAntisymmetric(StartOf(y) - StartOf(x));
  }

  /** A calendar day outside the years `Date` shifts. */
  predicate Unshifted(date: Date) {
    date.Valid() && !(0 <= date.y <= 99)
  }

  lemma StartOrder(x: Date, y: Date)
    requires Unshifted(x) && Unshifted(y)
    ensures Before(x, y) <==> StartOf(x) < StartOf(y)
    ensures x == y <==> StartOf(x) == StartOf(y)
  {
    assert StartOf(x) == x.Day() && StartOf(y) == y.Day();
    DayOrder(x, y);
  }

  lemma StartWithin(date: Date)
    requires date.Valid() && 0 <= date.y <= 99
    ensures var y := 1900 + date.y;
            && StartOf(date) == MakeDay(y, date.m - 1, date.d)
            && StartOf(date) == DayFromYear(y) + DaysBefore(Leap(y), date.m - 1) + date.d - 1
  {
    assert (date.m - 1) / 12 == 0 && (date.m - 1) % 12 == date.m - 1;
  }

  /** A month's days, of either kind of year, reach no further than one past the other's month and year. */
  lemma LeapMovesOneDay(leap: bool, other: bool, m: nat)
    requires 1 <= m <= 12
    ensures var last := DaysBefore(other, m - 1) + DaysBefore(leap, m) - DaysBefore(leap, m - 1);
            && last <= DaysBefore(other, m) + 1 && last <= DaysBefore(other, 12) + 1
            && (leap == other ==> last <= DaysBefore(other, 12))
  {
  }

  /** A shifted date stands in the year it is taken for, or just past it. */
  lemma StartInYear(date: Date)
    requires date.Valid() && 0 <= date.y <= 99
    ensures DayFromYear(1900 + date.y) <= StartOf(date) <= DayFromYear(1901 + date.y)
    ensures date.y == 99 ==> StartOf(date) < DayFromYear(2000)
  {
    StartWithin(date);
    LeapMovesOneDay(Leap(date.y), Leap(1900 + date.y), date.m);
    YearLength(1900 + date.y);
  }

  /** A date of the years 0 to 99 stands in the twentieth century. */
  lemma ShiftedStart(date: Date)
    requires date.Valid() && 0 <= date.y <= 99
    ensures DayFromYear(1900) <= StartOf(date) < DayFromYear(2000)
    ensures StartOf(date) == MakeDay(1900 + date.y, date.m - 1, date.d)
  {
    StartInYear(date);
    StartWithin(date);
    YearsAscend(1900, 1900 + date.y);
    if date.y < 99 {
      YearsAscend(1901 + date.y, 1999);
      YearsAscend(1999, 2000);
    }
  }

  lemma StartOfYears(date: Date)
    requires Unshifted(date)
    ensures date.y < 1900 ==> StartOf(date) < DayFromYear(1900)
    ensures date.y >= 2000 ==> StartOf(date) >= DayFromYear(2000)
  {
    WithinYear(date);
    if date.y < 1900 {
      YearsAscend(date.y + 1, 1900);
    } else if date.y >= 2000 {
      YearsAscend(2000, date.y);
    }
  }

  /**
   * When the warning is the calendar's. It is for every date outside the
   * shifted years; and for one within them exactly when today is before the
   * year 0, or after the day the date is taken for.
   */
  lemma OverdueMeansBeforeExactly(value: string, today: Date, timestamps: Timestamps, date: Date)
    requires ParseDate(value, timestamps) == Some(date) && date.Valid() && Unshifted(today)
    ensures (IsOverdue(Some(value), today, timestamps) <==> Before(date, today))
       <==> Unshifted(date) || today.y < 0 || MakeDay(1900 + date.y, date.m - 1, date.d) < today.Day()
  {
    assert StartOf(today) == today.Day();
    if Unshifted(date) {
      StartOrder(date, today);
    } else {
      ShiftedStart(date);
      StartOfYears(today);
    }
  }

  /** At any today the program runs at, the warning is the calendar's for every date. */
  lemma OverdueMeansBefore(value: string, today: Date, timestamps: Timestamps, date: Date)
    requires ParseDate(value, timestamps) == Some(date) && date.Valid() && today.Valid() && today.y >= 2000
    ensures IsOverdue(Some(value), today, timestamps) <==> Before(date, today)
  {
    OverdueMeansBeforeExactly(value, today, timestamps, date);
    if !Unshifted(date) {
      ShiftedStart(date);
      StartOfYears(today);
    }
  }

  /** Distances a year or more apart read apart. */
  lemma FarApart(a: int, b: int)
    requires a + 730 <= b
    ensures InWords(a).Days() < InWords(b).Days()
  {
    WordsWithinAYear(a);
    WordsWithinAYear(b);
  }

  lemma WordsWithinAYear(days: int)
    ensures Abs(InWords(days).Days() - days) < 365
  {
    WordsBoundDays(days);
  }

  /** The shift is of eighteen centuries and more. */
  lemma ShiftIsFar(date: Date)
    requires date.Valid() && 0 <= date.y <= 99
    ensures date.Day() + 730 <= StartOf(date)
  {
    WithinYear(date);
    ShiftedStart(date);
    YearsAscend(date.y + 1, 1800);
    YearsAscend(1800, 1900);
  }

  /** The words are those of the true distance exactly outside the shifted years. */
  lemma WordsAreTrueExactly(value: string, today: Date, timestamps: Timestamps, date: Date)
    requires ParseDate(value, timestamps) == Some(date) && date.Valid() && Unshifted(today)
    ensures FromToday(Some(value), today, timestamps) == Some(InWords(date.Day() - today.Day())) <==> Unshifted(date)
  {
    hide DayFromYear;
    FromTodayIs(value, today, timestamps, date);
    assert StartOf(today) == today.Day();
    if Unshifted(date) {
      assert StartOf(date) == date.Day();
    } else {
      ShiftIsFar(date);
      FarApart(date.Day() - today.Day(), StartOf(date) - today.Day());
    }
  }

  /** Two dates are counted in their order: not when one is taken for a day past the other. */
  predicate CountedInOrder(x: Date, y: Date) {
    Unshifted(x) || y.y <= 99 || MakeDay(1900 + x.y, x.m - 1, x.d) <= y.Day()
  }

  /** Within one shifted year. */
  lemma MonthSpan(leap: bool, other: bool, m: nat, d: nat, n: nat, e: nat)
    requires 1 <= m <= 12 && 1 <= n <= 12 && (m < n || (m == n && d <= e))
    requires 1 <= d <= DaysBefore(leap, m) - DaysBefore(leap, m - 1) && 1 <= e
    ensures DaysBefore(other, m - 1) + d <= DaysBefore(other, n - 1) + e
  {
    LeapMovesOneDay(leap, other, m);
    if m < n {
      MonthsAscend(other, m, n - 1);
    }
  }

  lemma ShiftedMonthOrder(x: Date, y: Date)
    requires x.Valid() && y.Valid() && 0 <= x.y == y.y <= 99 && (Before(x, y) || x == y)
    ensures StartOf(x) <= StartOf(y)
  {
    hide DayFromYear;
    StartWithin(x);
    StartWithin(y);
    MonthSpan(Leap(x.y), Leap(1900 + x.y), x.m, x.d, y.m, y.d);
  }

  lemma ShiftedYearOrder(x: Date, y: Date)
    requires x.Valid() && y.Valid() && 0 <= x.y < y.y <= 99
    ensures StartOf(x) <= StartOf(y)
  {
    hide DayFromYear;
    StartInYear(x);
    StartInYear(y);
    YearsAscend(1901 + x.y, 1900 + y.y);
  }

  /** Within the shifted years only the leap day of the year 0 moves, onto the next day. */
  lemma ShiftedOrder(x: Date, y: Date)
    requires x.Valid() && y.Valid() && 0 <= x.y <= 99 && 0 <= y.y <= 99 && (Before(x, y) || x == y)
    ensures StartOf(x) <= StartOf(y)
  {
    if x.y == y.y {
      ShiftedMonthOrder(x, y);
    } else {
      ShiftedYearOrder(x, y);
    }
  }

  /** Nothing before the year 0 passes a shifted date. */
  lemma UnshiftedFirst(x: Date, y: Date)
    requires Unshifted(x) && y.Valid() && 0 <= y.y <= 99 && Before(x, y)
    ensures StartOf(x) <= StartOf(y)
  {
    ShiftedStart(y);
    StartOfYears(x);
  }

  lemma CountedInOrderExactly(x: Date, y: Date)
    requires x.Valid() && y.Valid() && (Before(x, y) || x == y)
    ensures StartOf(x) <= StartOf(y) <==> CountedInOrder(x, y)
  {
    hide DayFromYear;
    if !Unshifted(x) && !Unshifted(y) {
      ShiftedOrder(x, y);
    } else if !Unshifted(y) {
      UnshiftedFirst(x, y);
    } else if Unshifted(x) {
      StartOrder(x, y);
    } else {
      ShiftedStart(x);
      UnshiftedDay(y);
    }
  }

  lemma UnshiftedDay(date: Date)
    requires Unshifted(date)
    ensures StartOf(date) == date.Day()
  {
  }

  lemma FromTodayIs(value: string, now: Date, timestamps: Timestamps, date: Date)
    requires ParseDate(value, timestamps) == Some(date)
    ensures FromToday(Some(value), now, timestamps) == Some(InWords(StartOf(date) - StartOf(now)))
  {
  }

  /** One of two dates reads as no nearer than the other, at a today. */
  ghost predicate ReadInOrder(x: Date, y: Date, today: Date) {
    InWords(StartOf(x) - StartOf(today)).Days() <= InWords(StartOf(y) - StartOf(today)).Days()
  }

  /** A later date never reads as nearer, whenever today is, exactly when the two are counted in order. */
  lemma FartherReadsFartherExactly(x: Date, y: Date)
    requires x.Valid() && y.Valid() && (Before(x, y) || x == y)
    ensures (forall today :: Unshifted(today) ==> ReadInOrder(x, y, today)) <==> CountedInOrder(x, y)
  {
    hide DayFromYear;
    CountedInOrderExactly(x, y);
    if CountedInOrder(x, y) {
      forall today | Unshifted(today) ensures ReadInOrder(x, y, today) {
        CountedReadInOrder(x, y, today);
      }
    } else {
      SignOfWords(StartOf(x) - StartOf(y));
      assert !ReadInOrder(x, y, y);
    }
  }

  lemma SignOfWords(days: int)
    requires days > 0
    ensures InWords(days).Days() > 0 && InWords(0).Days() == 0
  {
    WordsBoundDays(days);
  }

  /** A farther date never reads as nearer, on either side of today. */
  lemma FartherReadsFarther(
    a: string, b: string, today: Date, timestamps: Timestamps, x: Date, y: Date, nearer: Distance, farther: Distance)
    requires ParseDate(a, timestamps) == Some(x) && ParseDate(b, timestamps) == Some(y)
    requires x.Valid() && y.Valid() && (Before(x, y) || x == y) && CountedInOrder(x, y)
    requires FromToday(Some(a), today, timestamps) == Some(nearer)
    requires FromToday(Some(b), today, timestamps) == Some(farther)
    ensures nearer.Days() <= farther.Days()
  {
    hide StartOf, InWords, ParseDate;
    FromTodayIs(a, today, timestamps, x);
    FromTodayIs(b, today, timestamps, y);
    CountedReadInOrder(x, y, today);
  }

  lemma CountedReadInOrder(x: Date, y: Date, today: Date)
    requires x.Valid() && y.Valid() && (Before(x, y) || x == y) && CountedInOrder(x, y)
    ensures ReadInOrder(x, y, today)
  {
    hide StartOf, InWords;
    CountedInOrderExactly(x, y);
    WordsFrom(StartOf(x), StartOf(y), StartOf(today));
  }

  lemma WordsFrom(a: int, b: int, today: int)
    requires a <= b
    ensures InWords(a - today).Days() <= InWords(b - today).Days()
  {
    WordsKeepOrder(a - today, b - today);
  }

  // ---- bare dates ---------------------------------------------------------

  /** A number at a fixed width. */
  function Pad(n: nat, width: nat): (s: string)
    ensures |s| == width && AllDigits(s)
  {
    if width == 0 then "" else Pad(n / 10, width - 1) + [DigitChar(n % 10)]
  }

  lemma {:induction false} PadValue(n: nat, width: nat)
    requires n < Pow10(width)
    ensures DigitsValue(Pad(n, width)) == n
  {
    if width > 0 {
      PadValue(n / 10, width - 1);
      assert Pad(n, width)[..width - 1] == Pad(n / 10, width - 1);
    }
  }

  function BareText(y: nat, m: nat, d: nat): string {
    Pad(y, 4) + ("-" + (Pad(m, 2) + ("-" + Pad(d, 2))))
  }

  lemma FieldSlices(a: string, b: string, c: string)
    requires |a| == 4 && |b| == 2 && |c| == 2
    ensures var s := a + ("-" + (b + ("-" + c)));
            && |s| == 10 && s[4] == '-' && s[7] == '-'
            && s[0..4] == a && s[5..7] == b && s[8..10] == c
  {
  }

  lemma FieldsAreBare(s: string, a: string, b: string, c: string)
    requires |a| == 4 && |b| == 2 && |c| == 2 && AllDigits(a) && AllDigits(b) && AllDigits(c)
    requires s == a + ("-" + (b + ("-" + c)))
    ensures Bare(s) && s[0..4] == a && s[5..7] == b && s[8..10] == c
  {
    FieldSlices(a, b, c);
  }

  lemma PadsReadBack(y: nat, m: nat, d: nat)
    requires y < 10000 && m < 100 && d < 100
    ensures DigitsValue(Pad(y, 4)) == y && DigitsValue(Pad(m, 2)) == m && DigitsValue(Pad(d, 2)) == d
  {
    assert Pow10(2) == 100 && Pow10(4) == 10000;
    PadValue(y, 4);
    PadValue(m, 2);
    PadValue(d, 2);
  }

  /** What a bare date's fields are read as, in range for the calendar or not. */
  lemma FieldsReadBack(y: nat, m: nat, d: nat, timestamps: Timestamps)
    requires y < 10000 && m < 100 && d < 100
    ensures ParseDate(BareText(y, m, d), timestamps) == Some(BareDay(y, m, d))
  {
    FieldsAreBare(BareText(y, m, d), Pad(y, 4), Pad(m, 2), Pad(d, 2));
    PadsReadBack(y, m, d);
  }

  /** A bare date names its own calendar day exactly from the year 100 on. */
  lemma BareDateReadsBack(date: Date, timestamps: Timestamps)
    requires date.Valid() && 0 <= date.y <= 9999
    ensures ParseDate(BareText(date.y, date.m, date.d), timestamps) == Some(date) <==> date.y >= 100
    ensures date.y < 100 ==>
              ParseDate(BareText(date.y, date.m, date.d), timestamps)
              == Some(CivilOf(MakeDay(1900 + date.y, date.m - 1, date.d)))
  {
    assert date.m <= 12 && date.d <= 31 by { MonthLength(Leap(date.y), date.m); }
    FieldsReadBack(date.y, date.m, date.d, timestamps);
    DayReadsBack(date);
  }

  lemma DayReadsBack(date: Date)
    requires date.Valid() && 0 <= date.y
    ensures BareDay(date.y, date.m, date.d) == date <==> date.y >= 100
    ensures date.y < 100 ==> BareDay(date.y, date.m, date.d) == CivilOf(MakeDay(1900 + date.y, date.m - 1, date.d))
  {
    hide DayFromYear;
    var day := BareDay(date.y, date.m, date.d);
    DayOrder(day, date);
    if date.y < 100 {
      ShiftIsFar(date);
      assert day.Day() == StartOf(date);
    } else {
      assert day.Day() == date.Day();
    }
  }

  lemma MonthLength(leap: bool, m: nat)
    requires 1 <= m <= 12
    ensures DaysBefore(leap, m) - DaysBefore(leap, m - 1) <= 31
  {
  }

  /** A bare date before the year 100 is taken for one the words are true of. */
  lemma TakenForUnshifted(date: Date)
    requires date.Valid() && 0 <= date.y <= 99
    ensures var taken := CivilOf(MakeDay(1900 + date.y, date.m - 1, date.d));
            Unshifted(taken) && StartOf(taken) == StartOf(date)
  {
    ShiftedStart(date);
    var taken := CivilOf(StartOf(date));
    if taken.y < 1900 {
      WithinYear(taken);
      YearsAscend(taken.y + 1, 1900);
    }
  }

  /** What a bare date reads as, in words, is its own distance exactly from the year 100 on. */
  lemma BareWordsAreTrueExactly(date: Date, today: Date, timestamps: Timestamps)
    requires date.Valid() && 0 <= date.y <= 9999 && Unshifted(today)
    ensures var words := FromToday(Some(BareText(date.y, date.m, date.d)), today, timestamps);
            words == Some(InWords(date.Day() - today.Day())) <==> date.y >= 100
  {
    hide DayFromYear, BareText, ParseDate;
    var text := BareText(date.y, date.m, date.d);
    BareDateReadsBack(date, timestamps);
    if date.y >= 100 {
      WordsAreTrueExactly(text, today, timestamps, date);
    } else {
      BareWords(date, today, timestamps);
      ShiftIsFar(date);
      FarApart(date.Day() - today.Day(), StartOf(date) - today.Day());
    }
  }

  lemma BareWords(date: Date, today: Date, timestamps: Timestamps)
    requires date.Valid() && 0 <= date.y <= 99 && Unshifted(today)
    ensures FromToday(Some(BareText(date.y, date.m, date.d)), today, timestamps)
         == Some(InWords(StartOf(date) - today.Day()))
  {
    hide DayFromYear, BareText, ParseDate, CivilOf;
    var taken := CivilOf(MakeDay(1900 + date.y, date.m - 1, date.d));
    BareDateReadsBack(date, timestamps);
    TakenForUnshifted(date);
    FromTodayIs(BareText(date.y, date.m, date.d), today, timestamps, taken);
    assert StartOf(today) == today.Day();
  }

  lemma NinetyNineStarts(d: nat)
    requires 1 <= d <= 31
    ensures Date(99, 12, d).Valid() && StartOf(Date(99, 12, d)) == DayFromYear(1999) + 334 + d - 1
    ensures Date(99, 12, d).Day() == DayFromYear(99) + 334 + d - 1
    ensures Unshifted(Date(2026, 1, 1)) && Date(2026, 1, 1).Day() == DayFromYear(2026)
  {
    StartWithin(Date(99, 12, d));
    WithinYear(Date(99, 12, d));
    WithinYear(Date(2026, 1, 1));
  }

  lemma NewYears()
    ensures DayFromYear(1999) == 10592 && DayFromYear(99) == -683368 && DayFromYear(2026) == 20454
  {
  }

  /** On the first of January 2026 a bare date of December 99 reads 26 years ago where it is 1927. */
  lemma NinetyNineIsMisread(d: nat, timestamps: Timestamps)
    requires 1 <= d <= 31
    ensures var today := Date(2026, 1, 1);
            && FromToday(Some(BareText(99, 12, d)), today, timestamps) == Some(Distance(-26, Year))
            && InWords(Date(99, 12, d).Day() - today.Day()) == Distance(-1927, Year)
  {
    NinetyNineStarts(d);
    NewYears();
    BareWords(Date(99, 12, d), Date(2026, 1, 1), timestamps);
    CenturiesAgo(d);
  }

  lemma CenturiesAgo(d: nat)
    requires 1 <= d <= 31
    ensures InWords(10925 + d - 20454) == Distance(-26, Year) && InWords(-683035 + d - 20454) == Distance(-1927, Year)
  {
  }
}
