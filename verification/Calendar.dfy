/** The Gregorian calendar, extended to every year, and wall-clock instants in a zone of fixed offset. */
module Calendar {

  datatype Date = Date(year: int, month: int, day: int) {

    predicate Valid() {
      1 <= month <= 12 && 1 <= day <= DaysIn(year, month)
    }
  }

  /** An instant as its calendar date and its nanosecond of the day. */
  datatype Instant = Instant(date: Date, nano: int) {

    predicate Valid() {
      date.Valid() && 0 <= nano < NANOS_A_DAY
    }
  }

  const NANOS_A_MINUTE: int := 60 * 1_000_000_000
  const NANOS_A_DAY: int := 24 * 60 * NANOS_A_MINUTE

  predicate IsLeap(year: int) {
    year % 4 == 0 && (year % 100 != 0 || year % 400 == 0)
  }

  function DaysIn(year: int, month: int): (days: int)
    requires 1 <= month <= 12
    ensures 28 <= days <= 31
  {
    if month == 2 then (if IsLeap(year) then 29 else 28)
    else if month in {4, 6, 9, 11} then 30
    else 31
  }

  predicate DateBefore(a: Date, b: Date) {
    a.year < b.year || (a.year == b.year && (a.month < b.month || (a.month == b.month && a.day < b.day)))
  }

  predicate Before(a: Instant, b: Instant) {
    DateBefore(a.date, b.date) || (a.date == b.date && a.nano < b.nano)
  }

  function NextMonth(year: int, month: int): (int, int) {
    if month == 12 then (year + 1, 1) else (year, month + 1)
  }

  function NextDay(d: Date): (n: Date)
    requires d.Valid()
    ensures n.Valid()
  {
    if d.day < DaysIn(d.year, d.month) then d.(day := d.day + 1)
    else
      var (year, month) := NextMonth(d.year, d.month);
      Date(year, month, 1)
  }

  function AddDays(d: Date, n: nat): (r: Date)
    requires d.Valid()
    ensures r.Valid()
  {
    if n == 0 then d else NextDay(AddDays(d, n - 1))
  }

  // ----- counting days -----

  function DaysBeforeYear(year: int): int {
    365 * (year - 1) + (year - 1) / 4 - (year - 1) / 100 + (year - 1) / 400
  }

  function DaysBeforeMonth(year: int, month: int): int
    requires 1 <= month <= 12
  {
    if month == 1 then 0 else DaysBeforeMonth(year, month - 1) + DaysIn(year, month - 1)
  }

  /** Days since the first of January of year 1. */
  function DayNumber(d: Date): int
    requires d.Valid()
  {
    DaysBeforeYear(d.year) + DaysBeforeMonth(d.year, d.month) + d.day - 1
  }

  /** Sunday is 0; the first of January of year 1 was a Monday. */
  function Weekday(d: Date): (w: nat)
    requires d.Valid()
    ensures w < 7
  {
    (DayNumber(d) + 1) % 7
  }

  lemma OfFourHundred(year: int)
    requires year % 400 == 0
    ensures year % 100 == 0
  {
    var q := year / 400;
    assert year == 400 * q;
    assert year / 100 == 4 * q;
  }

  lemma OfHundred(year: int)
    requires year % 100 == 0
    ensures year % 4 == 0
  {
    var q := year / 100;
    assert year == 100 * q;
    assert year / 4 == 25 * q;
  }

  /** The three quotients count the leap years so far. */
  lemma LeapStep(year: int)
    ensures year / 4 - year / 100 + year / 400
         == (year - 1) / 4 - (year - 1) / 100 + (year - 1) / 400 + if IsLeap(year) then 1 else 0
  {
    QuotientStep(year, 4);
    QuotientStep(year, 100);
    QuotientStep(year, 400);
    if year % 400 == 0 { OfFourHundred(year); }
    if year % 100 == 0 { OfHundred(year); }
  }

  lemma YearLength(year: int)
    ensures DaysBeforeYear(year + 1) == DaysBeforeYear(year) + if IsLeap(year) then 366 else 365
    ensures DaysBeforeMonth(year, 12) + 31 == if IsLeap(year) then 366 else 365
  {
    hide DaysBeforeMonth;
    hide IsLeap;
    MonthsMakeYear(year);
    LeapStep(year);
  }

  lemma MonthsMakeYear(year: int)
    ensures DaysBeforeMonth(year, 12) + 31 == if IsLeap(year) then 366 else 365
  {
    assert DaysBeforeMonth(year, 2) == DaysBeforeMonth(year, 1) + DaysIn(year, 1);
    assert DaysBeforeMonth(year, 3) == DaysBeforeMonth(year, 2) + DaysIn(year, 2);
    assert DaysBeforeMonth(year, 4) == DaysBeforeMonth(year, 3) + DaysIn(year, 3);
    assert DaysBeforeMonth(year, 5) == DaysBeforeMonth(year, 4) + DaysIn(year, 4);
    assert DaysBeforeMonth(year, 6) == DaysBeforeMonth(year, 5) + DaysIn(year, 5);
    assert DaysBeforeMonth(year, 7) == DaysBeforeMonth(year, 6) + DaysIn(year, 6);
    assert DaysBeforeMonth(year, 8) == DaysBeforeMonth(year, 7) + DaysIn(year, 7);
    assert DaysBeforeMonth(year, 9) == DaysBeforeMonth(year, 8) + DaysIn(year, 8);
    assert DaysBeforeMonth(year, 10) == DaysBeforeMonth(year, 9) + DaysIn(year, 9);
    assert DaysBeforeMonth(year, 11) == DaysBeforeMonth(year, 10) + DaysIn(year, 10);
    assert DaysBeforeMonth(year, 12) == DaysBeforeMonth(year, 11) + DaysIn(year, 11);
  }

  /** Thirty days have April, June, September and November; February has 28, and 29 in a leap year; the others 31. */
  lemma WhichDatesAre(d: Date)
    ensures d.Valid() <==>
      && 1 <= d.month <= 12
      && 1 <= d.day <= [31, if d.year % 400 == 0 || (d.year % 4 == 0 && d.year % 100 != 0) then 29 else 28,
                        31, 30, 31, 30, 31, 31, 30, 31, 30, 31][d.month - 1]
  {
    if d.year % 400 == 0 {
      OfFourHundred(d.year);
      OfHundred(d.year);
    }
  }

  /** From March on the months begin after 0, 31, 61, 92, ... days: five of them take 153. */
  lemma MonthStarts(year: int, month: int)
    requires 1 <= month <= 12
    ensures DaysBeforeMonth(year, month) ==
              if month <= 2 then 31 * (month - 1) else (153 * (month - 3) + 2) / 5 + if IsLeap(year) then 60 else 59
  {
    hide IsLeap;
    MonthsMakeYear(year);
    if month > 3 { MonthStarts(year, month - 1); }
  }

  /** The day number in closed form, the year beginning in March. */
  lemma DayNumberIs(d: Date)
    requires d.Valid()
    ensures var year, month := if d.month <= 2 then d.year - 1 else d.year, (d.month + 9) % 12;
            DayNumber(d) == 365 * year + year / 4 - year / 100 + year / 400 + (153 * month + 2) / 5 + d.day - 1 - 306
  {
    hide IsLeap;
    hide DaysBeforeMonth;
    MonthStarts(d.year, d.month);
    if d.month > 2 {
      LeapStep(d.year);
      FromMarch(d.month);
    }
  }

  /** The months of a year that begins in March, January and February coming last. */
  lemma FromMarch(month: int)
    requires 3 <= month <= 12
    ensures (month + 9) % 12 == month - 3
  {}

  /** The first of January 1970 was a Thursday. */
  lemma EpochIsThursday()
    ensures Date(1970, 1, 1).Valid() && Weekday(Date(1970, 1, 1)) == 4
  {
    DayNumberIs(Date(1970, 1, 1));
  }

  lemma QuotientStep(year: int, divisor: int)
    requires divisor in {4, 100, 400}
    ensures year / divisor == (year - 1) / divisor + if year % divisor == 0 then 1 else 0
  {}

  /** The next day is one day on, and later. */
  lemma NextDayCounts(d: Date)
    requires d.Valid()
    ensures DayNumber(NextDay(d)) == DayNumber(d) + 1 && DateBefore(d, NextDay(d))
  {
    if d.day == DaysIn(d.year, d.month) && d.month == 12 { YearLength(d.year); }
  }

  /** An earlier date has the lesser number. */
  lemma EarlierIsLess(a: Date, b: Date)
    requires a.Valid() && b.Valid() && DateBefore(a, b)
    ensures DayNumber(a) < DayNumber(b)
  {
    hide IsLeap;
    if a.year == b.year {
      MonthStarts(a.year, a.month);
      MonthStarts(b.year, b.month);
    } else {
      YearsGrow(a.year + 1, b.year);
      YearLength(a.year);
      MonthStarts(a.year, a.month);
      MonthStarts(b.year, b.month);
    }
    hide DaysBeforeMonth;
    hide DaysBeforeYear;
  }

  lemma YearsGrow(a: int, b: int)
    requires a <= b
    ensures DaysBeforeYear(a) <= DaysBeforeYear(b)
    decreases b - a
  {
    if a < b {
      YearsGrow(a, b - 1);
      YearLength(b - 1);
      hide DaysBeforeYear;
    }
  }

  /** One number, one date. */
  lemma SameDay(a: Date, b: Date)
    requires a.Valid() && b.Valid() && DayNumber(a) == DayNumber(b)
    ensures a == b
  {
    hide DayNumber;
    if DateBefore(a, b) { EarlierIsLess(a, b); }
    if DateBefore(b, a) { EarlierIsLess(b, a); }
  }

  lemma {:induction false} AddDaysCounts(d: Date, n: nat)
    requires d.Valid()
    ensures DayNumber(AddDays(d, n)) == DayNumber(d) + n && (n > 0 ==> DateBefore(d, AddDays(d, n)))
  {
    if n > 0 {
      AddDaysCounts(d, n - 1);
      NextDayCounts(AddDays(d, n - 1));
    }
  }

  /** Seven days running are the seven weekdays. */
  lemma WeekdayAfter(d: Date, n: nat)
    requires d.Valid()
    ensures Weekday(AddDays(d, n)) == (Weekday(d) + n) % 7
  {
    AddDaysCounts(d, n);
    ModuloSeven(DayNumber(d) + 1, n);
    hide DayNumber;
    hide AddDays;
  }

  lemma ModuloSeven(x: int, n: int)
    ensures (x + n) % 7 == (x % 7 + n) % 7
  {
    var q, r := x / 7, x % 7;
    assert x + n == 7 * q + (r + n);
  }
}
