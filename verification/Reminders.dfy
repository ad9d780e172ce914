/** Recurring reminders: each occurrence is stepped to from the last, and none drifts from the anchor. */
module Reminders {
  import opened Calendar

  datatype Recurrence = Once | Daily | Weekly | Monthly | Yearly

  datatype Occurrence = At(time: Instant) | Never

  /** A day the month does not have becomes its last. */
  function ClampDay(day: int, year: int, month: int): (d: int)
    requires 1 <= month <= 12
  {
    if day > DaysIn(year, month) then DaysIn(year, month) else day
  }

  /** The instant at the start of the minute. */
  function WholeMinute(t: Instant): Instant {
    t.(nano := t.nano - t.nano % NANOS_A_MINUTE)
  }

  /** The given day of a month, clamped, at the anchor's hour and minute. */
  function OnDay(anchor: Instant, year: int, month: int): Instant
    requires 1 <= month <= 12
  {
    Instant(Date(year, month, ClampDay(anchor.date.day, year, month)), WholeMinute(anchor).nano)
  }

  /** n is the number of days to the next named weekday. */
  predicate IsNextNamed(weekdays: set<nat>, d: Date, n: nat)
    requires d.Valid()
  {
    1 <= n <= 7 && Weekday(AddDays(d, n)) in weekdays && forall m: nat :: 1 <= m < n ==> Weekday(AddDays(d, m)) !in weekdays
  }

  /** next follows value in the series. */
  ghost predicate Follows(recurrence: Recurrence, weekdays: set<nat>, anchor: Instant, value: Instant, next: Occurrence)
    requires anchor.Valid() && value.Valid()
  {
    match recurrence
    case Daily => next == At(Instant(AddDays(value.date, 1), value.nano))
    case Weekly =>
      if weekdays == {} then next == At(Instant(AddDays(value.date, 7), value.nano))
      else if next.Never? then forall n: nat :: !IsNextNamed(weekdays, value.date, n)
      else exists n: nat :: IsNextNamed(weekdays, value.date, n) && next.time == Instant(AddDays(value.date, n), WholeMinute(anchor).nano)
    case Monthly =>
      var (year, month) := NextMonth(value.date.year, value.date.month);
      next == At(OnDay(anchor, year, month))
    case Yearly => next == At(OnDay(anchor, value.date.year + 1, anchor.date.month))
    case Once => next.Never?
  }

  /** The occurrence after value. */
  method AdvanceReminder(recurrence: Recurrence, weekdays: set<nat>, anchor: Instant, value: Instant) returns (next: Occurrence)
    requires anchor.Valid() && value.Valid()
    ensures Follows(recurrence, weekdays, anchor, value, next)
  {
    match recurrence
    case Daily => return At(Instant(AddDays(value.date, 1), value.nano));
    case Weekly =>
      if weekdays == {} { return At(Instant(AddDays(value.date, 7), value.nano)); }
      for days := 1 to 8
        invariant forall m: nat :: 1 <= m < days ==> Weekday(AddDays(value.date, m)) !in weekdays
      {
        var candidate := AddDays(value.date, days);
        if Weekday(candidate) in weekdays {
          assert IsNextNamed(weekdays, value.date, days);
          return At(Instant(candidate, WholeMinute(anchor).nano));
        }
      }
      return Never;
    case Monthly =>
      var year, month := value.date.year, value.date.month;
      if month == 12 {
        year, month := year + 1, 1;
      } else {
        month := month + 1;
      }
      return At(OnDay(anchor, year, month));
    case Yearly => return At(OnDay(anchor, value.date.year + 1, anchor.date.month));
    case Once => return Never;
  }

  /** Every recurring reminder with a weekday to fall on has a next occurrence, and it is later than the last. */
  lemma NextIsLater(recurrence: Recurrence, weekdays: set<nat>, anchor: Instant, value: Instant, next: Occurrence)
    requires anchor.Valid() && value.Valid() && Follows(recurrence, weekdays, anchor, value, next)
    requires forall w :: w in weekdays ==> w < 7
    ensures next.Never? <==> recurrence == Once
    ensures next.At? ==> next.time.Valid() && Before(value, next.time)
  {
    hide IsNextNamed;
    hide AddDays;
    hide DayNumber;
    hide IsLeap;
    AddDaysCounts(value.date, 1);
    AddDaysCounts(value.date, 7);
    if recurrence == Weekly && weekdays != {} {
      NamedDayIsLater(weekdays, anchor, value, next);
    } else if recurrence in {Monthly, Yearly} {
      var (year, month) := if recurrence == Monthly then NextMonth(value.date.year, value.date.month)
                           else (value.date.year + 1, anchor.date.month);
      OnDayIsValid(anchor, year, month);
    }
  }

  /** A daily reminder comes a day on; a weekly one seven, or on the first named weekday at the anchor's hour and minute. */
  lemma DayOfNext(recurrence: Recurrence, weekdays: set<nat>, anchor: Instant, value: Instant, next: Occurrence)
    requires anchor.Valid() && value.Valid() && recurrence in {Daily, Weekly}
    requires Follows(recurrence, weekdays, anchor, value, next) && next.At?
    ensures next.time.Valid()
    ensures var days := DayNumber(next.time.date) - DayNumber(value.date);
            if recurrence == Daily || weekdays == {} then
              days == (if recurrence == Daily then 1 else 7) && next.time.nano == value.nano
            else
              && 1 <= days <= 7 && Weekday(next.time.date) in weekdays
              && (forall d: Date :: d.Valid() && 0 < DayNumber(d) - DayNumber(value.date) < days ==> Weekday(d) !in weekdays)
              && next.time.nano % NANOS_A_MINUTE == 0 && next.time.nano / NANOS_A_MINUTE == anchor.nano / NANOS_A_MINUTE
  {
    hide AddDays;
    hide DayNumber;
    hide Weekday;
    hide IsLeap;
    AddDaysCounts(value.date, 1);
    AddDaysCounts(value.date, 7);
    if recurrence == Weekly && weekdays != {} {
      var n: nat :| IsNextNamed(weekdays, value.date, n) && next.time == Instant(AddDays(value.date, n), WholeMinute(anchor).nano);
      AddDaysCounts(value.date, n);
      WholeMinuteIs(anchor);
      forall d: Date | d.Valid() && 0 < DayNumber(d) - DayNumber(value.date) < n ensures Weekday(d) !in weekdays {
        var m: nat := DayNumber(d) - DayNumber(value.date);
        AddDaysCounts(value.date, m);
        SameDay(d, AddDays(value.date, m));
      }
    }
  }

  lemma WholeMinuteIs(t: Instant)
    requires t.Valid()
    ensures var r := WholeMinute(t);
            r.Valid() && r.date == t.date && r.nano % NANOS_A_MINUTE == 0 && r.nano / NANOS_A_MINUTE == t.nano / NANOS_A_MINUTE
  {
    var q := t.nano / NANOS_A_MINUTE;
    assert t.nano - t.nano % NANOS_A_MINUTE == q * NANOS_A_MINUTE;
  }

  lemma OnDayIsValid(anchor: Instant, year: int, month: int)
    requires anchor.Valid() && 1 <= month <= 12
    ensures OnDay(anchor, year, month).Valid()
  {}

  lemma NamedDayIsLater(weekdays: set<nat>, anchor: Instant, value: Instant, next: Occurrence)
    requires anchor.Valid() && value.Valid() && weekdays != {} && Follows(Weekly, weekdays, anchor, value, next)
    requires forall w :: w in weekdays ==> w < 7
    ensures next.At? && next.time.Valid() && Before(value, next.time)
  {
    hide AddDays;
    hide DayNumber;
    hide IsLeap;
    hide Weekday;
    hide DaysIn;
    var _ := SomeDayIsNamed(weekdays, value.date);
    var n: nat :| IsNextNamed(weekdays, value.date, n) && next.time == Instant(AddDays(value.date, n), WholeMinute(anchor).nano);
    AddDaysCounts(value.date, n);
    hide IsNextNamed;
  }

  lemma SomeDayIsNamed(weekdays: set<nat>, d: Date) returns (n: nat)
    requires d.Valid() && weekdays != {}
    requires forall w :: w in weekdays ==> w < 7
    ensures IsNextNamed(weekdays, d, n)
  {
    var w :| w in weekdays;
    var far := (w + 6 - Weekday(d)) % 7 + 1;
    WeekdayAfter(d, far);
    assert Weekday(AddDays(d, far)) == w by { ReachesWeekday(Weekday(d), w); }
    hide Weekday;
    hide AddDays;
    n := 1;
    while Weekday(AddDays(d, n)) !in weekdays
      invariant 1 <= n <= far && forall m: nat :: 1 <= m < n ==> Weekday(AddDays(d, m)) !in weekdays
      decreases far - n
    {
      n := n + 1;
    }
  }

  lemma ReachesWeekday(from: nat, w: nat)
    requires from < 7 && w < 7
    ensures (from + ((w + 6 - from) % 7 + 1)) % 7 == w
  {}

  // ----- months -----

  /** Division toward zero. */
  function Quotient(x: int, divisor: int): int
    requires divisor > 0
  {
    if x >= 0 then x / divisor else -(-x / divisor)
  }

  function Remainder(x: int, divisor: int): int
    requires divisor > 0
  {
    x - Quotient(x, divisor) * divisor
  }

  /** Months since the start of year 0. */
  function MonthIndex(d: Date): int {
    12 * d.year + d.month - 1
  }

  function AddCalendarMonths(value: Instant, months: int): (r: Instant)
    requires value.Valid()
    ensures 1 <= r.date.month <= 12
  {
    var total := value.date.month - 1 + months;
    var year := value.date.year + Quotient(total, 12) - if Remainder(total, 12) < 0 then 1 else 0;
    var month := Remainder(Remainder(total, 12) + 12, 12) + 1;
    Instant(Date(year, month, ClampDay(value.date.day, year, month)), value.nano)
  }

  /** Forwards or backwards, months on is exactly that many calendar months on, on the same day or the month's last. */
  lemma MonthsOn(value: Instant, months: int)
    requires value.Valid()
    ensures var r := AddCalendarMonths(value, months);
            && r.Valid() && r.nano == value.nano && MonthIndex(r.date) == MonthIndex(value.date) + months
            && r.date.day <= value.date.day
            && (r.date.day < value.date.day ==> !r.date.(day := r.date.day + 1).Valid())
  {
    var total := value.date.month - 1 + months;
    assert -12 < Remainder(total, 12) < 12;
    assert total == 12 * Quotient(total, 12) + Remainder(total, 12);
  }

  /** A year and month are determined by their index. */
  lemma SameMonth(a: Date, b: Date)
    requires 1 <= a.month <= 12 && 1 <= b.month <= 12 && MonthIndex(a) == MonthIndex(b)
    ensures a.year == b.year && a.month == b.month
  {}

  /** Months on and back again returns where it began exactly when the day was not clamped. */
  lemma ThereAndBack(value: Instant, months: int)
    requires value.Valid()
    ensures var r := AddCalendarMonths(value, months);
            MonthIndex(r.date) == MonthIndex(value.date) + months && r.Valid()
            && (AddCalendarMonths(r, -months) == value <==> value.date.day <= DaysIn(r.date.year, r.date.month))
  {
    var r := AddCalendarMonths(value, months);
    MonthsOn(value, months);
    MonthsOn(r, -months);
    SameMonth(AddCalendarMonths(r, -months).date, value.date);
    hide AddCalendarMonths;
    hide DaysIn;
  }

  /** The k-th occurrence after the anchor, each stepped to from the one before. */
  function Kth(recurrence: Recurrence, anchor: Instant, k: nat): (r: Instant)
    requires anchor.Valid() && recurrence in {Monthly, Yearly}
    ensures r.Valid()
  {
    if k == 0 then anchor
    else
      var value := Kth(recurrence, anchor, k - 1);
      if recurrence == Monthly then
        var (year, month) := NextMonth(value.date.year, value.date.month);
        OnDay(anchor, year, month)
      else OnDay(anchor, value.date.year + 1, anchor.date.month)
  }

  /** The k-th occurrence is what advancing the one before it yields. */
  lemma KthFollows(recurrence: Recurrence, weekdays: set<nat>, anchor: Instant, k: nat, next: Occurrence)
    requires anchor.Valid() && recurrence in {Monthly, Yearly}
    ensures Follows(recurrence, weekdays, anchor, Kth(recurrence, anchor, k), next) <==> next == At(Kth(recurrence, anchor, k + 1))
  {}

  function MonthsEach(recurrence: Recurrence): int {
    if recurrence == Monthly then 1 else 12
  }

  lemma {:induction false} KthMonth(recurrence: Recurrence, anchor: Instant, k: nat)
    requires anchor.Valid() && recurrence in {Monthly, Yearly}
    ensures var r := Kth(recurrence, anchor, k);
            && MonthIndex(r.date) == MonthIndex(anchor.date) + k * MonthsEach(recurrence)
            && r.date.day == ClampDay(anchor.date.day, r.date.year, r.date.month)
            && r.nano == (if k == 0 then anchor.nano else WholeMinute(anchor).nano)
  {
    if k > 0 {
      KthMonth(recurrence, anchor, k - 1);
      if recurrence == Yearly {
        var before := Kth(recurrence, anchor, k - 1).date;
        assert MonthIndex(before) == MonthIndex(anchor.date.(year := anchor.date.year + k - 1));
        SameMonth(before, anchor.date.(year := anchor.date.year + k - 1));
      }
    }
  }

  lemma KthJumps(recurrence: Recurrence, anchor: Instant, k: nat)
    requires anchor.Valid() && recurrence in {Monthly, Yearly}
    ensures k > 0 ==> Kth(recurrence, anchor, k) == WholeMinute(AddCalendarMonths(anchor, k * MonthsEach(recurrence)))
    ensures Kth(recurrence, anchor, k) == AddCalendarMonths(anchor, k * MonthsEach(recurrence)) <==> k == 0 || anchor == WholeMinute(anchor)
  {
    var months := k * MonthsEach(recurrence);
    KthMonth(recurrence, anchor, k);
    MonthsOn(anchor, months);
    SameMonth(Kth(recurrence, anchor, k).date, AddCalendarMonths(anchor, months).date);
    hide AddCalendarMonths;
    hide Kth;
  }

  /** A series as it is delivered: from the anchor on, each occurrence follows the one before. */
  ghost predicate IsSeries(recurrence: Recurrence, weekdays: set<nat>, series: seq<Instant>) {
    && series != [] && (forall k :: 0 <= k < |series| ==> series[k].Valid())
    && forall k :: 0 < k < |series| ==> Follows(recurrence, weekdays, series[0], series[k - 1], At(series[k]))
  }

  lemma {:induction false} SeriesIsKth(recurrence: Recurrence, weekdays: set<nat>, series: seq<Instant>, k: nat)
    requires IsSeries(recurrence, weekdays, series) && recurrence in {Monthly, Yearly} && k < |series|
    ensures series[k] == Kth(recurrence, series[0], k)
  {
    if k > 0 {
      SeriesIsKth(recurrence, weekdays, series, k - 1);
      KthFollows(recurrence, weekdays, series[0], k - 1, At(series[k]));
    }
  }

  /**
   Stepping never drifts: in a monthly or yearly series each occurrence is the anchor moved that many
   months, or twelve times as many, at once, at the start of the anchor's minute; and exactly so if the
   anchor is on the minute.
   */
  lemma NoDrift(recurrence: Recurrence, weekdays: set<nat>, series: seq<Instant>, k: nat)
    requires IsSeries(recurrence, weekdays, series) && recurrence in {Monthly, Yearly} && k < |series|
    ensures var moved := AddCalendarMonths(series[0], if recurrence == Monthly then k else 12 * k);
            && (k > 0 ==> series[k] == WholeMinute(moved))
            && (series[k] == moved <==> k == 0 || series[0] == WholeMinute(series[0]))
  {
    SeriesIsKth(recurrence, weekdays, series, k);
    KthJumps(recurrence, series[0], k);
    hide AddCalendarMonths;
    hide Kth;
  }

  // ----- the anchor of a series -----

  /**
   Check a series' anchor against its first due instant. first is the occurrence that follows the
   anchor; the result is the anchor to store, or none when the series does not contain the due instant.
   */
  method SeriesAnchor(recurrence: Recurrence, weekdays: set<nat>, anchor: Occurrence, due: Instant) returns (stored: Occurrence)
    requires due.Valid() && (anchor.At? ==> anchor.time.Valid())
    ensures stored.At? ==> stored.time.Valid()
    ensures anchor.Never? || recurrence == Once ==> stored == At(due)
    ensures anchor.At? && recurrence != Once ==>
              (stored.At? <==> anchor.time == due || (Before(anchor.time, due) && Follows(recurrence, weekdays, anchor.time, anchor.time, At(due))))
    ensures anchor.At? && recurrence != Once && stored.At? ==> stored == anchor
  {
    if anchor.Never? || recurrence == Once || anchor.time == due { return At(due); }
    var first := AdvanceReminder(recurrence, weekdays, anchor.time, anchor.time);
    FollowsOne(recurrence, weekdays, anchor.time, anchor.time, first, At(due));
    if !Before(anchor.time, due) || first != At(due) { return Never; }
    return anchor;
  }

  /** Only one occurrence follows. */
  lemma FollowsOne(recurrence: Recurrence, weekdays: set<nat>, anchor: Instant, value: Instant, a: Occurrence, b: Occurrence)
    requires anchor.Valid() && value.Valid() && Follows(recurrence, weekdays, anchor, value, a)
    ensures Follows(recurrence, weekdays, anchor, value, b) <==> a == b
  {
    if recurrence == Weekly && weekdays != {} && Follows(recurrence, weekdays, anchor, value, b) && a.At? && b.At? {
      var n: nat :| IsNextNamed(weekdays, value.date, n) && a.time == Instant(AddDays(value.date, n), WholeMinute(anchor).nano);
      var m: nat :| IsNextNamed(weekdays, value.date, m) && b.time == Instant(AddDays(value.date, m), WholeMinute(anchor).nano);
    }
  }
}
