/** The proleptic Gregorian calendar as Python's `datetime` module uses it:
    dates from 0001-01-01 to 9999-12-31, day ordinals counted from
    0001-01-01 (ordinal 1, a Monday), and the day before a date. */
module Calendar {

  datatype Date = Date(year: int, month: int, day: int)

  /** A wall-clock reading with minute precision, as `strftime("%Y-%m-%d %H:%M")` keeps it. */
  datatype DateTime = DateTime(date: Date, hour: int, minute: int)

  /** `date.min`: the first representable date. */
  const MinDate := Date(1, 1, 1)

  const DayNames := ["Monday", "Tuesday", "Wednesday", "Thursday", "Friday", "Saturday", "Sunday"]

  predicate IsLeap(y: int) {
    y % 4 == 0 && (y % 100 != 0 || y % 400 == 0)
  }

  function DaysInMonth(y: int, m: int): int {
    if m == 2 then (if IsLeap(y) then 29 else 28)
    else if m == 4 || m == 6 || m == 9 || m == 11 then 30
    else 31
  }

  function DaysInYear(y: int): int {
    if IsLeap(y) then 366 else 365
  }

  predicate ValidDate(d: Date) {
    1 <= d.year <= 9999 && 1 <= d.month <= 12 && 1 <= d.day <= DaysInMonth(d.year, d.month)
  }

  predicate ValidDateTime(t: DateTime) {
    ValidDate(t.date) && 0 <= t.hour < 24 && 0 <= t.minute < 60
  }

  /** Days in the years before `y`. */
  function DaysBeforeYear(y: int): int
    requires y >= 1
  {
    var p := y - 1;
    365 * p + p / 4 - p / 100 + p / 400
  }

  /** Days in the months of year `y` before month `m`. */
  function DaysBeforeMonth(y: int, m: int): int
    requires 1 <= m <= 12
  {
    var common :=
      if m == 1 then 0 else if m == 2 then 31 else if m == 3 then 59
      else if m == 4 then 90 else if m == 5 then 120 else if m == 6 then 151
      else if m == 7 then 181 else if m == 8 then 212 else if m == 9 then 243
      else if m == 10 then 273 else if m == 11 then 304 else 334;
    if m > 2 && IsLeap(y) then common + 1 else common
  }

  /** `date.toordinal()`. */
  function Ordinal(d: Date): int
    requires ValidDate(d)
  {
    DaysBeforeYear(d.year) + DaysBeforeMonth(d.year, d.month) + d.day
  }

  /** `date.weekday()`: 0 for Monday up to 6 for Sunday. */
  function Weekday(d: Date): (w: int)
    requires ValidDate(d)
    ensures 0 <= w < 7
  {
    (Ordinal(d) + 6) % 7
  }

  /** `strftime("%A")` with the C locale's weekday names. */
  function DayName(d: Date): string
    requires ValidDate(d)
  {
    DayNames[Weekday(d)]
  }

  /** `d - timedelta(days=1)`, for every date but `date.min`, whose
      predecessor Python cannot represent. */
  function PrevDate(d: Date): Date
    requires ValidDate(d) && d != MinDate
  {
    if d.day > 1 then Date(d.year, d.month, d.day - 1)
    else if d.month > 1 then Date(d.year, d.month - 1, DaysInMonth(d.year, d.month - 1))
    else Date(d.year - 1, 12, 31)
  }

  /** Calendar order: year, then month, then day. */
  predicate DateBefore(a: Date, b: Date) {
    a.year < b.year
    || (a.year == b.year && a.month < b.month)
    || (a.year == b.year && a.month == b.month && a.day < b.day)
  }

  lemma DaysBeforeYearStep(y: int)
    requires y >= 1
    ensures DaysBeforeYear(y + 1) == DaysBeforeYear(y) + DaysInYear(y)
  {
    Quotient4Step(y);
    Quotient100Step(y);
    Quotient400Step(y);
  }

  lemma Quotient4Step(y: int)
    ensures y / 4 == (y - 1) / 4 + (if y % 4 == 0 then 1 else 0)
  {
  }

  lemma Quotient100Step(y: int)
    ensures y / 100 == (y - 1) / 100 + (if y % 100 == 0 then 1 else 0)
  {
  }

  lemma Quotient400Step(y: int)
    ensures y / 400 == (y - 1) / 400 + (if y % 400 == 0 then 1 else 0)
  {
  }

  lemma MonthStep(y: int, m: int)
    requires 1 <= m < 12
    ensures DaysBeforeMonth(y, m + 1) == DaysBeforeMonth(y, m) + DaysInMonth(y, m)
  {
  }

  lemma {:induction false} DaysBeforeYearMonotone(a: int, b: int)
    requires 1 <= a < b
    ensures DaysBeforeYear(a) + DaysInYear(a) <= DaysBeforeYear(b)
    decreases b - a
  {
    DaysBeforeYearStep(a);
    if a + 1 < b {
      DaysBeforeYearMonotone(a + 1, b);
    }
  }

  lemma {:induction false} DaysBeforeMonthMonotone(y: int, a: int, b: int)
    requires 1 <= a < b <= 12
    ensures DaysBeforeMonth(y, a) + DaysInMonth(y, a) <= DaysBeforeMonth(y, b)
    decreases b - a
  {
    MonthStep(y, a);
    if a + 1 < b {
      DaysBeforeMonthMonotone(y, a + 1, b);
    }
  }

  /** A date's ordinal falls inside its own year's range of ordinals. */
  lemma OrdinalWithinYear(d: Date)
    requires ValidDate(d)
    ensures DaysBeforeYear(d.year) < Ordinal(d) <= DaysBeforeYear(d.year) + DaysInYear(d.year)
  {
  }

  /** Ordinals follow the calendar order. */
  lemma OrdinalMonotone(a: Date, b: Date)
    requires ValidDate(a) && ValidDate(b) && DateBefore(a, b)
    ensures Ordinal(a) < Ordinal(b)
  {
    if a.year < b.year {
      OrdinalWithinYear(a);
      DaysBeforeYearMonotone(a.year, b.year);
    } else if a.month < b.month {
      DaysBeforeMonthMonotone(a.year, a.month, b.month);
    }
  }

  /** Two valid dates are the same date exactly when their ordinals agree. */
  lemma OrdinalInjective(a: Date, b: Date)
    requires ValidDate(a) && ValidDate(b)
    ensures Ordinal(a) == Ordinal(b) <==> a == b
  {
    if DateBefore(a, b) {
      OrdinalMonotone(a, b);
    } else if DateBefore(b, a) {
      OrdinalMonotone(b, a);
    }
  }

  /** The day before a date is a valid date exactly one ordinal earlier. */
  lemma PrevDateIsOneDayEarlier(d: Date)
    requires ValidDate(d) && d != MinDate
    ensures ValidDate(PrevDate(d))
    ensures Ordinal(PrevDate(d)) + 1 == Ordinal(d)
  {
    if d.day > 1 {
    } else if d.month > 1 {
      PrevDateAcrossMonth(d);
    } else {
      PrevDateAcrossYear(d);
    }
  }

  lemma PrevDateAcrossMonth(d: Date)
    requires ValidDate(d) && d.day == 1 && d.month > 1
    ensures ValidDate(PrevDate(d)) && Ordinal(PrevDate(d)) + 1 == Ordinal(d)
  {
    MonthStep(d.year, d.month - 1);
  }

  lemma PrevDateAcrossYear(d: Date)
    requires ValidDate(d) && d.day == 1 && d.month == 1 && d != MinDate
    ensures ValidDate(PrevDate(d)) && Ordinal(PrevDate(d)) + 1 == Ordinal(d)
  {
    var p := PrevDate(d);
    assert p == Date(d.year - 1, 12, 31);
    DaysBeforeYearStep(d.year - 1);
    assert DaysBeforeMonth(p.year, 12) + 31 == DaysInYear(p.year);
  }

  /** Ordinal 1 belongs to `date.min` alone. */
  lemma OrdinalOneIsMinDate(d: Date)
    requires ValidDate(d)
    ensures Ordinal(d) == 1 <==> d == MinDate
  {
    OrdinalInjective(d, MinDate);
  }

  /** The day before a date falls on the previous weekday. */
  lemma PrevDateWeekday(d: Date)
    requires ValidDate(d) && d != MinDate
    ensures (Weekday(PrevDate(d)) + 1) % 7 == Weekday(d)
  {
    PrevDateIsOneDayEarlier(d);
    WeekdayStep(Ordinal(PrevDate(d)));
  }

  lemma WeekdayStep(o: int)
    ensures (o + 1 + 6) % 7 == ((o + 6) % 7 + 1) % 7
  {
  }
}
