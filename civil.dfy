/** Naive civil date-times as Python's `datetime` holds them, with the
    proleptic Gregorian calendar's month lengths and leap years, and the
    day numbering of `date.toordinal()` (0001-01-01 is day 1). */
module Civil {
  import opened Wrappers

  const MinYear := 1
  const MaxYear := 9999

  /** An instant, in microseconds since the Unix epoch: what the clock returns
      and what the publish-date store holds. */
  type Timestamp = int

  datatype DateTime = DateTime(year: int, month: int, day: int,
                               hour: int, minute: int, second: int, microsecond: int)

  predicate IsLeapYear(y: int) {
    y % 4 == 0 && (y % 100 != 0 || y % 400 == 0)
  }

  function DaysInMonth(y: int, m: int): (n: int)
    requires 1 <= m <= 12
    ensures 28 <= n <= 31
    ensures n == 29 <==> m == 2 && IsLeapYear(y)
  {
    if m == 2 then (if IsLeapYear(y) then 29 else 28)
    else if m == 4 || m == 6 || m == 9 || m == 11 then 30
    else 31
  }

  function DaysInYear(y: int): int {
    if IsLeapYear(y) then 366 else 365
  }

  /** The field ranges a Python `datetime` enforces on construction. */
  predicate ValidDateTime(t: DateTime) {
    && MinYear <= t.year <= MaxYear
    && 1 <= t.month <= 12
    && 1 <= t.day <= DaysInMonth(t.year, t.month)
    && 0 <= t.hour < 24
    && 0 <= t.minute < 60
    && 0 <= t.second < 60
    && 0 <= t.microsecond < 1000000
  }

  /** A date-time that Python can represent. */
  type Time = t: DateTime | ValidDateTime(t) witness DateTime(1, 1, 1, 0, 0, 0, 0)

  /** Days in the years before `y`, counted from year 1. */
  function DaysBeforeYear(y: int): int
    requires y >= 1
  {
    var p := y - 1;
    p * 365 + p / 4 - p / 100 + p / 400
  }

  /** Days in the months of year `y` before month `m`. */
  function DaysBeforeMonth(y: int, m: int): int
    requires 1 <= m <= 12
  {
    var base := [0, 31, 59, 90, 120, 151, 181, 212, 243, 273, 304, 334][m - 1];
    base + if m > 2 && IsLeapYear(y) then 1 else 0
  }

  /** The day number of the date part of `t`, as `toordinal()`. */
  function Ordinal(t: Time): int {
    DaysBeforeYear(t.year) + DaysBeforeMonth(t.year, t.month) + t.day
  }

  /** Wall-clock order: field by field, the year first. */
  predicate Before(a: DateTime, b: DateTime) {
    || a.year < b.year
    || (a.year == b.year && a.month < b.month)
    || (a.year == b.year && a.month == b.month && a.day < b.day)
    || (a.year == b.year && a.month == b.month && a.day == b.day && a.hour < b.hour)
    || (a.year == b.year && a.month == b.month && a.day == b.day && a.hour == b.hour
        && a.minute < b.minute)
    || (a.year == b.year && a.month == b.month && a.day == b.day && a.hour == b.hour
        && a.minute == b.minute && a.second < b.second)
    || (a.year == b.year && a.month == b.month && a.day == b.day && a.hour == b.hour
        && a.minute == b.minute && a.second == b.second && a.microsecond < b.microsecond)
  }

  lemma DaysBeforeNextYear(y: int)
    requires y >= 1
    ensures DaysBeforeYear(y + 1) == DaysBeforeYear(y) + DaysInYear(y)
  {
    var p := y - 1;
    assert y / 4 == p / 4 + (if y % 4 == 0 then 1 else 0);
    assert y / 100 == p / 100 + (if y % 100 == 0 then 1 else 0);
    assert y / 400 == p / 400 + (if y % 400 == 0 then 1 else 0);
  }

  /** `t + timedelta(days=1)`: the same wall-clock time on the following
      calendar day, or nothing when that day is past year 9999 (Python raises
      OverflowError). The result is the next day number and is later in
      wall-clock order. */
  function NextDay(t: Time): (r: Option<Time>)
    ensures r.None? <==> t.year == MaxYear && t.month == 12 && t.day == 31
    ensures r.Some? ==> Ordinal(r.value) == Ordinal(t) + 1
    ensures r.Some? ==> Before(t, r.value)
    ensures r.Some? ==> && r.value.hour == t.hour && r.value.minute == t.minute
                        && r.value.second == t.second && r.value.microsecond == t.microsecond
  {
    if t.day < DaysInMonth(t.year, t.month) then
      Some(t.(day := t.day + 1))
    else if t.month < 12 then
      Some(t.(month := t.month + 1, day := 1))
    else if t.year < MaxYear then
      DaysBeforeNextYear(t.year);
      Some(t.(year := t.year + 1, month := 1, day := 1))
    else
      None
  }
}
