/**
 * The part of Python's `datetime` and of `dateutil.relativedelta` that the
 * interval resolution uses: proleptic Gregorian dates in the years 1..9999,
 * day ordinals as `date.toordinal()` numbers them, adding a relative delta
 * (years and months first, with the day clamped to the end of the month,
 * then days and hours as an exact duration), and the epoch seconds of a
 * naive datetime read as UTC.
 */
module Calendar {
  import opened Wrappers
  import opened Numbers

  const MinYear := 1
  const MaxYear := 9999

  /** A naive `datetime`; `IsValid` says which values the constructor accepts. */
  datatype DateTime = DateTime(year: int, month: int, day: int, hour: int, minute: int, second: int, microsecond: int)

  predicate IsLeapYear(y: int) {
    y % 4 == 0 && (y % 100 != 0 || y % 400 == 0)
  }

  function DaysInMonth(y: int, m: int): (n: int)
    requires 1 <= m <= 12
    ensures 28 <= n <= 31
    ensures m == 2 ==> (n == 29 <==> IsLeapYear(y))
  {
    if m == 2 then (if IsLeapYear(y) then 29 else 28)
    else if m == 4 || m == 6 || m == 9 || m == 11 then 30
    else 31
  }

  /** A calendar day of some (possibly out-of-range) year. */
  predicate IsDate(dt: DateTime) {
    1 <= dt.month <= 12 && 1 <= dt.day <= DaysInMonth(dt.year, dt.month)
  }

  predicate InYearRange(y: int) { MinYear <= y <= MaxYear }

  /** What `datetime(year, month, day, hour, minute, second, microsecond)` accepts. */
  predicate IsValid(dt: DateTime) {
    && InYearRange(dt.year)
    && IsDate(dt)
    && 0 <= dt.hour < 24 && 0 <= dt.minute < 60 && 0 <= dt.second < 60
    && 0 <= dt.microsecond < 1000000
  }

  /** The range of a C `int`, to which `datetime(...)` and `replace(...)` convert their arguments. */
  const IntMin := -0x8000_0000
  const IntMax := 0x7fff_ffff

  predicate InCInt(x: int) { IntMin <= x <= IntMax }

  /** Whether argument parsing of `datetime(year, month, day, hour)` succeeds. */
  predicate ComponentsFit(year: int, month: int, day: int, hour: int) {
    InCInt(year) && InCInt(month) && InCInt(day) && InCInt(hour)
  }

  /**
   * `datetime(year, month, day, hour)`: OverflowError when a component does
   * not fit a C int, otherwise ValueError for an invalid component.
   */
  function MakeDateTime(year: int, month: int, day: int, hour: int): (r: Result<DateTime>)
    ensures r.Ok? <==> IsValid(DateTime(year, month, day, hour, 0, 0, 0))
    ensures r.Ok? ==> r.value == DateTime(year, month, day, hour, 0, 0, 0)
    ensures r.Err? ==> r.error == if ComponentsFit(year, month, day, hour) then InvalidDate else DateOverflow
  {
    var dt := DateTime(year, month, day, hour, 0, 0, 0);
    if !ComponentsFit(year, month, day, hour) then Err(DateOverflow)
    else if IsValid(dt) then Ok(dt) else Err(InvalidDate)
  }

  // ---------------------------------------------------------------------
  // Day ordinals (`date.toordinal()`: 0001-01-01 is day 1)

  function DaysBeforeYear(y: int): int {
    var p := y - 1;
    p * 365 + p / 4 - p / 100 + p / 400
  }

  function DaysBeforeMonth(y: int, m: int): int
    requires 1 <= m <= 12
  {
    var table := [0, 31, 59, 90, 120, 151, 181, 212, 243, 273, 304, 334];
    table[m - 1] + (if m > 2 && IsLeapYear(y) then 1 else 0)
  }

  function Ordinal(dt: DateTime): int
    requires IsDate(dt)
  {
    DaysBeforeYear(dt.year) + DaysBeforeMonth(dt.year, dt.month) + dt.day
  }

  /** A year has 366 days exactly when it is a leap year. */
  lemma DaysBeforeNextYear(y: int)
    ensures DaysBeforeYear(y + 1) == DaysBeforeYear(y) + (if IsLeapYear(y) then 366 else 365)
  {
    var p := y - 1;
    CountStep(p, 4);
    CountStep(p, 100);
    CountStep(p, 400);
    DivisorChain(y);
    var a, b, c := y / 4 - p / 4, y / 100 - p / 100, y / 400 - p / 400;
    assert DaysBeforeYear(y + 1) - DaysBeforeYear(y) == 365 + a - b + c;
  }

  /** A multiple of 400 is a multiple of 100, which is a multiple of 4. */
  lemma DivisorChain(y: int)
    ensures y % 400 == 0 ==> y % 100 == 0
    ensures y % 100 == 0 ==> y % 4 == 0
  {
    if y % 400 == 0 {
      var q := y / 400;
      assert y == 100 * (4 * q);
    }
    if y % 100 == 0 {
      var q := y / 100;
      assert y == 4 * (25 * q);
    }
  }

  /** How many multiples of `k` lie in 1..p+1 compared with 1..p. */
  lemma CountStep(p: int, k: int)
    requires k == 4 || k == 100 || k == 400
    ensures (p + 1) / k == p / k + (if (p + 1) % k == 0 then 1 else 0)
  {
    var q, r := p / k, p % k;
    if r == k - 1 {
      assert p + 1 == k * (q + 1) + 0;
    } else {
      assert p + 1 == k * q + (r + 1);
    }
  }

  function NextDay(dt: DateTime): (r: DateTime)
    requires IsDate(dt)
    ensures IsDate(r)
  {
    if dt.day < DaysInMonth(dt.year, dt.month) then dt.(day := dt.day + 1)
    else if dt.month < 12 then dt.(month := dt.month + 1, day := 1)
    else dt.(year := dt.year + 1, month := 1, day := 1)
  }

  function PrevDay(dt: DateTime): (r: DateTime)
    requires IsDate(dt)
    ensures IsDate(r)
  {
    if dt.day > 1 then dt.(day := dt.day - 1)
    else if dt.month > 1 then dt.(month := dt.month - 1, day := DaysInMonth(dt.year, dt.month - 1))
    else dt.(year := dt.year - 1, month := 12, day := 31)
  }

  lemma NextDayOrdinal(dt: DateTime)
    requires IsDate(dt)
    ensures Ordinal(NextDay(dt)) == Ordinal(dt) + 1
  {
    if dt.day == DaysInMonth(dt.year, dt.month) && dt.month == 12 {
      DaysBeforeNextYear(dt.year);
    }
  }

  lemma PrevDayOrdinal(dt: DateTime)
    requires IsDate(dt)
    ensures Ordinal(PrevDay(dt)) == Ordinal(dt) - 1
  {
    if dt.day == 1 && dt.month == 1 {
      DaysBeforeNextYear(dt.year - 1);
    }
  }

  /** The calendar day `n` days after (before, for negative `n`) the given one; the time of day is kept. */
  function AddDays(dt: DateTime, n: int): (r: DateTime)
    requires IsDate(dt)
    ensures IsDate(r)
    ensures r.hour == dt.hour && r.minute == dt.minute && r.second == dt.second && r.microsecond == dt.microsecond
    decreases if n < 0 then -n else n
  {
    if n == 0 then dt
    else if n > 0 then AddDays(NextDay(dt), n - 1)
    else AddDays(PrevDay(dt), n + 1)
  }

  /** Day arithmetic is exact: moving `n` days moves the ordinal by `n` and keeps the time of day. */
  lemma {:induction false} AddDaysOrdinal(dt: DateTime, n: int)
    requires IsDate(dt)
    ensures Ordinal(AddDays(dt, n)) == Ordinal(dt) + n
    decreases if n < 0 then -n else n
  {
    if n > 0 {
      NextDayOrdinal(dt);
      AddDaysOrdinal(NextDay(dt), n - 1);
    } else if n < 0 {
      PrevDayOrdinal(dt);
      AddDaysOrdinal(PrevDay(dt), n + 1);
    }
  }

  /** `datetime + timedelta(days=days, hours=hours)`: hours beyond the day carry into days. */
  function AddDuration(dt: DateTime, days: int, hours: int): (r: DateTime)
    requires IsDate(dt) && 0 <= dt.hour < 24
    ensures IsDate(r) && 0 <= r.hour < 24
    ensures r.minute == dt.minute && r.second == dt.second && r.microsecond == dt.microsecond
  {
    var total := dt.hour + hours;
    AddDays(dt.(hour := total % 24), days + total / 24)
  }

  /**
   * The year-and-month step of adding a relativedelta: the month index moves
   * by `months`, and the day is clamped to the length of the month reached.
   */
  function AddMonths(dt: DateTime, months: int): (r: DateTime)
    requires IsDate(dt)
    ensures IsDate(r)
    ensures r.year * 12 + r.month == dt.year * 12 + dt.month + months
    ensures r.day == if dt.day <= DaysInMonth(r.year, r.month) then dt.day else DaysInMonth(r.year, r.month)
    ensures r.hour == dt.hour && r.minute == dt.minute && r.second == dt.second && r.microsecond == dt.microsecond
  {
    var index := dt.year * 12 + (dt.month - 1) + months;
    var y := index / 12;
    var m := index % 12 + 1;
    var last := DaysInMonth(y, m);
    dt.(year := y, month := m, day := if dt.day <= last then dt.day else last)
  }

  /**
   * `dt + relativedelta(years=years, months=months, days=days, hours=hours)`.
   * `replace` raises OverflowError when the year reached by the
   * year-and-month step does not fit a C int and ValueError when it leaves
   * the years 1..9999; the duration step raises OverflowError when it does.
   */
  function AddRelativeDelta(dt: DateTime, years: int, months: int, days: int, hours: int): (r: Result<DateTime>)
    requires IsValid(dt)
    ensures r.Ok? ==> IsValid(r.value)
    ensures r.Err? ==> r.error == InvalidDate || r.error == DateOverflow
  {
    var shifted := AddMonths(dt, 12 * years + months);
    if !InCInt(shifted.year) then Err(DateOverflow)
    else if !InYearRange(shifted.year) then Err(InvalidDate)
    else
      var moved := AddDuration(shifted, days, hours);
      if !InYearRange(moved.year) then Err(DateOverflow) else Ok(moved)
  }

  /**
   * ValueError comes exactly from a year-and-month step that leaves the years
   * 1..9999 while still fitting a C int; past a C int it is OverflowError.
   */
  lemma RelativeDeltaValueError(dt: DateTime, years: int, months: int, days: int, hours: int)
    requires IsValid(dt)
    ensures var y := AddMonths(dt, 12 * years + months).year;
      AddRelativeDelta(dt, years, months, days, hours) == Err(InvalidDate) <==> InCInt(y) && !InYearRange(y)
  {
  }

  /** A month step of zero leaves the date as it is. */
  lemma NoMonths(dt: DateTime)
    requires IsDate(dt)
    ensures AddMonths(dt, 0) == dt
  {
  }

  /** A successful relative delta is the month step, in range, followed by the duration step. */
  lemma RelativeDeltaSteps(dt: DateTime, years: int, months: int, days: int, hours: int)
    requires IsValid(dt)
    ensures var shifted := AddMonths(dt, 12 * years + months);
      AddRelativeDelta(dt, years, months, days, hours).Ok? ==>
        && InYearRange(shifted.year)
        && AddRelativeDelta(dt, years, months, days, hours) == Ok(AddDuration(shifted, days, hours))
  {
  }

  /** With no years and no months, a relative delta is a plain duration. */
  lemma RelativeDeltaOfDuration(dt: DateTime, days: int, hours: int)
    requires IsValid(dt)
    ensures var moved := AddDuration(dt, days, hours);
      AddRelativeDelta(dt, 0, 0, days, hours) == if InYearRange(moved.year) then Ok(moved) else Err(DateOverflow)
  {
    assert AddMonths(dt, 0) == dt;
  }

  /** A relative delta of zero leaves a valid datetime as it is. */
  lemma NoDelta(dt: DateTime)
    requires IsValid(dt)
    ensures AddRelativeDelta(dt, 0, 0, 0, 0) == Ok(dt)
  {
    assert AddMonths(dt, 0) == dt;
    assert AddDuration(dt, 0, 0) == dt by { assert dt.(hour := dt.hour % 24) == dt; }
  }

  // ---------------------------------------------------------------------
  // Epoch seconds

  /** `date(1970, 1, 1).toordinal()`. */
  const EpochOrdinal := 719163

  /** `dt.timestamp()` of a naive datetime taken as UTC. */
  function EpochSeconds(dt: DateTime): real
    requires IsDate(dt)
  {
    ((Ordinal(dt) - EpochOrdinal) * 86400 + dt.hour * 3600 + dt.minute * 60 + dt.second) as real
      + dt.microsecond as real / 1000000.0
  }

  // ---------------------------------------------------------------------
  // Calendar order

  /** The days of a month end where the next month (or the next year) begins. */
  lemma MonthEnd(y: int, m: int)
    requires 1 <= m <= 12
    ensures m < 12 ==> DaysBeforeMonth(y, m) + DaysInMonth(y, m) == DaysBeforeMonth(y, m + 1)
    ensures m == 12 ==> DaysBeforeYear(y) + DaysBeforeMonth(y, m) + DaysInMonth(y, m) == DaysBeforeYear(y + 1)
  {
    if m == 12 {
      DaysBeforeNextYear(y);
    }
  }

  /** A month ends no later than a later month of the same year begins. */
  lemma {:induction false} MonthsInOrder(y: int, m1: int, m2: int)
    requires 1 <= m1 < m2 <= 12
    ensures DaysBeforeMonth(y, m1) + DaysInMonth(y, m1) <= DaysBeforeMonth(y, m2)
    decreases m2 - m1
  {
    MonthEnd(y, m1);
    if m1 + 1 < m2 {
      MonthsInOrder(y, m1 + 1, m2);
    }
  }

  /** Later years begin on later days. */
  lemma {:induction false} YearsInOrder(y1: int, y2: int)
    requires y1 <= y2
    ensures DaysBeforeYear(y1) <= DaysBeforeYear(y2)
    decreases y2 - y1
  {
    if y1 < y2 {
      DaysBeforeNextYear(y1);
      YearsInOrder(y1 + 1, y2);
    }
  }

  /** A date earlier in the calendar (by month index, or by day within the month) has a smaller ordinal. */
  lemma OrdinalOrder(a: DateTime, b: DateTime)
    requires IsDate(a) && IsDate(b)
    requires a.year * 12 + a.month < b.year * 12 + b.month
          || (a.year == b.year && a.month == b.month && a.day < b.day)
    ensures Ordinal(a) < Ordinal(b)
  {
    var endOfMonth := DaysBeforeYear(a.year) + DaysBeforeMonth(a.year, a.month) + DaysInMonth(a.year, a.month);
    assert Ordinal(a) <= endOfMonth;
    if a.year < b.year {
      if a.month < 12 {
        MonthsInOrder(a.year, a.month, 12);
      }
      MonthEnd(a.year, 12);
      assert endOfMonth <= DaysBeforeYear(a.year + 1);
      YearsInOrder(a.year + 1, b.year);
      assert DaysBeforeYear(b.year) < Ordinal(b);
      assert Ordinal(a) < Ordinal(b);
    } else {
      assert a.year == b.year;
      var start := DaysBeforeYear(b.year) + DaysBeforeMonth(b.year, b.month);
      assert Ordinal(b) == start + b.day;
      if a.month < b.month {
        MonthsInOrder(a.year, a.month, b.month);
        assert endOfMonth <= start;
        assert Ordinal(a) < Ordinal(b);
      } else {
        assert a.month == b.month && a.day < b.day;
        assert Ordinal(a) == start + a.day;
      }
    }
  }

  /** A datetime on an earlier day is the earlier one, whatever the times of day. */
  lemma EarlierDay(a: DateTime, b: DateTime)
    requires IsValid(a) && IsValid(b) && Ordinal(a) < Ordinal(b)
    ensures EpochSeconds(a) < EpochSeconds(b)
  {
    var da, db := Ordinal(a) - EpochOrdinal, Ordinal(b) - EpochOrdinal;
    assert a.hour * 3600 + a.minute * 60 + a.second <= 86400 - 1;
    assert da * 86400 + 86400 <= db * 86400;
  }

  /** `int(round(dt.timestamp()))`. */
  function Timestamp(dt: DateTime): int
    requires IsDate(dt)
  {
    RoundHalfEven(EpochSeconds(dt))
  }

  /** 1970-01-01 00:00:00 is second 0. */
  lemma EpochStart()
    ensures EpochSeconds(DateTime(1970, 1, 1, 0, 0, 0, 0)) == 0.0
  {
    assert DaysBeforeYear(1970) == 719162;
  }

  /** A duration of `days` days and `hours` hours moves the epoch by exactly that many seconds. */
  lemma AddDurationEpoch(dt: DateTime, days: int, hours: int)
    requires IsDate(dt) && 0 <= dt.hour < 24
    ensures EpochSeconds(AddDuration(dt, days, hours)) == EpochSeconds(dt) + (days * 86400 + hours * 3600) as real
  {
    var total := dt.hour + hours;
    AddDaysOrdinal(dt.(hour := total % 24), days + total / 24);
    assert total == (total / 24) * 24 + total % 24;
  }

  /** Moving the epoch by a whole number of hours moves the rounded timestamp by the same amount. */
  lemma TimestampShift(a: DateTime, b: DateTime, hours: int)
    requires IsDate(a) && IsDate(b)
    requires EpochSeconds(b) == EpochSeconds(a) + (3600 * hours) as real
    ensures Timestamp(b) == Timestamp(a) + 3600 * hours
  {
    RoundHalfEvenShift(EpochSeconds(a), 1800 * hours);
  }

  /** A duration moves both the epoch and the rounded timestamp by exactly its length in seconds. */
  lemma DurationShift(dt: DateTime, days: int, hours: int)
    requires IsDate(dt) && 0 <= dt.hour < 24
    ensures var moved := AddDuration(dt, days, hours);
      && EpochSeconds(moved) == EpochSeconds(dt) + (days * 86400 + hours * 3600) as real
      && Timestamp(moved) == Timestamp(dt) + days * 86400 + hours * 3600
  {
    AddDurationEpoch(dt, days, hours);
    TimestampShift(dt, AddDuration(dt, days, hours), 24 * days + hours);
  }
}
