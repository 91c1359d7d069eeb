/**
 * `AlertInterval`: a five-field recurring schedule (year, month, day, week,
 * hour), each field the wildcard "*" or an integer in text. A negative field
 * makes the whole schedule a rolling window reaching back from now; otherwise
 * the fields name an absolute hour, moved back a day, a month or a year when
 * it lies ahead of now in the field that fixes it.
 */
module Intervals {
  import opened Wrappers
  import opened Numbers
  import opened Calendar

  datatype AlertInterval = AlertInterval(id: int, year: string, month: string, day: string, week: string, hour: string)

  /** The dataclass defaults: every field "*". */
  function Unbounded(id: int): AlertInterval {
    AlertInterval(id, "*", "*", "*", "*", "*")
  }

  /** `current if field == "*" else int(field)`. */
  function Resolve(field: string, current: int): (r: Result<int>)
    ensures field == "*" ==> r == Ok(current)
  {
    if field == "*" then Ok(current) else ParseInt(field)
  }

  /** A field that `getTimeStamp` can read: the wildcard or an integer. */
  predicate IsReadable(field: string) {
    field == "*" || ParseInt(field).Ok?
  }

  predicate IsReadableInterval(iv: AlertInterval) {
    IsReadable(iv.year) && IsReadable(iv.month) && IsReadable(iv.day) && IsReadable(iv.week) && IsReadable(iv.hour)
  }

  /** A field that asks for a rolling window: an integer below zero. */
  predicate IsRollingField(field: string) {
    field != "*" && ParseInt(field).Ok? && ParseInt(field).value < 0
  }

  predicate IsRolling(iv: AlertInterval) {
    IsRollingField(iv.year) || IsRollingField(iv.month) || IsRollingField(iv.day)
      || IsRollingField(iv.week) || IsRollingField(iv.hour)
  }

  /** The offset a field contributes to a rolling window: its value, or 0 for the wildcard. */
  function Offset(field: string): int
    requires IsReadable(field)
  {
    Resolve(field, 0).value
  }

  /**
   * The start of the window as a datetime: the body of `getTimeStamp` before
   * the conversion to epoch seconds.
   */
  function Window(iv: AlertInterval, now: DateTime): (r: Result<DateTime>)
    requires IsValid(now)
    ensures r.Ok? ==> IsValid(r.value)
  {
    var year :- Resolve(iv.year, now.year);
    var month :- Resolve(iv.month, now.month);
    var day :- Resolve(iv.day, now.day);
    var week :- Resolve(iv.week, 0);
    var hour :- Resolve(iv.hour, now.hour);
    if year < 0 || month < 0 || day < 0 || week < 0 || hour < 0 then
      // rolling: every field, a wildcard as 0, is a signed offset from now
      AddRelativeDelta(now, Offset(iv.year), Offset(iv.month), Offset(iv.day) + 7 * Offset(iv.week), Offset(iv.hour))
    else
      AbsoluteWindow(year, month, day, hour, now)
  }

  /** Absolute mode: the named hour, moved back once per field that lies ahead of now. */
  function AbsoluteWindow(year: int, month: int, day: int, hour: int, now: DateTime): (r: Result<DateTime>)
    requires IsValid(now)
    ensures r.Ok? ==> IsValid(r.value)
    ensures r.Err? ==> r.error == InvalidDate || r.error == DateOverflow
  {
    var candidate :- MakeDateTime(year, month, day, hour);
    AddRelativeDelta(candidate,
      if month > now.month then -1 else 0,
      if day > now.day then -1 else 0,
      if hour > now.hour then -1 else 0,
      0)
  }

  /** `getTimeStamp(now)`: the epoch second at which the current window starts. */
  function GetTimeStamp(iv: AlertInterval, now: DateTime): Result<int>
    requires IsValid(now)
  {
    match Window(iv, now)
    case Ok(dt) => Ok(Timestamp(dt))
    case Err(e) => Err(e)
  }

  /** `alert.getTimeStamp(now)` for one reading of the clock, as a function of the interval. */
  function WindowStarts(now: DateTime): (f: AlertInterval -> Result<int>)
    requires IsValid(now)
    ensures forall iv :: f(iv) == GetTimeStamp(iv, now)
  {
    iv => GetTimeStamp(iv, now)
  }

  // ---------------------------------------------------------------------
  // Properties of the window

  /** The timestamp is the rounded epoch second of the window, and the errors are the window's. */
  lemma TimeStampOfWindow(iv: AlertInterval, now: DateTime)
    requires IsValid(now)
    ensures Window(iv, now).Ok? ==> GetTimeStamp(iv, now) == Ok(Timestamp(Window(iv, now).value))
    ensures Window(iv, now).Err? ==> GetTimeStamp(iv, now) == Err(Window(iv, now).error)
  {
  }

  /** The absolute-mode datetime before any correction: wildcards stand for now's components. */
  function Candidate(iv: AlertInterval, now: DateTime): DateTime
    requires IsReadableInterval(iv)
  {
    DateTime(Resolve(iv.year, now.year).value, Resolve(iv.month, now.month).value,
             Resolve(iv.day, now.day).value, Resolve(iv.hour, now.hour).value, 0, 0, 0)
  }

  /**
   * The errors `getTimeStamp` can raise: ValueError from int() exactly when a
   * field is unreadable, otherwise ValueError from an invalid date or
   * OverflowError from a component beyond the C int range or from leaving
   * the years 1..9999.
   */
  lemma WindowErrors(iv: AlertInterval, now: DateTime)
    requires IsValid(now)
    ensures Window(iv, now) == Err(MalformedField) <==> !IsReadableInterval(iv)
    ensures Window(iv, now).Err? ==> Window(iv, now).error in {MalformedField, InvalidDate, DateOverflow}
  {
  }

  /**
   * Rolling mode is chosen exactly when some non-wildcard field is negative
   * (a wildcard stands for a component of now, which is never negative, or
   * for a week offset of 0), and then every field, a wildcard as 0, is a
   * signed offset from now.
   */
  lemma RollingBranch(iv: AlertInterval, now: DateTime)
    requires IsValid(now) && IsReadableInterval(iv) && IsRolling(iv)
    ensures Window(iv, now) == AddRelativeDelta(now, Offset(iv.year), Offset(iv.month),
                                                Offset(iv.day) + 7 * Offset(iv.week), Offset(iv.hour))
  {
    var year, month, day := Resolve(iv.year, now.year).value, Resolve(iv.month, now.month).value,
                            Resolve(iv.day, now.day).value;
    var week, hour := Resolve(iv.week, 0).value, Resolve(iv.hour, now.hour).value;
    assert year < 0 || month < 0 || day < 0 || week < 0 || hour < 0;
  }

  /**
   * Without a negative field the window is the candidate hour, rejected by
   * `datetime(...)` with OverflowError if a component does not fit a C int
   * and with ValueError if it is not a valid date, and otherwise moved back one
   * day if its hour is later than now's, one month if its day is later than
   * now's and one year if its month is later than now's; each test looks at
   * the field as written (a wildcard being now's own value), once.
   */
  lemma AbsoluteBranch(iv: AlertInterval, now: DateTime)
    requires IsValid(now) && IsReadableInterval(iv) && !IsRolling(iv)
    ensures var c := Candidate(iv, now);
      Window(iv, now) ==
        if !ComponentsFit(c.year, c.month, c.day, c.hour) then Err(DateOverflow)
        else if !IsValid(c) then Err(InvalidDate)
        else AddRelativeDelta(c, if c.month > now.month then -1 else 0,
                              if c.day > now.day then -1 else 0,
                              if c.hour > now.hour then -1 else 0, 0)
  {
  }

  /**
   * A rolling window whose year and month offsets are zero starts exactly
   * `86400 * (days + 7 * weeks) + 3600 * hours` seconds from now (the offsets
   * being negative or not), or fails with OverflowError outside the years 1..9999.
   */
  lemma RollingDuration(iv: AlertInterval, now: DateTime)
    requires IsValid(now) && IsReadableInterval(iv) && IsRolling(iv)
    requires Offset(iv.year) == 0 && Offset(iv.month) == 0
    ensures GetTimeStamp(iv, now).Err? ==> GetTimeStamp(iv, now).error == DateOverflow
    ensures GetTimeStamp(iv, now).Ok? ==>
      GetTimeStamp(iv, now).value
        == Timestamp(now) + 86400 * (Offset(iv.day) + 7 * Offset(iv.week)) + 3600 * Offset(iv.hour)
  {
    RollingWindowIsDuration(iv, now);
    StampOfDuration(iv, now, Offset(iv.day) + 7 * Offset(iv.week), Offset(iv.hour));
  }

  /** A window that is `now` plus a duration starts that many seconds after now. */
  lemma StampOfDuration(iv: AlertInterval, now: DateTime, days: int, hours: int)
    requires IsValid(now)
    requires var moved := AddDuration(now, days, hours);
      Window(iv, now) == if InYearRange(moved.year) then Ok(moved) else Err(DateOverflow)
    ensures GetTimeStamp(iv, now).Err? ==> GetTimeStamp(iv, now).error == DateOverflow
    ensures GetTimeStamp(iv, now).Ok? ==>
      GetTimeStamp(iv, now).value == Timestamp(now) + 86400 * days + 3600 * hours
  {
    TimeStampOfWindow(iv, now);
    DurationShift(now, days, hours);
  }

  /** With zero year and month offsets, the rolling window is `now` plus a plain duration. */
  lemma RollingWindowIsDuration(iv: AlertInterval, now: DateTime)
    requires IsValid(now) && IsReadableInterval(iv) && IsRolling(iv)
    requires Offset(iv.year) == 0 && Offset(iv.month) == 0
    ensures var moved := AddDuration(now, Offset(iv.day) + 7 * Offset(iv.week), Offset(iv.hour));
      Window(iv, now) == if InYearRange(moved.year) then Ok(moved) else Err(DateOverflow)
  {
    RollingBranch(iv, now);
    RelativeDeltaOfDuration(now, Offset(iv.day) + 7 * Offset(iv.week), Offset(iv.hour));
  }

  /** `{day: "-1"}`, the other fields "*": the window starts exactly one day before now. */
  lemma PreviousDay(now: DateTime)
    requires IsValid(now)
    ensures var iv := AlertInterval(0, "*", "*", "-1", "*", "*");
      GetTimeStamp(iv, now).Ok? ==> GetTimeStamp(iv, now) == Ok(Timestamp(now) - 86400)
  {
    var iv := AlertInterval(0, "*", "*", "-1", "*", "*");
    assert ParseInt("-1") == Ok(-1) by { assert "-1"[1..] == "1"; }
    RollingDuration(iv, now);
  }

  /**
   * A rolling window whose day, week and hour offsets are zero moves now by
   * whole months: the month index moves by `12 * years + months`, the day is
   * clamped to the month reached, and the time of day is now's.
   */
  lemma RollingMonths(iv: AlertInterval, now: DateTime)
    requires IsValid(now) && IsReadableInterval(iv) && IsRolling(iv)
    requires Offset(iv.day) == 0 && Offset(iv.week) == 0 && Offset(iv.hour) == 0
    ensures Window(iv, now).Ok? ==>
      var w := Window(iv, now).value;
      && w.year * 12 + w.month == now.year * 12 + now.month + 12 * Offset(iv.year) + Offset(iv.month)
      && w.day == (if now.day <= DaysInMonth(w.year, w.month) then now.day else DaysInMonth(w.year, w.month))
      && w.hour == now.hour && w.minute == now.minute && w.second == now.second
      && w.microsecond == now.microsecond
  {
    RollingBranch(iv, now);
    var shifted := AddMonths(now, 12 * Offset(iv.year) + Offset(iv.month));
    AddDaysOrdinal(shifted, 0);
  }

  /** All five fields "*": no correction applies and the window is the current hour. */
  lemma CurrentHour(now: DateTime)
    requires IsValid(now)
    ensures Window(Unbounded(0), now) == Ok(now.(minute := 0, second := 0, microsecond := 0))
    ensures Timestamp(now.(minute := 0, second := 0, microsecond := 0)) as real <= EpochSeconds(now)
    ensures EpochSeconds(now) < Timestamp(now.(minute := 0, second := 0, microsecond := 0)) as real + 3600.0
  {
    var start := now.(minute := 0, second := 0, microsecond := 0);
    AbsoluteBranch(Unbounded(0), now);
    assert Candidate(Unbounded(0), now) == start;
    NoDelta(start);
    assert EpochSeconds(start).Floor as real == EpochSeconds(start);
  }

  /**
   * An hour field later than now's hour, the other fields "*": the window
   * starts at that hour of the day before today.
   */
  lemma HourCarryBack(now: DateTime, h: int)
    requires IsValid(now) && now.hour < h < 24
    ensures var iv := AlertInterval(0, "*", "*", "*", "*", IntToString(h));
      var today := now.(hour := h, minute := 0, second := 0, microsecond := 0);
      var yesterday := AddDays(today, -1);
      && Window(iv, now) == (if InYearRange(yesterday.year) then Ok(yesterday) else Err(DateOverflow))
      && (Window(iv, now).Ok? ==> GetTimeStamp(iv, now) == Ok(Timestamp(today) - 86400))
  {
    var iv := AlertInterval(0, "*", "*", "*", "*", IntToString(h));
    ParseIntToString(h);
    var today := now.(hour := h, minute := 0, second := 0, microsecond := 0);
    assert IntToString(h) != "*" by { assert IntToString(h) == NatToString(h); }
    AbsoluteBranch(iv, now);
    assert Candidate(iv, now) == today;
    RelativeDeltaOfDuration(today, -1, 0);
    assert AddDuration(today, -1, 0) == AddDays(today, -1) by {
      assert today.(hour := (today.hour + 0) % 24) == today;
    }
    DurationShift(today, -1, 0);
  }

  /** `datetime(...)` rejects day 31 of a 30-day month before any correction is made. */
  lemma DayBeyondMonth(now: DateTime)
    requires IsValid(now) && DaysInMonth(now.year, now.month) == 30
    ensures Window(AlertInterval(0, "*", "*", "31", "*", "*"), now) == Err(InvalidDate)
  {
    assert ParseInt("31") == Ok(31) by {
      assert DigitsValue("31") == DigitsValue("3") * 10 + 1;
    }
  }

  /**
   * The absolute-mode corrections never leave a candidate hour of a year no
   * later than now's after now: each field that lies ahead of now moves the
   * window back past it.
   */
  lemma CorrectionsNotAfter(c: DateTime, now: DateTime)
    requires IsValid(c) && IsValid(now) && c.minute == 0 && c.second == 0 && c.microsecond == 0
    requires c.year <= now.year
    ensures var r := AddRelativeDelta(c, if c.month > now.month then -1 else 0,
                                      if c.day > now.day then -1 else 0,
                                      if c.hour > now.hour then -1 else 0, 0);
      r.Ok? ==> EpochSeconds(r.value) <= EpochSeconds(now)
  {
    var yc := if c.month > now.month then -1 else 0;
    var mc := if c.day > now.day then -1 else 0;
    var dc := if c.hour > now.hour then -1 else 0;
    var shifted := AddMonths(c, 12 * yc + mc);
    var moved := AddDuration(shifted, dc, 0);
    RelativeDeltaSteps(c, yc, mc, dc, 0);
    if AddRelativeDelta(c, yc, mc, dc, 0).Ok? {
      AddDurationEpoch(shifted, dc, 0);
      assert EpochSeconds(moved) <= EpochSeconds(shifted);
      if yc == 0 && mc == 0 {
        NoMonths(c);
      }
      if c.year == now.year && c.month == now.month && c.day == now.day {
        assert Ordinal(shifted) == Ordinal(now);
      } else {
        OrdinalOrder(shifted, now);
        EarlierDay(shifted, now);
      }
    }
  }

  /**
   * In absolute mode, with a year field that names now's year or an earlier
   * one, the window never starts after now.
   */
  lemma AbsoluteNotAhead(iv: AlertInterval, now: DateTime)
    requires IsValid(now) && IsReadableInterval(iv) && !IsRolling(iv)
    requires Resolve(iv.year, now.year).value <= now.year
    ensures Window(iv, now).Ok? ==> EpochSeconds(Window(iv, now).value) <= EpochSeconds(now)
  {
    AbsoluteBranch(iv, now);
    var c := Candidate(iv, now);
    if IsValid(c) {
      CorrectionsNotAfter(c, now);
    }
  }

  /**
   * The year field is never corrected: naming next year gives a window that
   * starts after now (here every other field "*", away from 29 February).
   */
  lemma YearAhead(now: DateTime)
    requires IsValid(now) && now.year < MaxYear && !(now.month == 2 && now.day == 29)
    ensures var iv := AlertInterval(0, IntToString(now.year + 1), "*", "*", "*", "*");
      var next := now.(year := now.year + 1, minute := 0, second := 0, microsecond := 0);
      && Window(iv, now) == Ok(next)
      && EpochSeconds(now) < EpochSeconds(next)
  {
    var iv := AlertInterval(0, IntToString(now.year + 1), "*", "*", "*", "*");
    var next := now.(year := now.year + 1, minute := 0, second := 0, microsecond := 0);
    ParseIntToString(now.year + 1);
    assert IntToString(now.year + 1) != "*" by { assert IntToString(now.year + 1) == NatToString(now.year + 1); }
    AbsoluteBranch(iv, now);
    assert Candidate(iv, now) == next;
    NoDelta(next);
    OrdinalOrder(now, next);
    EarlierDay(now, next);
  }

  /** A day beyond the C int range makes `datetime(...)` raise OverflowError rather than ValueError. */
  lemma DayBeyondCInt(now: DateTime, d: int)
    requires IsValid(now) && d > IntMax
    ensures Window(AlertInterval(0, "*", "*", IntToString(d), "*", "*"), now) == Err(DateOverflow)
  {
    var iv := AlertInterval(0, "*", "*", IntToString(d), "*", "*");
    ParseIntToString(d);
    assert IntToString(d) != "*" by { assert IntToString(d) == NatToString(d); }
    AbsoluteBranch(iv, now);
  }

  /**
   * A rolling year offset that takes the year below the C int range makes
   * `replace(...)` raise OverflowError rather than ValueError.
   */
  lemma RollingYearBeyondCInt(now: DateTime, y: int)
    requires IsValid(now) && now.year + y < IntMin
    ensures Window(AlertInterval(0, IntToString(y), "*", "*", "*", "*"), now) == Err(DateOverflow)
  {
    var iv := AlertInterval(0, IntToString(y), "*", "*", "*", "*");
    ParseIntToString(y);
    assert IntToString(y)[0] == '-';
    RollingBranch(iv, now);
    assert AddMonths(now, 12 * y).year == now.year + y;
  }

  // ---------------------------------------------------------------------
  // Ordering of intervals

  /** `isInt(val)`: whether int() accepts the field. */
  predicate IsInt(field: string) {
    ParseInt(field).Ok?
  }

  /** `isFieldLt`: whether this field comes before that one. */
  predicate IsFieldLt(mine: string, theirs: string) {
    if mine == "*" && theirs != "*" then true
    else if IsInt(mine) && IsInt(theirs) then
      var x, y := ParseInt(mine).value, ParseInt(theirs).value;
      (x >= 0 && y < 0) || (x < 0 && y < 0 && x < y) || (x > 0 && y > 0 && x < y)
    else false
  }

  /** `a < other`: some field of `a` comes before the same field of `other`. */
  predicate Less(a: AlertInterval, other: Operand<AlertInterval>) {
    match other
    case Same(b) =>
      IsFieldLt(a.year, b.year) || IsFieldLt(a.month, b.month) || IsFieldLt(a.day, b.day)
        || IsFieldLt(a.week, b.week) || IsFieldLt(a.hour, b.hour)
    case Foreign => false
  }

  /**
   * Field by field the comparison is a strict partial order: the wildcard
   * first, then non-negative values, then rolling values from the most
   * negative; 0 and the positive values are not comparable with each other.
   */
  lemma FieldOrder(a: string, b: string, c: string)
    ensures !IsFieldLt(a, a)
    ensures IsFieldLt(a, b) && IsFieldLt(b, c) ==> IsFieldLt(a, c)
    ensures IsFieldLt(a, b) ==> !IsFieldLt(b, a)
    ensures a == "*" && b != "*" ==> IsFieldLt(a, b)
    ensures a != "*" ==> !IsFieldLt(a, "*")
  {
  }

  /** No interval is less than itself, and none is less than a non-interval. */
  lemma LessIrreflexive(a: AlertInterval)
    ensures !Less(a, Same(a)) && !Less(a, Foreign)
  {
    FieldOrder(a.year, a.year, a.year);
    FieldOrder(a.month, a.month, a.month);
    FieldOrder(a.day, a.day, a.day);
    FieldOrder(a.week, a.week, a.week);
    FieldOrder(a.hour, a.hour, a.hour);
  }

  /** Being an "or" over fields, `<` is not asymmetric: each of these two intervals is less than the other. */
  lemma LessNotAsymmetric()
    ensures var a := AlertInterval(1, "*", "1", "*", "*", "*");
      var b := AlertInterval(2, "1", "*", "*", "*", "*");
      Less(a, Same(b)) && Less(b, Same(a))
  {
  }
}
