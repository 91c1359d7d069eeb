/**
 * The tray application: the taskbar icon with its change cache, the icon
 * file chosen for a percentage, and the timer tick that refreshes the
 * alerts, shows the most used one and warns about it at most once a day.
 */
module BitMeter {
  import opened Wrappers
  import opened Numbers
  import opened Calendar
  import opened Bandwidths
  import opened Intervals
  import opened Alerts
  import opened Registry

  const Title: string := "Bitmeter OS Client"
  const DefaultIcon: string := "icon.ico"
  const UsageWarning: string := "Usage Warning"
  const Day: int := 86400

  /** The settings the tick reads: the warning threshold, the taskbar theme and the path separator. */
  datatype Config = Config(threshold: real, theme: string, sep: char)

  // ---------------------------------------------------------------------
  // getIconFromPercent

  /**
   * `int(round(percent, -1))`: the multiple of ten nearest the percentage,
   * an exact half going to the even multiple (a multiple of twenty).
   */
  function IconLevel(percent: real): int {
    10 * RoundHalfEven(percent / 10.0)
  }

  /** The level is within five of the percentage, an exact tie going to a multiple of twenty. */
  lemma IconLevelNearest(percent: real)
    ensures IconLevel(percent) % 10 == 0
    ensures percent - 5.0 <= IconLevel(percent) as real <= percent + 5.0
    ensures IconLevel(percent) as real == percent - 5.0 || IconLevel(percent) as real == percent + 5.0 ==> IconLevel(percent) % 20 == 0
    ensures 0.0 <= percent ==> 0 <= IconLevel(percent)
    ensures percent <= 100.0 ==> IconLevel(percent) <= 100
  {
    var r := RoundHalfEven(percent / 10.0);
    assert (10 * r) as real == 10.0 * r as real;
  }

  /** The figure of the icon name: the level left-padded with zeros to three places. */
  function IconDigits(percent: real): string {
    PadLeft(IntToString(IconLevel(percent)), '0', 3)
  }

  /** The directory and stem in front of the figure. */
  function IconPrefix(theme: string, sep: char): string {
    "icons" + [sep] + theme + [sep] + "status-"
  }

  /** `getIconFromPercent(percent, theme)`, with `os.sep` as `sep`. */
  function IconFromPercent(percent: real, theme: string, sep: char): string {
    IconPrefix(theme, sep) + IconDigits(percent) + ".ico"
  }

  /**
   * The figure in the icon name reads back as the rounded level: at least
   * three digits, exactly three for a percentage up to 100.
   */
  lemma IconNameReadsBack(percent: real, theme: string, sep: char)
    requires 0.0 <= percent
    ensures var icon := IconFromPercent(percent, theme, sep);
      && |IconPrefix(theme, sep)| + 3 + 4 <= |icon|
      && icon[..|IconPrefix(theme, sep)|] == IconPrefix(theme, sep)
      && icon[|icon| - 4..] == ".ico"
      && var digits := icon[|IconPrefix(theme, sep)|..|icon| - 4];
      && AllDigits(digits) && 3 <= |digits|
      && DigitsValue(digits) == IconLevel(percent)
      && (percent <= 100.0 ==> |digits| == 3)
  {
    var icon := IconFromPercent(percent, theme, sep);
    var prefix := IconPrefix(theme, sep);
    var padded := IconDigits(percent);
    assert icon == prefix + padded + ".ico";
    Pieces(prefix, padded, ".ico");
    assert icon[|prefix|..|icon| - 4] == padded;
    IconDigitsValue(percent);
  }

  /** The three pieces of a concatenation can be cut out of it again. */
  lemma Pieces(a: string, b: string, c: string)
    ensures (a + b + c)[..|a|] == a
    ensures (a + b + c)[|a|..|a + b + c| - |c|] == b
    ensures (a + b + c)[|a + b + c| - |c|..] == c
  {
    var w := a + b + c;
    assert w[..|a|] == a;
    assert w[|a|..|w| - |c|] == b;
    assert w[|w| - |c|..] == c;
  }

  /** The padded figure is a digit string of the level, of at least three digits, exactly three up to 100 percent. */
  lemma IconDigitsValue(percent: real)
    requires 0.0 <= percent
    ensures AllDigits(IconDigits(percent)) && 3 <= |IconDigits(percent)|
    ensures DigitsValue(IconDigits(percent)) == IconLevel(percent)
    ensures percent <= 100.0 ==> |IconDigits(percent)| == 3
  {
    var level := IconLevel(percent);
    IconLevelNearest(percent);
    var s := NatToString(level);
    assert IntToString(level) == s;
    var padded := PadLeft(s, '0', 3);
    var zeros := padded[..|padded| - |s|];
    assert padded == zeros + s;
    LeadingZeros(zeros, s);
    NatToStringValue(level);
    if percent <= 100.0 {
      ShortNatToString(level);
    }
  }

  /** Worked cases: an exact half rounds to the even multiple of ten. */
  lemma IconExamples()
    ensures IconDigits(0.0) == "000"
    ensures IconDigits(5.0) == "000"
    ensures IconDigits(15.0) == "020"
    ensures IconDigits(45.0) == "040"
    ensures IconDigits(55.0) == "060"
    ensures IconDigits(100.0) == "100"
  {
    assert RoundHalfEven(0.5) == 0;
    assert RoundHalfEven(1.5) == 2;
    assert RoundHalfEven(4.5) == 4;
    assert RoundHalfEven(5.5) == 6;
  }

  // ---------------------------------------------------------------------
  // The warning cooldown of onTimerTick

  /** `datetime - timedelta(days=1)` is the previous calendar day at the same time. */
  lemma YesterdayIsPrevDay(dt: DateTime)
    requires IsValid(dt)
    ensures AddDuration(dt, -1, 0) == PrevDay(dt)
  {
    assert dt.(hour := (dt.hour + 0) % 24) == dt;
  }

  /**
   * The cooldown limit of a tick: the epoch second a day before the clock
   * reading, truncated to whole seconds; the subtraction overflows on the
   * first day of year 1.
   */
  function CooldownLimit(checkNow: DateTime): Result<int>
    requires IsValid(checkNow)
  {
    var yesterday := AddDuration(checkNow, -1, 0);
    if InYearRange(yesterday.year) then Ok(Trunc(EpochSeconds(yesterday))) else Err(DateOverflow)
  }

  /** The limit is a day before the reading; only the first day of year 1 has no yesterday. */
  lemma CooldownLimitValue(checkNow: DateTime)
    requires IsValid(checkNow)
    ensures CooldownLimit(checkNow).Err? <==> checkNow.year == MinYear && checkNow.month == 1 && checkNow.day == 1
    ensures CooldownLimit(checkNow).Err? ==> CooldownLimit(checkNow).error == DateOverflow
    ensures CooldownLimit(checkNow).Ok? ==> CooldownLimit(checkNow).value == Trunc(EpochSeconds(checkNow) - Day as real)
  {
    YesterdayIsPrevDay(checkNow);
    AddDurationEpoch(checkNow, -1, 0);
  }

  /** The warning condition: at or over the threshold, and last warned before the cooldown limit. */
  predicate ShouldNotify(percent: real, threshold: real, lastNotified: int, limit: int) {
    percent >= threshold && lastNotified < limit
  }

  /** The only day whose yesterday overflows lies before the epoch. */
  lemma FirstDayBeforeEpoch(dt: DateTime)
    requires IsValid(dt)
    ensures dt.year == MinYear && dt.month == 1 && dt.day == 1 ==> EpochSeconds(dt) < 0.0
  {
    if dt.year == MinYear && dt.month == 1 && dt.day == 1 {
      assert Ordinal(dt) == 1;
    }
  }

  /**
   * From a day after the epoch on, an alert stamped at `lastNotified` is past
   * its cooldown exactly when at least a day and a second have gone by.
   */
  lemma CooldownIsADay(checkNow: DateTime, lastNotified: int)
    requires IsValid(checkNow) && EpochSeconds(checkNow) >= Day as real
    ensures CooldownLimit(checkNow).Ok?
    ensures lastNotified < CooldownLimit(checkNow).value <==> EpochSeconds(checkNow) >= (lastNotified + Day + 1) as real
  {
    FirstDayBeforeEpoch(checkNow);
    CooldownLimitValue(checkNow);
    var x := EpochSeconds(checkNow) - Day as real;
    assert CooldownLimit(checkNow).value == x.Floor;
  }

  /**
   * The text beside the icon: the percentage with no decimals right-aligned
   * in three columns, a percent sign and three spaces, the usage in its unit
   * right-aligned in ten columns, then two spaces, a dash, a space and the
   * alert's name. `fixed(x, n)` renders a float with `n` decimals.
   */
  function Label(percent: real, usage: Bandwidth, name: string, fixed: (real, nat) -> string): string {
    var shown := Display(usage);
    var amount := fixed(shown.value, 2) + " " + Suffix(shown.unit);
    PadLeft(fixed(percent, 0), ' ', 3) + "%   " + PadLeft(amount, ' ', 10) + "  - " + name
  }

  /** The label is at least 21 characters before the name and ends with "  - " and the alert's name. */
  lemma LabelEndsWithName(percent: real, usage: Bandwidth, name: string, fixed: (real, nat) -> string)
    ensures var text := Label(percent, usage, name, fixed);
      && 3 + 4 + 10 + 4 + |name| <= |text|
      && text[|text| - |name| - 4..] == "  - " + name
  {
    var shown := Display(usage);
    var amount := fixed(shown.value, 2) + " " + Suffix(shown.unit);
    var front := PadLeft(fixed(percent, 0), ' ', 3) + "%   " + PadLeft(amount, ' ', 10);
    assert Label(percent, usage, name, fixed) == front + ("  - " + name);
    Pieces(front, "  - " + name, "");
  }

  // ---------------------------------------------------------------------
  // One timer tick, as values

  /**
   * The effect of one tick: the registry afterwards, the alert shown, the
   * icon and label handed to the taskbar, the warning raised, and whether
   * the tick ran to its end or stopped with an exception.
   */
  datatype TickPlan = TickPlan(
    store: Store, top: Option<Alert>, display: Option<(string, string)>,
    notice: Option<(string, string)>, outcome: Outcome)

  /**
   * The registry work of a tick, `getAlerts()` and the refresh inside
   * `getHighestAlertPercent()`: the fetched rows merged, then every alert's
   * usage refreshed in key order with the window starts at `now`.
   */
  function Loaded(
    st: Store, rows: seq<AlertRow>, loadedIntervals: map<int, AlertInterval>, loadedFilters: map<int, Filter>,
    now: DateTime, sumUsage: (int, int) -> Option<int>): (r: (Store, Outcome))
    requires WellFormed(st) && IsValid(now)
    ensures WellFormed(r.0)
  {
    MergeRowsWellFormed(st, rows, loadedIntervals, loadedFilters);
    var merged := MergeRows(st, rows, loadedIntervals, loadedFilters);
    if merged.1.Fail? then merged
    else
      RefreshWellFormed(merged.0, merged.0.order, WindowStarts(now), sumUsage);
      RefreshFrom(merged.0, merged.0.order, WindowStarts(now), sumUsage)
  }

  /**
   * An alert whose definition every fetched row with its id repeats keeps
   * its notification stamp through the registry work of a tick.
   */
  lemma LoadedKeepsStamp(
    st: Store, rows: seq<AlertRow>, loadedIntervals: map<int, AlertInterval>, loadedFilters: map<int, Filter>,
    now: DateTime, sumUsage: (int, int) -> Option<int>, k: int)
    requires WellFormed(st) && IsValid(now) && k in st.alerts
    requires forall i :: 0 <= i < |rows| && rows[i].id == k && RowAlert(rows[i], loadedIntervals, loadedFilters).Ok? ==>
      DefinitionEquals(st.alerts[k], Same(RowAlert(rows[i], loadedIntervals, loadedFilters).value))
    ensures var r := Loaded(st, rows, loadedIntervals, loadedFilters, now, sumUsage).0;
      k in r.alerts && r.alerts[k].lastNotified == st.alerts[k].lastNotified
  {
    MergeRowsKeepsEqual(st, rows, loadedIntervals, loadedFilters, k);
    MergeRowsWellFormed(st, rows, loadedIntervals, loadedFilters);
    var merged := MergeRows(st, rows, loadedIntervals, loadedFilters);
    if merged.1.Pass? {
      RefreshKeepsDefinitions(merged.0, merged.0.order, WindowStarts(now), sumUsage);
    }
  }

  /**
   * The rest of a tick once `top`, the alert with the highest percentage, is
   * chosen: show its icon and label, and warn about it (stamping it with the
   * clock reading `stampNow`) when it is over the threshold and past its
   * cooldown at the clock reading `checkNow`.
   */
  function Shown(current: Store, top: Alert, checkNow: DateTime, stampNow: DateTime, config: Config, fixed: (real, nat) -> string): (plan: TickPlan)
    requires WellFormed(current) && top.id in current.alerts && current.alerts[top.id] == top
    requires IsValid(checkNow) && IsValid(stampNow)
    ensures WellFormed(plan.store) && plan.top == Some(top)
    ensures plan.store == if plan.notice.Some? then Stamped(current, top.id, Trunc(EpochSeconds(stampNow))) else current
    ensures plan.display == Some((IconFromPercent(top.percent, config.theme, config.sep), Label(top.percent, top.usage, top.name, fixed)))
  {
    var display := (IconFromPercent(top.percent, config.theme, config.sep), Label(top.percent, top.usage, top.name, fixed));
    match CooldownLimit(checkNow)
    case Err(e) => TickPlan(current, Some(top), Some(display), None, Fail(e))
    case Ok(limit) =>
      if !ShouldNotify(top.percent, config.threshold, top.lastNotified, limit) then
        TickPlan(current, Some(top), Some(display), None, Pass)
      else
        var ts := Trunc(EpochSeconds(stampNow));
        StampedOnlyStamp(current, top.id, ts);
        TickPlan(
          Stamped(current, top.id, ts), Some(top), Some(display), Some((UsageWarning, display.1)),
          if ts > 0 then Pass else Fail(AssertionFailed))
  }

  /**
   * `onTimerTick`: the registry work, then, when it completes with at least
   * one alert, the display and the warning. `now`, `checkNow` and `stampNow`
   * are the three clock readings of the tick.
   */
  function Tick(
    st: Store, rows: seq<AlertRow>, loadedIntervals: map<int, AlertInterval>, loadedFilters: map<int, Filter>,
    now: DateTime, checkNow: DateTime, stampNow: DateTime, sumUsage: (int, int) -> Option<int>,
    config: Config, fixed: (real, nat) -> string): (plan: TickPlan)
    requires WellFormed(st) && IsValid(now) && IsValid(checkNow) && IsValid(stampNow)
    ensures WellFormed(plan.store)
    ensures plan.outcome.Pass? ==> plan.top.Some? && plan.display.Some?
    ensures plan.top.Some? ==> plan.top.value.id in plan.store.alerts
  {
    var loaded := Loaded(st, rows, loadedIntervals, loadedFilters, now, sumUsage);
    if loaded.1.Fail? then TickPlan(loaded.0, None, None, None, loaded.1)
    else if loaded.0.order == [] then TickPlan(loaded.0, None, None, None, Fail(EmptyList))
    else Shown(loaded.0, HighestAlert(loaded.0), checkNow, stampNow, config, fixed)
  }

  /**
   * From a day after the epoch on, a tick warns about the alert it shows
   * exactly when that alert is at or over the threshold and a day and a
   * second have passed since its stamp; the warning carries the label.
   */
  lemma ShownWarns(current: Store, top: Alert, checkNow: DateTime, stampNow: DateTime, config: Config, fixed: (real, nat) -> string)
    requires WellFormed(current) && top.id in current.alerts && current.alerts[top.id] == top
    requires IsValid(checkNow) && IsValid(stampNow) && EpochSeconds(checkNow) >= Day as real
    ensures var plan := Shown(current, top, checkNow, stampNow, config, fixed);
      && (plan.notice.Some? <==>
            top.percent >= config.threshold && EpochSeconds(checkNow) >= (top.lastNotified + Day + 1) as real)
      && (plan.notice.Some? ==> plan.notice.value == (UsageWarning, plan.display.value.1))
      && (plan.outcome.Fail? <==> plan.notice.Some? && Trunc(EpochSeconds(stampNow)) <= 0)
  {
    CooldownIsADay(checkNow, top.lastNotified);
  }

  /**
   * Warnings are at most one a day per alert: if an alert was stamped at
   * `ts` and the fetched rows repeat its definition, a tick whose check
   * reading is within a day and a second of `ts` does not warn about it.
   */
  lemma TickCooldown(
    st: Store, rows: seq<AlertRow>, loadedIntervals: map<int, AlertInterval>, loadedFilters: map<int, Filter>,
    now: DateTime, checkNow: DateTime, stampNow: DateTime, sumUsage: (int, int) -> Option<int>,
    config: Config, fixed: (real, nat) -> string, k: int)
    requires WellFormed(st) && IsValid(now) && IsValid(checkNow) && IsValid(stampNow) && k in st.alerts
    requires forall i :: 0 <= i < |rows| && rows[i].id == k && RowAlert(rows[i], loadedIntervals, loadedFilters).Ok? ==>
      DefinitionEquals(st.alerts[k], Same(RowAlert(rows[i], loadedIntervals, loadedFilters).value))
    requires Day as real <= EpochSeconds(checkNow) < (st.alerts[k].lastNotified + Day + 1) as real
    ensures var plan := Tick(st, rows, loadedIntervals, loadedFilters, now, checkNow, stampNow, sumUsage, config, fixed);
      plan.notice.Some? ==> plan.top.value.id != k
  {
    var loaded := Loaded(st, rows, loadedIntervals, loadedFilters, now, sumUsage);
    LoadedKeepsStamp(st, rows, loadedIntervals, loadedFilters, now, sumUsage, k);
    if loaded.1.Pass? && loaded.0.order != [] {
      ShownWarns(loaded.0, HighestAlert(loaded.0), checkNow, stampNow, config, fixed);
    }
  }

  // ---------------------------------------------------------------------
  // The objects

  /** `TaskBarIcon`: the icon and label last handed to wx, and the log of what wx was given. */
  class TaskBarIcon {
    var iconName: string
    /** The `label` attribute (the word is reserved in Dafny). */
    var caption: string
    /** Every (icon, label) pair passed to wx's `SetIcon`, oldest first. */
    var shown: seq<(string, string)>

    /**
     * The cache is what wx shows (nothing yet while both are empty), and the
     * cache never lets the same pair through twice in a row.
     */
    predicate Valid()
      reads this
    {
      && (shown == [] ==> iconName == "" && caption == "")
      && (shown != [] ==> shown[|shown| - 1] == (iconName, caption) && shown[0] != ("", ""))
      && (forall i :: 0 < i < |shown| ==> shown[i - 1] != shown[i])
    }

    /** `TaskBarIcon(frame)`: an empty cache, then the application icon and title. */
    constructor ()
      ensures Valid()
      ensures iconName == DefaultIcon && caption == Title && shown == [(DefaultIcon, Title)]
    {
      iconName := "";
      caption := "";
      shown := [];
      new;
      SetIcon(DefaultIcon, Title);
    }

    /** `SetIcon(iconName, label)`: wx is called only when the icon or the label differs from the cache. */
    method SetIcon(newIcon: string, newLabel: string)
      requires Valid()
      modifies this
      ensures Valid()
      ensures iconName == newIcon && caption == newLabel
      ensures shown == if newIcon != old(iconName) || newLabel != old(caption) then old(shown) + [(newIcon, newLabel)] else old(shown)
    {
      if newIcon != iconName || newLabel != caption {
        iconName := newIcon;
        caption := newLabel;
        shown := shown + [(newIcon, newLabel)];
      }
    }
  }

  /** `App`: the registry, the taskbar icon, the warnings shown so far and the settings. */
  class App {
    const db: Database
    const taskbarIcon: TaskBarIcon
    /** Every (title, message) warning shown, oldest first. */
    var notifications: seq<(string, string)>
    const config: Config

    predicate Valid()
      reads this, db, taskbarIcon
    {
      db.Valid() && taskbarIcon.Valid()
    }

    /** `OnInit` with the single-instance check and the wx timer left out. */
    constructor (config: Config)
      ensures Valid() && fresh(db) && fresh(taskbarIcon)
      ensures this.config == config && notifications == []
      ensures db.Contents() == Store([], map[])
      ensures taskbarIcon.iconName == DefaultIcon && taskbarIcon.caption == Title
    {
      this.config := config;
      db := new Database();
      taskbarIcon := new TaskBarIcon();
      notifications := [];
    }

    /**
     * Lines 143-150 of `onTimerTick`, once `alert` is the alert with the
     * highest percentage and `icon` and `text` its icon and label: the
     * taskbar shows them; past a cooldown limit that can be computed, an
     * alert over the threshold is warned about and stamped, and the stamp
     * must be positive.
     */
    method ShowHighest(alert: Alert, icon: string, text: string, checkNow: DateTime, stampNow: DateTime) returns (out: Outcome)
      requires Valid() && alert.id in db.alerts && db.alerts[alert.id] == alert
      requires IsValid(checkNow) && IsValid(stampNow)
      modifies this, db, taskbarIcon
      ensures Valid() && db.intervals == old(db.intervals) && db.filters == old(db.filters)
      ensures taskbarIcon.iconName == icon && taskbarIcon.caption == text
      ensures taskbarIcon.shown == old(taskbarIcon.shown)
        + (if (icon, text) != (old(taskbarIcon.iconName), old(taskbarIcon.caption)) then [(icon, text)] else [])
      ensures CooldownLimit(checkNow).Err? ==>
        out == Fail(CooldownLimit(checkNow).error) && db.Contents() == old(db.Contents()) && notifications == old(notifications)
      ensures CooldownLimit(checkNow).Ok? && !ShouldNotify(alert.percent, config.threshold, alert.lastNotified, CooldownLimit(checkNow).value) ==>
        out == Pass && db.Contents() == old(db.Contents()) && notifications == old(notifications)
      ensures CooldownLimit(checkNow).Ok? && ShouldNotify(alert.percent, config.threshold, alert.lastNotified, CooldownLimit(checkNow).value) ==>
        var ts := Trunc(EpochSeconds(stampNow));
        && out == (if ts > 0 then Pass else Fail(AssertionFailed))
        && db.Contents() == Stamped(old(db.Contents()), alert.id, ts)
        && notifications == old(notifications) + [(UsageWarning, text)]
    {
      taskbarIcon.SetIcon(icon, text);
      var limit := CooldownLimit(checkNow);
      if limit.Err? {
        return Fail(limit.error);
      }
      if alert.percent >= config.threshold && alert.lastNotified < limit.value {
        notifications := notifications + [(UsageWarning, text)];
        var ts := Trunc(EpochSeconds(stampNow));
        db.SetLastNotified(alert.id, ts);
        if ts <= 0 {
          return Fail(AssertionFailed);
        }
      }
      return Pass;
    }

    /**
     * `onTimerTick(event)`: the registry, the taskbar and the warnings end up
     * as `Tick` says. `now` is the reading `getSortedAlerts` takes,
     * `checkNow` and `stampNow` the two readings of the cooldown test and the
     * stamp, `sumUsage` the usage query and `fixed` the float format.
     */
    method OnTimerTick(
      rows: seq<AlertRow>, loadedIntervals: map<int, AlertInterval>, loadedFilters: map<int, Filter>,
      now: DateTime, checkNow: DateTime, stampNow: DateTime, sumUsage: (int, int) -> Option<int>,
      fixed: (real, nat) -> string) returns (out: Outcome)
      requires Valid() && IsValid(now) && IsValid(checkNow) && IsValid(stampNow)
      modifies this, db, taskbarIcon
      ensures Valid()
      ensures db.intervals == loadedIntervals && db.filters == loadedFilters
      ensures var plan := Tick(old(db.Contents()), rows, loadedIntervals, loadedFilters, now, checkNow, stampNow, sumUsage, config, fixed);
        && db.Contents() == plan.store
        && out == plan.outcome
        && notifications == old(notifications) + (if plan.notice.Some? then [plan.notice.value] else [])
        && (plan.display.None? ==>
              && taskbarIcon.iconName == old(taskbarIcon.iconName) && taskbarIcon.caption == old(taskbarIcon.caption)
              && taskbarIcon.shown == old(taskbarIcon.shown))
        && (plan.display.Some? ==>
              && taskbarIcon.iconName == plan.display.value.0 && taskbarIcon.caption == plan.display.value.1
              && taskbarIcon.shown == old(taskbarIcon.shown)
                   + (if plan.display.value != (old(taskbarIcon.iconName), old(taskbarIcon.caption)) then [plan.display.value] else []))
    {
      var merged := db.GetAlerts(rows, loadedIntervals, loadedFilters);
      if merged.Fail? {
        return merged;
      }
      var highest := db.GetHighestAlertPercent(now, sumUsage);
      if highest.Err? {
        return Fail(highest.error);
      }
      var alert, percent, usage := highest.value.0, highest.value.1, highest.value.2;
      var icon := IconFromPercent(percent, config.theme, config.sep);
      var text := Label(percent, usage, alert.name, fixed);
      out := ShowHighest(alert, icon, text, checkNow, stampNow);
    }
  }
}
