# BitMeter OS Client — alert logic in Dafny

BitMeter OS Client is a tray application for the BitMeter OS traffic
monitor. It reads, from BitMeter's database, the alerts: each is a byte cap
on the traffic a filter counts over a recurring window such as "this month",
"the last 7 days" or "since 06:00". Once a second it refreshes every alert's
usage. The tray icon then shows how close the most used alert is to its cap,
and a warning pops up when that alert is at or over a threshold, at most
once per day.

This project models that logic and proves its properties:

- **Bandwidths** — byte counts: the comparisons and the unit `toString`
  picks.
- **Intervals** — the five-field schedule `(year, month, day, week, hour)`
  and `getTimeStamp`, which turns it into the epoch second at which the
  current window starts. It has two modes: a rolling window when some field
  is negative, and an absolute hour with carry-back corrections otherwise.
  The field order `isFieldLt` / `<` is here too.
- **Calendar** — what `getTimeStamp` relies on: datetime validity, leap
  years, day ordinals, `timedelta` and `relativedelta` arithmetic, and the
  epoch conversion.
- **Numbers** — the `int()`, `str()`, `round()` and padding conversions the
  source relies on.
- **Alerts** — the alert record, `setUsage` and definition-only equality.
- **Sorting** — `list.sort` as a stable sort, and `multisort`.
- **Registry** — the `Database` class: its `alerts` dictionary, with keys in
  insertion order. It has methods for the merge of fetched rows
  (`getAlerts`), the usage refresh (`getAlertUsage`), the sorted view
  (`getSortedAlerts`) and the top alert (`getHighestAlertPercent`).
- **BitMeter** — the tray icon's change cache (`TaskBarIcon.SetIcon`), the
  icon file name (`getIconFromPercent`) and the timer tick (`onTimerTick`),
  which updates the icon and warns with a one-day cooldown.

Database rows, the summed usage query, clock readings and float formatting
are parameters:

- `rows`, `loadedIntervals` and `loadedFilters` are what the SQL queries
  return.
- `sumUsage(filter, ts)` is the usage query's `SUM`, or None for NULL.
- `now`, `checkNow` and `stampNow` are the three `datetime.now()` readings
  of a tick.
- `fixed(x, n)` is the `.nf` float format.

Each class method is proved against a function on values:

- `GetAlerts` against `MergeRows`;
- `GetSortedAlerts` against `RefreshFrom` and the sort specification;
- `OnTimerTick` against `Tick`.

The properties are then proved about those functions.

## Model

| member | source | states |
|---|---|---|
| Bandwidths.Factor | db.py:126 | every unit factor is positive |
| Bandwidths.FromCount | db.py:128-129 | `Bandwidth(None)` holds 0 bytes; any other count is stored as given |
| Bandwidths.Less | db.py:137-140 | `__lt__`: fewer bytes than another Bandwidth, False against anything else; its properties are in `Comparisons` |
| Bandwidths.Equal | db.py:142-145 | `__eq__`: the same byte count as another Bandwidth, False against anything else; its properties are in `Comparisons` |
| Bandwidths.Suffix | db.py:153-169 | the unit text after the number: "B", "KB", "MB", "GB" or "TB"; `Display` picks the unit |
| Bandwidths.Comparisons | db.py:137-145 | `<` and `==` compare by bytes: exactly one of less, equal, greater holds; `==` is equality of the byte counts; both answer False against a non-Bandwidth |
| Bandwidths.Display | db.py:153-169 | the unit is B below 1024, K in [1024, 1024²), M, G likewise, T from 1024⁴; scaled value × unit factor = bytes; scaled value is at least 1 under any prefix and below 1024 except in T |
| Bandwidths.OneKibibyte | db.py:153-159 | exactly 1024 bytes shows as 1.0 K |
| Numbers.DigitValue | db.py:184-188 | the value of a decimal digit is below 10 |
| Numbers.DigitChar | bitmeter.py:154 | the digit written for d < 10 is a decimal digit whose value is d |
| Numbers.ParseInt | db.py:184-188 | `int()` of a field: optional sign, then at least one ASCII digit, else ValueError |
| Numbers.NatToString | bitmeter.py:154 | `str(n)` of a natural number is a non-empty digit string |
| Numbers.IntToString | bitmeter.py:154 | `str(n)` is non-empty |
| Numbers.NatToStringValue | bitmeter.py:154 | the digits written for n read back as n |
| Numbers.ParseIntToString | db.py:184-188 | `int(str(n)) == n` for every integer |
| Numbers.RoundHalfEven | db.py:209 | `round(x)` lies within a half of x, and an exact half goes to the even integer |
| Numbers.RoundHalfEvenShift | db.py:209 | rounding commutes with adding an even integer |
| Numbers.Trunc | bitmeter.py:145 | `int(x)` truncates toward zero |
| Numbers.PadLeft | bitmeter.py:154 | right-aligned fill: the length is max(len, width), the string ends with the input, and the front is all fill characters |
| Numbers.ZerosValue | bitmeter.py:154 | a string of zeros is a digit string worth 0 |
| Numbers.LeadingZeros | bitmeter.py:154 | zero-padding on the left keeps a digit string's value |
| Numbers.ShortNatToString | bitmeter.py:154 | a number below 1000 has at most three digits |
| Calendar.DaysInMonth | db.py:207 | months have 28 to 31 days; February has 29 exactly in leap years |
| Calendar.MakeDateTime | db.py:207 | `datetime(y, m, d, h)` succeeds exactly on a valid date and hour; it raises OverflowError when a component does not fit a C int, else ValueError |
| Calendar.DaysBeforeNextYear | db.py:209 | consecutive years start 365 or 366 (leap) ordinals apart |
| Calendar.DivisorChain | db.py:209 | multiples of 400 are multiples of 100, which are multiples of 4 |
| Calendar.CountStep | db.py:209 | counting multiples of 4, 100 or 400 up to p + 1 against p |
| Calendar.NextDay | db.py:196-197 | the next calendar day is a valid date |
| Calendar.PrevDay | db.py:196-197 | the previous calendar day is a valid date |
| Calendar.NextDayOrdinal | db.py:196-197 | the next day's ordinal is one more |
| Calendar.PrevDayOrdinal | db.py:196-197 | the previous day's ordinal is one less |
| Calendar.AddDays | db.py:196-197 | moving by n days gives a valid date with the same time of day |
| Calendar.AddDaysOrdinal | db.py:196-197 | moving by n days moves the ordinal by exactly n |
| Calendar.AddDuration | db.py:196-197 | `+ timedelta(days, hours)` gives a valid date and hour, minutes and seconds kept |
| Calendar.AddMonths | db.py:196 | the month index moves by the given count and the day is clamped to the new month's length, time kept |
| Calendar.AddRelativeDelta | db.py:196-197 | `+ relativedelta` gives a valid datetime, or fails with ValueError or OverflowError |
| Calendar.RelativeDeltaValueError | db.py:196 | ValueError comes exactly from a year-and-month step whose year leaves 1..9999 but fits a C int; beyond a C int `replace` raises OverflowError |
| Calendar.RelativeDeltaSteps | db.py:196-197 | a successful relativedelta is the month step, within years 1..9999, followed by the duration |
| Calendar.NoMonths | db.py:196 | a month step of zero keeps the date |
| Calendar.RelativeDeltaOfDuration | db.py:196-197 | a relativedelta with no years or months is the plain duration |
| Calendar.NoDelta | db.py:207 | a zero relativedelta leaves a datetime unchanged |
| Calendar.MonthEnd | db.py:207 | each month ends where the next month, or the next year, begins |
| Calendar.MonthsInOrder | db.py:207 | a month ends no later than any later month of its year begins |
| Calendar.YearsInOrder | db.py:207 | later years begin on later ordinals |
| Calendar.OrdinalOrder | db.py:207 | a date earlier in the calendar has a smaller ordinal |
| Calendar.EarlierDay | db.py:209 | a datetime on an earlier day has the smaller epoch second |
| Calendar.EpochSeconds | db.py:209 | `dt.timestamp()`: seconds since 1970-01-01 00:00, the time zone read as UTC; `EpochStart`, `AddDurationEpoch` and `EarlierDay` state its properties |
| Calendar.Timestamp | db.py:209 | `int(round(dt.timestamp()))` with half-even rounding; `TimestampShift` and `DurationShift` state how it moves |
| Calendar.EpochStart | db.py:209 | 1970-01-01 00:00 is second 0 |
| Calendar.AddDurationEpoch | db.py:209 | a duration moves the epoch second by exactly its length |
| Calendar.TimestampShift | db.py:209 | whole hours added to the epoch move the rounded timestamp by the same amount |
| Calendar.DurationShift | db.py:209 | a duration moves both the epoch and the rounded timestamp by its length |
| Intervals.Resolve | db.py:184-188 | a wildcard field stands for the current component |
| Intervals.Window | db.py:180-207 | a successful window start is a valid datetime |
| Intervals.GetTimeStamp | db.py:180-210 | `getTimeStamp(now)`: the rounded epoch second of `Window`, or its error; `TimeStampOfWindow`, `RollingDuration`, `PreviousDay` and `HourCarryBack` state its values |
| Intervals.WindowStarts | db.py:278-279 | the per-alert window start function is `getTimeStamp` at one clock reading |
| Intervals.TimeStampOfWindow | db.py:209-210 | the timestamp is the rounded epoch second of the window, and its errors are the window's |
| Intervals.AbsoluteWindow | db.py:199-207 | the absolute-mode window is a valid datetime, or fails with ValueError or OverflowError |
| Intervals.WindowErrors | db.py:184-207 | int() fails exactly when a field is unreadable; otherwise the only errors are ValueError (an invalid date) and OverflowError (a component beyond a C int, or leaving years 1..9999) |
| Intervals.RollingBranch | db.py:189-197 | with some non-wildcard field negative, the window is now plus every field as a signed offset, wildcards as 0, weeks as 7 days |
| Intervals.AbsoluteBranch | db.py:199-207 | otherwise the candidate hour, rejected with OverflowError if a component does not fit a C int and with ValueError if it is invalid, moved back a day / month / year when the hour / day / month field lies ahead of now, each tested once on the field as written |
| Intervals.RollingDuration | db.py:189-210 | with no year or month offset, the rolling window starts exactly 86400·(days + 7·weeks) + 3600·hours seconds from now, or overflows |
| Intervals.StampOfDuration | db.py:209-210 | a window that is now plus a duration starts that many seconds after now |
| Intervals.RollingWindowIsDuration | db.py:191-197 | with no year or month offset, the rolling window is now plus a plain duration |
| Intervals.PreviousDay | db.py:189-197 | `{day: "-1"}` starts exactly 86400 seconds before now |
| Intervals.RollingMonths | db.py:191-197 | with only year and month offsets, the month index moves by 12·years + months, the day is clamped, the time is now's |
| Intervals.CurrentHour | db.py:180-210 | all fields "*": the window is the start of now's hour, at most an hour before now |
| Intervals.HourCarryBack | db.py:199-207 | an hour field later than now's hour gives that hour of yesterday, 86400 seconds before today's |
| Intervals.DayBeyondMonth | db.py:207 | day 31 in a 30-day month is rejected before any correction |
| Intervals.CorrectionsNotAfter | db.py:199-207 | moving a candidate hour of a year no later than now's back once per field ahead of now never leaves it after now |
| Intervals.AbsoluteNotAhead | db.py:199-207 | in absolute mode with a year no later than now's, the window starts no later than now |
| Intervals.YearAhead | db.py:199-207 | the year field is never corrected: naming next year gives a window after now |
| Intervals.DayBeyondCInt | db.py:207 | a day beyond a C int makes `datetime(...)` raise OverflowError, not ValueError |
| Intervals.RollingYearBeyondCInt | db.py:196 | a rolling year that takes the year below a C int makes `replace` raise OverflowError |
| Intervals.IsInt | db.py:246-251 | `isInt`: whether `int()` accepts the field, that is whether `ParseInt` succeeds |
| Intervals.IsFieldLt | db.py:226-244 | `isFieldLt`: "*" before a non-wildcard, a non-negative value before a negative one, and within the negatives or within the positives the smaller first; `FieldOrder` states its order properties |
| Intervals.Less | db.py:212-224 | `__lt__`: some field is `isFieldLt` the same field of the other interval, False against a non-interval; `LessIrreflexive` and `LessNotAsymmetric` state its properties |
| Intervals.FieldOrder | db.py:226-244 | `isFieldLt` is irreflexive, transitive and asymmetric field by field; "*" comes before every other field and after none |
| Intervals.LessIrreflexive | db.py:212-224 | no interval is less than itself or than a non-interval |
| Intervals.LessNotAsymmetric | db.py:212-224 | two intervals exist that are each less than the other |
| Alerts.NewAlert | db.py:261-270 | a new alert carries its definition and the default usage, percent and stamp |
| Alerts.Percent | db.py:283 | percent × cap = usage × 100, and a zero cap raises ZeroDivisionError |
| Alerts.PercentBounds | db.py:283 | 0 ≤ usage ≤ cap, cap > 0 gives a percent in [0, 100], 100 exactly at the cap |
| Alerts.PercentMonotone | db.py:283 | more usage under the same cap never gives a smaller percent |
| Alerts.SetUsage | db.py:281-283 | only usage and percent change; the usage is stored even when a zero cap raises, the percent then kept |
| Alerts.Definition | db.py:285-292 | the definition is the alert with its runtime state at the defaults |
| Alerts.DefinitionEquals | db.py:285-292 | `__eq__`: id, name, cap bytes, interval and filter agree, False against a non-Alert; `DefinitionEqualsIsDefinition` states its properties |
| Alerts.DefinitionEqualsIsDefinition | db.py:285-292 | `==` holds exactly when the definitions agree; it is an equivalence and False against a non-Alert |
| Registry.Values | db.py:94-96 | the list of the dictionary's values for the given keys, in order |
| Registry.RowAlert | db.py:80-85 | a row's alert is built exactly when its interval and filter are loaded, else KeyError |
| Registry.MergeOne | db.py:86-87 | a new id is appended; a known id keeps its entry when its definition is equal, else gets the fresh alert |
| Registry.RowIdsCons | db.py:79-88 | the ids of the rows split at the first row |
| Registry.MergeRows | db.py:79-88 | the `getAlerts` loop over the fetched rows, stopping at the first KeyError; `MergeRowsOutcome`, `MergeRowsKeys`, `MergeRowsWellFormed`, `MergeRowsKeepsEqual` and `MergeRowsLastRow` state its properties |
| Registry.MergeRowsOutcome | db.py:79-88 | merging completes exactly when every row names a loaded interval and filter, else raises KeyError |
| Registry.MergeRowsStopsAt | db.py:79-82 | the first row with a missing interval or filter stops the merge with the rows before it merged |
| Registry.MergeRowsWellFormed | db.py:79-88 | merging keeps the keys unique, in order, and each alert filed under its own id |
| Registry.MergeRowsKeys | db.py:79-88 | no id is removed; after a complete merge the keys are the old ones together with the fetched ids; the old order is a prefix |
| Registry.MergeOneWellFormed | db.py:86-87 | merging one alert keeps the registry well formed |
| Registry.MergeRowsKeepsEqual | db.py:86-87 | an entry whose definition every fetched row repeats keeps its usage, percent and stamp |
| Registry.MergeRowsStateKeptOrReset | db.py:84-87 | every entry either is the entry from before or a new alert with default runtime state |
| Registry.MergeRowsLastRow | db.py:79-88 | after a complete merge each id has the definition of the last row with that id |
| Registry.UsageStep | db.py:110-123 | a usage refresh touches only its own alert and keeps the keys and their order |
| Registry.RefreshFrom | db.py:94-96 | the refresh loop keeps the keys and their order |
| Registry.Refreshed | db.py:117-120 | a refreshed alert holds the summed usage since its window start (NULL as 0) and the matching percent, definition and stamp kept |
| Registry.UsageStepOutcome | db.py:110-123 | a refresh completes exactly when the window is computable and the cap nonzero, storing the refreshed alert and returning its usage; otherwise it raises that error |
| Registry.RefreshOutcome | db.py:94-95 | the loop completes exactly when every alert is refreshable, else raises the error of one that is not |
| Registry.RefreshKeepsDefinitions | db.py:94-95 | refreshing changes no definition and no notification stamp |
| Registry.RefreshWellFormed | db.py:94-95 | refreshing keeps the registry well formed |
| Registry.RefreshValues | db.py:94-95 | when all are refreshable, each listed alert ends up refreshed |
| Registry.RefreshUntouched | db.py:94-95 | an unlisted alert keeps its entry |
| Registry.ByPercentDescending | db.py:107 | the spec `[('percent', True)]`: one key, the percent, reversed |
| Registry.HighestIndex | db.py:107-108 | a position with the largest percent, every earlier one strictly smaller |
| Registry.HighestIndexUnique | db.py:107-108 | that position is the only one with both properties |
| Registry.SortedByPercentHead | db.py:106-108 | the head of the stable descending sort by percent is the alert at the highest index |
| Registry.HighestAlert | db.py:107-108 | the top alert is an entry of the registry |
| Registry.HighestAlertIsHighest | db.py:106-108 | no alert has a larger percent than the top one, and every alert before it in key order has a smaller one |
| Registry.Highest | db.py:106-108 | `(alerts[0], its percent, its usage)`, IndexError exactly on an empty registry |
| Registry.Stamped | bitmeter.py:149 | `alert.lastNotified = ts` on the registry entry of the top alert; `StampedOnlyStamp` states what changes |
| Registry.StampedOnlyStamp | bitmeter.py:149 | setting a stamp keeps the registry well formed and changes only that alert's `lastNotified` |
| Registry.ValuesAgree | db.py:94-96 | registries that agree on the keys list the same values |
| Registry.ValuesSnoc | db.py:94-96 | appending a key appends its value |
| Registry.RefreshTurn | db.py:94-96 | one loop turn: the refresh of the remaining keys is this key's usage step followed by the rest, and the refreshed list grows by this entry |
| Registry.Database.constructor | db.py:23-25 | the alert, interval and filter tables start empty |
| Registry.Database.GetAlerts | db.py:68-88 | the tables end up as loaded, and the dictionary and outcome are `MergeRows` of the old dictionary and the rows |
| Registry.Database.GetAlertUsage | db.py:110-123 | the dictionary and result are the usage step of that alert at now's window starts |
| Registry.Database.GetSortedAlerts | db.py:90-98 | the dictionary is the refreshed one; on an exception the error is the refresh's; otherwise the result is a permutation of the refreshed alerts in key order, sorted by the specs, equal keys in key order |
| Registry.Database.GetHighestAlertPercent | db.py:106-108 | the dictionary is the refreshed one and the result is the refresh's error or `Highest` of it |
| Registry.Database.SetLastNotified | bitmeter.py:149 | the registry becomes `Stamped` of the old one |
| Sorting.Ties | db.py:100-104 | the elements tying with e are a subsequence of the input |
| Sorting.AllTieSingle | db.py:100-104 | tying under a one-spec list is tying under that spec |
| Sorting.TiesSingleton | db.py:100-104 | the ties in a one-element list |
| Sorting.Insert | db.py:103 | inserting adds one element |
| Sorting.SortBy | db.py:103 | sorting keeps the length |
| Sorting.InsertPermutes | db.py:103 | inserting adds exactly that element |
| Sorting.SortByPermutes | db.py:103 | the sort is a permutation |
| Sorting.InsertSorted | db.py:103 | inserting into a sorted list keeps it sorted |
| Sorting.SortBySorted | db.py:103 | the sort is sorted by its key and direction |
| Sorting.TiesCons | db.py:100-104 | the ties of a list split at its head |
| Sorting.TiesConcat | db.py:100-104 | the ties of a concatenation are the concatenated ties |
| Sorting.NoTiesAfter | db.py:103 | everything strictly after x under one spec leaves no ties with x there |
| Sorting.InsertTies | db.py:103 | inserting places x after its ties |
| Sorting.SortByTies | db.py:103 | the sort is stable: each class of equal keys keeps its order |
| Sorting.AllTieCons | db.py:100-104 | tying under all specs is tying under the head and then under the tail |
| Sorting.TiesHeadOfTail | db.py:100-104 | the ties under the tail, then the head, are the ties under all specs |
| Sorting.TiesTailOfHead | db.py:100-104 | the ties under the head, then the tail, are the ties under all specs |
| Sorting.TiesWithin | db.py:100-104 | every tie is an element of the input |
| Sorting.TiesSorted | db.py:100-104 | the ties of a sorted list are sorted |
| Sorting.TiesContains | db.py:100-104 | an element tying with e appears among the ties |
| Sorting.TiesPositions | db.py:100-104 | two ties in input order appear in that order among the ties |
| Sorting.StableStep | db.py:102-103 | one stable sort by a spec, over a list stably sorted by the later specs, is stably sorted by the spec followed by them |
| Sorting.StableStepSorted | db.py:102-103 | that step gives a list sorted lexicographically |
| Sorting.StableStepTies | db.py:102-103 | that step keeps the order of full ties |
| Sorting.Multisort | db.py:100-104 | the result is a permutation of the input, sorted lexicographically by the specs, with full ties in input order |
| Sorting.AllTieReflexive | db.py:100-104 | everything ties with itself |
| Sorting.LexLeReflexive | db.py:100-104 | everything comes no later than itself |
| Sorting.TiesFirst | db.py:100-104 | the first tie is the first input element tying with e |
| Sorting.SortedHead | db.py:100-104 | the head of a multisorted list comes no later than any element, and is the first input element among its ties |
| BitMeter.IconLevel | bitmeter.py:154 | `int(round(percent, -1))`; `IconLevelNearest` states that it is the nearest multiple of 10 |
| BitMeter.IconDigits | bitmeter.py:154 | the level zero-padded to three digits; `IconDigitsValue` states that it reads back as the level |
| BitMeter.IconPrefix | bitmeter.py:155-156 | `icons<sep><theme><sep>status-` |
| BitMeter.IconFromPercent | bitmeter.py:152-157 | `getIconFromPercent`: prefix, padded level and ".ico"; `IconNameReadsBack` and `IconExamples` state its shape and values |
| BitMeter.IconLevelNearest | bitmeter.py:154 | `round(percent, -1)` is a multiple of 10 within 5 of the percentage; a tie goes to a multiple of 20; for 0 ≤ percent ≤ 100 it is in [0, 100] |
| BitMeter.IconNameReadsBack | bitmeter.py:152-157 | the name is `icons<sep><theme><sep>status-` + digits + `.ico`, whose digits read back as the rounded level, at least 3 of them and exactly 3 up to 100 percent |
| BitMeter.Pieces | bitmeter.py:156 | the three parts of a concatenated name cut back out |
| BitMeter.IconDigitsValue | bitmeter.py:154 | the zero-padded level is a digit string of value the level, at least three long |
| BitMeter.IconExamples | bitmeter.py:154 | 0 → 000, 5 → 000, 15 → 020, 45 → 040, 55 → 060, 100 → 100 |
| BitMeter.YesterdayIsPrevDay | bitmeter.py:144 | now minus a day is the previous calendar day at the same time |
| BitMeter.CooldownLimit | bitmeter.py:144-145 | `int((datetime.now() - timedelta(days=1)).timestamp())`, OverflowError before year 1; `CooldownLimitValue` and `CooldownIsADay` state its value |
| BitMeter.ShouldNotify | bitmeter.py:146 | at or over the threshold and stamped strictly before the cooldown limit; `ShownWarns` and `TickCooldown` state when it holds |
| BitMeter.CooldownLimitValue | bitmeter.py:144-145 | the cooldown limit is the truncated epoch second a day before the reading, and only the first day of year 1 overflows |
| BitMeter.FirstDayBeforeEpoch | bitmeter.py:144 | that overflowing day lies before the epoch |
| BitMeter.CooldownIsADay | bitmeter.py:144-146 | past the first day after the epoch, a stamp is past its cooldown exactly when a day and a second have gone by |
| BitMeter.Label | bitmeter.py:142 | the tray label: the percent right-aligned to 3, "%   ", the usage text right-aligned to 10, "  - " and the name; `LabelEndsWithName` states its layout |
| BitMeter.LabelEndsWithName | bitmeter.py:142 | the label ends with "  - " and the alert's name, after at least 17 columns of percent and usage |
| BitMeter.Loaded | bitmeter.py:139-140 | the registry work of a tick keeps the registry well formed |
| BitMeter.LoadedKeepsStamp | bitmeter.py:139-140 | an alert whose definition the rows repeat keeps its notification stamp through a tick's registry work |
| BitMeter.Shown | bitmeter.py:141-150 | the displayed icon and label are those of the top alert; the registry changes only by stamping the top alert, and only when it warns |
| BitMeter.Tick | bitmeter.py:137-150 | the registry stays well formed; a completed tick has a top alert and a display; the top alert is in the registry |
| BitMeter.ShownWarns | bitmeter.py:144-150 | a warning is shown exactly when the top alert is at or over the threshold and a day and a second have passed since its stamp; it carries the label; the tick fails exactly when a warning's stamp is not positive |
| BitMeter.TickCooldown | bitmeter.py:137-150 | an alert stamped less than a day and a second before the check reading is not warned about again |
| BitMeter.TaskBarIcon.constructor | bitmeter.py:31-36 | the icon starts as the application icon and title, shown once |
| BitMeter.TaskBarIcon.SetIcon | bitmeter.py:38-42 | the cache takes the new pair; wx is given it only when the icon or the label differs, so a repeated call changes nothing |
| BitMeter.App.constructor | bitmeter.py:105-118 | the application as started at bitmeter.py:179-182: the taskbar icon as constructed, no warnings, and the empty registry that `Database()` creates (db.py:23-25) |
| BitMeter.App.ShowHighest | bitmeter.py:143-150 | the taskbar shows the pair; an overflowing cooldown limit raises; otherwise a warning and a stamp happen exactly when the alert is at the threshold and past its cooldown, and a stamp that is not positive fails the assert |
| BitMeter.App.OnTimerTick | bitmeter.py:137-150 | the registry, the outcome, the warnings and the taskbar end up as `Tick` of the old registry says |

## Left out

- Database connection and loaders: `Database.__init__`'s connection,
  `getDbPath`, `getAlertIntervals` and `getFilters` are left out because
  they are SQLite and environment I/O. Their results are the
  `loadedIntervals` and `loadedFilters` parameters. That `getFilters`
  returns the interval table does not affect `getAlerts`.
- SQL in `getAlertUsage` (db.py:114-119): left out as I/O. The summed usage
  query is the `sumUsage` parameter. Its `SUM` yields a single row; more
  rows would each call `setUsage` in turn, ending with the last.
- `Bandwidth.fromString` (db.py:147-151): left out because it cannot work
  as written. Its character class `[0-0,.]` accepts only `0`, `,` and `.`,
  never the digits 1-9, and it multiplies a string by an integer.
- Float text: the `.2f`, `.0f` and width formatting of `toString` and the
  labels are left out. `Label` takes the float rendering as the `fixed`
  parameter. `Display` gives the unit and the scaled value.
- Floating point: percentages and epoch seconds are exact reals.
  Float rounding of `usage / amount * 100` and of `timestamp()` is left out.
- Time zone: `timestamp()` of a naive datetime uses the local time zone and
  DST. The model takes naive datetimes as UTC.
- Alert identity: `Alert` objects are mutable and shared between the
  dictionary and the caller. The model stores alerts as values in the
  registry map and updates an entry by id. The source relies on two aliases.
  `getSortedAlerts` appends the very object that `getAlertUsage` refreshed
  through `self.alerts[alertId]` (db.py:94-96, 121-122); `RefreshFrom` and
  `Values` model this by reading the refreshed entries back from the map.
  `onTimerTick` stamps the alert it got back; this is modelled as stamping
  the registry entry with that id.
- `int()` details: leading or trailing whitespace and digit-group
  underscores are not accepted by `ParseInt`. Only ASCII digits are.
- Sorting by interval: the `('interval', False)` sort key of the tray menu
  is left out. `AlertInterval.__lt__` is not a strict order
  (`Intervals.LessNotAsymmetric`), so Python's sort result under it is not
  determined by the keys alone. The menu's `('amount', False)` key
  (bitmeter.py:49) goes with it. The remaining key is the percentage.
- Proof split of `onTimerTick`: its last part (bitmeter.py:143-150) is the
  method `App.ShowHighest`, which `App.OnTimerTick` calls. Icon and label
  strings are computed once and passed in.
- Alerts.NewAlert: the source's default usage is the int 0 (db.py:268),
  the model's is `Bandwidth(0)`. No reader can tell them apart, because
  every path that reads `usage` first goes through `getSortedAlerts`, whose
  `getAlertUsage` calls `setUsage` with the summed row.
- BitMeter.CooldownIsADay: stated only for clock readings at least a day
  after the epoch. Before that, truncation toward zero of a negative epoch
  second breaks the "a day and a second" reading. `CooldownLimitValue`
  covers every reading.
- BitMeter.TickCooldown: stated for an alert whose definition the fetched
  rows repeat. An alert whose row changes is replaced with stamp 0 by
  `getAlerts`, and may be warned about again at once.
- UI and OS glue: `CreatePopupMenu`, the menu items, `onHostClick`,
  `openUrl`, `notify`'s toast set-up, `isOnlyInstance`, the wx timer and
  `onExit` are left out as wx and OS calls. A warning is recorded as a
  (title, message) entry of `App.notifications`, and the taskbar's wx calls
  as the `TaskBarIcon.shown` log.
- bmclient.py and config.py are not part of this model. `Config` holds only
  the threshold, the taskbar theme and the path separator.
