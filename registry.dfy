/**
 * The in-memory alert registry of `Database`: the `alerts` dictionary keyed
 * by alert id, merged with freshly fetched alert rows (`getAlerts`), refreshed
 * with the usage summed since each alert's window start (`getAlertUsage`,
 * `getSortedAlerts`) and queried for the alert nearest to its cap
 * (`getHighestAlertPercent`). The SQL queries are inputs: the fetched rows,
 * the interval and filter tables, and the summed traffic of a filter since a
 * timestamp.
 */
module Registry {
  import opened Wrappers
  import opened Bandwidths
  import opened Calendar
  import opened Intervals
  import opened Alerts
  import opened Sorting

  /** One active alert row as the query returns it: id, name, interval id, filter id and cap (NULL as None). */
  datatype AlertRow = AlertRow(id: int, name: string, interval: int, filter: int, amount: Option<int>)

  /**
   * The contents of the `alerts` dictionary: the map, and its keys in
   * insertion order (the order `alerts.items()` yields them).
   */
  datatype Store = Store(order: seq<int>, alerts: map<int, Alert>)

  /** Each key once in the order, the order listing exactly the keys, and every alert filed under its own id. */
  predicate WellFormed(st: Store) {
    && (forall i, j :: 0 <= i < j < |st.order| ==> st.order[i] != st.order[j])
    && (forall k :: k in st.alerts ==> k in st.order)
    && (forall i :: 0 <= i < |st.order| ==> st.order[i] in st.alerts)
    && (forall k :: k in st.alerts ==> st.alerts[k].id == k)
  }

  /** The dictionary's values for the given keys, in that order. */
  function Values(st: Store, ids: seq<int>): (xs: seq<Alert>)
    requires forall i :: 0 <= i < |ids| ==> ids[i] in st.alerts
    ensures |xs| == |ids|
    ensures forall i :: 0 <= i < |ids| ==> xs[i] == st.alerts[ids[i]]
  {
    if ids == [] then [] else [st.alerts[ids[0]]] + Values(st, ids[1..])
  }

  // ---------------------------------------------------------------------
  // getAlerts: merging fetched rows

  /**
   * The alert a row describes: its interval and filter looked up by id (a
   * KeyError when absent, the interval first), the amount read as a Bandwidth.
   */
  function RowAlert(row: AlertRow, intervals: map<int, AlertInterval>, filters: map<int, Filter>): (r: Result<Alert>)
    ensures r.Ok? <==> row.interval in intervals && row.filter in filters
    ensures r.Err? ==> r.error == MissingKey
    ensures r.Ok? ==> r.value == NewAlert(row.id, row.name, intervals[row.interval], filters[row.filter], FromCount(row.amount))
  {
    if row.interval !in intervals then Err(MissingKey)
    else if row.filter !in filters then Err(MissingKey)
    else Ok(NewAlert(row.id, row.name, intervals[row.interval], filters[row.filter], FromCount(row.amount)))
  }

  /**
   * One fetched alert merged into the dictionary by id:
   * a new id is appended; a known id keeps its entry, runtime state included,
   * when the definitions are equal, and gets the fresh alert otherwise.
   */
  function MergeOne(st: Store, a: Alert): (r: Store)
    ensures r.alerts.Keys == st.alerts.Keys + {a.id}
    ensures r.order == if a.id in st.alerts then st.order else st.order + [a.id]
    ensures DefinitionEquals(r.alerts[a.id], Same(a))
    ensures r.alerts[a.id] == if a.id in st.alerts && DefinitionEquals(st.alerts[a.id], Same(a)) then st.alerts[a.id] else a
    ensures forall k :: k in st.alerts && k != a.id ==> r.alerts[k] == st.alerts[k]
  {
    if a.id !in st.alerts then Store(st.order + [a.id], st.alerts[a.id := a])
    else if !DefinitionEquals(st.alerts[a.id], Same(a)) then Store(st.order, st.alerts[a.id := a])
    else st
  }

  /** The loop of `getAlerts` over the fetched rows; a KeyError stops it with the rows before merged. */
  function MergeRows(st: Store, rows: seq<AlertRow>, intervals: map<int, AlertInterval>, filters: map<int, Filter>): (r: (Store, Outcome))
    decreases |rows|
  {
    if rows == [] then (st, Pass)
    else
      match RowAlert(rows[0], intervals, filters)
      case Err(e) => (st, Fail(e))
      case Ok(a) => MergeRows(MergeOne(st, a), rows[1..], intervals, filters)
  }

  /** The ids of the rows. */
  function RowIds(rows: seq<AlertRow>): set<int> {
    set i | 0 <= i < |rows| :: rows[i].id
  }

  lemma RowIdsCons(rows: seq<AlertRow>)
    requires rows != []
    ensures RowIds(rows) == {rows[0].id} + RowIds(rows[1..])
  {
    forall k | k in RowIds(rows)
      ensures k in {rows[0].id} + RowIds(rows[1..])
    {
      var i :| 0 <= i < |rows| && rows[i].id == k;
      if i > 0 {
        assert rows[1..][i - 1].id == k;
      }
    }
    forall k | k in RowIds(rows[1..])
      ensures k in RowIds(rows)
    {
      var i :| 0 <= i < |rows[1..]| && rows[1..][i].id == k;
      assert rows[i + 1].id == k;
    }
  }

  /** The merge completes exactly when every row names a loaded interval and a loaded filter. */
  lemma {:induction false} MergeRowsOutcome(st: Store, rows: seq<AlertRow>, intervals: map<int, AlertInterval>, filters: map<int, Filter>)
    ensures var r := MergeRows(st, rows, intervals, filters);
      && (r.1.Pass? <==> forall i :: 0 <= i < |rows| ==> RowAlert(rows[i], intervals, filters).Ok?)
      && (r.1.Fail? ==> r.1.error == MissingKey)
    decreases |rows|
  {
    if rows != [] {
      match RowAlert(rows[0], intervals, filters)
      case Err(e) =>
      case Ok(a) =>
        MergeRowsOutcome(MergeOne(st, a), rows[1..], intervals, filters);
        forall i | 0 < i < |rows|
          ensures rows[i] == rows[1..][i - 1]
        {
        }
    }
  }

  /**
   * A row naming an interval or filter that is not loaded stops the merge
   * with a KeyError, the rows before it merged and the rows after it not.
   */
  lemma {:induction false} MergeRowsStopsAt(st: Store, rows: seq<AlertRow>, intervals: map<int, AlertInterval>, filters: map<int, Filter>, k: int)
    requires 0 <= k < |rows| && RowAlert(rows[k], intervals, filters).Err?
    requires forall i :: 0 <= i < k ==> RowAlert(rows[i], intervals, filters).Ok?
    ensures MergeRows(st, rows, intervals, filters) == (MergeRows(st, rows[..k], intervals, filters).0, Fail(MissingKey))
    decreases k
  {
    if k == 0 {
      assert rows[..0] == [];
    } else {
      var a := RowAlert(rows[0], intervals, filters).value;
      var rest := rows[1..];
      forall i | 0 <= i < k - 1
        ensures RowAlert(rest[i], intervals, filters).Ok?
      {
        assert rest[i] == rows[i + 1];
      }
      MergeRowsStopsAt(MergeOne(st, a), rest, intervals, filters, k - 1);
      assert rows[..k][0] == rows[0] && rows[..k][1..] == rest[..k - 1];
    }
  }

  /** Merging keeps the registry well formed. */
  lemma {:induction false} MergeRowsWellFormed(st: Store, rows: seq<AlertRow>, intervals: map<int, AlertInterval>, filters: map<int, Filter>)
    requires WellFormed(st)
    ensures WellFormed(MergeRows(st, rows, intervals, filters).0)
    decreases |rows|
  {
    if rows != [] {
      match RowAlert(rows[0], intervals, filters)
      case Err(e) =>
      case Ok(a) =>
        MergeOneWellFormed(st, a);
        MergeRowsWellFormed(MergeOne(st, a), rows[1..], intervals, filters);
    }
  }

  /**
   * Merging never removes an id and adds only fetched ones; after a complete
   * merge the keys are the old keys together with every fetched id. The old
   * order is kept as a prefix.
   */
  lemma {:induction false} MergeRowsKeys(st: Store, rows: seq<AlertRow>, intervals: map<int, AlertInterval>, filters: map<int, Filter>)
    ensures var r := MergeRows(st, rows, intervals, filters);
      && st.alerts.Keys <= r.0.alerts.Keys <= st.alerts.Keys + RowIds(rows)
      && (r.1.Pass? ==> r.0.alerts.Keys == st.alerts.Keys + RowIds(rows))
      && |st.order| <= |r.0.order| && r.0.order[..|st.order|] == st.order
    decreases |rows|
  {
    if rows != [] {
      RowIdsCons(rows);
      match RowAlert(rows[0], intervals, filters)
      case Err(e) =>
      case Ok(a) =>
        var next := MergeOne(st, a);
        MergeRowsKeys(next, rows[1..], intervals, filters);
        var r := MergeRows(next, rows[1..], intervals, filters);
        assert r.0.order[..|st.order|] == r.0.order[..|next.order|][..|st.order|];
    }
  }

  lemma MergeOneWellFormed(st: Store, a: Alert)
    requires WellFormed(st)
    ensures WellFormed(MergeOne(st, a))
  {
    var r := MergeOne(st, a);
    if a.id !in st.alerts {
      assert r.order == st.order + [a.id];
      forall i | 0 <= i < |r.order|
        ensures r.order[i] in r.alerts
      {
        if i < |st.order| {
          assert r.order[i] == st.order[i];
        }
      }
      forall k | k in r.alerts
        ensures k in r.order
      {
        if k != a.id {
          assert k in st.order;
        }
      }
    }
  }

  /**
   * An entry whose definition equals that of every fetched row with its id
   * is left as it was, usage, percentage and notification stamp included;
   * in particular an id no row mentions is untouched.
   */
  lemma {:induction false} MergeRowsKeepsEqual(st: Store, rows: seq<AlertRow>, intervals: map<int, AlertInterval>, filters: map<int, Filter>, k: int)
    requires k in st.alerts
    requires forall i :: 0 <= i < |rows| && rows[i].id == k && RowAlert(rows[i], intervals, filters).Ok? ==>
      DefinitionEquals(st.alerts[k], Same(RowAlert(rows[i], intervals, filters).value))
    ensures k in MergeRows(st, rows, intervals, filters).0.alerts
      && MergeRows(st, rows, intervals, filters).0.alerts[k] == st.alerts[k]
    decreases |rows|
  {
    if rows != [] {
      match RowAlert(rows[0], intervals, filters)
      case Err(e) =>
      case Ok(a) =>
        var next := MergeOne(st, a);
        assert next.alerts[k] == st.alerts[k];
        forall i | 0 <= i < |rows[1..]| && rows[1..][i].id == k && RowAlert(rows[1..][i], intervals, filters).Ok?
          ensures DefinitionEquals(next.alerts[k], Same(RowAlert(rows[1..][i], intervals, filters).value))
        {
          assert rows[1..][i] == rows[i + 1];
        }
        MergeRowsKeepsEqual(next, rows[1..], intervals, filters, k);
    }
  }

  /**
   * Every entry after the merge either is the entry from before (state kept)
   * or a newly built alert whose usage, percentage and stamp are the defaults.
   */
  lemma {:induction false} MergeRowsStateKeptOrReset(st: Store, rows: seq<AlertRow>, intervals: map<int, AlertInterval>, filters: map<int, Filter>)
    ensures var r := MergeRows(st, rows, intervals, filters).0;
      forall k :: k in r.alerts ==>
        || (k in st.alerts && r.alerts[k] == st.alerts[k])
        || (r.alerts[k].usage == Bandwidth(0) && r.alerts[k].percent == 0.0 && r.alerts[k].lastNotified == 0)
    decreases |rows|
  {
    if rows != [] {
      match RowAlert(rows[0], intervals, filters)
      case Err(e) =>
      case Ok(a) =>
        MergeRowsStateKeptOrReset(MergeOne(st, a), rows[1..], intervals, filters);
    }
  }

  /**
   * After a complete merge, the entry of each fetched id has the definition
   * of the last row with that id.
   */
  lemma {:induction false} MergeRowsLastRow(st: Store, rows: seq<AlertRow>, intervals: map<int, AlertInterval>, filters: map<int, Filter>, i: int)
    requires 0 <= i < |rows| && forall j :: i < j < |rows| ==> rows[j].id != rows[i].id
    requires MergeRows(st, rows, intervals, filters).1.Pass?
    ensures RowAlert(rows[i], intervals, filters).Ok?
    ensures var r := MergeRows(st, rows, intervals, filters).0;
      rows[i].id in r.alerts
      && Definition(r.alerts[rows[i].id]) == Definition(RowAlert(rows[i], intervals, filters).value)
    decreases |rows|
  {
    MergeRowsOutcome(st, rows, intervals, filters);
    var a := RowAlert(rows[0], intervals, filters).value;
    var next := MergeOne(st, a);
    if i > 0 {
      forall j | i - 1 < j < |rows[1..]|
        ensures rows[1..][j].id != rows[1..][i - 1].id
      {
        assert rows[1..][j] == rows[j + 1];
      }
      MergeRowsLastRow(next, rows[1..], intervals, filters, i - 1);
    } else {
      var b := next.alerts[a.id];
      DefinitionEqualsIsDefinition(b, a, a);
      forall j | 0 <= j < |rows[1..]|
        ensures rows[1..][j].id != a.id
      {
        assert rows[1..][j] == rows[j + 1];
      }
      MergeRowsKeepsEqual(next, rows[1..], intervals, filters, a.id);
    }
  }

  // ---------------------------------------------------------------------
  // getAlertUsage and getSortedAlerts: refreshing the usage
  //
  // `windowStart` is `getTimeStamp(now)` for the clock reading of the call
  // (`Intervals.WindowStarts(now)`), and `sumUsage(filter, ts)` is the
  // `SUM(vl)` of the filter's traffic from `ts` on (NULL when there is none).

  /**
   * `getAlertUsage(id, now)`: the window start of the alert's interval, the
   * bytes its filter counted since then (NULL read as 0) stored through
   * `setUsage`. A failing `getTimeStamp` leaves the entry alone; a zero cap
   * raises after the usage is stored.
   */
  function UsageStep(st: Store, id: int, windowStart: AlertInterval -> Result<int>, sumUsage: (int, int) -> Option<int>): (r: (Store, Result<Bandwidth>))
    requires id in st.alerts
    ensures r.0.order == st.order && r.0.alerts.Keys == st.alerts.Keys
    ensures forall k :: k in st.alerts && k != id ==> r.0.alerts[k] == st.alerts[k]
  {
    var a := st.alerts[id];
    match windowStart(a.interval)
    case Err(e) => (st, Err(e))
    case Ok(ts) =>
      var step := SetUsage(a, FromCount(sumUsage(a.filter.id, ts)));
      var next := st.(alerts := st.alerts[id := step.0]);
      if step.1.Fail? then (next, Err(step.1.error)) else (next, Ok(step.0.usage))
  }

  /** The loop of `getSortedAlerts` over the keys: one `getAlertUsage` per alert, stopping at the first exception. */
  function RefreshFrom(st: Store, ids: seq<int>, windowStart: AlertInterval -> Result<int>, sumUsage: (int, int) -> Option<int>): (r: (Store, Outcome))
    requires forall i :: 0 <= i < |ids| ==> ids[i] in st.alerts
    ensures r.0.order == st.order && r.0.alerts.Keys == st.alerts.Keys
    decreases |ids|
  {
    if ids == [] then (st, Pass)
    else
      var step := UsageStep(st, ids[0], windowStart, sumUsage);
      if step.1.Err? then (step.0, Fail(step.1.error))
      else RefreshFrom(step.0, ids[1..], windowStart, sumUsage)
  }

  /** What `getAlertUsage` needs of an alert to complete: a window start it can compute and a nonzero cap. */
  predicate Refreshable(a: Alert, windowStart: AlertInterval -> Result<int>) {
    windowStart(a.interval).Ok? && a.amount.bytes != 0
  }

  /** The exception `getAlertUsage` raises for an alert that is not refreshable: the window's, else ZeroDivisionError. */
  function RefreshError(a: Alert, windowStart: AlertInterval -> Result<int>): Error {
    if windowStart(a.interval).Err? then windowStart(a.interval).error else ZeroDivision
  }

  /** The alert after a completed `getAlertUsage`. */
  function Refreshed(a: Alert, windowStart: AlertInterval -> Result<int>, sumUsage: (int, int) -> Option<int>): (b: Alert)
    requires Refreshable(a, windowStart)
    ensures b == a.(usage := b.usage, percent := b.percent)
    ensures b.usage == FromCount(sumUsage(a.filter.id, windowStart(a.interval).value))
    ensures b.percent * a.amount.bytes as real == b.usage.bytes as real * 100.0
  {
    SetUsage(a, FromCount(sumUsage(a.filter.id, windowStart(a.interval).value))).0
  }

  /**
   * One usage refresh completes exactly when the alert is refreshable, and
   * then stores the refreshed alert; otherwise it raises the window's error
   * or ZeroDivisionError. The definition and the stamp are never touched.
   */
  lemma UsageStepOutcome(st: Store, id: int, windowStart: AlertInterval -> Result<int>, sumUsage: (int, int) -> Option<int>)
    requires id in st.alerts
    ensures var r := UsageStep(st, id, windowStart, sumUsage);
      && (r.1.Ok? <==> Refreshable(st.alerts[id], windowStart))
      && (r.1.Ok? ==> r.0.alerts[id] == Refreshed(st.alerts[id], windowStart, sumUsage) && r.1.value == r.0.alerts[id].usage)
      && (r.1.Err? ==> r.1.error == RefreshError(st.alerts[id], windowStart))
      && Definition(r.0.alerts[id]) == Definition(st.alerts[id])
      && r.0.alerts[id].lastNotified == st.alerts[id].lastNotified
  {
  }

  /**
   * Refreshing completes exactly when every alert is refreshable, and
   * otherwise raises the exception of a listed alert that is not.
   */
  lemma {:induction false} RefreshOutcome(st: Store, ids: seq<int>, windowStart: AlertInterval -> Result<int>, sumUsage: (int, int) -> Option<int>)
    requires forall i :: 0 <= i < |ids| ==> ids[i] in st.alerts
    requires forall i, j :: 0 <= i < j < |ids| ==> ids[i] != ids[j]
    ensures var r := RefreshFrom(st, ids, windowStart, sumUsage);
      && (r.1.Pass? <==> forall i :: 0 <= i < |ids| ==> Refreshable(st.alerts[ids[i]], windowStart))
      && (r.1.Fail? ==> exists i :: 0 <= i < |ids| && r.1.error == RefreshError(st.alerts[ids[i]], windowStart))
    decreases |ids|
  {
    if ids != [] {
      var id := ids[0];
      UsageStepOutcome(st, id, windowStart, sumUsage);
      var step := UsageStep(st, id, windowStart, sumUsage);
      if step.1.Ok? {
        var rest := ids[1..];
        forall i | 0 < i < |ids|
          ensures ids[i] == rest[i - 1] && st.alerts[ids[i]] == step.0.alerts[ids[i]]
        {
        }
        RefreshOutcome(step.0, rest, windowStart, sumUsage);
        var r := RefreshFrom(step.0, rest, windowStart, sumUsage);
        if r.1.Fail? {
          var i :| 0 <= i < |rest| && r.1.error == RefreshError(step.0.alerts[rest[i]], windowStart);
          assert r.1.error == RefreshError(st.alerts[ids[i + 1]], windowStart);
        }
      }
    }
  }

  /** Refreshing changes only usage and percentage: definitions and notification stamps stay. */
  lemma {:induction false} RefreshKeepsDefinitions(st: Store, ids: seq<int>, windowStart: AlertInterval -> Result<int>, sumUsage: (int, int) -> Option<int>)
    requires forall i :: 0 <= i < |ids| ==> ids[i] in st.alerts
    ensures var r := RefreshFrom(st, ids, windowStart, sumUsage).0;
      forall k :: k in st.alerts ==>
        Definition(r.alerts[k]) == Definition(st.alerts[k]) && r.alerts[k].lastNotified == st.alerts[k].lastNotified
    decreases |ids|
  {
    if ids != [] {
      UsageStepOutcome(st, ids[0], windowStart, sumUsage);
      var step := UsageStep(st, ids[0], windowStart, sumUsage);
      if step.1.Ok? {
        RefreshKeepsDefinitions(step.0, ids[1..], windowStart, sumUsage);
      }
    }
  }

  /** Refreshing keeps the registry well formed. */
  lemma RefreshWellFormed(st: Store, ids: seq<int>, windowStart: AlertInterval -> Result<int>, sumUsage: (int, int) -> Option<int>)
    requires WellFormed(st) && forall i :: 0 <= i < |ids| ==> ids[i] in st.alerts
    ensures WellFormed(RefreshFrom(st, ids, windowStart, sumUsage).0)
  {
    RefreshKeepsDefinitions(st, ids, windowStart, sumUsage);
    var r := RefreshFrom(st, ids, windowStart, sumUsage).0;
    forall k | k in r.alerts
      ensures r.alerts[k].id == k
    {
      assert Definition(r.alerts[k]).id == Definition(st.alerts[k]).id;
    }
  }

  /** When every listed alert is refreshable, each ends up holding its refreshed usage and percentage. */
  lemma {:induction false} RefreshValues(st: Store, ids: seq<int>, windowStart: AlertInterval -> Result<int>, sumUsage: (int, int) -> Option<int>)
    requires forall i :: 0 <= i < |ids| ==> ids[i] in st.alerts
    requires forall i, j :: 0 <= i < j < |ids| ==> ids[i] != ids[j]
    requires forall i :: 0 <= i < |ids| ==> Refreshable(st.alerts[ids[i]], windowStart)
    ensures var r := RefreshFrom(st, ids, windowStart, sumUsage).0;
      forall i :: 0 <= i < |ids| ==> r.alerts[ids[i]] == Refreshed(st.alerts[ids[i]], windowStart, sumUsage)
    decreases |ids|
  {
    if ids != [] {
      var id := ids[0];
      UsageStepOutcome(st, id, windowStart, sumUsage);
      var step := UsageStep(st, id, windowStart, sumUsage);
      var rest := ids[1..];
      forall i | 0 < i < |ids|
        ensures ids[i] == rest[i - 1] && ids[i] != id && st.alerts[ids[i]] == step.0.alerts[ids[i]]
      {
      }
      RefreshValues(step.0, rest, windowStart, sumUsage);
      RefreshUntouched(step.0, rest, windowStart, sumUsage, id);
    }
  }

  /** An id the refresh does not list keeps its entry. */
  lemma {:induction false} RefreshUntouched(st: Store, ids: seq<int>, windowStart: AlertInterval -> Result<int>, sumUsage: (int, int) -> Option<int>, k: int)
    requires forall i :: 0 <= i < |ids| ==> ids[i] in st.alerts
    requires k in st.alerts && k !in ids
    ensures RefreshFrom(st, ids, windowStart, sumUsage).0.alerts[k] == st.alerts[k]
    decreases |ids|
  {
    if ids != [] {
      var step := UsageStep(st, ids[0], windowStart, sumUsage);
      if step.1.Ok? {
        RefreshUntouched(step.0, ids[1..], windowStart, sumUsage, k);
      }
    }
  }

  // ---------------------------------------------------------------------
  // getHighestAlertPercent: the top alert

  /** The spec `getHighestAlertPercent` sorts by: `[('percent', True)]`, the key being `attrgetter('percent')`. */
  function ByPercentDescending(): (specs: seq<SortSpec<Alert>>)
    ensures |specs| == 1 && specs[0].reverse
    ensures forall a :: specs[0].key(a) == a.percent
  {
    [SortSpec((a: Alert) => a.percent, true)]
  }

  /**
   * The position of the alert nearest to its cap: no alert has a larger
   * percentage, and every alert before it has a smaller one.
   */
  function HighestIndex(xs: seq<Alert>): (i: nat)
    requires xs != []
    ensures i < |xs|
    ensures forall j :: 0 <= j < |xs| ==> xs[j].percent <= xs[i].percent
    ensures forall j :: 0 <= j < i ==> xs[j].percent < xs[i].percent
  {
    if |xs| == 1 then 0
    else
      var j := HighestIndex(xs[1..]);
      if xs[0].percent >= xs[1..][j].percent then 0 else 1 + j
  }

  /** Any position with a maximal percentage and only smaller ones before it is the highest index. */
  lemma HighestIndexUnique(xs: seq<Alert>, i: int)
    requires 0 <= i < |xs|
    requires forall j :: 0 <= j < |xs| ==> xs[j].percent <= xs[i].percent
    requires forall j :: 0 <= j < i ==> xs[j].percent != xs[i].percent
    ensures HighestIndex(xs) == i
  {
    var h := HighestIndex(xs);
    assert xs[h].percent == xs[i].percent;
  }

  /**
   * The head of the list sorted by percentage, descending and stably, is the
   * alert at the highest index.
   */
  lemma SortedByPercentHead(xs: seq<Alert>, ys: seq<Alert>)
    requires ys != [] && LexSorted(ByPercentDescending(), ys) && KeepsTies(ByPercentDescending(), xs, ys)
    requires multiset(ys) == multiset(xs)
    ensures xs != [] && ys[0] == xs[HighestIndex(xs)]
  {
    var specs := ByPercentDescending();
    assert ys[0] in multiset(xs);
    SortedHead(specs, xs, ys);
    var i :| && 0 <= i < |xs| && xs[i] == ys[0]
             && forall k :: 0 <= k < i ==> !AllTie(specs, xs[k], ys[0]);
    forall j | 0 <= j < |xs|
      ensures xs[j].percent <= xs[i].percent
    {
      assert xs[j] in multiset(ys);
      var m :| 0 <= m < |ys| && ys[m] == xs[j];
      assert LexLe(specs, ys[0], ys[m]);
    }
    forall k | 0 <= k < i
      ensures xs[k].percent != xs[i].percent
    {
      AllTieSingle(specs[0], xs[k], ys[0]);
    }
    HighestIndexUnique(xs, i);
  }

  /** `alerts[0]` of `getSortedAlerts([('percent', True)])`: the first alert in key order with the highest percentage. */
  function HighestAlert(st: Store): (top: Alert)
    requires WellFormed(st) && st.order != []
    ensures top.id in st.alerts && st.alerts[top.id] == top
  {
    var xs := Values(st, st.order);
    var h := HighestIndex(xs);
    assert xs[h].id == st.order[h];
    xs[h]
  }

  /**
   * The alert chosen has the highest percentage in the registry, and every
   * alert before it in key order has a strictly lower one.
   */
  lemma HighestAlertIsHighest(st: Store)
    requires WellFormed(st) && st.order != []
    ensures var top := HighestAlert(st);
      && (forall k :: k in st.alerts ==> st.alerts[k].percent <= top.percent)
      && (forall i, j :: 0 <= j < i < |st.order| && st.order[i] == top.id ==>
            st.alerts[st.order[j]].percent < top.percent)
  {
    var xs := Values(st, st.order);
    var h := HighestIndex(xs);
    var top := xs[h];
    assert top.id == st.order[h];
    forall k | k in st.alerts
      ensures st.alerts[k].percent <= top.percent
    {
      var i :| 0 <= i < |st.order| && st.order[i] == k;
      assert xs[i] == st.alerts[k];
    }
    forall i, j | 0 <= j < i < |st.order| && st.order[i] == top.id
      ensures st.alerts[st.order[j]].percent < top.percent
    {
      assert i == h;
      assert xs[j] == st.alerts[st.order[j]];
    }
  }

  /** The value `getHighestAlertPercent` returns once the alerts are refreshed; IndexError on an empty registry. */
  function Highest(st: Store): (r: Result<(Alert, real, Bandwidth)>)
    requires WellFormed(st)
    ensures r.Err? <==> st.order == []
    ensures r.Err? ==> r.error == EmptyList
    ensures r.Ok? ==> r.value == (HighestAlert(st), HighestAlert(st).percent, HighestAlert(st).usage)
  {
    if st.order == [] then Err(EmptyList)
    else
      var top := HighestAlert(st);
      Ok((top, top.percent, top.usage))
  }

  // ---------------------------------------------------------------------
  // onTimerTick's `alert.lastNotified = ts`

  /** The registry with the notification stamp of alert `id` set to `ts`. */
  function Stamped(st: Store, id: int, ts: int): (r: Store)
    requires id in st.alerts
  {
    st.(alerts := st.alerts[id := st.alerts[id].(lastNotified := ts)])
  }

  /**
   * Stamping keeps the registry well formed and changes nothing but the
   * stamp of that one alert.
   */
  lemma StampedOnlyStamp(st: Store, id: int, ts: int)
    requires WellFormed(st) && id in st.alerts
    ensures var r := Stamped(st, id, ts);
      && WellFormed(r) && r.order == st.order && r.alerts.Keys == st.alerts.Keys
      && r.alerts[id].lastNotified == ts
      && r.alerts[id] == st.alerts[id].(lastNotified := ts)
      && (forall k :: k in st.alerts && k != id ==> r.alerts[k] == st.alerts[k])
  {
  }

  lemma ValuesAgree(st: Store, st': Store, ids: seq<int>)
    requires forall i :: 0 <= i < |ids| ==> ids[i] in st.alerts && ids[i] in st'.alerts
    requires forall i :: 0 <= i < |ids| ==> st'.alerts[ids[i]] == st.alerts[ids[i]]
    ensures Values(st', ids) == Values(st, ids)
  {
  }

  lemma ValuesSnoc(st: Store, ids: seq<int>, id: int)
    requires forall i :: 0 <= i < |ids| ==> ids[i] in st.alerts
    requires id in st.alerts
    ensures Values(st, ids + [id]) == Values(st, ids) + [st.alerts[id]]
  {
  }

  /**
   * One turn of the refresh loop over the keys: the refresh of the remaining
   * keys is this key's usage step followed by the rest, and the values of
   * the keys done so far grow by this key's refreshed entry.
   */
  lemma RefreshTurn(st: Store, i: int, windowStart: AlertInterval -> Result<int>, sumUsage: (int, int) -> Option<int>)
    requires WellFormed(st) && 0 <= i < |st.order|
    ensures var step := UsageStep(st, st.order[i], windowStart, sumUsage);
      && (step.1.Err? ==> RefreshFrom(st, st.order[i..], windowStart, sumUsage) == (step.0, Fail(step.1.error)))
      && (step.1.Ok? ==> RefreshFrom(st, st.order[i..], windowStart, sumUsage) == RefreshFrom(step.0, st.order[i + 1..], windowStart, sumUsage))
      && Values(step.0, st.order[..i + 1]) == Values(st, st.order[..i]) + [step.0.alerts[st.order[i]]]
  {
    var id := st.order[i];
    var step := UsageStep(st, id, windowStart, sumUsage);
    assert st.order[i..][0] == id && st.order[i..][1..] == st.order[i + 1..];
    forall j | 0 <= j < i
      ensures st.order[..i][j] != id
    {
      assert st.order[..i][j] == st.order[j];
    }
    ValuesAgree(st, step.0, st.order[..i]);
    ValuesSnoc(step.0, st.order[..i], id);
    assert st.order[..i + 1] == st.order[..i] + [id];
  }

  // ---------------------------------------------------------------------
  // The Database object

  /** `Database`: its `alerts` dictionary, and the `intervals` and `filters` tables it loads. */
  class Database {
    var order: seq<int>
    var alerts: map<int, Alert>
    var intervals: map<int, AlertInterval>
    var filters: map<int, Filter>

    function Contents(): Store
      reads this
    {
      Store(order, alerts)
    }

    predicate Valid()
      reads this
    {
      WellFormed(Contents())
    }

    /** `Database()` with the connection left out: every table empty. */
    constructor ()
      ensures Valid()
      ensures order == [] && alerts == map[] && intervals == map[] && filters == map[]
    {
      order := [];
      alerts := map[];
      intervals := map[];
      filters := map[];
    }

    /**
     * `getAlerts()`: the interval and filter tables are reloaded, then each
     * fetched row is merged into `alerts`; a row naming an unknown interval
     * or filter raises KeyError with the rows before it merged.
     */
    method GetAlerts(rows: seq<AlertRow>, loadedIntervals: map<int, AlertInterval>, loadedFilters: map<int, Filter>)
      returns (out: Outcome)
      requires Valid()
      modifies this
      ensures Valid()
      ensures intervals == loadedIntervals && filters == loadedFilters
      ensures (Contents(), out) == MergeRows(old(Contents()), rows, loadedIntervals, loadedFilters)
    {
      intervals := loadedIntervals;
      filters := loadedFilters;
      var i := 0;
      while i < |rows|
        invariant 0 <= i <= |rows|
        invariant Valid()
        invariant intervals == loadedIntervals && filters == loadedFilters
        invariant MergeRows(old(Contents()), rows, intervals, filters) == MergeRows(Contents(), rows[i..], intervals, filters)
      {
        var row := rows[i];
        assert rows[i..][0] == row && rows[i..][1..] == rows[i + 1..];
        if row.interval !in intervals {
          return Fail(MissingKey);
        }
        var interval := intervals[row.interval];
        if row.filter !in filters {
          return Fail(MissingKey);
        }
        var filter := filters[row.filter];
        var alert := NewAlert(row.id, row.name, interval, filter, FromCount(row.amount));
        MergeOneWellFormed(Contents(), alert);
        if row.id !in alerts {
          order := order + [row.id];
          alerts := alerts[row.id := alert];
        } else if !DefinitionEquals(alerts[row.id], Same(alert)) {
          alerts := alerts[row.id := alert];
        }
        i := i + 1;
      }
      return Pass;
    }

    /**
     * `getAlertUsage(alertId, now)`: the usage of the alert since its window
     * start, stored in the alert; the exceptions of `getTimeStamp` and of a
     * zero cap become errors.
     */
    method GetAlertUsage(alertId: int, now: DateTime, sumUsage: (int, int) -> Option<int>) returns (r: Result<Bandwidth>)
      requires Valid() && alertId in alerts && IsValid(now)
      modifies this
      ensures Valid() && intervals == old(intervals) && filters == old(filters)
      ensures (Contents(), r) == UsageStep(old(Contents()), alertId, WindowStarts(now), sumUsage)
    {
      var alert := alerts[alertId];
      var timestamp := WindowStarts(now)(alert.interval);
      if timestamp.Err? {
        return Err(timestamp.error);
      }
      var usage := FromCount(sumUsage(alert.filter.id, timestamp.value));
      var step := SetUsage(alert, usage);
      alerts := alerts[alertId := step.0];
      if step.1.Fail? {
        return Err(step.1.error);
      }
      return Ok(step.0.usage);
    }

    /**
     * `getSortedAlerts(specs)`: every alert's usage refreshed in key order,
     * then the alerts multisorted by the specs. The result is a permutation
     * of the refreshed alerts in key order, sorted by the specs, with alerts
     * equal under every spec in key order.
     */
    method GetSortedAlerts(specs: seq<SortSpec<Alert>>, now: DateTime, sumUsage: (int, int) -> Option<int>)
      returns (r: Result<seq<Alert>>)
      requires Valid() && IsValid(now)
      modifies this
      ensures Valid() && intervals == old(intervals) && filters == old(filters)
      ensures var refresh := RefreshFrom(old(Contents()), old(order), WindowStarts(now), sumUsage);
        && Contents() == refresh.0
        && (refresh.1.Fail? ==> r == Err(refresh.1.error))
        && (refresh.1.Pass? ==>
              && r.Ok?
              && multiset(r.value) == multiset(Values(refresh.0, order))
              && LexSorted(specs, r.value)
              && KeepsTies(specs, Values(refresh.0, order), r.value))
    {
      ghost var st0 := Contents();
      var sorted: seq<Alert> := [];
      var i := 0;
      while i < |order|
        invariant 0 <= i <= |order|
        invariant Valid() && intervals == old(intervals) && filters == old(filters)
        invariant order == st0.order && alerts.Keys == st0.alerts.Keys
        invariant RefreshFrom(st0, st0.order, WindowStarts(now), sumUsage)
          == RefreshFrom(Contents(), order[i..], WindowStarts(now), sumUsage)
        invariant sorted == Values(Contents(), order[..i])
      {
        var id := order[i];
        RefreshTurn(Contents(), i, WindowStarts(now), sumUsage);
        var usage := GetAlertUsage(id, now, sumUsage);
        if usage.Err? {
          return Err(usage.error);
        }
        sorted := sorted + [alerts[id]];
        i := i + 1;
      }
      assert order[..i] == order;
      var ys := Multisort(sorted, specs);
      return Ok(ys);
    }

    /**
     * `getHighestAlertPercent()`: after the refresh, the alert with the
     * largest percentage, the first in key order among equals, with its
     * percentage and usage; an empty registry raises IndexError.
     */
    method GetHighestAlertPercent(now: DateTime, sumUsage: (int, int) -> Option<int>)
      returns (r: Result<(Alert, real, Bandwidth)>)
      requires Valid() && IsValid(now)
      modifies this
      ensures Valid() && intervals == old(intervals) && filters == old(filters)
      ensures var refresh := RefreshFrom(old(Contents()), old(order), WindowStarts(now), sumUsage);
        && Contents() == refresh.0
        && r == if refresh.1.Fail? then Err(refresh.1.error) else Highest(refresh.0)
    {
      var sorted := GetSortedAlerts(ByPercentDescending(), now, sumUsage);
      if sorted.Err? {
        return Err(sorted.error);
      }
      var alerts' := sorted.value;
      if |alerts'| == 0 {
        assert |multiset(alerts')| == |Values(Contents(), order)|;
        return Err(EmptyList);
      }
      SortedByPercentHead(Values(Contents(), order), alerts');
      var top := alerts'[0];
      assert top == HighestAlert(Contents());
      return Ok((top, top.percent, top.usage));
    }

    /** `alert.lastNotified = ts` for the alert filed under `id`. */
    method SetLastNotified(id: int, ts: int)
      requires Valid() && id in alerts
      modifies this
      ensures Valid() && intervals == old(intervals) && filters == old(filters)
      ensures Contents() == Stamped(old(Contents()), id, ts)
    {
      StampedOnlyStamp(Contents(), id, ts);
      alerts := alerts[id := alerts[id].(lastNotified := ts)];
    }
  }
}
