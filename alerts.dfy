/**
 * `Filter` and `Alert`: an alert is a named byte cap over an interval and a
 * traffic filter, together with the runtime state the client keeps for it
 * (the last usage read, its percentage of the cap, and when the user was
 * last told about it).
 */
module Alerts {
  import opened Wrappers
  import opened Bandwidths
  import opened Intervals

  datatype Filter = Filter(id: int, name: string, desc: string, expr: Option<string>, host: Option<string>)

  datatype Alert = Alert(
    id: int, name: string, interval: AlertInterval, filter: Filter, amount: Bandwidth,
    usage: Bandwidth, percent: real, lastNotified: int)

  /** `Alert(id=..., name=..., interval=..., filter=..., amount=...)`: runtime state at its defaults. */
  function NewAlert(id: int, name: string, interval: AlertInterval, filter: Filter, amount: Bandwidth): (a: Alert)
    ensures a.id == id && a.name == name && a.interval == interval && a.filter == filter && a.amount == amount
    ensures a.usage == Bandwidth(0) && a.percent == 0.0 && a.lastNotified == 0
  {
    Alert(id, name, interval, filter, amount, Bandwidth(0), 0.0, 0)
  }

  /** `usage.bytes / amount.bytes * 100.0`, which raises ZeroDivisionError for a zero cap. */
  function Percent(usage: Bandwidth, amount: Bandwidth): (r: Result<real>)
    ensures r.Err? <==> amount.bytes == 0
    ensures r.Err? ==> r.error == ZeroDivision
    ensures r.Ok? ==> r.value * amount.bytes as real == usage.bytes as real * 100.0
  {
    if amount.bytes == 0 then Err(ZeroDivision)
    else Ok(usage.bytes as real / amount.bytes as real * 100.0)
  }

  /** A usage within a positive cap is between 0 and 100 percent of it, reaching 100 exactly at the cap. */
  lemma PercentBounds(usage: Bandwidth, amount: Bandwidth)
    requires 0 <= usage.bytes <= amount.bytes && amount.bytes > 0
    ensures Percent(usage, amount).Ok?
    ensures 0.0 <= Percent(usage, amount).value <= 100.0
    ensures Percent(usage, amount).value == 100.0 <==> usage == amount
  {
    var p := Percent(usage, amount).value;
    var u, a := usage.bytes as real, amount.bytes as real;
    assert p * a == u * 100.0;
    assert (100.0 - p) * a == (a - u) * 100.0;
  }

  /** More usage under the same positive cap never gives a smaller percentage. */
  lemma PercentMonotone(u1: Bandwidth, u2: Bandwidth, amount: Bandwidth)
    requires u1.bytes <= u2.bytes && amount.bytes > 0
    ensures Percent(u1, amount).value <= Percent(u2, amount).value
  {
    var p1, p2 := Percent(u1, amount).value, Percent(u2, amount).value;
    var a := amount.bytes as real;
    assert (p2 - p1) * a == (u2.bytes - u1.bytes) as real * 100.0;
  }

  /**
   * `setUsage(usage)`: the usage is stored first, then the percentage; with a
   * zero cap the division raises and the old percentage stays.
   */
  function SetUsage(a: Alert, usage: Bandwidth): (r: (Alert, Outcome))
    ensures r.0 == a.(usage := usage, percent := r.0.percent)
    ensures r.1.Pass? <==> a.amount.bytes != 0
    ensures r.1.Pass? ==> r.0.percent * a.amount.bytes as real == usage.bytes as real * 100.0
    ensures r.1.Fail? ==> r.1.error == ZeroDivision && r.0.percent == a.percent
  {
    var stored := a.(usage := usage);
    match Percent(usage, a.amount)
    case Ok(p) => (stored.(percent := p), Pass)
    case Err(e) => (stored, Fail(e))
  }

  /** The definition of an alert: the alert with its runtime state at the defaults. */
  function Definition(a: Alert): (d: Alert)
    ensures d.usage == Bandwidth(0) && d.percent == 0.0 && d.lastNotified == 0
    ensures d == NewAlert(a.id, a.name, a.interval, a.filter, a.amount)
  {
    a.(usage := Bandwidth(0), percent := 0.0, lastNotified := 0)
  }

  /** `a == other`: id, name, cap in bytes, interval and filter; False when `other` is not an Alert. */
  predicate DefinitionEquals(a: Alert, other: Operand<Alert>) {
    match other
    case Same(b) =>
      a.id == b.id && a.name == b.name && a.amount.bytes == b.amount.bytes
        && a.interval == b.interval && a.filter == b.filter
    case Foreign => false
  }

  /**
   * Equality looks at the definition only: two alerts are equal exactly when
   * their definitions are, whatever their usage, percentage and notification
   * stamp; it is an equivalence.
   */
  lemma DefinitionEqualsIsDefinition(a: Alert, b: Alert, c: Alert)
    ensures DefinitionEquals(a, Same(b)) <==> Definition(a) == Definition(b)
    ensures DefinitionEquals(a, Same(a))
    ensures DefinitionEquals(a, Same(b)) ==> DefinitionEquals(b, Same(a))
    ensures DefinitionEquals(a, Same(b)) && DefinitionEquals(b, Same(c)) ==> DefinitionEquals(a, Same(c))
    ensures !DefinitionEquals(a, Foreign)
  {
    if DefinitionEquals(a, Same(b)) {
      assert a.amount == b.amount;
    }
  }
}
