/**
 * The incident bookkeeping of the monitor worker (workers/monitor.ts),
 * stated on values: the `incidents` table as a sequence of rows in table
 * order, the `monitor_checks` table as the sequence of saved checks, and an
 * outbox holding every `sendWebhookNotification` call. `Step` is what
 * `checkMonitor` does to them for one monitor, and `Tick` what
 * `checkAllMonitors` does for all active monitors. The Engine module's class
 * performs the same changes in place.
 */
module Incidents {
  import opened Wrappers
  import opened MonitorTypes
  import opened Probe
  import opened Webhook

  datatype Incident = Incident(
    monitorId: string,
    startedAt: int,
    resolvedAt: Option<int>,
    durationSeconds: Option<int>,
    notified: nat)

  /** The row is an unresolved incident of monitor `id`. */
  predicate IsOpenFor(r: Incident, id: string) {
    r.monitorId == id && r.resolvedAt.None?
  }

  /** The incident invariant: no monitor has two unresolved incidents. */
  predicate AtMostOneOpen(rows: seq<Incident>) {
    forall i, j :: 0 <= i < j < |rows| && rows[i].monitorId == rows[j].monitorId ==>
      !(rows[i].resolvedAt.None? && rows[j].resolvedAt.None?)
  }

  /**
   * `SELECT * FROM incidents WHERE monitor_id = ? AND resolved_at IS NULL`,
   * `results[0]`: the index of the first unresolved incident of the monitor.
   */
  function FirstOpen(rows: seq<Incident>, id: string): (r: Option<nat>)
    ensures r.Some? ==> r.value < |rows| && IsOpenFor(rows[r.value], id)
    ensures r.Some? ==> forall j :: 0 <= j < r.value ==> !IsOpenFor(rows[j], id)
    ensures r.None? ==> forall j :: 0 <= j < |rows| ==> !IsOpenFor(rows[j], id)
    decreases |rows|
  {
    if rows == [] then None
    else if IsOpenFor(rows[0], id) then Some(0)
    else match FirstOpen(rows[1..], id)
      case None => None
      case Some(k) => Some(k + 1)
  }

  /** `INSERT INTO incidents (monitor_id, started_at, notified) VALUES (?, ?, 0)`. */
  function NewIncident(id: string, now: int): Incident {
    Incident(id, now, None, None, 0)
  }

  /** `Math.floor((now - started) / 1000)`: whole seconds, rounded down. */
  function DurationSeconds(startedAt: int, now: int): (d: int)
    ensures d * 1000 <= now - startedAt < d * 1000 + 1000
    ensures startedAt <= now ==> d >= 0
  {
    (now - startedAt) / 1000
  }

  /** `UPDATE incidents SET resolved_at = ?, duration_seconds = ? WHERE id = ?`. */
  function Resolve(r: Incident, now: int): Incident {
    r.(resolvedAt := Some(now), durationSeconds := Some(DurationSeconds(r.startedAt, now)))
  }

  /** The table after a down check: a new unresolved row unless one is already open. */
  function Opened(rows: seq<Incident>, id: string, now: int): (after: seq<Incident>)
    ensures |rows| <= |after| <= |rows| + 1 && after[..|rows|] == rows
    ensures forall j :: |rows| <= j < |after| ==> after[j].monitorId == id && after[j].resolvedAt.None?
  {
    if FirstOpen(rows, id).None? then rows + [NewIncident(id, now)] else rows
  }

  /** The table after an up check: the first unresolved row of the monitor is resolved. */
  function Resolved(rows: seq<Incident>, id: string, now: int): (after: seq<Incident>)
    ensures |after| == |rows|
    ensures forall j :: 0 <= j < |rows| && rows[j].monitorId != id ==> after[j] == rows[j]
    ensures forall j :: 0 <= j < |rows| ==> after[j].monitorId == rows[j].monitorId
  {
    match FirstOpen(rows, id)
    case None => rows
    case Some(i) => rows[i := Resolve(rows[i], now)]
  }

  /** A down check inserts exactly one unresolved row, and only when none is open. */
  lemma OpenedInsertsOne(rows: seq<Incident>, id: string, now: int)
    ensures var after := Opened(rows, id, now);
      && after[..|rows|] == rows
      && (FirstOpen(rows, id).None? ==> after == rows + [Incident(id, now, None, None, 0)])
      && (FirstOpen(rows, id).Some? ==> after == rows)
      && FirstOpen(after, id).Some?
  {
    var after := Opened(rows, id, now);
    if FirstOpen(rows, id).None? {
      assert IsOpenFor(after[|rows|], id);
    }
  }

  /** An up check changes at most the monitor's first unresolved row; other monitors' rows are untouched. */
  lemma ResolvedTouchesOne(rows: seq<Incident>, id: string, now: int)
    ensures var after := Resolved(rows, id, now);
      && |after| == |rows|
      && (forall j :: 0 <= j < |rows| && rows[j].monitorId != id ==> after[j] == rows[j])
      && (forall j :: 0 <= j < |rows| && !IsOpenFor(rows[j], id) ==> after[j] == rows[j])
      && (forall j :: 0 <= j < |rows| && Some(j) != FirstOpen(rows, id) ==> after[j] == rows[j])
      && (FirstOpen(rows, id).Some? ==>
            var i := FirstOpen(rows, id).value;
            after[i] == rows[i].(resolvedAt := Some(now),
                                 durationSeconds := Some(DurationSeconds(rows[i].startedAt, now))))
  {
  }

  /** Down handling keeps the incident invariant. */
  lemma OpenedKeepsInvariant(rows: seq<Incident>, id: string, now: int)
    requires AtMostOneOpen(rows)
    ensures AtMostOneOpen(Opened(rows, id, now))
  {
    var after := Opened(rows, id, now);
    if FirstOpen(rows, id).None? {
      forall i, j | 0 <= i < j < |after| && after[i].monitorId == after[j].monitorId
        ensures !(after[i].resolvedAt.None? && after[j].resolvedAt.None?)
      {
        if j == |rows| {
          assert !IsOpenFor(rows[i], id);
        }
      }
    }
  }

  /** Up handling keeps the incident invariant. */
  lemma ResolvedKeepsInvariant(rows: seq<Incident>, id: string, now: int)
    requires AtMostOneOpen(rows)
    ensures AtMostOneOpen(Resolved(rows, id, now))
  {
  }

  /** Under the invariant, an up check leaves the monitor with no unresolved incident. */
  lemma ResolvedClosesAll(rows: seq<Incident>, id: string, now: int)
    requires AtMostOneOpen(rows)
    ensures FirstOpen(Resolved(rows, id, now), id).None?
  {
    var after := Resolved(rows, id, now);
    match FirstOpen(rows, id)
    case None =>
    case Some(i) =>
      forall j | 0 <= j < |after| ensures !IsOpenFor(after[j], id) {
        if i < j && rows[j].monitorId == id {
          assert !(rows[i].resolvedAt.None? && rows[j].resolvedAt.None?);
        }
      }
  }

  /** Consecutive down checks open one incident: the second changes nothing. */
  lemma OpenedIdempotent(rows: seq<Incident>, id: string, t1: int, t2: int)
    ensures Opened(Opened(rows, id, t1), id, t2) == Opened(rows, id, t1)
  {
    OpenedInsertsOne(rows, id, t1);
  }

  /**
   * Consecutive down checks of a monitor open one incident and queue one
   * notification: the second check only saves its record.
   */
  lemma DownStepsIdempotent(t: Tables, m: Monitor, p1: Sample, p2: Sample)
    requires VerdictOf(p1.outcome).status == Down && VerdictOf(p2.outcome).status == Down
    ensures var first := Step(t, m, p1).0;
      var second := Step(first, m, p2).0;
      && second.incidents == first.incidents
      && second.outbox == first.outbox
      && second.checks == first.checks + [CheckRecord(m, p2)]
  {
    OpenedInsertsOne(t.incidents, m.id, p1.finishedMs);
    var first := Step(t, m, p1).0;
    assert FirstOpen(first.incidents, m.id).Some?;
    assert first.outbox + [] == first.outbox;
  }

  /** A down check followed by an up check records one resolved incident with its duration. */
  lemma DownThenUp(rows: seq<Incident>, id: string, t1: int, t2: int)
    requires FirstOpen(rows, id).None?
    ensures Resolved(Opened(rows, id, t1), id, t2) ==
      rows + [Incident(id, t1, Some(t2), Some(DurationSeconds(t1, t2)), 0)]
  {
    var afterDown := Opened(rows, id, t1);
    assert afterDown == rows + [NewIncident(id, t1)];
    assert IsOpenFor(afterDown[|rows|], id);
    assert FirstOpen(afterDown, id) == Some(|rows|);
  }

  // ---------------------------------------------------------------------
  // Notifications and the per-monitor pipeline

  /** One `sendWebhookNotification(monitor, check, kind)` call. */
  datatype Notification = Notification(monitor: Monitor, check: MonitorCheck, kind: Transition)

  datatype Tables = Tables(incidents: seq<Incident>, checks: seq<MonitorCheck>, outbox: seq<Notification>)

  /** The notification a transition issues: only when the monitor has a webhook URL. */
  function Notify(m: Monitor, check: MonitorCheck, kind: Transition): seq<Notification> {
    if m.webhookUrl != "" then [Notification(m, check, kind)] else []
  }

  /** The synthetic check a `recovered` notification carries. */
  function RecoveryCheck(m: Monitor, now: int): MonitorCheck {
    MonitorCheck(m.id, Up, 0, 200, "", now)
  }

  /** `handleDownStatus`: the row is written first, then the notification is issued. */
  function DownTransition(t: Tables, m: Monitor, check: MonitorCheck, now: int): (r: (Tables, Option<Fault>))
    ensures r.0.checks == t.checks && r.0.incidents == Opened(t.incidents, m.id, now)
    ensures |r.0.outbox| == |t.outbox| + (if FirstOpen(t.incidents, m.id).None? && m.webhookUrl != "" then 1 else 0)
    ensures r.0.outbox[..|t.outbox|] == t.outbox
    ensures |r.0.outbox| > |t.outbox| ==> r.0.outbox[|t.outbox|] == Notification(m, check, WentDown)
    ensures r.1.Some? ==> FirstOpen(t.incidents, m.id).None? && r.1 == RenderFault(m)
    ensures r.1 == (if FirstOpen(t.incidents, m.id).None? then RenderFault(m) else None)
  {
    if FirstOpen(t.incidents, m.id).None? then
      (t.(incidents := Opened(t.incidents, m.id, now), outbox := t.outbox + Notify(m, check, WentDown)),
       RenderFault(m))
    else (t, None)
  }

  /** The body of `handleUpStatus`: resolve the first open row, then issue `recovered`. */
  function UpTransition(t: Tables, m: Monitor, now: int): (r: (Tables, Option<Fault>))
    ensures r.0.checks == t.checks && r.0.incidents == Resolved(t.incidents, m.id, now)
    ensures |r.0.outbox| == |t.outbox| + (if FirstOpen(t.incidents, m.id).Some? && m.webhookUrl != "" then 1 else 0)
    ensures r.0.outbox[..|t.outbox|] == t.outbox
    ensures |r.0.outbox| > |t.outbox| ==>
      r.0.outbox[|t.outbox|] == Notification(m, MonitorCheck(m.id, Up, 0, 200, "", now), Recovered)
    ensures r.1.Some? ==> FirstOpen(t.incidents, m.id).Some? && r.1 == RenderFault(m)
    ensures r.1 == (if FirstOpen(t.incidents, m.id).Some? then RenderFault(m) else None)
  {
    if FirstOpen(t.incidents, m.id).Some? then
      (t.(incidents := Resolved(t.incidents, m.id, now),
          outbox := t.outbox + Notify(m, RecoveryCheck(m, now), Recovered)),
       RenderFault(m))
    else (t, None)
  }

  /** One probe as the worker sees it: its outcome and the clock read before and after it. */
  datatype Sample = Sample(outcome: ProbeOutcome, startedMs: int, finishedMs: int)

  /** The `checkData` record `checkMonitor` builds and saves. */
  function CheckRecord(m: Monitor, p: Sample): (c: MonitorCheck)
    ensures c.monitorId == m.id && c.checkedAt == p.finishedMs
    ensures c.status == Up <==> p.outcome.Responded? && IsOk(p.outcome.code)
    ensures c.status == Up <==> c.errorMessage == ""
    ensures p.outcome.Threw? ==> c.statusCode == 0
    ensures p.startedMs <= p.finishedMs ==> c.responseTime >= 0
  {
    var v := VerdictOf(p.outcome);
    MonitorCheck(m.id, v.status, p.finishedMs - p.startedMs, v.statusCode, v.errorMessage, p.finishedMs)
  }

  /** `checkMonitor` with its up branch calling `handleUpStatus(monitor, env)` as intended. */
  function Step(t: Tables, m: Monitor, p: Sample): (r: (Tables, Option<Fault>))
    ensures r.0.checks == t.checks + [CheckRecord(m, p)]
    ensures r.1.Some? ==> r.1 == RenderFault(m)
    ensures VerdictOf(p.outcome).status == Up ==> r.0.incidents == Resolved(t.incidents, m.id, p.finishedMs)
    ensures VerdictOf(p.outcome).status == Down ==> r.0.incidents == Opened(t.incidents, m.id, p.finishedMs)
    ensures VerdictOf(p.outcome).status == Down ==>
              r.0.outbox == t.outbox +
                (if FirstOpen(t.incidents, m.id).None? then Notify(m, CheckRecord(m, p), WentDown) else [])
    ensures VerdictOf(p.outcome).status == Up ==>
              r.0.outbox == t.outbox +
                (if FirstOpen(t.incidents, m.id).Some? then Notify(m, RecoveryCheck(m, p.finishedMs), Recovered) else [])
    ensures VerdictOf(p.outcome).status == Down ==>
              r.1 == (if FirstOpen(t.incidents, m.id).None? then RenderFault(m) else None)
    ensures VerdictOf(p.outcome).status == Up ==>
              r.1 == (if FirstOpen(t.incidents, m.id).Some? then RenderFault(m) else None)
  {
    var c := CheckRecord(m, p);
    var saved := t.(checks := t.checks + [c]);
    if c.status == Down then DownTransition(saved, m, c, p.finishedMs)
    else UpTransition(saved, m, p.finishedMs)
  }

  /**
   * `checkMonitor` as written: its up branch calls
   * `handleUpStatus(monitor, checkData, env)`, so the handler's `env` is the
   * check record, `env.DB` is undefined, and reading `prepare` from it
   * throws before any query runs.
   */
  function StepAsWritten(t: Tables, m: Monitor, p: Sample): (r: (Tables, Option<Fault>))
    ensures r.0.checks == t.checks + [CheckRecord(m, p)]
    ensures VerdictOf(p.outcome).status == Up ==>
      r.1 == Some(UpHandlerCrash) && r.0.incidents == t.incidents && r.0.outbox == t.outbox
  {
    var c := CheckRecord(m, p);
    var saved := t.(checks := t.checks + [c]);
    if c.status == Down then DownTransition(saved, m, c, p.finishedMs)
    else (saved, Some(UpHandlerCrash))
  }

  /** `SELECT * FROM monitors WHERE is_active = 1`, in table order. */
  function ActiveMonitors(table: seq<Monitor>): (ms: seq<Monitor>)
    ensures forall i :: 0 <= i < |ms| ==> ms[i].isActive && ms[i] in table
    ensures forall i :: 0 <= i < |table| && table[i].isActive ==> table[i] in ms
    ensures |ms| <= |table|
    decreases |table|
  {
    if table == [] then []
    else if table[0].isActive then [table[0]] + ActiveMonitors(table[1..])
    else ActiveMonitors(table[1..])
  }

  /** Filtering keeps table order: the active monitors of two parts of the table, one after the other. */
  lemma {:induction false} ActiveMonitorsAppend(a: seq<Monitor>, b: seq<Monitor>)
    ensures ActiveMonitors(a + b) == ActiveMonitors(a) + ActiveMonitors(b)
    decreases |a|
  {
    if a != [] {
      assert (a + b)[1..] == a[1..] + b;
      ActiveMonitorsAppend(a[1..], b);
    } else {
      assert a + b == b;
    }
  }

  /**
   * `checkAllMonitors`: monitors are checked one after another; the one
   * try/catch around the loop means the first exception ends the tick.
   * Returns the tables and how many monitors were reached.
   */
  function Tick(t: Tables, ms: seq<Monitor>, ps: seq<Sample>): (r: (Tables, nat))
    requires |ps| == |ms|
    ensures r.1 <= |ms|
    ensures ms != [] ==> 1 <= r.1
    decreases |ms|
  {
    if ms == [] then (t, 0)
    else
      var (t', fault) := Step(t, ms[0], ps[0]);
      if fault.Some? then (t', 1)
      else var (t'', n) := Tick(t', ms[1..], ps[1..]); (t'', n + 1)
  }

  /** `checkAllMonitors` as written, with `StepAsWritten` for each monitor. */
  function TickAsWritten(t: Tables, ms: seq<Monitor>, ps: seq<Sample>): (r: (Tables, nat))
    requires |ps| == |ms|
    ensures r.1 <= |ms|
    ensures ms != [] ==> 1 <= r.1
    decreases |ms|
  {
    if ms == [] then (t, 0)
    else
      var (t', fault) := StepAsWritten(t, ms[0], ps[0]);
      if fault.Some? then (t', 1)
      else var (t'', n) := TickAsWritten(t', ms[1..], ps[1..]); (t'', n + 1)
  }

  /** The check records of the first `n` monitors. */
  function Records(ms: seq<Monitor>, ps: seq<Sample>, n: nat): (cs: seq<MonitorCheck>)
    requires n <= |ms| == |ps|
    ensures |cs| == n
  {
    seq(n, i requires 0 <= i < n => CheckRecord(ms[i], ps[i]))
  }

  /** One check keeps the incident invariant, whatever it observes. */
  lemma StepKeepsInvariant(t: Tables, m: Monitor, p: Sample)
    requires AtMostOneOpen(t.incidents)
    ensures AtMostOneOpen(Step(t, m, p).0.incidents)
  {
    var c := CheckRecord(m, p);
    if c.status == Down {
      OpenedKeepsInvariant(t.incidents, m.id, p.finishedMs);
    } else {
      ResolvedKeepsInvariant(t.incidents, m.id, p.finishedMs);
    }
  }

  /** A whole tick keeps the incident invariant. */
  lemma {:induction false} TickKeepsInvariant(t: Tables, ms: seq<Monitor>, ps: seq<Sample>)
    requires |ps| == |ms|
    requires AtMostOneOpen(t.incidents)
    ensures AtMostOneOpen(Tick(t, ms, ps).0.incidents)
    decreases |ms|
  {
    if ms != [] {
      StepKeepsInvariant(t, ms[0], ps[0]);
      var (t', fault) := Step(t, ms[0], ps[0]);
      if fault.None? {
        TickKeepsInvariant(t', ms[1..], ps[1..]);
      }
    }
  }

  /**
   * A tick saves the checks of the monitors it reached, in order, and stops
   * early only when a monitor's notification threw.
   */
  lemma {:induction false} TickSavesReachedChecks(t: Tables, ms: seq<Monitor>, ps: seq<Sample>)
    requires |ps| == |ms|
    ensures var (after, n) := Tick(t, ms, ps);
      after.checks == t.checks + Records(ms, ps, n)
    decreases |ms|
  {
    if ms != [] {
      var (t', fault) := Step(t, ms[0], ps[0]);
      var c := CheckRecord(ms[0], ps[0]);
      assert t'.checks == t.checks + [c];
      if fault.None? {
        TickSavesReachedChecks(t', ms[1..], ps[1..]);
        var n := Tick(t', ms[1..], ps[1..]).1;
        assert Records(ms, ps, n + 1) == [c] + Records(ms[1..], ps[1..], n);
      } else {
        assert Records(ms, ps, 1) == [c];
      }
    }
  }

  /** Without a notification that throws, a tick reaches every active monitor. */
  lemma {:induction false} TickReachesAll(t: Tables, ms: seq<Monitor>, ps: seq<Sample>)
    requires |ps| == |ms|
    requires forall i :: 0 <= i < |ms| ==> RenderFault(ms[i]).None?
    ensures Tick(t, ms, ps).1 == |ms|
    decreases |ms|
  {
    if ms != [] {
      var t' := Step(t, ms[0], ps[0]).0;
      TickReachesAll(t', ms[1..], ps[1..]);
    }
  }

  /**
   * As written, a monitor that is up ends the tick: its check is saved and
   * nothing else happens, neither to its incidents nor to the monitors after it.
   */
  lemma AsWrittenUpEndsTick(t: Tables, ms: seq<Monitor>, ps: seq<Sample>)
    requires |ps| == |ms| && ms != []
    requires VerdictOf(ps[0].outcome).status == Up
    ensures TickAsWritten(t, ms, ps) == (t.(checks := t.checks + [CheckRecord(ms[0], ps[0])]), 1)
  {
  }

  /**
   * With the corrected call, a monitor that goes down with a notification that
   * throws ends the tick: its check is saved and its incident opened, and no
   * later monitor is checked.
   */
  lemma DownFaultEndsTick(t: Tables, ms: seq<Monitor>, ps: seq<Sample>)
    requires |ps| == |ms| && ms != []
    requires VerdictOf(ps[0].outcome).status == Down
    requires FirstOpen(t.incidents, ms[0].id).None? && RenderFault(ms[0]).Some?
    ensures Tick(t, ms, ps).1 == 1
    ensures Tick(t, ms, ps).0.checks == t.checks + [CheckRecord(ms[0], ps[0])]
    ensures Tick(t, ms, ps).0.incidents == t.incidents + [NewIncident(ms[0].id, ps[0].finishedMs)]
  {
  }

  /** As written, an incident once opened is never resolved by any check. */
  lemma AsWrittenNeverResolves(t: Tables, m: Monitor, p: Sample)
    ensures StepAsWritten(t, m, p).0.incidents ==
      if VerdictOf(p.outcome).status == Down then Opened(t.incidents, m.id, p.finishedMs) else t.incidents
  {
  }

  /** With the intended call, an up check resolves the open incident and issues `recovered`. */
  lemma RecoveryResolves(t: Tables, m: Monitor, p: Sample)
    requires AtMostOneOpen(t.incidents)
    requires FirstOpen(t.incidents, m.id).Some?
    requires VerdictOf(p.outcome).status == Up
    ensures var (after, fault) := Step(t, m, p);
      && FirstOpen(after.incidents, m.id).None?
      && after.outbox == t.outbox + Notify(m, RecoveryCheck(m, p.finishedMs), Recovered)
      && fault == RenderFault(m)
  {
    ResolvedClosesAll(t.incidents, m.id, p.finishedMs);
  }
}
