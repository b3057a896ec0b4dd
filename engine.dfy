/**
 * The monitor worker's scheduled pass (workers/monitor.ts) as a store whose
 * tables the handlers update in place. Each method is proved to perform
 * exactly the change the Incidents module specifies, so the invariant and
 * ordering lemmas proved there hold of the store. The store runs the
 * corrected up branch `handleUpStatus(monitor, env)`; the call as written at
 * line 207 is modelled by Incidents.StepAsWritten.
 */
module Engine {
  import opened Wrappers
  import opened Text
  import opened MonitorTypes
  import opened Probe
  import opened Webhook
  import opened Incidents

  class MonitorStore {
    var incidents: seq<Incident>       // the `incidents` table, in table order
    var checks: seq<MonitorCheck>      // the `monitor_checks` table
    var outbox: seq<Notification>      // every `sendWebhookNotification` call made

    function State(): Tables
      reads this
    {
      Tables(incidents, checks, outbox)
    }

    /** The incident invariant the handlers maintain. */
    predicate Valid()
      reads this
    {
      AtMostOneOpen(incidents)
    }

    constructor ()
      ensures State() == Tables([], [], [])
      ensures Valid()
    {
      incidents := [];
      checks := [];
      outbox := [];
    }

    /** `handleDownStatus`: open an incident unless one is open, then notify `down`. */
    method HandleDownStatus(m: Monitor, check: MonitorCheck, now: int) returns (fault: Option<Fault>)
      requires Valid()
      modifies this
      ensures (State(), fault) == DownTransition(old(State()), m, check, now)
      ensures Valid()
    {
      OpenedKeepsInvariant(incidents, m.id, now);
      var open := FirstOpen(incidents, m.id);
      if open.None? {
        incidents := incidents + [NewIncident(m.id, now)];
        if m.webhookUrl != "" {
          outbox := outbox + [Notification(m, check, WentDown)];
          var d := SendWebhookNotification(m, check, WentDown);
          SendsFault(m, check, WentDown, d);
          if d.RenderThrew? {
            return Some(d.fault);
          }
        } else {
          assert Notify(m, check, WentDown) == [];
          assert outbox == outbox + [];
        }
      }
      return None;
    }

    /** `handleUpStatus(monitor, env)`: resolve the open incident, then notify `recovered`. */
    method HandleUpStatus(m: Monitor, now: int) returns (fault: Option<Fault>)
      requires Valid()
      modifies this
      ensures (State(), fault) == UpTransition(old(State()), m, now)
      ensures Valid()
      ensures FirstOpen(incidents, m.id).None?
    {
      ResolvedKeepsInvariant(incidents, m.id, now);
      ResolvedClosesAll(incidents, m.id, now);
      ghost var after := Resolved(incidents, m.id, now);
      var open := FirstOpen(incidents, m.id);
      if open.Some? {
        var i := open.value;
        incidents := incidents[i := Resolve(incidents[i], now)];
        assert incidents == after;
        if m.webhookUrl != "" {
          var recovery := RecoveryCheck(m, now);
          outbox := outbox + [Notification(m, recovery, Recovered)];
          var d := SendWebhookNotification(m, recovery, Recovered);
          SendsFault(m, recovery, Recovered, d);
          if d.RenderThrew? {
            return Some(d.fault);
          }
        } else {
          assert outbox == outbox + [];
        }
      }
      assert incidents == after;
      return None;
    }

    /**
     * `checkMonitor` with the corrected call `handleUpStatus(monitor, env)`:
     * build and save the check record, then hand it to the down or the up
     * handler.
     */
    method CheckMonitor(m: Monitor, p: Sample) returns (check: MonitorCheck, fault: Option<Fault>)
      requires Valid()
      modifies this
      ensures check == CheckRecord(m, p)
      ensures (State(), fault) == Step(old(State()), m, p)
      ensures Valid()
    {
      var status := Down;
      var statusCode := 0;
      var errorMessage := "";
      match p.outcome {
        case Responded(code) =>
          statusCode := code;
          if IsOk(code) {
            status := Up;
          } else {
            errorMessage := "HTTP " + NatToString(statusCode);
          }
        case Threw(message) =>
          errorMessage := if message != "" then message else RequestFailed;
      }
      var responseTime := p.finishedMs - p.startedMs;
      check := MonitorCheck(m.id, status, responseTime, statusCode, errorMessage, p.finishedMs);
      checks := checks + [check];
      if status == Down {
        fault := HandleDownStatus(m, check, p.finishedMs);
      } else {
        fault := HandleUpStatus(m, p.finishedMs);
      }
    }

    /**
     * `checkAllMonitors` with the corrected `checkMonitor`: every active
     * monitor in table order, one at a time; the first exception ends the pass.
     */
    method CheckAllMonitors(table: seq<Monitor>, probes: seq<Sample>)
      requires Valid()
      requires |probes| == |ActiveMonitors(table)|
      modifies this
      ensures State() == Tick(old(State()), ActiveMonitors(table), probes).0
      ensures Valid()
    {
      var monitors := ActiveMonitors(table);
      var i := 0;
      while i < |monitors|
        invariant 0 <= i <= |monitors|
        invariant Valid()
        invariant Tick(State(), monitors[i..], probes[i..]).0 == Tick(old(State()), monitors, probes).0
      {
        assert monitors[i..][1..] == monitors[i + 1..];
        assert probes[i..][1..] == probes[i + 1..];
        var _, fault := CheckMonitor(monitors[i], probes[i]);
        if fault.Some? {
          return;
        }
        i := i + 1;
      }
    }
  }
}
