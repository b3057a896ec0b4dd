/**
 * The verdict `checkMonitor` (workers/monitor.ts) draws from one probe: a
 * GET of the monitor's URL, following redirects and aborted after 30
 * seconds. The network is replaced by the probe's outcome: either a response
 * with its status code, or the exception `fetch` threw (an abort after the
 * timeout is one of those).
 */
module Probe {
  import opened Text
  import opened MonitorTypes

  datatype ProbeOutcome =
    | Responded(code: nat)
    | Threw(message: string)   // the exception's message; "" when it has none

  datatype Verdict = Verdict(status: CheckStatus, statusCode: nat, errorMessage: string)

  /** `response.ok`: the status lies in the range 200-299. */
  predicate IsOk(code: nat) {
    200 <= code <= 299
  }

  const RequestFailed := "Request failed"

  /** Status, code and error message of the check record written for one probe. */
  function VerdictOf(outcome: ProbeOutcome): (r: Verdict)
    ensures r.status == Up <==> outcome.Responded? && IsOk(outcome.code)
    ensures outcome.Responded? ==> r.statusCode == outcome.code
    ensures outcome.Responded? && !IsOk(outcome.code) ==>
      r.errorMessage == "HTTP " + NatToString(outcome.code)
    ensures outcome.Threw? ==> r.status == Down && r.statusCode == 0
    ensures outcome.Threw? && outcome.message != "" ==> r.errorMessage == outcome.message
    ensures outcome.Threw? && outcome.message == "" ==> r.errorMessage == RequestFailed
    // a check is up exactly when it carries no error message
    ensures r.status == Up <==> r.errorMessage == ""
  {
    match outcome
    case Responded(code) =>
      if IsOk(code) then Verdict(Up, code, "")
      else Verdict(Down, code, "HTTP " + NatToString(code))
    case Threw(message) =>
      Verdict(Down, 0, if message != "" then message else RequestFailed)
  }
}
