/**
 * The records the monitor worker passes around (workers/monitor.ts): the
 * monitor row, the check record written after every probe, and the faults
 * that escape from a monitor's pipeline.
 */
module MonitorTypes {
  import opened Wrappers
  import opened Json

  /**
   * A row of the `monitors` table. A nullable text column is the empty
   * string when it is null (the worker only ever tests such a column for
   * truthiness). The stored webhook headers and body template are given
   * already parsed: `webhookHeaders` is the header object (empty when the
   * column is null) and `webhookBody` is None when the column is null or
   * empty.
   */
  datatype Monitor = Monitor(
    id: string,
    name: string,
    url: string,
    checkInterval: int,
    webhookUrl: string,
    webhookContentType: string,
    webhookHeaders: map<string, string>,
    webhookBody: Option<Json>,
    webhookUsername: string,
    isActive: bool)

  datatype CheckStatus = Up | Down

  /** A `MonitorCheck` record; instants are integer milliseconds. */
  datatype MonitorCheck = MonitorCheck(
    monitorId: string,
    status: CheckStatus,
    responseTime: int,
    statusCode: nat,
    errorMessage: string,
    checkedAt: int)

  /** The `type` argument of a webhook notification. */
  datatype Transition = WentDown | Recovered

  function TransitionName(t: Transition): string {
    match t
    case WentDown => "down"
    case Recovered => "recovered"
  }

  /** Exceptions that escape from one monitor's pipeline. */
  datatype Fault =
    | BodyNotObject    // Object.entries(null): the stored body template is JSON null
    | AuthNotLatin1    // btoa rejects a username character above U+00FF
    | UpHandlerCrash   // handleUpStatus reads `DB` of the check record it was handed as `env`
}
