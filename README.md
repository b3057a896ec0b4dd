# Uptime monitor worker, modelled in Dafny

This project models the core of the Cloudflare worker in `workers/monitor.ts`.
On every scheduled tick the worker is meant to do the following:

- It probes each active monitor's URL.
- It turns the probe's outcome into a check record (`up` or `down`, status code, error message) and saves it.
- It keeps one incident row per outage. A `down` check opens the row. An `up` check resolves it and records its duration.
- It reports each transition to the monitor's webhook. The webhook body is either a default payload or a user-supplied JSON template. The template's `{{variable}}` placeholders are replaced before sending.
- It offers a `testWebhook` endpoint that renders a synthetic notification.

That is the intended behaviour. As written, line 207 of `workers/monitor.ts` calls `handleUpStatus` with its arguments shifted (see "## Findings"). Every `up` check therefore throws after its record is saved, and the throw ends the tick. So the worker as written probes only the monitors up to and including the first one that is up. It never resolves an incident and never reports a recovery. The model has both versions: `Incidents.StepAsWritten` and `Incidents.TickAsWritten` follow the code as written, while `Incidents.Step`, `Incidents.Tick` and the `Engine` store run the corrected call `handleUpStatus(monitor, env)`.

The modules follow that structure:

| module | file | contents |
|---|---|---|
| `Wrappers` | wrappers.dfy | `Option` and `Result` |
| `Text` | text.dfy | decimal rendering of integers; literal global replacement `ReplaceAll`, the regular expression `{{key}}` with flag `g` |
| `Base64` | base64.dfy | section 4 of RFC 4648: encoding, decoding and the round trip; `btoa` with its Latin-1 restriction |
| `Json` | json.dfy | JSON values after `JSON.parse` |
| `MonitorTypes` | monitor_types.dfy | the `Monitor` row, the `MonitorCheck` record, transitions and escaping faults |
| `Probe` | probe.dfy | the verdict `checkMonitor` draws from one probe |
| `Webhook` | webhook.dfy | `replaceVariables`, `processWebhookBody`, the default payload, the header map, `sendWebhookNotification`, `testWebhook` |
| `Incidents` | incidents.dfy | the incident table, check table and notification outbox as values; one monitor's pipeline (`Step`) and a whole tick (`Tick`), with their invariants |
| `Engine` | engine.dfy | `MonitorStore`, a class whose methods update the tables in place; each method is proved to perform the change `Incidents` specifies |

Inputs the model takes as parameters:

- A probe is an input `Sample`. It holds the outcome (a response with its status code, or the message of the exception `fetch` threw) and the clock readings before and after the probe.
- Time is an integer number of milliseconds.
- Stored templates and custom headers are given already parsed.
- A webhook POST is represented by the `Dispatch` value that would be sent.
- The incident table is a sequence of rows in table order. The model assumes that `SELECT … WHERE resolved_at IS NULL` followed by `results[0]` yields the first matching row in that order. The query has no `ORDER BY`, so SQL does not promise this. Under the invariant that a monitor has at most one unresolved incident, the choice makes no difference.

## Model

| member | source | states |
|---|---|---|
| Text.NatToString | workers/monitor.ts:182 | the decimal text of a natural number is non-empty, all digits, one digit exactly below 10, and has no leading zero |
| Text.ParseNatToString | workers/monitor.ts:315-316 | decimal rendering (`toString()` of a status code) parses back to the number |
| Text.NatToStringInjective | workers/monitor.ts:315-316 | different numbers render differently, so array index keys are distinct |
| Text.ReplaceAllNoMatch | workers/monitor.ts:280-281 | text with no occurrence of the pattern is returned unchanged |
| Text.ReplaceAllSelf | workers/monitor.ts:280-281 | replacing a pattern by itself is the identity |
| Text.ReplaceAllSkip | workers/monitor.ts:280-281 | a prefix where no occurrence starts is copied verbatim |
| Text.ReplaceAllLeftmost | workers/monitor.ts:280-281 | the leftmost occurrence is replaced and scanning resumes right after it (non-overlapping global replacement) |
| Base64.Encode | workers/monitor.ts:348 | the output has length 4·⌈n/3⌉ and uses only alphabet symbols and `=` |
| Base64.DecodeEncode | workers/monitor.ts:348 | decoding the encoding of any byte string returns it |
| Base64.Latin1 | workers/monitor.ts:348 | a string converts to bytes exactly when every character is below U+0100; the bytes have the string's length and read back as the string |
| Base64.Latin1Text | workers/monitor.ts:348 | the text of a byte string has one character per byte, each below U+0100 |
| Base64.Latin1OfText | workers/monitor.ts:348 | converting the text of any byte string back to bytes returns that byte string |
| Base64.Btoa | workers/monitor.ts:348 | `btoa` succeeds exactly on Latin-1 text; its output has length 4·⌈n/3⌉ and decodes to the text's bytes |
| Probe.VerdictOf | workers/monitor.ts:160-186 | up exactly for a response in 200-299; a bad status keeps its code and gives error `HTTP <code>`; a thrown fetch gives down with code 0 and the message, or `Request failed` when the message is empty; up exactly when the error is empty |
| Webhook.Variables | workers/monitor.ts:309-317 | the seven variables in order (monitor_name, monitor_url, status, error, timestamp, response_time, status_code) with distinct brace-free names; `status` is the transition's name and `error` the check's message |
| Webhook.ReplaceVariables | workers/monitor.ts:277-284 | when every variable's value is its own placeholder, the template comes back unchanged |
| Webhook.ReplaceVariablesUnchanged | workers/monitor.ts:277-284 | text with no placeholder of a known variable comes back unchanged; unknown placeholders stay verbatim |
| Webhook.PlaceholderMatch | workers/monitor.ts:280 | with brace-free keys, one key's placeholder occurs inside another's only when the keys are equal |
| Webhook.ReplaceVariablesPlaceholder | workers/monitor.ts:277-284 | a lone placeholder renders as its variable's value, when no earlier key equals it and the value holds no later placeholder |
| Webhook.NoBraceNoPlaceholder | workers/monitor.ts:280 | text without `{` contains no placeholder |
| Webhook.PlaceholderAfterText | workers/monitor.ts:280 | brace-free text followed by one key's placeholder contains no placeholder of a different key |
| Webhook.ReplaceTrailingPlaceholder | workers/monitor.ts:280-281 | brace-free text followed by a placeholder renders as that text followed by the value |
| Webhook.TemplateExampleName | workers/monitor.ts:280-281 | the first substitution of `{{monitor_name}} is {{status}}` for monitor `API` |
| Webhook.TemplateExampleWith | workers/monitor.ts:277-284 | the variables are applied in order: `{{monitor_name}} is {{status}}` becomes `API is down` |
| Webhook.TemplateExample | workers/monitor.ts:277-284 | for a monitor named `API` going down, the template `{{monitor_name}} is {{status}}` renders as `API is down` |
| Webhook.LaterVariablesInert | workers/monitor.ts:277-284 | text without `{` is unchanged by any variable list |
| Webhook.IndexKeys | workers/monitor.ts:289 | an array of n items contributes n distinct keys; key i is non-empty, all digits, without a leading zero, and reads as i, so the keys are exactly `0`, `1`, … |
| Webhook.ProcessValue | workers/monitor.ts:286-300 | the result holds no array. Objects keep exactly their keys, in order, and each value is processed in turn. Arrays become objects keyed `0`, `1`, … whose values are the processed items. String leaves are substituted. Numbers, booleans and null pass through |
| Webhook.ProcessWebhookBody | workers/monitor.ts:286-300 | the template throws exactly when it is JSON null; otherwise the result is an object without arrays, and an object template keeps its keys |
| Webhook.ProcessValueInert | workers/monitor.ts:286-300 | a template with no array and no known placeholder renders to itself |
| Webhook.ProcessValueWellFormed | workers/monitor.ts:286-300 | rendering keeps property names distinct |
| Webhook.Message | workers/monitor.ts:334-336 | the down message is exactly the prefix `🚨 <name> is DOWN! ` followed by the check's error |
| Webhook.DefaultPayload | workers/monitor.ts:325-337 | without a template the payload is an object with exactly the eight fixed fields, in order, with distinct names and no array |
| Webhook.DefaultPayloadValues | workers/monitor.ts:309-337 | the default fields carry the variables' texts (monitor, url, status, timestamp, error), the check's response time and status code as numbers, and the message: for a down transition the prefix followed by the error, for a recovery one that no check changes |
| Webhook.Payload | workers/monitor.ts:322-337 | building the payload fails exactly for a stored template that is JSON null; otherwise the payload is an object without arrays |
| Webhook.BuildHeaders | workers/monitor.ts:320-350 | `Content-Type` is set first. Custom headers override it. `Authorization: Basic …` is added last when a username is set and overrides a custom one. Fails exactly when `btoa` rejects the username |
| Webhook.HeadersFor | workers/monitor.ts:340-350 | a described header map has `Content-Type` and every custom header name, and `Authorization` when a username is set |
| Webhook.HeadersDeterministic | workers/monitor.ts:340-350 | the header description fixes every key and value |
| Webhook.AuthorizationDecodes | workers/monitor.ts:346-349 | the credential after `Basic ` decodes to the username's bytes followed by `:` |
| Webhook.SendWebhookNotification | workers/monitor.ts:302-361 | nothing is built without a webhook URL; otherwise the POST carries the URL, the payload and the header map, unless rendering throws |
| Webhook.Sends | workers/monitor.ts:302-361 | `NoWebhook` exactly when the webhook URL is empty; a POST goes to that URL with an object payload and a described header map |
| Webhook.RenderFault | workers/monitor.ts:320-350 | rendering throws only with a webhook URL: `BodyNotObject` exactly for a stored JSON-null template, `AuthNotLatin1` only when the username has a character above U+00FF |
| Webhook.SendsFault | workers/monitor.ts:302-361 | whether a notification throws depends only on the monitor, never on the check or the transition |
| Webhook.FindMonitor | workers/monitor.ts:440-442 | the monitor found has the requested id; none is found only when no row has it |
| Webhook.TestWebhook | workers/monitor.ts:436-467 | 404 for an unknown monitor; 400 without a webhook URL; otherwise a `down` notification of the synthetic up check (123 ms, 200, no error), answered 200, or 500 when rendering throws |
| Incidents.FirstOpen | workers/monitor.ts:233-237 | the index of the monitor's first unresolved incident, or none when it has none |
| Incidents.DurationSeconds | workers/monitor.ts:258 | whole seconds rounded down; non-negative when the incident started no later than now |
| Incidents.Opened | workers/monitor.ts:232-247 | the table after a down check keeps every row and adds at most one, an unresolved row of the monitor |
| Incidents.Resolved | workers/monitor.ts:249-262 | the table after an up check has the same length and row owners, and other monitors' rows are unchanged |
| Incidents.OpenedInsertsOne | workers/monitor.ts:232-247 | a down check appends exactly one unresolved row (start now, `notified` 0) when none is open, and otherwise changes nothing; afterwards one is open |
| Incidents.ResolvedTouchesOne | workers/monitor.ts:249-262 | an up check changes only the first unresolved row of the monitor, setting its resolution time and duration; every other row, of this or another monitor, is untouched |
| Incidents.OpenedKeepsInvariant | workers/monitor.ts:232-247 | down handling keeps at most one unresolved incident per monitor |
| Incidents.ResolvedKeepsInvariant | workers/monitor.ts:249-262 | up handling keeps at most one unresolved incident per monitor |
| Incidents.ResolvedClosesAll | workers/monitor.ts:249-262 | under the invariant, an up check leaves the monitor with no unresolved incident |
| Incidents.OpenedIdempotent | workers/monitor.ts:232-247 | repeated down checks open a single incident |
| Incidents.DownStepsIdempotent | workers/monitor.ts:232-247 | a second consecutive down check of a monitor leaves incidents and notifications as after the first and only saves its record |
| Incidents.DownThenUp | workers/monitor.ts:232-262 | a down check followed by an up check leaves exactly one resolved incident, with start, resolution and duration |
| Incidents.DownTransition | workers/monitor.ts:232-247 | `handleDownStatus`: checks unchanged; incidents as `Opened`; one `down` notification with the check exactly when no incident was open and a URL is set; it throws the monitor's rendering fault exactly when no incident was open, and never otherwise |
| Incidents.UpTransition | workers/monitor.ts:249-275 | `handleUpStatus(monitor, env)`: checks unchanged; incidents as `Resolved`; one `recovered` notification with the synthetic check (0 ms, 200, no error) exactly when an incident was open and a URL is set; it throws the monitor's rendering fault exactly when an incident was open, and never otherwise |
| Incidents.CheckRecord | workers/monitor.ts:160-202 | the saved check carries the monitor id and finishing instant; it is up exactly for a 2xx response and exactly when its error is empty; a thrown fetch records code 0; the response time is non-negative when the clock did not go back |
| Incidents.Step | workers/monitor.ts:160-209 | corrected `checkMonitor`: it saves the check, then opens (down) or resolves (up) the incident; a down check queues a `down` notification exactly when none was open, an up check a `recovered` one exactly when one was open; it throws exactly when it fires a transition for a monitor whose notification fails to render |
| Incidents.StepAsWritten | workers/monitor.ts:204-208 | `checkMonitor` as written: an up check is saved and then throws, leaving incidents and outbox unchanged |
| Incidents.ActiveMonitors | workers/monitor.ts:146-148 | exactly the active monitors are checked: every one returned is active and in the table, and every active one is returned |
| Incidents.ActiveMonitorsAppend | workers/monitor.ts:146-148 | the query keeps table order: the active monitors of a table split in two are those of the first part followed by those of the second |
| Incidents.Tick | workers/monitor.ts:144-158 | a tick reaches at least one monitor when there is one, and no more monitors than there are |
| Incidents.TickAsWritten | workers/monitor.ts:144-158 | the as-written tick reaches at least one monitor when there is one, and no more monitors than there are |
| Incidents.StepKeepsInvariant | workers/monitor.ts:160-209 | any check keeps at most one unresolved incident per monitor |
| Incidents.TickKeepsInvariant | workers/monitor.ts:144-158 | a whole tick keeps the invariant |
| Incidents.TickSavesReachedChecks | workers/monitor.ts:144-158 | a tick saves the checks of the monitors it reached, in order |
| Incidents.TickReachesAll | workers/monitor.ts:144-158 | when no monitor's notification can throw, a tick reaches every active monitor |
| Incidents.DownFaultEndsTick | workers/monitor.ts:144-158 | with the corrected call, a first monitor that goes down and whose notification throws ends the tick: its check is saved and its incident opened, and no later monitor is checked |
| Incidents.AsWrittenUpEndsTick | workers/monitor.ts:144-158 | as written, an up monitor ends the tick after saving its check; later monitors are not checked |
| Incidents.AsWrittenNeverResolves | workers/monitor.ts:204-208 | as written, no check resolves an incident |
| Incidents.RecoveryResolves | workers/monitor.ts:249-275 | with the intended call, an up check closes the open incident and issues one `recovered` notification with the synthetic check |
| Engine.MonitorStore.HandleDownStatus | workers/monitor.ts:232-247 | updates the store exactly as `DownTransition`: the row is inserted before the notification, and the invariant is kept |
| Engine.MonitorStore.HandleUpStatus | workers/monitor.ts:249-275 | updates the store exactly as `UpTransition`; afterwards the monitor has no unresolved incident |
| Engine.MonitorStore.CheckMonitor | workers/monitor.ts:160-209 | with the corrected call `handleUpStatus(monitor, env)`: returns `CheckRecord` and updates the store exactly as `Step`, keeping the invariant |
| Engine.MonitorStore.CheckAllMonitors | workers/monitor.ts:144-158 | with the corrected call: leaves the store exactly as `Tick` over the active monitors, keeping the invariant |

## Left out

- Network I/O is not modelled. The probe, the webhook POST and its failure (which is logged and swallowed) are inputs or `Dispatch` values.
- `AbortController` and `setTimeout` are not modelled. The fetch is aborted after 30 seconds; such an abort reaches the model as a thrown outcome with its message, so the deadline itself is not represented.
- D1 SQL and KV are in-memory sequences. `saveCheckToKV`, with its one-day expiry, is not modelled because nothing in the core reads it back.
- Storage failures are not modelled. A failing D1 query or KV put (line 213) throws, and the try/catch at lines 145-157 then ends the tick. In the model every storage operation succeeds, so the only exceptions are the rendering faults and the as-written `handleUpStatus` call.
- Concurrency is not modelled. A cron tick and `/trigger` could overlap, and `ctx.waitUntil` schedules the tick.
- The clock is simplified. Instants are integer milliseconds. All clock readings after a probe are collapsed into its finishing instant, where the worker reads `Date.now()` several times.
- Webhook timestamps are rendered as decimal millisecond counts, not ISO-8601 text. ISO formatting and parsing are not modelled.
- `JSON.parse` of the stored body template and custom headers is not modelled. Parsing errors are out of scope. Header values are taken to be strings. JSON numbers are integers. Floating point, and number-to-text beyond integers, are not modelled.
- `JSON.stringify` of the payload is not modelled. The payload is the `Json` value.
- The special `$` patterns of a `String.replace` replacement string are not modelled. Values are inserted literally.
- Objects are handled as plain key sequences. Objects whose keys are integer-like or `__proto__`, and JavaScript's own key reordering, are not modelled.
- Header names are compared case-sensitively, as the object spread does.
- Strings are sequences of Unicode scalar values, while JavaScript strings are sequences of UTF-16 code units. Where the two differ the model does not follow JavaScript. For example, for a top-level string template (line 289) a character above U+FFFF gives one `Object.entries` entry in the model and two in JavaScript. Likewise `btoa` sees such a character as one character above U+00FF, not as two surrogates; it throws in both cases.
- The `if (!results) return` guard in `checkAllMonitors` is not modelled, because the model's monitor query always yields a sequence.
- The request router, the monitor CRUD handlers, static assets, `getStats`, the password endpoints with `bcryptHash`/`bcryptCompare`, the React UI and the HTTP client are not part of this model.
- Incidents.Tick and Incidents.TickAsWritten: their contracts only bound the number of monitors reached. Other lemmas state parts of what a tick does. TickKeepsInvariant covers the incident invariant. TickSavesReachedChecks covers the saved checks. TickReachesAll covers the case where no notification throws. DownFaultEndsTick and AsWrittenUpEndsTick cover a first monitor that throws. The incidents and notifications of a tick that runs past its first monitor are stated only step by step, through Step.

## Findings

| source | as written | input that shows it | evidently intended | confidence | as-written member | corrected member |
|---|---|---|---|---|---|---|
| workers/monitor.ts:207 | `handleUpStatus(monitor, checkData, env)` passes three arguments to a function declared as `(monitor, env)` (line 249). Inside, `env` is the check record, so `env.DB.prepare` throws. The catch in `checkAllMonitors` then ends the tick | any tick whose first active monitor's probe answers 200: the check is saved, the tick stops, and an open incident of that monitor is never resolved (Incidents.AsWrittenUpEndsTick, Incidents.AsWrittenNeverResolves) | `handleUpStatus(monitor, env)`: resolve the open incident, notify `recovered`, continue with the next monitor | high, not executed | Incidents.StepAsWritten | Incidents.Step |
