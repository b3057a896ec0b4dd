/**
 * Webhook rendering of the monitor worker (workers/monitor.ts):
 * `replaceVariables`, `processWebhookBody`, the default payload and header
 * map built by `sendWebhookNotification`, and the `testWebhook` endpoint.
 * The POST itself is left to the network: a rendered notification is a
 * `Dispatch`, and a delivery failure, which the worker logs and swallows,
 * has no effect the model could show.
 */
module Webhook {
  import opened Wrappers
  import opened Text
  import opened Base64
  import opened Json
  import opened MonitorTypes

  // ---------------------------------------------------------------------
  // Template variables and their substitution

  /** The `{{key}}` text a template uses to refer to a variable. */
  function Placeholder(key: string): (p: string)
    ensures |p| == |key| + 4
  {
    "{{" + key + "}}"
  }

  /** Instants are rendered as their decimal millisecond count. */
  function Timestamp(ms: int): string {
    IntToString(ms)
  }

  /** The variables of a notification, in the order `Object.entries` yields them. */
  function Variables(m: Monitor, check: MonitorCheck, kind: Transition): (vs: seq<(string, string)>)
    ensures |vs| == 7
    ensures vs[0].0 == "monitor_name" && vs[1].0 == "monitor_url" && vs[2].0 == "status"
    ensures vs[3].0 == "error" && vs[4].0 == "timestamp"
    ensures vs[5].0 == "response_time" && vs[6].0 == "status_code"
    ensures forall i :: 0 <= i < 7 ==> BraceFree(vs[i].0)
    ensures forall i, j :: 0 <= i < j < 7 ==> vs[i].0 != vs[j].0
    ensures vs[2].1 == TransitionName(kind) && vs[3].1 == check.errorMessage
  {
    [ ("monitor_name", m.name),
      ("monitor_url", m.url),
      ("status", TransitionName(kind)),
      ("error", check.errorMessage),
      ("timestamp", Timestamp(check.checkedAt)),
      ("response_time", IntToString(check.responseTime)),
      ("status_code", NatToString(check.statusCode)) ]
  }

  /**
   * `replaceVariables`: for each variable in turn, every `{{key}}` of the
   * current text is replaced by the value, so a value inserted by one
   * variable is itself subject to the variables after it.
   */
  function ReplaceVariables(template: string, vars: seq<(string, string)>): (r: string)
    ensures (forall i :: 0 <= i < |vars| ==> vars[i].1 == Placeholder(vars[i].0)) ==> r == template
    decreases |vars|
  {
    if vars == [] then template
    else
      ReplaceAllSelf(template, Placeholder(vars[0].0));
      assert forall i :: 0 <= i < |vars[1..]| ==> vars[1..][i] == vars[i + 1];
      ReplaceVariables(ReplaceAll(template, Placeholder(vars[0].0), vars[0].1), vars[1..])
  }

  predicate BraceFree(key: string) {
    forall i :: 0 <= i < |key| ==> key[i] != '{' && key[i] != '}'
  }

  /** No placeholder of any of the variables occurs in `s`. */
  predicate NoPlaceholderOf(s: string, vars: seq<(string, string)>) {
    forall i :: 0 <= i < |vars| ==> !Occurs(s, Placeholder(vars[i].0))
  }

  /** Text without a known placeholder is returned unchanged; unknown placeholders stay verbatim. */
  lemma {:induction false} ReplaceVariablesUnchanged(s: string, vars: seq<(string, string)>)
    requires NoPlaceholderOf(s, vars)
    ensures ReplaceVariables(s, vars) == s
    decreases |vars|
  {
    if vars != [] {
      assert !Occurs(s, Placeholder(vars[0].0));
      ReplaceAllNoMatch(s, Placeholder(vars[0].0), vars[0].1);
      assert forall i :: 0 <= i < |vars[1..]| ==> vars[1..][i] == vars[i + 1];
      ReplaceVariablesUnchanged(s, vars[1..]);
    }
  }

  /** With brace-free keys, the placeholder of one key occurs in that of another only if the keys are equal. */
  lemma PlaceholderMatch(j: string, k: string, i: int)
    requires BraceFree(j) && BraceFree(k)
    ensures MatchAt(Placeholder(j), Placeholder(k), i) ==> j == k
  {
    var s, p := Placeholder(j), Placeholder(k);
    if MatchAt(s, p, i) {
      assert s[i..i + |p|] == p;
      assert forall x :: 2 <= x < |j| + 2 ==> s[x] == j[x - 2];
      assert forall x :: 2 <= x < |s| ==> s[x] != '{';
      assert s[i + 1] == p[1] == '{';
      assert i == 0;
      assert forall x :: 2 <= x < |j| + 2 ==> s[x] != '}';
      assert s[|k| + 2] == p[|k| + 2] == '}';
      assert |k| == |j|;
      assert s == p;
      assert j == s[2..|j| + 2] == k;
    }
  }

  /**
   * A placeholder standing alone becomes its variable's value when the keys
   * are brace-free, no earlier key equals it, and the value holds no
   * placeholder of a later variable.
   */
  lemma {:induction false} ReplaceVariablesPlaceholder(vars: seq<(string, string)>, n: nat)
    requires n < |vars|
    requires forall i :: 0 <= i < |vars| ==> BraceFree(vars[i].0)
    requires forall i :: 0 <= i < n ==> vars[i].0 != vars[n].0
    requires forall i :: n < i < |vars| ==> !Occurs(vars[n].1, Placeholder(vars[i].0))
    ensures ReplaceVariables(Placeholder(vars[n].0), vars) == vars[n].1
    decreases n
  {
    var p := Placeholder(vars[n].0);
    var p0 := Placeholder(vars[0].0);
    assert forall i :: 0 <= i < |vars[1..]| ==> vars[1..][i] == vars[i + 1];
    if n == 0 {
      ReplaceAllLeftmost([], [], p, vars[0].1);
      assert [] + p + [] == p;
      assert ReplaceAll(p, p, vars[0].1) == vars[0].1;
      ReplaceVariablesUnchanged(vars[0].1, vars[1..]);
    } else {
      forall i ensures !MatchAt(p, p0, i) {
        PlaceholderMatch(vars[n].0, vars[0].0, i);
      }
      ReplaceAllNoMatch(p, p0, vars[0].1);
      ReplaceVariablesPlaceholder(vars[1..], n - 1);
    }
  }

  predicate NoOpenBrace(s: string) {
    forall i :: 0 <= i < |s| ==> s[i] != '{'
  }

  /** Text without an opening brace holds no placeholder. */
  lemma NoBraceNoPlaceholder(s: string, k: string)
    requires NoOpenBrace(s)
    ensures !Occurs(s, Placeholder(k))
  {
    var p := Placeholder(k);
    forall i | 0 <= i <= |s| - |p| ensures !MatchAt(s, p, i) {
      assert s[i..i + |p|][0] == s[i];
    }
  }

  /** After brace-free text, the placeholder of one key holds no placeholder of another. */
  lemma PlaceholderAfterText(a: string, j: string, k: string)
    requires NoOpenBrace(a) && BraceFree(j) && BraceFree(k) && j != k
    ensures !Occurs(a + Placeholder(j), Placeholder(k))
  {
    var s, p := a + Placeholder(j), Placeholder(k);
    forall i | 0 <= i <= |s| - |p| ensures !MatchAt(s, p, i) {
      NoMatchAfterText(a, j, k, i);
    }
  }

  lemma NoMatchAfterText(a: string, j: string, k: string, i: nat)
    requires NoOpenBrace(a) && BraceFree(j) && BraceFree(k) && j != k
    ensures !MatchAt(a + Placeholder(j), Placeholder(k), i)
  {
    var s, p, q := a + Placeholder(j), Placeholder(k), Placeholder(j);
    if i + |p| <= |s| {
      if i < |a| {
        assert p[0] == '{';
        assert s[i..i + |p|][0] == a[i];
      } else {
        var off := i - |a|;
        PlaceholderMatch(j, k, off);
        assert !MatchAt(q, p, off);
        assert s[i..i + |p|] == q[off..off + |p|];
      }
    }
  }

  /** Text without an opening brace followed by a placeholder: the placeholder is replaced. */
  lemma ReplaceTrailingPlaceholder(a: string, k: string, v: string)
    requires NoOpenBrace(a)
    ensures ReplaceAll(a + Placeholder(k), Placeholder(k), v) == a + v
  {
    var p := Placeholder(k);
    var s := a + p;
    forall i | 0 <= i < |a| ensures !MatchAt(s, p, i) {
      assert s[i..i + |p|][0] == s[i] == a[i];
    }
    ReplaceAllSkip(a, p, p, v);
    assert p[..|p|] == p && p[|p|..] == [];
    assert ReplaceAll(p, p, v) == v + [] == v;
  }

  /** `{{monitor_name}} is {{status}}` after its first variable, for monitor "API". */
  lemma TemplateExampleName()
    ensures ReplaceAll("{{monitor_name}} is {{status}}", Placeholder("monitor_name"), "API")
      == "API is " + Placeholder("status")
  {
    var name, rest := Placeholder("monitor_name"), " is " + Placeholder("status");
    assert "{{monitor_name}} is {{status}}" == [] + name + rest;
    ReplaceAllLeftmost([], rest, name, "API");
    PlaceholderAfterText(" is ", "status", "monitor_name");
    ReplaceAllNoMatch(rest, name, "API");
  }

  /** A template of the documented form: `{{monitor_name}} is {{status}}` for monitor "API" going down. */
  lemma TemplateExample(m: Monitor, check: MonitorCheck)
    requires m.name == "API"
    ensures ReplaceVariables("{{monitor_name}} is {{status}}", Variables(m, check, WentDown)) == "API is down"
  {
    var s2 := "API is " + "down";
    assert s2 == "API is down";
    TemplateExampleWith(Variables(m, check, WentDown), m.url,
      "{{monitor_name}} is {{status}}", "API is " + Placeholder("status"), s2);
  }

  lemma TemplateExampleWith(vars: seq<(string, string)>, url: string, s0: string, s1: string, s2: string)
    requires |vars| >= 3
    requires vars[0] == ("monitor_name", "API") && vars[1] == ("monitor_url", url) && vars[2] == ("status", "down")
    requires s0 == "{{monitor_name}} is {{status}}" && s1 == "API is " + Placeholder("status")
    requires s2 == "API is " + "down"
    ensures ReplaceVariables(s0, vars) == s2
  {
    assert vars[1..][1..] == vars[2..];
    assert vars[2..][1..] == vars[3..];
    TemplateExampleName();
    PlaceholderAfterText("API is ", "status", "monitor_url");
    ReplaceAllNoMatch(s1, Placeholder("monitor_url"), url);
    ReplaceTrailingPlaceholder("API is ", "status", "down");
    ReplaceVariablesFirst(s0, vars, s1);
    ReplaceVariablesFirst(s1, vars[1..], s1);
    ReplaceVariablesFirst(s1, vars[2..], s2);
    LaterVariablesInert(s2, vars[3..]);
  }

  /** Applying a variable list is applying its first variable, then the rest. */
  lemma ReplaceVariablesFirst(s: string, vars: seq<(string, string)>, t: string)
    requires vars != [] && ReplaceAll(s, Placeholder(vars[0].0), vars[0].1) == t
    ensures ReplaceVariables(s, vars) == ReplaceVariables(t, vars[1..])
  {
  }

  /** Text without an opening brace passes through any variable list unchanged. */
  lemma LaterVariablesInert(s: string, vars: seq<(string, string)>)
    requires NoOpenBrace(s)
    ensures ReplaceVariables(s, vars) == s
  {
    forall i | 0 <= i < |vars| ensures !Occurs(s, Placeholder(vars[i].0)) {
      NoBraceNoPlaceholder(s, vars[i].0);
    }
    ReplaceVariablesUnchanged(s, vars);
  }

  // ---------------------------------------------------------------------
  // processWebhookBody

  /** The keys `Object.entries` reports for an array of `n` items: "0", "1", ... */
  function IndexKeys(n: nat): (ks: seq<string>)
    ensures |ks| == n
    ensures forall i :: 0 <= i < n ==> AllDigits(ks[i]) && ParseDigits(ks[i]) == i
    ensures forall i, j :: 0 <= i < j < n ==> ks[i] != ks[j]
    ensures forall i :: 0 <= i < n ==> |ks[i]| >= 1 && (ks[i][0] == '0' ==> |ks[i]| == 1)
  {
    ParseNatToStringBelow(n);
    seq(n, i requires 0 <= i < n => NatToString(i))
  }

  /**
   * The walk `processWebhookBody` performs on a value of the template:
   * strings are substituted, objects and arrays (which are objects too)
   * are rebuilt key by key as fresh objects, and other leaves are kept.
   */
  function ProcessValue(v: Json, vars: seq<(string, string)>): (r: Json)
    ensures NoArrays(r)
    ensures v.JObject? ==> r.JObject? && Keys(r.fields) == Keys(v.fields)
    ensures v.JObject? ==> forall i :: 0 <= i < |v.fields| ==> r.fields[i].1 == ProcessValue(v.fields[i].1, vars)
    ensures v.JArray? ==> r.JObject? && Keys(r.fields) == IndexKeys(|v.items|)
    ensures v.JArray? ==> forall i :: 0 <= i < |v.items| ==> r.fields[i].1 == ProcessValue(v.items[i], vars)
    ensures v.JString? ==> r == JString(ReplaceVariables(v.s, vars))
    ensures v.JNull? || v.JBool? || v.JNumber? ==> r == v
    decreases v
  {
    match v
    case JString(s) => JString(ReplaceVariables(s, vars))
    case JObject(fields) =>
      JObject(seq(|fields|, i requires 0 <= i < |fields| => (fields[i].0, ProcessValue(fields[i].1, vars))))
    case JArray(items) =>
      JObject(seq(|items|, i requires 0 <= i < |items| => (NatToString(i), ProcessValue(items[i], vars))))
    case _ => v
  }

  /**
   * `processWebhookBody(JSON.parse(webhook_body), variables)`: the entries of
   * the parsed value are walked into a fresh object. `Object.entries` throws
   * on null (None here), lists a string's characters under "0", "1", ... and
   * finds nothing in a number or a boolean.
   */
  function ProcessWebhookBody(body: Json, vars: seq<(string, string)>): (r: Option<Json>)
    ensures r.None? <==> body == JNull
    ensures r.Some? ==> r.value.JObject? && NoArrays(r.value)
    ensures body.JObject? ==> r.Some? && Keys(r.value.fields) == Keys(body.fields)
  {
    match body
    case JNull => None
    case JObject(_) => Some(ProcessValue(body, vars))
    case JArray(_) => Some(ProcessValue(body, vars))
    case JString(s) =>
      Some(JObject(seq(|s|, i requires 0 <= i < |s| => (NatToString(i), JString(ReplaceVariables([s[i]], vars))))))
    case _ => Some(JObject([]))
  }

  /** Strings of the tree that hold no placeholder of the variables. */
  predicate Inert(v: Json, vars: seq<(string, string)>)
    decreases v
  {
    match v
    case JString(s) => NoPlaceholderOf(s, vars)
    case JArray(_) => false
    case JObject(fields) => forall i :: 0 <= i < |fields| ==> Inert(fields[i].1, vars)
    case _ => true
  }

  /** A template without arrays and without known placeholders renders to itself. */
  lemma {:induction false} ProcessValueInert(v: Json, vars: seq<(string, string)>)
    requires Inert(v, vars)
    ensures ProcessValue(v, vars) == v
    decreases v
  {
    match v
    case JString(s) => ReplaceVariablesUnchanged(s, vars);
    case JObject(fields) =>
      forall i | 0 <= i < |fields| ensures ProcessValue(fields[i].1, vars) == fields[i].1 {
        ProcessValueInert(fields[i].1, vars);
      }
      assert ProcessValue(v, vars).fields == fields;
    case _ =>
  }

  /** Rendering keeps property names distinct: an array's index keys are distinct texts. */
  lemma {:induction false} ProcessValueWellFormed(v: Json, vars: seq<(string, string)>)
    requires WellFormed(v)
    ensures WellFormed(ProcessValue(v, vars))
    decreases v
  {
    var r := ProcessValue(v, vars);
    match v
    case JObject(fields) =>
      forall i | 0 <= i < |fields| ensures WellFormed(r.fields[i].1) {
        ProcessValueWellFormed(fields[i].1, vars);
      }
      assert forall i :: 0 <= i < |fields| ==> r.fields[i].0 == fields[i].0;
    case JArray(items) =>
      forall i | 0 <= i < |items| ensures WellFormed(r.fields[i].1) {
        ProcessValueWellFormed(items[i], vars);
      }
      forall i, j | 0 <= i < j < |items| ensures r.fields[i].0 != r.fields[j].0 {
        NatToStringInjective(i, j);
      }
    case _ =>
  }

  // ---------------------------------------------------------------------
  // The payload

  /** The text the `down` message starts with, before the error. */
  function DownPrefix(m: Monitor): string {
    "\U{1F6A8} " + m.name + " is DOWN! "
  }

  /** The `message` field: the error is appended to a `down` message and absent from a `recovered` one. */
  function Message(m: Monitor, check: MonitorCheck, kind: Transition): (s: string)
    ensures kind == WentDown ==>
      |s| == |DownPrefix(m)| + |check.errorMessage| &&
      s[..|DownPrefix(m)|] == DownPrefix(m) && s[|DownPrefix(m)|..] == check.errorMessage
  {
    match kind
    case WentDown => DownPrefix(m) + check.errorMessage
    case Recovered => "\U{2705} " + m.name + " is back UP!"
  }

  /** The payload sent when the monitor has no body template. */
  function DefaultPayload(m: Monitor, check: MonitorCheck, kind: Transition): (p: Json)
    ensures p.JObject? && NoArrays(p) && WellFormed(p)
    ensures Keys(p.fields) ==
      ["monitor", "url", "status", "timestamp", "response_time", "status_code", "error", "message"]
  {
    JObject([ ("monitor", JString(m.name)),
              ("url", JString(m.url)),
              ("status", JString(TransitionName(kind))),
              ("timestamp", JString(Timestamp(check.checkedAt))),
              ("response_time", JNumber(check.responseTime)),
              ("status_code", JNumber(check.statusCode)),
              ("error", JString(check.errorMessage)),
              ("message", JString(Message(m, check, kind))) ])
  }

  /**
   * The default payload's values: the variables' texts, the check's numbers,
   * and a message naming the error for `down` and independent of the check
   * for `recovered`.
   */
  lemma DefaultPayloadValues(m: Monitor, check: MonitorCheck, kind: Transition, other: MonitorCheck)
    ensures var f, vars := DefaultPayload(m, check, kind).fields, Variables(m, check, kind);
      && f[0].1 == JString(vars[0].1) && f[1].1 == JString(vars[1].1)
      && f[2].1 == JString(vars[2].1) && f[3].1 == JString(vars[4].1)
      && f[4].1 == JNumber(check.responseTime) && f[5].1 == JNumber(check.statusCode)
      && f[6].1 == JString(vars[3].1)
      && (kind == WentDown ==>
            && f[7].1.JString?
            && f[7].1.s[..|DownPrefix(m)|] == DownPrefix(m)
            && f[7].1.s[|DownPrefix(m)|..] == check.errorMessage)
      && (kind == Recovered ==>
            && f[7].1 == JString("\U{2705} " + m.name + " is back UP!")
            && f[7].1 == DefaultPayload(m, other, kind).fields[7].1)
  {
  }

  /** The payload of a notification; None when rendering the template throws. */
  function Payload(m: Monitor, check: MonitorCheck, kind: Transition): (r: Option<Json>)
    ensures r.None? <==> m.webhookBody == Some(JNull)
    ensures r.Some? ==> r.value.JObject? && NoArrays(r.value)
  {
    match m.webhookBody
    case None => Some(DefaultPayload(m, check, kind))
    case Some(body) => ProcessWebhookBody(body, Variables(m, check, kind))
  }

  // ---------------------------------------------------------------------
  // Headers

  const ContentTypeHeader := "Content-Type"
  const AuthorizationHeader := "Authorization"
  const DefaultContentType := "application/json"

  function ContentType(m: Monitor): string {
    if m.webhookContentType != "" then m.webhookContentType else DefaultContentType
  }

  /** `Basic ` followed by btoa(username + ":"), or None when btoa throws. */
  function BasicAuth(username: string): Option<string> {
    match Btoa(username + ":")
    case None => None
    case Some(encoded) => Some("Basic " + encoded)
  }

  /**
   * The header map of a notification: Content-Type first, the custom headers
   * merged over it, and Authorization over both when a username is set.
   */
  predicate HeadersFor(m: Monitor, h: map<string, string>)
    ensures HeadersFor(m, h) ==> ContentTypeHeader in h && m.webhookHeaders.Keys <= h.Keys
    ensures HeadersFor(m, h) && m.webhookUsername != "" ==> AuthorizationHeader in h
  {
    var auth := m.webhookUsername != "";
    && h.Keys == {ContentTypeHeader} + m.webhookHeaders.Keys + (if auth then {AuthorizationHeader} else {})
    && (ContentTypeHeader !in m.webhookHeaders ==> h[ContentTypeHeader] == ContentType(m))
    && (forall k :: k in m.webhookHeaders && !(auth && k == AuthorizationHeader) ==>
          k in h && h[k] == m.webhookHeaders[k])
    && (auth ==> BasicAuth(m.webhookUsername) == Some(h[AuthorizationHeader]))
  }

  /** The header map is built step by step, as `sendWebhookNotification` does. */
  method BuildHeaders(m: Monitor) returns (r: Result<map<string, string>, Fault>)
    ensures r.Failure? <==> m.webhookUsername != "" && BasicAuth(m.webhookUsername).None?
    ensures r.Failure? ==> r.error == AuthNotLatin1
    ensures r.Success? ==> HeadersFor(m, r.value)
  {
    var headers: map<string, string> := map[];
    headers := headers[ContentTypeHeader := ContentType(m)];
    headers := headers + m.webhookHeaders;
    if m.webhookUsername != "" {
      var encoded := Btoa(m.webhookUsername + ":");
      if encoded.None? {
        return Failure(AuthNotLatin1);
      }
      headers := headers[AuthorizationHeader := "Basic " + encoded.value];
    }
    return Success(headers);
  }

  /** HeadersFor leaves no choice: it fixes every key and every value. */
  lemma HeadersDeterministic(m: Monitor, h1: map<string, string>, h2: map<string, string>)
    requires HeadersFor(m, h1) && HeadersFor(m, h2)
    ensures h1 == h2
  {
    forall k | k in h1 ensures h1[k] == h2[k] {
      if m.webhookUsername != "" && k == AuthorizationHeader {
        assert Some(h1[k]) == Some(h2[k]);
      }
    }
  }

  /** The Authorization credential decodes to the username, a colon and an empty password. */
  lemma AuthorizationDecodes(m: Monitor, h: map<string, string>)
    requires HeadersFor(m, h) && m.webhookUsername != ""
    ensures var a := h[AuthorizationHeader];
      && |a| >= 6 && a[..6] == "Basic "
      && Decode(a[6..]) == Latin1(m.webhookUsername + ":")
  {
    var a := h[AuthorizationHeader];
    var e := Btoa(m.webhookUsername + ":").value;
    assert a == "Basic " + e;
    assert a[6..] == e;
    BtoaRoundTrip(m.webhookUsername + ":");
  }

  // ---------------------------------------------------------------------
  // sendWebhookNotification

  datatype Dispatch =
    | NoWebhook                                                   // no webhook URL: nothing is built
    | Post(url: string, headers: map<string, string>, payload: Json)
    | RenderThrew(fault: Fault)                                   // rendering threw before the POST

  /** `d` is what `sendWebhookNotification(m, check, kind)` produces. */
  predicate Sends(m: Monitor, check: MonitorCheck, kind: Transition, d: Dispatch)
    ensures Sends(m, check, kind, d) ==> (d.NoWebhook? <==> m.webhookUrl == "")
    ensures Sends(m, check, kind, d) && d.Post? ==>
      d.url == m.webhookUrl && d.payload.JObject? && HeadersFor(m, d.headers)
  {
    if m.webhookUrl == "" then d == NoWebhook
    else match Payload(m, check, kind)
      case None => d == RenderThrew(BodyNotObject)
      case Some(p) =>
        if m.webhookUsername != "" && BasicAuth(m.webhookUsername).None? then d == RenderThrew(AuthNotLatin1)
        else d.Post? && d.url == m.webhookUrl && d.payload == p && HeadersFor(m, d.headers)
  }

  method SendWebhookNotification(m: Monitor, check: MonitorCheck, kind: Transition) returns (d: Dispatch)
    ensures Sends(m, check, kind, d)
  {
    if m.webhookUrl == "" {
      return NoWebhook;
    }
    var payload := Payload(m, check, kind);
    if payload.None? {
      return RenderThrew(BodyNotObject);
    }
    var headers := BuildHeaders(m);
    if headers.Failure? {
      return RenderThrew(headers.error);
    }
    d := Post(m.webhookUrl, headers.value, payload.value);
  }

  /** The exception rendering a notification for `m` throws, if any. */
  function RenderFault(m: Monitor): (r: Option<Fault>)
    ensures r.Some? ==> m.webhookUrl != ""
    ensures r == Some(BodyNotObject) <==> m.webhookUrl != "" && m.webhookBody == Some(JNull)
    ensures r == Some(AuthNotLatin1) ==>
      exists i :: 0 <= i < |m.webhookUsername| && m.webhookUsername[i] as int >= 256
    ensures r.Some? ==> r == Some(BodyNotObject) || r == Some(AuthNotLatin1)
  {
    if m.webhookUrl == "" then None
    else if m.webhookBody == Some(JNull) then Some(BodyNotObject)
    else if m.webhookUsername != "" && BasicAuth(m.webhookUsername).None? then Some(AuthNotLatin1)
    else None
  }

  /** Whether a notification throws depends only on the monitor, never on the check or the transition. */
  lemma SendsFault(m: Monitor, check: MonitorCheck, kind: Transition, d: Dispatch)
    requires Sends(m, check, kind, d)
    ensures d.NoWebhook? <==> m.webhookUrl == ""
    ensures d.RenderThrew? <==> RenderFault(m).Some?
    ensures d.RenderThrew? ==> d.fault == RenderFault(m).value
  {
  }

  // ---------------------------------------------------------------------
  // testWebhook

  /** `SELECT * FROM monitors WHERE id = ?` then `.first()`. */
  function FindMonitor(table: seq<Monitor>, id: string): (r: Option<Monitor>)
    ensures r.Some? ==> r.value in table && r.value.id == id
    ensures r.None? ==> forall i :: 0 <= i < |table| ==> table[i].id != id
    decreases |table|
  {
    if table == [] then None
    else if table[0].id == id then Some(table[0])
    else FindMonitor(table[1..], id)
  }

  /** The synthetic up check `testWebhook` renders. */
  function TestCheck(m: Monitor, now: int): MonitorCheck {
    MonitorCheck(m.id, Up, 123, 200, "", now)
  }

  /**
   * `testWebhook`: 404 for an unknown monitor, 400 without a webhook URL,
   * otherwise a `down` notification rendered from the synthetic up check,
   * answered with 200, or 500 when rendering throws.
   */
  method TestWebhook(table: seq<Monitor>, monitorId: string, now: int) returns (status: nat, d: Dispatch)
    ensures FindMonitor(table, monitorId).None? ==> status == 404 && d == NoWebhook
    ensures FindMonitor(table, monitorId).Some? ==>
      var m := FindMonitor(table, monitorId).value;
      && (m.webhookUrl == "" ==> status == 400 && d == NoWebhook)
      && (m.webhookUrl != "" ==> Sends(m, TestCheck(m, now), WentDown, d))
      && (m.webhookUrl != "" ==> status == if d.RenderThrew? then 500 else 200)
  {
    var found := FindMonitor(table, monitorId);
    if found.None? {
      return 404, NoWebhook;
    }
    var m := found.value;
    if m.webhookUrl == "" {
      return 400, NoWebhook;
    }
    d := SendWebhookNotification(m, TestCheck(m, now), WentDown);
    status := if d.RenderThrew? then 500 else 200;
  }
}
