/** The endpoint's `Shipper`: constructor checks and the static headers, the
    rewriting of each record into the request body, the decision to send the
    current batch, and the retry policy of a POST. The queue, the sender
    thread, the clock, the sleeps and the network are left to the caller: the
    clock is a parameter and the network's answer to each attempt is a
    function of the attempt number. */
module Shipper {
  import opened Wrappers
  import opened JsonValues

  /** A parsed record, a Python dict of JSON-like values. */
  type Record = map<string, Json>

  type Headers = map<string, string>

  const XApiKeyStyle := "x-api-key"
  const BearerStyle := "bearer"

  /** The constructor's arguments after its `int(...)`/`bool(...)` coercions. */
  datatype Config = Config(
    serverUrl: string,
    apiKey: string,
    batchSize: int,
    flushMs: int,
    timeoutS: int,
    useGzip: bool,
    maxRetries: int,
    authStyle: string,
    endpointId: Option<string>,
    includeEndpointInRecords: bool,
    includeEndpointTopLevel: bool,
    userAgent: string,
    timestampAsIso: bool)

  /** The defaults of every argument after the url and the key. */
  function Defaults(serverUrl: string, apiKey: string): (c: Config)
    ensures c.serverUrl == serverUrl && c.apiKey == apiKey
    ensures c.batchSize == 200 && c.flushMs == 5000 && c.timeoutS == 30 && c.maxRetries == 5
    ensures !c.useGzip && !c.timestampAsIso && c.endpointId.None?
    ensures c.authStyle == XApiKeyStyle && c.includeEndpointInRecords && c.includeEndpointTopLevel
  {
    Config(serverUrl, apiKey, 200, 5000, 30, false, 5, XApiKeyStyle, None, true, true, "WiFiEndpoint/1.0", false)
  }

  datatype ConfigError = ServerUrlRequired | ApiKeyRequired | UnknownAuthStyle(style: string)

  /** A constructed shipper: its configuration and the headers sent with every
      request. */
  datatype Shipper = Shipper(config: Config, baseHeaders: Headers)

  /** The constructor: an empty url, then an empty key, then an unknown auth
      style raise `ValueError`, in that order. The auth header is `X-API-Key`
      for the `x-api-key` style and `Authorization: Bearer <key>` for
      `bearer`, never both. */
  function New(c: Config): (r: Result<Shipper, ConfigError>)
    ensures r.Success? <==> c.serverUrl != "" && c.apiKey != "" && (c.authStyle == XApiKeyStyle || c.authStyle == BearerStyle)
    ensures c.serverUrl == "" ==> r == Failure(ServerUrlRequired)
    ensures c.serverUrl != "" && c.apiKey == "" ==> r == Failure(ApiKeyRequired)
    ensures r.Failure? && c.serverUrl != "" && c.apiKey != "" ==> r.error == UnknownAuthStyle(c.authStyle)
    ensures r.Success? ==> var h := r.value.baseHeaders;
      && r.value.config == c
      && h.Keys == {"Content-Type", "Accept", "User-Agent", if c.authStyle == XApiKeyStyle then "X-API-Key" else "Authorization"}
      && h["Content-Type"] == "application/json; charset=utf-8"
      && h["Accept"] == "application/json"
      && h["User-Agent"] == c.userAgent
      && (c.authStyle == XApiKeyStyle ==> h["X-API-Key"] == c.apiKey && "Authorization" !in h)
      && (c.authStyle == BearerStyle ==> h["Authorization"] == "Bearer " + c.apiKey && "X-API-Key" !in h)
  {
    if c.serverUrl == "" then Failure(ServerUrlRequired)
    else if c.apiKey == "" then Failure(ApiKeyRequired)
    else
      var base := map["Content-Type" := "application/json; charset=utf-8", "Accept" := "application/json",
                      "User-Agent" := c.userAgent];
      if c.authStyle == XApiKeyStyle then Success(Shipper(c, base["X-API-Key" := c.apiKey]))
      else if c.authStyle == BearerStyle then Success(Shipper(c, base["Authorization" := "Bearer " + c.apiKey]))
      else Failure(UnknownAuthStyle(c.authStyle))
  }

  // ---------------------------------------------------------------------------
  // The request body

  /** Python's `isinstance(v, (int, float))` and `float(v)`: a number, or a
      boolean, which Python counts as an integer. */
  function NumericValue(v: Json): (x: Option<real>)
    ensures v.JNum? ==> x == Some(v.n)
    ensures x.Some? <==> v.JNum? || v.JBool?
  {
    match v
    case JNum(n) => Some(n)
    case JBool(b) => Some(if b then 1.0 else 0.0)
    case _ => None
  }

  /** `self.endpoint_id` is truthy: set and not empty. */
  predicate HasEndpointId(c: Config)
  {
    c.endpointId.Some? && c.endpointId.value != ""
  }

  /** Whether records lacking `endpoint_id` get the configured one. */
  predicate InjectsEndpoint(c: Config)
  {
    HasEndpointId(c) && c.includeEndpointInRecords
  }

  /** The value the record's time is sent as: its `timestamp`, else its `ts`. */
  function SourceTime(r: Record): Option<Json>
  {
    if "timestamp" in r then Some(r["timestamp"]) else if "ts" in r then Some(r["ts"]) else None
  }

  /** The time as sent: an ISO-8601 string when that option is on and the time
      is numeric, the value itself otherwise. */
  function SentTime(c: Config, toIso: real -> string, t: Json): Json
  {
    if c.timestampAsIso && NumericValue(t).Some? then JStr(toIso(NumericValue(t).value)) else t
  }

  /** One record of `_payload_bytes`, on a copy of the caller's record: `ts`
      becomes `timestamp` unless there is one, the time is converted, and the
      configured endpoint id is added where the record has none, dropping any
      `endpointId`. */
  function OutgoingRecord(c: Config, toIso: real -> string, r: Record): (out: Record)
    ensures "ts" in out <==> "ts" in r && "timestamp" in r
    ensures "ts" in out ==> out["ts"] == r["ts"]
    ensures "timestamp" in out <==> SourceTime(r).Some?
    ensures "timestamp" in out ==> out["timestamp"] == SentTime(c, toIso, SourceTime(r).value)
    ensures "endpoint_id" in out <==> "endpoint_id" in r || InjectsEndpoint(c)
    ensures "endpoint_id" in r ==> out["endpoint_id"] == r["endpoint_id"]
    ensures "endpoint_id" !in r && InjectsEndpoint(c) ==> out["endpoint_id"] == JStr(c.endpointId.value)
    ensures "endpointId" in out <==> "endpointId" in r && ("endpoint_id" in r || !InjectsEndpoint(c))
    ensures "endpointId" in out ==> out["endpointId"] == r["endpointId"]
    ensures forall k :: k in r && k != "ts" && k != "timestamp" && k != "endpoint_id" && k != "endpointId" ==>
      k in out && out[k] == r[k]
    ensures forall k :: k in out ==> k in r || k == "timestamp" || k == "endpoint_id"
  {
    var renamed := if "timestamp" !in r && "ts" in r then (r - {"ts"})["timestamp" := r["ts"]] else r;
    var timed := if "timestamp" in renamed then renamed["timestamp" := SentTime(c, toIso, renamed["timestamp"])] else renamed;
    if InjectsEndpoint(c) && "endpoint_id" !in timed then (timed["endpoint_id" := JStr(c.endpointId.value)]) - {"endpointId"}
    else timed
  }

  /** Rewriting a rewritten record changes nothing: its time is already under
      `timestamp` and no longer numeric once converted, and it already has its
      endpoint id. */
  lemma OutgoingRecordIdempotent(c: Config, toIso: real -> string, r: Record)
    ensures OutgoingRecord(c, toIso, OutgoingRecord(c, toIso, r)) == OutgoingRecord(c, toIso, r)
  {
    var once := OutgoingRecord(c, toIso, r);
    var twice := OutgoingRecord(c, toIso, once);
    if "timestamp" in once {
      var t := SourceTime(r).value;
      if c.timestampAsIso && NumericValue(t).Some? {
        assert NumericValue(once["timestamp"]).None?;
      }
    }
    assert twice.Keys == once.Keys;
  }

  /** `_payload_bytes` before `json.dumps`: the rewritten records in order,
      with a top-level `endpointId` exactly when an id is configured and that
      option is on. */
  function Payload(c: Config, toIso: real -> string, records: seq<Record>): (j: Json)
    ensures j.JObj? && "records" in j.fields && j.fields["records"].JArr?
    ensures |j.fields["records"].items| == |records|
    ensures forall i :: 0 <= i < |records| ==> j.fields["records"].items[i] == JObj(OutgoingRecord(c, toIso, records[i]))
    ensures "endpointId" in j.fields <==> HasEndpointId(c) && c.includeEndpointTopLevel
    ensures "endpointId" in j.fields ==> j.fields["endpointId"] == JStr(c.endpointId.value)
    ensures forall k :: k in j.fields ==> k == "records" || k == "endpointId"
  {
    var items := seq(|records|, i requires 0 <= i < |records| => JObj(OutgoingRecord(c, toIso, records[i])));
    var payload := map["records" := JArr(items)];
    if HasEndpointId(c) && c.includeEndpointTopLevel then JObj(payload["endpointId" := JStr(c.endpointId.value)])
    else JObj(payload)
  }

  /** The headers of a POST: the static ones, and `Content-Encoding: gzip`
      when the body is compressed. */
  function RequestHeaders(s: Shipper): (h: Headers)
    ensures "Content-Encoding" in h <==> s.config.useGzip || "Content-Encoding" in s.baseHeaders
    ensures s.config.useGzip ==> h["Content-Encoding"] == "gzip"
    ensures forall k :: k in s.baseHeaders && k != "Content-Encoding" ==> k in h && h[k] == s.baseHeaders[k]
  {
    if s.config.useGzip then s.baseHeaders["Content-Encoding" := "gzip"] else s.baseHeaders
  }

  // ---------------------------------------------------------------------------
  // Batching

  /** The records waiting to be sent and the time of the last flush, in
      seconds. */
  datatype Batcher = Batcher(batch: seq<Record>, lastFlush: real)

  /** A batcher after a send decision, and the records handed to the POST
      (none when nothing was sent). */
  datatype SendStep = SendStep(state: Batcher, posted: seq<Record>)

  /** `add`: a record joins the queue while the shipper runs, and is dropped
      after `close`. */
  function Enqueue(running: bool, queue: seq<Record>, r: Record): (q: seq<Record>)
    ensures running ==> q == queue + [r]
    ensures !running ==> q == queue
  {
    if running then queue + [r] else queue
  }

  /** `_send_if_needed` at time `now`: an empty batch is never sent (a forced
      call still restarts the flush clock); otherwise the whole batch goes out
      when forced, full, or older than `flush_ms`. */
  function SendIfNeeded(c: Config, st: Batcher, force: bool, now: real): (r: SendStep)
    ensures r.posted + r.state.batch == st.batch
    ensures r.posted == [] || r.posted == st.batch
    ensures r.posted != [] <==>
      |st.batch| > 0 && (force || |st.batch| >= c.batchSize || (now - st.lastFlush) * 1000.0 >= c.flushMs as real)
    ensures r.state.lastFlush == if r.posted != [] || (force && st.batch == []) then now else st.lastFlush
  {
    var timeToFlush := (now - st.lastFlush) * 1000.0 >= c.flushMs as real;
    if st.batch == [] then
      SendStep(if force then Batcher([], now) else st, [])
    else if !(force || |st.batch| >= c.batchSize || timeToFlush) then
      SendStep(st, [])
    else
      SendStep(Batcher([], now), st.batch)
  }

  /** `flush`: the queue is drained into the batch and the result is sent,
      whatever its size or age. */
  function Flush(c: Config, st: Batcher, queue: seq<Record>, now: real): (r: SendStep)
    ensures r.posted == st.batch + queue
    ensures r.state == Batcher([], now)
  {
    SendIfNeeded(c, Batcher(st.batch + queue, st.lastFlush), true, now)
  }

  /** Records are never lost or reordered by a send decision: what is posted,
      followed by what stays, is the batch. */
  lemma SendKeepsOrder(c: Config, st: Batcher, force: bool, now: real, i: int)
    requires 0 <= i < |st.batch|
    ensures var r := SendIfNeeded(c, st, force, now);
      (|r.posted| > 0 ==> r.posted[i] == st.batch[i]) && (|r.posted| == 0 ==> r.state.batch[i] == st.batch[i])
  {
  }

  // ---------------------------------------------------------------------------
  // The retry policy of `_post_records`

  /** What one attempt of `urlopen` produces: a response with its status, an
      `HTTPError` with its code, a `URLError` without one, or a timeout. */
  datatype Outcome = Responded(status: int) | HttpFailure(code: int) | Unreachable | TimedOut

  predicate Succeeded(o: Outcome)
  {
    o.Responded? && 200 <= o.status < 300
  }

  /** A non-2xx response is raised as an `HTTPError` with its status; a 4xx
      other than 408, 409 and 429 is not retried, everything else is. */
  predicate Retriable(o: Outcome)
  {
    var code := if o.Responded? then Some(o.status) else if o.HttpFailure? then Some(o.code) else None;
    !(code.Some? && 400 <= code.value < 500 && code.value != 408 && code.value != 409 && code.value != 429)
  }

  /** The pause before the retry that follows the `k`-th failure, counting
      from 0: 0.5 seconds, doubled each time up to 8. */
  function Backoff(k: nat): (b: real)
  {
    if k == 0 then 0.5
    else if Backoff(k - 1) * 2.0 < 8.0 then Backoff(k - 1) * 2.0 else 8.0
  }

  function Pow2(k: nat): (p: nat)
    ensures p >= 1
  {
    if k == 0 then 1 else 2 * Pow2(k - 1)
  }

  /** The pauses double from half a second and stay at 8 seconds from the
      fifth on. */
  lemma {:induction false} BackoffValues(k: nat)
    ensures 0.5 <= Backoff(k) <= 8.0
    ensures k <= 4 ==> Backoff(k) == 0.5 * Pow2(k) as real
    ensures k >= 4 ==> Backoff(k) == 8.0
  {
    if k > 0 {
      BackoffValues(k - 1);
    }
  }

  /** What a POST came to: the attempts made, whether one succeeded, and the
      pauses taken between attempts. */
  datatype Delivery = Delivery(attempts: nat, delivered: bool, sleeps: seq<real>)

  function Max(a: int, b: int): int
  {
    if a >= b then a else b
  }

  /** The attempts from number `attempt` on, with `backoff` the pause before
      the next one. The answer to attempt `i` is `network(i)`. */
  function Attempts(network: nat -> Outcome, maxRetries: int, attempt: nat, backoff: real): (d: Delivery)
    requires attempt >= 1 && backoff == Backoff(attempt - 1)
    ensures attempt <= d.attempts <= Max(attempt, maxRetries)
    ensures d.delivered <==> Succeeded(network(d.attempts))
    ensures forall i :: attempt <= i < d.attempts ==> !Succeeded(network(i)) && Retriable(network(i))
    ensures !d.delivered ==> !Retriable(network(d.attempts)) || d.attempts >= maxRetries
    ensures |d.sleeps| == d.attempts - attempt
    ensures forall j :: 0 <= j < |d.sleeps| ==> d.sleeps[j] == Backoff(attempt - 1 + j)
    decreases Max(maxRetries - attempt, 0)
  {
    var o := network(attempt);
    if Succeeded(o) then Delivery(attempt, true, [])
    else if !Retriable(o) || attempt >= maxRetries then Delivery(attempt, false, [])
    else
      var next := if backoff * 2.0 < 8.0 then backoff * 2.0 else 8.0;
      var rest := Attempts(network, maxRetries, attempt + 1, next);
      Delivery(rest.attempts, rest.delivered, [backoff] + rest.sleeps)
  }

  /** `_post_records`: nothing is sent for no records; otherwise attempts go
      on until one succeeds, one fails for good, or `max_retries` attempts
      (at least one) have been made. */
  function PostRecords(records: seq<Record>, maxRetries: int, network: nat -> Outcome): (d: Delivery)
    ensures records == [] ==> d == Delivery(0, false, [])
    ensures records != [] ==> 1 <= d.attempts <= Max(1, maxRetries)
    ensures records != [] ==> (d.delivered <==> Succeeded(network(d.attempts)))
    ensures records != [] ==> forall i :: 1 <= i < d.attempts ==> !Succeeded(network(i)) && Retriable(network(i))
  {
    if records == [] then Delivery(0, false, [])
    else Attempts(network, maxRetries, 1, 0.5)
  }

  /** A batch is delivered or dropped after at most `max(1, max_retries)`
      attempts, and every pause lies between half a second and 8 seconds. */
  lemma PostRecordsBounded(records: seq<Record>, maxRetries: int, network: nat -> Outcome)
    requires records != []
    ensures var d := PostRecords(records, maxRetries, network);
      && d.attempts <= Max(1, maxRetries)
      && |d.sleeps| == d.attempts - 1
      && forall j :: 0 <= j < |d.sleeps| ==> 0.5 <= d.sleeps[j] <= 8.0
  {
    var d := PostRecords(records, maxRetries, network);
    forall j | 0 <= j < |d.sleeps| ensures 0.5 <= d.sleeps[j] <= 8.0 {
      BackoffValues(j);
    }
  }

  // ---------------------------------------------------------------------------
  // The shipper's test cases, as lemmas

  /** An empty url or key is refused; a url and a key are enough. */
  lemma ConstructorRequiresUrlAndKey()
    ensures New(Defaults("", "abc")) == Failure(ServerUrlRequired)
    ensures New(Defaults("http://example.com", "")) == Failure(ApiKeyRequired)
    ensures New(Defaults("http://example.com", "abc").(flushMs := 10)).Success?
  {
  }

  /** Each auth style sets its own header and not the other. */
  lemma AuthHeaderStyles()
    ensures var s := New(Defaults("http://example.com", "KEY123").(flushMs := 10));
      s.Success? && s.value.baseHeaders["X-API-Key"] == "KEY123" && "Authorization" !in s.value.baseHeaders
    ensures var s := New(Defaults("http://example.com", "TOKEN456").(authStyle := BearerStyle, flushMs := 10));
      s.Success? && s.value.baseHeaders["Authorization"] == "Bearer TOKEN456" && "X-API-Key" !in s.value.baseHeaders
  {
  }

  /** With an endpoint id, the body carries it at the top and in every
      record, beside the record's own fields. */
  lemma PayloadInjectsEndpoint(toIso: real -> string)
    ensures var c := Defaults("http://example.com/api/wifi", "abc").(endpointId := Some("ep-123"), flushMs := 10);
      var records := [map["mac" := JStr("aa:bb:cc:dd:ee:ff"), "rssi" := JNum(-50.0), "timestamp" := JNum(100.0)],
                      map["mac" := JStr("11:22:33:44:55:66"), "rssi" := JNum(-60.0), "timestamp" := JNum(101.0)]];
      var p := Payload(c, toIso, records);
      && |p.fields["records"].items| == 2
      && p.fields["endpointId"] == JStr("ep-123")
      && forall i :: 0 <= i < 2 ==> var rec := p.fields["records"].items[i].fields;
        rec["endpoint_id"] == JStr("ep-123") && "mac" in rec && "rssi" in rec && "timestamp" in rec
  {
  }

  /** A `ts` field is sent as `timestamp`, converted to a string when that
      option is on. */
  lemma PayloadRenamesTs(toIso: real -> string)
    ensures var c := Defaults("http://example.com/api/wifi", "abc").(timestampAsIso := true, flushMs := 10);
      var records := [map["mac" := JStr("aa:bb:cc:dd:ee:ff"), "rssi" := JNum(-50.0), "ts" := JNum(1700000000.0)]];
      var rec := Payload(c, toIso, records).fields["records"].items[0].fields;
      "ts" !in rec && "timestamp" in rec && rec["timestamp"] == JStr(toIso(1700000000.0))
  {
  }

  /** A 2xx answer ends the POST after one attempt. */
  lemma PostSucceedsOnce()
    ensures PostRecords([map[]], 3, _ => Responded(201)) == Delivery(1, true, [])
  {
  }

  /** A 500 is retried until `max_retries` attempts have failed. */
  lemma PostRetriesOn500()
    ensures PostRecords([map[]], 3, _ => HttpFailure(500)) == Delivery(3, false, [0.5, 1.0])
  {
  }

  /** A 400 is not retried. */
  lemma PostDoesNotRetryOn400()
    ensures PostRecords([map[]], 5, _ => HttpFailure(400)) == Delivery(1, false, [])
  {
  }
}
