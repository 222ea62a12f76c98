/** The endpoint's heartbeat sender: the status url, the request headers, the
    heartbeat body with its UTC timestamp, and the shaping of the server's
    answer. The HTTP client, the host name and the clock are parameters; the
    boot and steady-state loops of `main` are left out. */
module SendStatus {
  import opened Wrappers
  import opened Text
  import opened JsonValues
  import Shipper
  import EndpointConfig

  type Headers = map<string, string>

  const StatusRoute := "api/endpoint/status"

  /** `build_status_url`: the base with every trailing slash removed, one
      slash, and the status route. This is what `urljoin` gives for a base of
      a relatively resolved scheme, a host and a path without empty, `.` or
      `..` segments, query or fragment; other bases are rewritten by it. */
  function StatusUrl(baseUrl: string): (r: string)
    ensures |r| == |StripTrailing(baseUrl, '/')| + 1 + |StatusRoute|
    ensures StartsWith(baseUrl, r[..|r| - |StatusRoute| - 1])
    ensures r[|r| - |StatusRoute| - 1] == '/' && r[|r| - |StatusRoute|..] == StatusRoute
    ensures forall i :: |r| - |StatusRoute| - 1 <= i < |baseUrl| ==> baseUrl[i] == '/'
  {
    var base := StripTrailing(baseUrl, '/');
    var r := base + "/" + StatusRoute;
    assert r[..|base|] == base;
    assert r[|base| + 1..] == StatusRoute;
    r
  }

  /** A base that does not end in a slash is kept whole. */
  lemma StatusUrlOfPlainBase(baseUrl: string)
    requires |baseUrl| == 0 || baseUrl[|baseUrl| - 1] != '/'
    ensures StatusUrl(baseUrl) == baseUrl + "/" + StatusRoute
  {
  }

  /** However many slashes end the base, the url is the same. */
  lemma StatusUrlIgnoresTrailingSlashes(baseUrl: string, k: nat)
    ensures StatusUrl(baseUrl + Repeat('/', k)) == StatusUrl(baseUrl)
  {
    StripTrailingAbsorbs(baseUrl, '/', k);
  }

  /** The three bases of the url test: with or without a final slash, the
      route follows the host after exactly one slash. */
  lemma StatusUrlExamples()
    ensures StatusUrl("http://example.com") == "http://example.com" + "/" + StatusRoute
    ensures StatusUrl("http://example.com/") == StatusUrl("http://example.com")
    ensures StatusUrl("https://myhost:3000") == "https://myhost:3000" + "/" + StatusRoute
  {
    StatusUrlOfPlainBase("http://example.com");
    StatusUrlIgnoresTrailingSlashes("http://example.com", 1);
    assert "http://example.com" + Repeat('/', 1) == "http://example.com/";
    StatusUrlOfPlainBase("https://myhost:3000");
  }

  /** `make_headers`: JSON content, the key under `x-api-key`, and a user
      agent that extends the shipper's default one. */
  function MakeHeaders(apiKey: string): (h: Headers)
    ensures h.Keys == {"Content-Type", "x-api-key", "User-Agent"}
    ensures h["Content-Type"] == "application/json"
    ensures h["x-api-key"] == apiKey
    ensures StartsWith(h["User-Agent"], Shipper.Defaults("", "").userAgent)
  {
    map["Content-Type" := "application/json", "x-api-key" := apiKey, "User-Agent" := "WiFiEndpoint/1.0 status"]
  }

  /** The header test: content type, key, and a `WiFiEndpoint` user agent. */
  lemma HeadersExample()
    ensures var h := MakeHeaders("TEST_API_KEY_123");
      h["Content-Type"] == "application/json" && h["x-api-key"] == "TEST_API_KEY_123"
      && StartsWith(h["User-Agent"], "WiFiEndpoint")
  {
    var ua := MakeHeaders("TEST_API_KEY_123")["User-Agent"];
    assert ua[..12] == Shipper.Defaults("", "").userAgent[..12];
  }

  // ---------------------------------------------------------------------------
  // The heartbeat body

  /** A `time.gmtime()` reading, the fields `%Y %m %d %H %M %S` format. */
  datatype UtcTime = UtcTime(year: nat, month: nat, day: nat, hour: nat, minute: nat, second: nat)

  /** `%Y`/`%m`/...: `n` in decimal, left-padded with zeros to `w` digits. */
  function Pad(n: nat, w: nat): (r: string)
  {
    var d := Decimal(n);
    if |d| >= w then d else Repeat('0', w - |d|) + d
  }

  /** The padded digits read back as `n`. */
  lemma PadValue(n: nat, w: nat)
    ensures AllDigits(Pad(n, w)) && DigitsValue(Pad(n, w)) == n
  {
    var d := Decimal(n);
    if |d| < w {
      LeadingZeros(w - |d|, d);
      assert Pad(n, w) == Repeat('0', w - |d|) + d;
    } else {
      assert Pad(n, w) == d;
    }
  }

  /** A number of at most `w` digits is padded to exactly `w` places. */
  lemma PadWidth(n: nat, w: nat)
    requires w >= 1 && n < Pow10Nat(w)
    ensures |Pad(n, w)| == w
  {
    DecimalWidth(n, w);
  }

  /** One fixed-width run of digits and the character that follows it. */
  datatype Field = Field(width: nat, after: char)

  /** `%Y-%m-%dT%H:%M:%SZ`. */
  const StampLayout := [Field(4, '-'), Field(2, '-'), Field(2, 'T'), Field(2, ':'), Field(2, ':'), Field(2, 'Z')]

  /** The values written one after another, each padded to its width and
      followed by its separator. */
  function Render(values: seq<nat>, layout: seq<Field>): (s: string)
    requires |values| == |layout|
    decreases |layout|
  {
    if |layout| == 0 then []
    else Pad(values[0], layout[0].width) + [layout[0].after] + Render(values[1..], layout[1..])
  }

  /** The regular expression of a layout: exactly `width` digits then the
      separator, for each field in turn, and nothing else. */
  predicate Matches(s: string, layout: seq<Field>)
    decreases |layout|
  {
    if |layout| == 0 then s == []
    else
      var w := layout[0].width;
      w + 1 <= |s| && AllDigits(s[..w]) && s[w] == layout[0].after && Matches(s[w + 1..], layout[1..])
  }

  /** The value of each digit run of a matching string. */
  function Scan(s: string, layout: seq<Field>): (values: seq<nat>)
    requires Matches(s, layout)
    ensures |values| == |layout|
    decreases |layout|
  {
    if |layout| == 0 then []
    else
      var w := layout[0].width;
      [DigitsValue(s[..w])] + Scan(s[w + 1..], layout[1..])
  }

  /** Every value fits its field. */
  predicate Fits(values: seq<nat>, layout: seq<Field>)
    requires |values| == |layout|
  {
    forall i :: 0 <= i < |layout| ==> layout[i].width >= 1 && values[i] < Pow10Nat(layout[i].width)
  }

  /** A run, one separator and the rest, taken apart again. */
  lemma SplitAt(p: string, c: char, rest: string)
    ensures var s := p + [c] + rest;
      s[..|p|] == p && s[|p|] == c && s[|p| + 1..] == rest
  {
    var s := p + [c] + rest;
    assert s[..|p|] == p;
    assert s[|p| + 1..] == rest;
  }

  lemma FitsTail(values: seq<nat>, layout: seq<Field>)
    requires |values| == |layout| > 0 && Fits(values, layout)
    ensures Fits(values[1..], layout[1..])
    ensures layout[0].width >= 1 && values[0] < Pow10Nat(layout[0].width)
  {
    forall i | 0 <= i < |layout[1..]|
      ensures layout[1..][i].width >= 1 && values[1..][i] < Pow10Nat(layout[1..][i].width)
    {
      assert layout[1..][i] == layout[i + 1];
    }
  }

  /** Values that fit render to a string of the layout's shape, and scanning
      it gives the values back. */
  lemma {:induction false} RenderMatches(values: seq<nat>, layout: seq<Field>)
    requires |values| == |layout| && Fits(values, layout)
    ensures Matches(Render(values, layout), layout)
    ensures Scan(Render(values, layout), layout) == values
    decreases |layout|
  {
    if |layout| > 0 {
      var w := layout[0].width;
      FitsTail(values, layout);
      var p := Pad(values[0], w);
      PadValue(values[0], w);
      PadWidth(values[0], w);
      var rest := Render(values[1..], layout[1..]);
      var s := Render(values, layout);
      assert s == p + [layout[0].after] + rest;
      SplitAt(p, layout[0].after, rest);
      RenderMatches(values[1..], layout[1..]);
      assert Matches(s, layout);
      assert Scan(s, layout) == [values[0]] + values[1..];
      assert values == [values[0]] + values[1..];
    }
  }

  /** The heartbeat's `timestamp`. */
  function Stamp(t: UtcTime): (s: string)
  {
    Render([t.year, t.month, t.day, t.hour, t.minute, t.second], StampLayout)
  }

  /** For a four-digit year and two-digit other fields (as `gmtime` gives),
      the timestamp has the shape `YYYY-MM-DDTHH:MM:SSZ` and its digit runs
      read back as the fields. */
  lemma StampShape(t: UtcTime)
    requires t.year < 10000 && t.month < 100 && t.day < 100
    requires t.hour < 100 && t.minute < 100 && t.second < 100
    ensures Matches(Stamp(t), StampLayout)
    ensures Scan(Stamp(t), StampLayout) == [t.year, t.month, t.day, t.hour, t.minute, t.second]
  {
    assert Pow10Nat(2) == 100 && Pow10Nat(4) == 10000;
    RenderMatches([t.year, t.month, t.day, t.hour, t.minute, t.second], StampLayout);
  }

  /** The heartbeat's four fields. */
  function HeartbeatFields(endpointId: Json, status: Json, timestamp: Json, hostname: Json): (m: map<string, Json>)
    ensures m.Keys == {"endpoint_id", "status", "timestamp", "hostname"}
    ensures m["endpoint_id"] == endpointId && m["status"] == status
    ensures m["timestamp"] == timestamp && m["hostname"] == hostname
  {
    map["endpoint_id" := endpointId, "status" := status, "timestamp" := timestamp, "hostname" := hostname]
  }

  /** `build_payload`: the endpoint's id, status `online`, the time of
      sending and the machine's host name. */
  function Payload(endpointId: string, now: UtcTime, hostname: string): (p: Json)
    ensures p.JObj? && p.fields.Keys == {"endpoint_id", "status", "timestamp", "hostname"}
    ensures p.fields["endpoint_id"] == JStr(endpointId) && p.fields["status"] == JStr("online")
    ensures p.fields["hostname"] == JStr(hostname)
    ensures p.fields["timestamp"] == JStr(Stamp(now))
  {
    JObj(HeartbeatFields(JStr(endpointId), JStr("online"), JStr(Stamp(now)), JStr(hostname)))
  }

  /** The payload test: with host `test-host`, the id and status are echoed
      and the timestamp ends in `Z` with the expected shape. */
  lemma PayloadExample()
    ensures var p := Payload("endpoint-123", UtcTime(2025, 11, 23, 14, 5, 22), "test-host");
      && p.fields["endpoint_id"] == JStr("endpoint-123") && p.fields["status"] == JStr("online")
      && p.fields["hostname"] == JStr("test-host")
      && p.fields["timestamp"].JStr?
      && Matches(p.fields["timestamp"].s, StampLayout)
      && Scan(p.fields["timestamp"].s, StampLayout) == [2025, 11, 23, 14, 5, 22]
  {
    StampShape(UtcTime(2025, 11, 23, 14, 5, 22));
  }

  // ---------------------------------------------------------------------------
  // The answer

  /** `(ok, status_code, body)` as `try_send` returns them. */
  datatype SendResult = SendResult(ok: bool, code: int, body: string)

  const BodyLimit := 500

  /** `try_send` after the POST: success is a 2xx status, which reports no
      body; otherwise the first 500 characters of the response text. */
  function TrySend(status: int, text: string): (r: SendResult)
    ensures r.code == status
    ensures r.ok <==> 200 <= status < 300
    ensures r.ok ==> r.body == ""
    ensures !r.ok ==> |r.body| <= BodyLimit && StartsWith(text, r.body)
    ensures !r.ok && |text| <= BodyLimit ==> r.body == text
    ensures !r.ok && |text| > BodyLimit ==> |r.body| == BodyLimit
  {
    var ok := 200 <= status < 300;
    SendResult(ok, status, if ok then "" else if |text| <= BodyLimit then text else text[..BodyLimit])
  }

  /** The heartbeat and the record shipper agree on what a successful
      response is. */
  lemma TrySendAgreesWithShipper(status: int, text: string)
    ensures TrySend(status, text).ok <==> Shipper.Succeeded(Shipper.Responded(status))
  {
  }

  /** The two answer tests: a 201 is ok with an empty body; a 500 is not, and
      its short text is reported whole. */
  lemma TrySendExamples()
    ensures TrySend(201, "Created") == SendResult(true, 201, "")
    ensures var r := TrySend(500, "Internal Server Error");
      !r.ok && r.code == 500 && r.body == "Internal Server Error"
  {
  }

  // ---------------------------------------------------------------------------
  // What `main` reads from the settings before its first heartbeat

  /** A text attribute of the settings record, looked up by its Python name:
      `None` where Python raises `AttributeError`. */
  function Attribute(c: EndpointConfig.Config, name: string): (v: Option<string>)
    ensures v.Some? <==> name in {"endpoint_id", "WLAN_iface", "server_URL", "api_key", "log_level", "update_channel"}
  {
    if name == "endpoint_id" then Some(c.endpointId)
    else if name == "WLAN_iface" then Some(c.wlanIface)
    else if name == "server_URL" then Some(c.serverUrl)
    else if name == "api_key" then Some(c.apiKey)
    else if name == "log_level" then Some(c.logLevel)
    else if name == "update_channel" then Some(c.updateChannel)
    else None
  }

  /** The record's fields are found under the names the record declares. */
  lemma AttributesOfRecord(c: EndpointConfig.Config)
    ensures Attribute(c, "server_URL") == Some(c.serverUrl)
    ensures Attribute(c, "api_key") == Some(c.apiKey)
    ensures Attribute(c, "endpoint_id") == Some(c.endpointId)
  {
  }

  /** The status url, the headers and the interval `main` posts with. */
  datatype Setup = Setup(statusUrl: string, headers: Headers, interval: int)

  /** The start of `main` as written: the base url is read from the
      attribute `server_url`; the failure names the attribute that is
      missing. */
  function MainSetupAsWritten(c: EndpointConfig.Config): (r: Result<Setup, string>)
    ensures r.Failure? ==> r.error == "server_url"
  {
    match Attribute(c, "server_url")
    case None => Failure("server_url")
    case Some(base) => Success(Setup(StatusUrl(base), MakeHeaders(c.apiKey), c.heartbeatSec))
  }

  /** The settings record spells the field `server_URL`, so every
      configuration that loads stops `main` before its first heartbeat. */
  lemma MainSetupAsWrittenFails(env: EndpointConfig.Env)
    ensures EndpointConfig.LoadConfig(env).Success? ==>
      MainSetupAsWritten(EndpointConfig.LoadConfig(env).value) == Failure("server_url")
  {
  }

  /** The start of `main` reading the field the record declares. */
  function MainSetup(c: EndpointConfig.Config): (r: Result<Setup, string>)
    ensures r.Success?
    ensures r.value.interval == c.heartbeatSec
    ensures "x-api-key" in r.value.headers && r.value.headers["x-api-key"] == c.apiKey
    ensures var u := r.value.statusUrl;
      |u| > |StatusRoute| && StartsWith(c.serverUrl, u[..|u| - |StatusRoute| - 1])
      && u[|u| - |StatusRoute| - 1..] == "/" + StatusRoute
  {
    match Attribute(c, "server_URL")
    case None => Failure("server_URL")
    case Some(base) => Success(Setup(StatusUrl(base), MakeHeaders(c.apiKey), c.heartbeatSec))
  }

  /** With the correction, every configuration that loads gives `main` a
      status url under its server, the configured key and the configured
      interval. */
  lemma MainSetupAfterLoad(env: EndpointConfig.Env)
    ensures EndpointConfig.LoadConfig(env).Success? ==>
      var c := EndpointConfig.LoadConfig(env).value;
      && MainSetup(c).Success?
      && MainSetup(c).value.statusUrl == StatusUrl(c.serverUrl)
      && MainSetup(c).value.headers["x-api-key"] != ""
      && MainSetup(c).value.interval == c.heartbeatSec
  {
  }
}
