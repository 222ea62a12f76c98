/** The endpoint's configuration: the settings record and its defaults,
    Python's `int()` on a setting's text, the https check on the server url,
    and `load_config`, which reads the environment (a map from variable to
    value) and either builds the record or names what is wrong. */
module EndpointConfig {
  import opened Wrappers
  import opened Text

  /** The environment variables the endpoint reads, named as in its `.env`
      file. */
  datatype Var =
    | ENDPOINT_ID | WLAN_IFACE | SERVER_URL | API_KEY
    | LOG_LEVEL | UPDATE_CHANNEL | HEARTBEAT_SEC | BATCH_MAX | BATCH_INTERVAL_SEC

  /** The process environment: the variables that are set, with their text. */
  type Env = map<Var, string>

  /** The endpoint's settings, as `load_config` returns them. */
  datatype Config = Config(
    endpointId: string,
    wlanIface: string,
    serverUrl: string,
    apiKey: string,
    logLevel: string,
    updateChannel: string,
    heartbeatSec: int,
    batchMax: int,
    batchInterval: int)

  /** The record with every optional field at its declared default. */
  function WithDefaults(endpointId: string, wlanIface: string, serverUrl: string, apiKey: string): (c: Config)
    ensures c.endpointId == endpointId && c.wlanIface == wlanIface
    ensures c.serverUrl == serverUrl && c.apiKey == apiKey
    ensures c.logLevel == "INFO" && c.updateChannel == "stable"
    ensures c.heartbeatSec == 30 && c.batchMax == 200 && c.batchInterval == 5
  {
    Config(endpointId, wlanIface, serverUrl, apiKey, "INFO", "stable", 30, 200, 5)
  }

  /** The `ValueError`s of this module. */
  datatype ConfigError =
    | NotAnInteger(name: Var, value: string)
    | MissingSettings(keys: seq<Var>)
    | InvalidIpv6Url
    | NotHttpsUrl

  // ---------------------------------------------------------------------------
  // `int(value)`

  /** The ASCII characters `str.strip()` and `int()` treat as white space. */
  predicate IsSpace(c: char)
  {
    c == ' ' || '\t' <= c <= '\r' || '\U{1c}' <= c <= '\U{1f}'
  }

  predicate AllSpace(s: string)
  {
    forall i :: 0 <= i < |s| ==> IsSpace(s[i])
  }

  /** `s` without its leading white space. */
  function TrimStart(s: string): (r: string)
    ensures |r| <= |s| && r == s[|s| - |r|..]
    ensures |r| == 0 || !IsSpace(r[0])
    ensures forall k :: 0 <= k < |s| - |r| ==> IsSpace(s[k])
  {
    if |s| > 0 && IsSpace(s[0]) then TrimStart(s[1..]) else s
  }

  /** `s` without its trailing white space. */
  function TrimEnd(s: string): (r: string)
    ensures |r| <= |s| && r == s[..|r|]
    ensures |r| == 0 || !IsSpace(r[|r| - 1])
    ensures forall k :: |r| <= k < |s| ==> IsSpace(s[k])
  {
    if |s| > 0 && IsSpace(s[|s| - 1]) then TrimEnd(s[..|s| - 1]) else s
  }

  /** Leading white space is dropped up to the first other character. */
  lemma {:induction false} TrimStartSpaces(pre: string, x: string)
    requires AllSpace(pre) && |x| > 0 && !IsSpace(x[0])
    ensures TrimStart(pre + x) == x
    decreases |pre|
  {
    if |pre| > 0 {
      assert (pre + x)[1..] == pre[1..] + x;
      TrimStartSpaces(pre[1..], x);
    } else {
      assert pre + x == x;
    }
  }

  /** Trailing white space is dropped back to the last other character. */
  lemma {:induction false} TrimEndSpaces(x: string, post: string)
    requires AllSpace(post) && |x| > 0 && !IsSpace(x[|x| - 1])
    ensures TrimEnd(x + post) == x
    decreases |post|
  {
    if |post| > 0 {
      assert (x + post)[..|x + post| - 1] == x + post[..|post| - 1];
      TrimEndSpaces(x, post[..|post| - 1]);
    } else {
      assert x + post == x;
    }
  }

  /** Digits in groups separated by single underscores, as an integer
      literal allows them. */
  predicate IsDigitGroups(s: string)
  {
    && |s| > 0 && IsDigit(s[0]) && IsDigit(s[|s| - 1])
    && (forall i :: 0 <= i < |s| ==> IsDigit(s[i]) || s[i] == '_')
    && (forall i :: 0 <= i < |s| - 1 && s[i] == '_' ==> s[i + 1] != '_')
  }

  /** The digits of a literal with its underscores removed. */
  function DropUnderscores(s: string): (r: string)
    requires forall i :: 0 <= i < |s| ==> IsDigit(s[i]) || s[i] == '_'
    ensures AllDigits(r) && |r| <= |s|
    ensures AllDigits(s) ==> r == s
  {
    if |s| == 0 then []
    else
      var rest := DropUnderscores(s[1..]);
      if s[0] == '_' then rest else [s[0]] + rest
  }

  /** `str.strip()`. */
  function Trim(s: string): string
  {
    TrimEnd(TrimStart(s))
  }

  /** A character `int()` may accept besides white space. */
  predicate IsIntChar(c: char)
  {
    IsDigit(c) || c == '+' || c == '-' || c == '_'
  }

  /** What `int()` accepts once the white space is gone: an optional sign,
      then digit groups. */
  function ReadInt(t: string): (r: Option<int>)
    ensures r.Some? ==> forall k :: 0 <= k < |t| ==> IsIntChar(t[k])
  {
    var signed := |t| > 0 && (t[0] == '+' || t[0] == '-');
    var body := if signed then t[1..] else t;
    if !IsDigitGroups(body) then None
    else
      assert forall k :: 0 <= k < |t| ==> IsIntChar(t[k]) by {
        forall k | 0 <= k < |t|
          ensures IsIntChar(t[k])
        {
          if signed && k > 0 {
            assert t[k] == body[k - 1];
          }
        }
      }
      assert forall i :: 0 <= i < |body| ==> IsDigit(body[i]) || body[i] == '_';
      var magnitude := DigitsValue(DropUnderscores(body));
      var value := if t[0] == '-' then -(magnitude as int) else magnitude;
      Some(value)
  }

  /** `int(text)` in base 10: `None` where Python raises `ValueError`. */
  function IntText(text: string): Option<int>
  {
    ReadInt(Trim(text))
  }

  /** A character other than white space survives `strip()`, shifted by
      the white space removed before it. */
  lemma TrimPosition(text: string, k: nat)
    requires k < |text| && !IsSpace(text[k])
    ensures var off := |text| - |TrimStart(text)|;
      off <= k && k - off < |Trim(text)| && Trim(text)[k - off] == text[k]
  {
    var t0 := TrimStart(text);
    var t := TrimEnd(t0);
    var j := k - (|text| - |t0|);
    assert 0 <= j < |t0| && t0[j] == text[k];
    assert j < |t|;
    assert t[j] == t0[j];
  }

  /** Only white space, digits, signs and underscores can make up a text
      `int()` accepts: a letter anywhere makes it raise. */
  lemma IntTextChars(text: string)
    ensures IntText(text).Some? ==> forall k :: 0 <= k < |text| ==> IsSpace(text[k]) || IsIntChar(text[k])
  {
    if IntText(text).Some? {
      forall k | 0 <= k < |text| && !IsSpace(text[k])
        ensures IsIntChar(text[k])
      {
        TrimPosition(text, k);
      }
    }
  }

  /** `str(n)`. */
  function IntString(n: int): (s: string)
  {
    if n < 0 then "-" + Decimal(-n) else Decimal(n)
  }

  /** The decimal text of an integer reads back as that integer. */
  lemma ReadIntString(n: int)
    ensures ReadInt(IntString(n)) == Some(n)
  {
    var d := if n < 0 then Decimal(-n) else Decimal(n);
    if n < 0 {
      assert IntString(n)[1..] == d;
    }
    assert IsDigitGroups(d);
  }

  /** White space around a text that neither starts nor ends with it is
      stripped exactly. */
  lemma TrimAround(pre: string, s: string, post: string)
    requires AllSpace(pre) && AllSpace(post)
    requires |s| > 0 && !IsSpace(s[0]) && !IsSpace(s[|s| - 1])
    ensures Trim(pre + s + post) == s
  {
    TrimStartSpaces(pre, s + post);
    assert pre + s + post == pre + (s + post);
    TrimEndSpaces(s, post);
  }

  /** Whatever white space surrounds it, the decimal text of an integer reads
      back as that integer. */
  lemma IntTextRoundTrip(n: int, pre: string, post: string)
    requires AllSpace(pre) && AllSpace(post)
    ensures IntText(pre + IntString(n) + post) == Some(n)
  {
    var s := IntString(n);
    var d := if n < 0 then Decimal(-n) else Decimal(n);
    assert s[|s| - 1] == d[|d| - 1];
    TrimAround(pre, s, post);
    ReadIntString(n);
  }

  /** `_as_int(name, value, default)`: the default when the variable is
      unset, otherwise `int(value)`, whose failure is reported with the
      variable's name and text. */
  function AsInt(name: Var, value: Option<string>, default: int): (r: Result<int, ConfigError>)
    ensures value.None? ==> r == Success(default)
    ensures value.Some? ==> (r.Success? <==> IntText(value.value).Some?)
    ensures value.Some? && r.Success? ==> r.value == IntText(value.value).value
    ensures r.Failure? ==> r.error == NotAnInteger(name, value.value)
  {
    match value
    case None => Success(default)
    case Some(text) =>
      match IntText(text)
      case None => Failure(NotAnInteger(name, text))
      case Some(n) => Success(n)
  }

  /** The three `_as_int` examples: unset, `"5"`, and `"fast"` (the
      variable named in the error is immaterial). */
  lemma AsIntExamples()
    ensures AsInt(HEARTBEAT_SEC, None, 30) == Success(30)
    ensures AsInt(HEARTBEAT_SEC, Some("5"), 30) == Success(5)
    ensures AsInt(HEARTBEAT_SEC, Some("fast"), 30) == Failure(NotAnInteger(HEARTBEAT_SEC, "fast"))
  {
    IntTextRoundTrip(5, "", "");
    assert "" + IntString(5) + "" == "5";
    IntTextChars("fast");
    assert "fast"[0] == 'f';
  }

  // ---------------------------------------------------------------------------
  // `_validate_https`

  predicate IsAsciiLetter(c: char)
  {
    'a' <= c <= 'z' || 'A' <= c <= 'Z'
  }

  /** The characters a url scheme may hold. */
  predicate IsSchemeChar(c: char)
  {
    IsAsciiLetter(c) || IsDigit(c) || c == '+' || c == '-' || c == '.'
  }

  /** The position of the first `c` in `s`. */
  function FirstIndex(s: string, c: char): (r: Option<nat>)
    ensures r.None? <==> Lacks(s, c)
    ensures r.Some? ==> r.value < |s| && s[r.value] == c && Lacks(s[..r.value], c)
  {
    if |s| == 0 then None
    else if s[0] == c then Some(0)
    else
      match FirstIndex(s[1..], c)
      case None => None
      case Some(i) =>
        assert s[..i + 1] == [s[0]] + s[1..][..i];
        Some(i + 1)
  }

  /** The length of the longest prefix of `s` free of `stops`. */
  function Until(s: string, stops: set<char>): (r: nat)
    ensures r <= |s|
    ensures forall i :: 0 <= i < r ==> s[i] !in stops
    ensures r < |s| ==> s[r] in stops
  {
    if |s| == 0 || s[0] in stops then 0 else 1 + Until(s[1..], stops)
  }

  /** The characters that end a url's network location. */
  const NetlocStops: set<char> := {'/', '?', '#'}

  /** The scheme and network location `urlparse` finds. */
  datatype UrlParts = UrlParts(scheme: string, netloc: string)

  /** `urlparse`'s scheme and network location: the scheme is the text before
      the first colon, in lower case, when it starts with a letter and holds
      only scheme characters; the location follows a `//` after it and runs
      to the first `/`, `?` or `#`. */
  function SplitUrl(url: string): (r: UrlParts)
    ensures r.scheme == "" || (0 < |r.scheme| < |url| && url[|r.scheme|] == ':')
  {
    var colon := FirstIndex(url, ':');
    var hasScheme := colon.Some? && colon.value > 0 && IsAsciiLetter(url[0])
      && forall j :: 0 <= j < colon.value ==> IsSchemeChar(url[j]);
    var scheme := if hasScheme then Lower(url[..colon.value]) else "";
    var rest := if hasScheme then url[colon.value + 1..] else url;
    var netloc := if StartsWith(rest, "//") then rest[2..][..Until(rest[2..], NetlocStops)] else "";
    UrlParts(scheme, netloc)
  }

  /** `urlparse` refuses a location with one square bracket but not the
      other. */
  predicate UnbalancedBrackets(netloc: string)
  {
    (!Lacks(netloc, '[') && Lacks(netloc, ']')) || (!Lacks(netloc, ']') && Lacks(netloc, '['))
  }

  /** `_validate_https`: the url must split, and have the `https` scheme and
      a non-empty location. */
  function ValidateHttps(url: string): (e: Option<ConfigError>)
    ensures e.None? <==> var p := SplitUrl(url);
      !UnbalancedBrackets(p.netloc) && p.scheme == "https" && p.netloc != ""
    ensures e.Some? ==> e.value == InvalidIpv6Url || e.value == NotHttpsUrl
  {
    var p := SplitUrl(url);
    if UnbalancedBrackets(p.netloc) then Some(InvalidIpv6Url)
    else if p.scheme != "https" || p.netloc == "" then Some(NotHttpsUrl)
    else None
  }

  /** A url with no colon has no scheme, so it is refused. */
  lemma NoSchemeRejected(url: string)
    requires Lacks(url, ':')
    ensures ValidateHttps(url).Some?
  {
  }

  /** The text after `scheme:` when the scheme is well formed. */
  lemma SplitScheme(scheme: string, rest: string)
    requires |scheme| > 0 && IsAsciiLetter(scheme[0])
    requires forall j :: 0 <= j < |scheme| ==> IsSchemeChar(scheme[j])
    ensures var p := SplitUrl(scheme + ":" + rest);
      && p.scheme == Lower(scheme)
      && p.netloc == (if StartsWith(rest, "//") then rest[2..][..Until(rest[2..], NetlocStops)] else "")
  {
    var url := scheme + ":" + rest;
    assert Lacks(scheme, ':');
    var colon := FirstIndex(url, ':');
    assert url[|scheme|] == ':';
    assert forall i :: 0 <= i < |scheme| ==> url[i] == scheme[i];
    assert colon.Some? && colon.value == |scheme|;
    assert url[..|scheme|] == scheme;
    assert url[|scheme| + 1..] == rest;
  }

  /** The location runs to the first `/`, `?` or `#`. */
  lemma NetlocOf(host: string, tail: string)
    requires forall i :: 0 <= i < |host| ==> host[i] !in NetlocStops
    requires |tail| == 0 || tail[0] in NetlocStops
    ensures var rest := "//" + host + tail; rest[2..][..Until(rest[2..], NetlocStops)] == host
  {
    var rest := "//" + host + tail;
    assert rest[2..] == host + tail;
    var u := Until(host + tail, NetlocStops);
    assert forall i :: 0 <= i < |host| ==> (host + tail)[i] == host[i];
    assert |tail| > 0 ==> (host + tail)[|host|] == tail[0];
    assert u == |host|;
    assert (host + tail)[..|host|] == host;
  }

  /** An https url with a host is accepted, whatever the case of the scheme,
      and whatever path, query or fragment follows the host. */
  lemma HttpsAccepted(scheme: string, host: string, tail: string)
    requires Lower(scheme) == "https"
    requires host != "" && Lacks(host, '[') && Lacks(host, ']')
    requires forall i :: 0 <= i < |host| ==> host[i] !in NetlocStops
    requires |tail| == 0 || tail[0] in NetlocStops
    ensures ValidateHttps(scheme + "://" + host + tail).None?
  {
    assert |scheme| == 5;
    forall j | 0 <= j < 5
      ensures IsAsciiLetter(scheme[j])
    {
      assert LowerChar(scheme[j]) == "https"[j];
    }
    var rest := "//" + host + tail;
    assert scheme + "://" + host + tail == scheme + ":" + rest;
    SplitScheme(scheme, rest);
    NetlocOf(host, tail);
  }

  /** Any other scheme is refused, `http` included. */
  lemma OtherSchemeRejected(scheme: string, rest: string)
    requires |scheme| > 0 && IsAsciiLetter(scheme[0])
    requires forall j :: 0 <= j < |scheme| ==> IsSchemeChar(scheme[j])
    requires Lower(scheme) != "https"
    ensures ValidateHttps(scheme + ":" + rest).Some?
  {
    SplitScheme(scheme, rest);
  }

  /** An https url with nothing after the `//` is refused. */
  lemma EmptyHostRejected(tail: string)
    requires |tail| == 0 || tail[0] in NetlocStops
    ensures ValidateHttps("https" + ":" + "//" + tail).Some?
  {
    SplitScheme("https", "//" + tail);
    NetlocOf("", tail);
  }

  /** The accepted url of the https examples. */
  lemma HttpsExampleAccepted()
    ensures ValidateHttps("https" + "://" + "api.example.com" + "/v1").None?
  {
    HttpsAccepted("https", "api.example.com", "/v1");
  }

  /** A plain http url of the https examples is refused. */
  lemma HttpExampleRejected()
    ensures ValidateHttps("http" + ":" + "//a").Some?
  {
    assert Lower("http") != "https" by {
      assert |Lower("http")| == 4;
    }
    OtherSchemeRejected("http", "//a");
  }

  /** An https url without a host is refused. */
  lemma NoHostExampleRejected()
    ensures ValidateHttps("https" + ":" + "//").Some?
  {
    EmptyHostRejected("");
    assert "//" + "" == "//";
  }

  /** A bare host name and the empty url have no scheme and are refused. */
  lemma NoSchemeExamplesRejected()
    ensures ValidateHttps("api.example.com").Some?
    ensures ValidateHttps("").Some?
  {
    NoSchemeRejected("api.example.com");
  }

  // ---------------------------------------------------------------------------
  // `load_config`

  /** `os.getenv(key)`. */
  function Getenv(env: Env, key: Var): Option<string>
  {
    if key in env then Some(env[key]) else None
  }

  /** A required setting that is unset or empty, which `not value` rejects. */
  predicate Unset(env: Env, key: Var)
  {
    key !in env || env[key] == ""
  }

  const RequiredKeys := [ENDPOINT_ID, WLAN_IFACE, SERVER_URL, API_KEY]

  /** `a` is `b` with some elements left out, the rest in their order. */
  predicate IsSubsequence(a: seq<Var>, b: seq<Var>)
    decreases |b|
  {
    if |a| == 0 then true
    else if |b| == 0 then false
    else if a[0] == b[0] then IsSubsequence(a[1..], b[1..])
    else IsSubsequence(a, b[1..])
  }

  /** The keys of `keys` that are unset, in their order. */
  function UnsetKeys(env: Env, keys: seq<Var>): (ks: seq<Var>)
    ensures forall k :: k in ks <==> k in keys && Unset(env, k)
    ensures IsSubsequence(ks, keys)
  {
    if |keys| == 0 then []
    else
      var rest := UnsetKeys(env, keys[1..]);
      assert forall k :: k in keys <==> k == keys[0] || k in keys[1..];
      if Unset(env, keys[0]) then
        assert ([keys[0]] + rest)[1..] == rest;
        [keys[0]] + rest
      else
        SubsequenceSkip(rest, keys);
        rest
  }

  /** A subsequence of a tail is a subsequence of the whole. */
  lemma {:induction false} SubsequenceSkip(a: seq<Var>, b: seq<Var>)
    requires |b| > 0 && IsSubsequence(a, b[1..])
    ensures IsSubsequence(a, b)
    decreases |b|, 0
  {
    if |a| > 0 && a[0] == b[0] {
      SubsequenceDrop(a, b[1..]);
    }
  }

  /** Leaving out the first element keeps a subsequence a subsequence. */
  lemma {:induction false} SubsequenceDrop(a: seq<Var>, b: seq<Var>)
    requires |a| > 0 && IsSubsequence(a, b)
    ensures IsSubsequence(a[1..], b)
    decreases |b|, 1
  {
    if a[0] == b[0] {
      SubsequenceSkip(a[1..], b);
    } else {
      SubsequenceDrop(a, b[1..]);
      SubsequenceSkip(a[1..], b);
    }
  }

  /** A numeric setting that is unset or parses as an integer. */
  predicate NumberParses(env: Env, key: Var)
  {
    key !in env || IntText(env[key]).Some?
  }

  predicate NumbersParse(env: Env)
  {
    NumberParses(env, HEARTBEAT_SEC) && NumberParses(env, BATCH_MAX) && NumberParses(env, BATCH_INTERVAL_SEC)
  }

  /** A numeric setting's value: its integer when set, the default when not. */
  function NumberOr(env: Env, key: Var, default: int): int
    requires NumberParses(env, key)
  {
    if key in env then IntText(env[key]).value else default
  }

  /** The three numeric settings. */
  datatype Numbers = Numbers(heartbeatSec: int, batchMax: int, batchInterval: int)

  /** The three `_as_int` calls, in the order the record's fields are
      written: the first malformed setting is the one reported. */
  function ReadNumbers(env: Env): (r: Result<Numbers, ConfigError>)
    ensures r.Success? <==> NumbersParse(env)
    ensures r.Success? ==> r.value == Numbers(NumberOr(env, HEARTBEAT_SEC, 30), NumberOr(env, BATCH_MAX, 200),
                                                NumberOr(env, BATCH_INTERVAL_SEC, 5))
    ensures !NumberParses(env, HEARTBEAT_SEC) ==> r == Failure(NotAnInteger(HEARTBEAT_SEC, env[HEARTBEAT_SEC]))
    ensures NumberParses(env, HEARTBEAT_SEC) && !NumberParses(env, BATCH_MAX) ==>
      r == Failure(NotAnInteger(BATCH_MAX, env[BATCH_MAX]))
    ensures NumberParses(env, HEARTBEAT_SEC) && NumberParses(env, BATCH_MAX) && !NumberParses(env, BATCH_INTERVAL_SEC) ==>
      r == Failure(NotAnInteger(BATCH_INTERVAL_SEC, env[BATCH_INTERVAL_SEC]))
  {
    var heartbeat := AsInt(HEARTBEAT_SEC, Getenv(env, HEARTBEAT_SEC), 30);
    var batchMax := AsInt(BATCH_MAX, Getenv(env, BATCH_MAX), 200);
    var batchInterval := AsInt(BATCH_INTERVAL_SEC, Getenv(env, BATCH_INTERVAL_SEC), 5);
    if heartbeat.Failure? then Failure(heartbeat.error)
    else if batchMax.Failure? then Failure(batchMax.error)
    else if batchInterval.Failure? then Failure(batchInterval.error)
    else Success(Numbers(heartbeat.value, batchMax.value, batchInterval.value))
  }

  /** A setting's text, empty when unset. */
  function Setting(env: Env, key: Var): string
  {
    if key in env then env[key] else ""
  }

  /** No required setting is reported unset exactly when each of them has a
      non-empty value. */
  lemma RequiredSet(env: Env)
    ensures UnsetKeys(env, RequiredKeys) == [] <==>
      (Setting(env, ENDPOINT_ID) != "" && Setting(env, WLAN_IFACE) != "" &&
       Setting(env, SERVER_URL) != "" && Setting(env, API_KEY) != "")
  {
    var ks := UnsetKeys(env, RequiredKeys);
    assert RequiredKeys[0] == ENDPOINT_ID && RequiredKeys[1] == WLAN_IFACE;
    assert RequiredKeys[2] == SERVER_URL && RequiredKeys[3] == API_KEY;
    assert SERVER_URL in RequiredKeys && API_KEY in RequiredKeys;
    if ks != [] {
      assert ks[0] in RequiredKeys && Unset(env, ks[0]);
    }
  }

  /** `load_config`: the numeric settings are converted while the record is
      built, so a malformed one is reported first; then every unset or empty
      required setting is reported together, in order; only then is the
      server url checked. */
  function LoadConfig(env: Env): (r: Result<Config, ConfigError>)
    ensures r.Success? <==>
      (NumbersParse(env) && UnsetKeys(env, RequiredKeys) == [] && ValidateHttps(Setting(env, SERVER_URL)).None?)
    ensures !NumbersParse(env) ==> r == Failure(ReadNumbers(env).error)
    ensures NumbersParse(env) && UnsetKeys(env, RequiredKeys) != [] ==>
      r == Failure(MissingSettings(UnsetKeys(env, RequiredKeys)))
    ensures NumbersParse(env) && UnsetKeys(env, RequiredKeys) == [] && ValidateHttps(Setting(env, SERVER_URL)).Some? ==>
      r == Failure(ValidateHttps(Setting(env, SERVER_URL)).value)
    ensures r.Success? ==> var c := r.value;
      && c.endpointId == Setting(env, ENDPOINT_ID) && c.wlanIface == Setting(env, WLAN_IFACE)
      && c.serverUrl == Setting(env, SERVER_URL) && c.apiKey == Setting(env, API_KEY)
      && c.endpointId != "" && c.wlanIface != "" && c.serverUrl != "" && c.apiKey != ""
    ensures r.Success? ==> var c := r.value;
      && c.logLevel == Getenv(env, LOG_LEVEL).GetOr("INFO")
      && c.updateChannel == Getenv(env, UPDATE_CHANNEL).GetOr("stable")
      && c.heartbeatSec == NumberOr(env, HEARTBEAT_SEC, 30)
      && c.batchMax == NumberOr(env, BATCH_MAX, 200)
      && c.batchInterval == NumberOr(env, BATCH_INTERVAL_SEC, 5)
  {
    match ReadNumbers(env)
    case Failure(e) => Failure(e)
    case Success(n) =>
      var missing := UnsetKeys(env, RequiredKeys);
      if missing != [] then Failure(MissingSettings(missing))
      else
        RequiredSet(env);
        match ValidateHttps(Setting(env, SERVER_URL))
        case Some(e) => Failure(e)
        case None =>
          Success(Config(Setting(env, ENDPOINT_ID), Setting(env, WLAN_IFACE), Setting(env, SERVER_URL),
                         Setting(env, API_KEY), Getenv(env, LOG_LEVEL).GetOr("INFO"),
                         Getenv(env, UPDATE_CHANNEL).GetOr("stable"), n.heartbeatSec, n.batchMax, n.batchInterval))
  }

  /** With no optional setting in the environment, a successful load gives
      the record's declared defaults. */
  lemma LoadConfigDefaults(env: Env)
    requires LOG_LEVEL !in env && UPDATE_CHANNEL !in env
    requires HEARTBEAT_SEC !in env && BATCH_MAX !in env && BATCH_INTERVAL_SEC !in env
    requires LoadConfig(env).Success?
    ensures LoadConfig(env).value == WithDefaults(env[ENDPOINT_ID], env[WLAN_IFACE], env[SERVER_URL], env[API_KEY])
  {
  }

  /** A required setting that is absent or empty is named in the error,
      whatever else is wrong with the required settings. */
  lemma MissingSettingNamed(env: Env, key: Var)
    requires NumbersParse(env)
    requires key in RequiredKeys && Unset(env, key)
    ensures LoadConfig(env).Failure? && LoadConfig(env).error.MissingSettings?
    ensures key in LoadConfig(env).error.keys
  {
  }

  /** The minimal-load test: the four required settings alone, with an
      https url, load with every optional field at its default. */
  lemma MinimalEnvLoads(endpointId: string, wlanIface: string, serverUrl: string, apiKey: string)
    requires endpointId != "" && wlanIface != "" && apiKey != ""
    requires ValidateHttps(serverUrl).None?
    ensures LoadConfig(map[ENDPOINT_ID := endpointId, WLAN_IFACE := wlanIface, SERVER_URL := serverUrl, API_KEY := apiKey])
      == Success(WithDefaults(endpointId, wlanIface, serverUrl, apiKey))
  {
    var env := map[ENDPOINT_ID := endpointId, WLAN_IFACE := wlanIface, SERVER_URL := serverUrl, API_KEY := apiKey];
    RequiredSet(env);
    LoadConfigDefaults(env);
  }

  /** The numeric-settings test, for any integers: with the required
      settings present and an https url, numeric settings holding the
      decimal texts of three integers are read as those integers. */
  lemma NumericSettingsParsed(env: Env, heartbeat: int, batchMax: int, batchInterval: int)
    requires Setting(env, ENDPOINT_ID) != "" && Setting(env, WLAN_IFACE) != ""
    requires Setting(env, SERVER_URL) != "" && Setting(env, API_KEY) != ""
    requires ValidateHttps(Setting(env, SERVER_URL)).None?
    requires Getenv(env, HEARTBEAT_SEC) == Some(IntString(heartbeat))
    requires Getenv(env, BATCH_MAX) == Some(IntString(batchMax))
    requires Getenv(env, BATCH_INTERVAL_SEC) == Some(IntString(batchInterval))
    ensures LoadConfig(env).Success?
    ensures LoadConfig(env).value.heartbeatSec == heartbeat
    ensures LoadConfig(env).value.batchMax == batchMax
    ensures LoadConfig(env).value.batchInterval == batchInterval
  {
    ReadsBack(heartbeat);
    ReadsBack(batchMax);
    ReadsBack(batchInterval);
    LoadConfigSucceeds(env);
  }

  /** The conditions under which a load succeeds, stated setting by
      setting, with the numeric fields it then holds. */
  lemma LoadConfigSucceeds(env: Env)
    requires NumbersParse(env)
    requires Setting(env, ENDPOINT_ID) != "" && Setting(env, WLAN_IFACE) != ""
    requires Setting(env, SERVER_URL) != "" && Setting(env, API_KEY) != ""
    requires ValidateHttps(Setting(env, SERVER_URL)).None?
    ensures LoadConfig(env).Success?
    ensures LoadConfig(env).value.heartbeatSec == NumberOr(env, HEARTBEAT_SEC, 30)
    ensures LoadConfig(env).value.batchMax == NumberOr(env, BATCH_MAX, 200)
    ensures LoadConfig(env).value.batchInterval == NumberOr(env, BATCH_INTERVAL_SEC, 5)
  {
    RequiredSet(env);
  }

  /** The decimal text of an integer, alone, reads back as the integer. */
  lemma ReadsBack(n: int)
    ensures IntText(IntString(n)) == Some(n)
  {
    var s := IntString(n);
    var d := if n < 0 then Decimal(-n) else Decimal(n);
    assert s[|s| - 1] == d[|d| - 1];
    assert TrimStart(s) == s;
    assert TrimEnd(s) == s;
    ReadIntString(n);
  }

  /** The texts of the numeric-settings test are the decimal texts of 45,
      500 and 2. */
  lemma SettingsTexts()
    ensures IntString(45) == "45" && IntString(500) == "500" && IntString(2) == "2"
  {
    assert Decimal(4) == "4" && Decimal(50) == "50" && Decimal(5) == "5";
  }
}
