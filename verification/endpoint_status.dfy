/** The endpoint heartbeat route: the API-key check (`isAuthorized`) and the
    `POST` that validates a status report and upserts it by endpoint id. */
module EndpointStatus {
  import opened Wrappers
  import opened Text
  import opened JsonValues

  /** JavaScript `a || b` on strings that may be missing: `b` whenever `a` is
      missing or empty. */
  function OrElse(a: Option<string>, b: Option<string>): (r: Option<string>)
    ensures a.Some? && a.value != "" ==> r == a
    ensures a.None? || a.value == "" ==> r == b
  {
    if a.Some? && a.value != "" then a else b
  }

  /** The case-sensitive scheme prefix of the Authorization header. */
  const ApiKeyPrefix := "ApiKey "

  /** The presented key: the Authorization value after `ApiKey `, or, when that
      is absent or empty, the `x-api-key` header. */
  function Token(authorization: Option<string>, xApiKey: Option<string>): (t: Option<string>)
    ensures var auth := authorization.GetOr("");
      && (StartsWith(auth, ApiKeyPrefix) && |auth| > |ApiKeyPrefix| ==> t == Some(auth[|ApiKeyPrefix|..]))
      && (!StartsWith(auth, ApiKeyPrefix) || |auth| == |ApiKeyPrefix| ==> t == xApiKey)
  {
    var auth := authorization.GetOr("");
    var fromAuth := if StartsWith(auth, ApiKeyPrefix) then Some(auth[|ApiKeyPrefix|..]) else None;
    OrElse(fromAuth, xApiKey)
  }

  /** `isAuthorized`: the server key is `ENDPOINT_API_KEY`, or `API_KEY` when
      that is unset or empty; the request passes when the presented key and
      the server key are both non-empty and equal. */
  predicate IsAuthorized(authorization: Option<string>, xApiKey: Option<string>,
                         endpointApiKey: Option<string>, apiKey: Option<string>)
  {
    var token := Token(authorization, xApiKey);
    var serverKey := OrElse(endpointApiKey, apiKey);
    token.Some? && token.value != "" && serverKey.Some? && serverKey.value != "" && token.value == serverKey.value
  }

  /** Presenting the server key, either way, is authorised; no key is
      authorised while the server has none. */
  lemma AuthorizationFacts(key: string, other: Option<string>, endpointApiKey: Option<string>, apiKey: Option<string>)
    requires key != ""
    requires OrElse(endpointApiKey, apiKey) == Some(key)
    ensures IsAuthorized(Some(ApiKeyPrefix + key), other, endpointApiKey, apiKey)
    ensures IsAuthorized(None, Some(key), endpointApiKey, apiKey)
    ensures forall a, x :: !IsAuthorized(a, x, None, None)
  {
    var auth := ApiKeyPrefix + key;
    assert StartsWith(auth, ApiKeyPrefix) && auth[|ApiKeyPrefix|..] == key;
  }

  /** A bearer-style header does not carry the key: only `x-api-key` counts. */
  lemma BearerIsNotApiKey(key: string, xApiKey: Option<string>)
    ensures Token(Some("Bearer " + key), xApiKey) == xApiKey
  {
    var auth := "Bearer " + key;
    assert auth[1] != ApiKeyPrefix[1];
  }

  const ValidStatuses: seq<string> := ["online", "offline", "error"]

  /** The stored status row. */
  datatype StatusRow = StatusRow(status: string, metadata: Option<Json>)

  datatype PostResponse =
    | Unauthorized
    | ServerError
    | MissingEndpointId
    | InvalidStatus
    | Updated(endpointId: Json, row: StatusRow, table: map<Json, StatusRow>)

  /** `POST`: the key is checked before the body is read (401). A `null` body
      throws while being destructured (500). `endpoint_id` must be truthy
      (400); `status` defaults to `online` only when absent, and must then be
      one of the three valid strings (400). The row is upserted by endpoint id,
      `metadata` kept only when truthy. */
  function Post(table: map<Json, StatusRow>, authorized: bool, body: Json): (r: PostResponse)
    ensures r.Unauthorized? <==> !authorized
    ensures r.ServerError? <==> authorized && body.JNull?
    ensures r.MissingEndpointId? <==> authorized && !body.JNull? && !Truthy(Prop(body, "endpoint_id"))
    ensures r.InvalidStatus? <==> (authorized && !body.JNull? && Truthy(Prop(body, "endpoint_id"))
      && Prop(body, "status").Some? && !(Prop(body, "status").value.JStr? && Prop(body, "status").value.s in ValidStatuses))
    ensures r.Updated? ==>
      && r.endpointId == Prop(body, "endpoint_id").value
      && r.row.status in ValidStatuses
      && (Prop(body, "status").None? ==> r.row.status == "online")
      && (Prop(body, "status").Some? ==> JStr(r.row.status) == Prop(body, "status").value)
      && (r.row.metadata.Some? <==> Truthy(Prop(body, "metadata")))
      && r.table.Keys == table.Keys + {r.endpointId}
      && r.table[r.endpointId] == r.row
      && (forall k :: k in table && k != r.endpointId ==> r.table[k] == table[k])
  {
    if !authorized then Unauthorized
    else if body.JNull? then ServerError
    else
      var endpointId := Prop(body, "endpoint_id");
      var status := Prop(body, "status").GetOr(JStr("online"));
      var metadata := Prop(body, "metadata");
      if !Truthy(endpointId) then MissingEndpointId
      else if !(status.JStr? && status.s in ValidStatuses) then InvalidStatus
      else
        var row := StatusRow(status.s, if Truthy(metadata) then metadata else None);
        Updated(endpointId.value, row, table[endpointId.value := row])
  }

  /** Reporting the same status twice leaves the table as after the first
      report. */
  lemma PostIdempotent(table: map<Json, StatusRow>, body: Json)
    requires Post(table, true, body).Updated?
    ensures Post(Post(table, true, body).table, true, body).table == Post(table, true, body).table
  {
  }
}
