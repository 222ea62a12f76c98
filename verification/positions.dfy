/** The endpoint-positions route: `POST` validates one position or a batch and
    upserts them into the positions table keyed by endpoint id, applying the
    route's defaults; `DELETE` removes one endpoint's row. */
module Positions {
  import opened Wrappers
  import opened JsonValues

  datatype Problem =
    | EndpointIdRequired
    | XRequired
    | YRequired
    | ZNotNumber
    | FloorNotNumber

  /** `Position <index>: <problem>`. */
  datatype PositionError = PositionError(index: nat, problem: Problem)

  /** Whether a position has the problem: `x` and `y` must be numbers, `z` and
      `floor` must be numbers when present at all (an explicit `null` is not). */
  predicate HasProblem(pos: Json, p: Problem)
  {
    match p
    case EndpointIdRequired => !Truthy(Prop(pos, "endpoint_id")) || !IsString(Prop(pos, "endpoint_id"))
    case XRequired => !IsNumber(Prop(pos, "x"))
    case YRequired => !IsNumber(Prop(pos, "y"))
    case ZNotNumber => Prop(pos, "z").Some? && !IsNumber(Prop(pos, "z"))
    case FloorNotNumber => Prop(pos, "floor").Some? && !IsNumber(Prop(pos, "floor"))
  }

  /** The problems of the position at `index`, in the order the route checks
      them. */
  function PositionErrors(index: nat, pos: Json): (es: seq<PositionError>)
    ensures |es| <= 5
    ensures forall k :: 0 <= k < |es| ==> es[k].index == index
  {
    var endpointId := Prop(pos, "endpoint_id");
    var x := Prop(pos, "x");
    var y := Prop(pos, "y");
    var z := Prop(pos, "z");
    var floor := Prop(pos, "floor");
    (if !Truthy(endpointId) || !IsString(endpointId) then [PositionError(index, EndpointIdRequired)] else [])
    + (if x.None? || !IsNumber(x) then [PositionError(index, XRequired)] else [])
    + (if y.None? || !IsNumber(y) then [PositionError(index, YRequired)] else [])
    + (if z.Some? && !IsNumber(z) then [PositionError(index, ZNotNumber)] else [])
    + (if floor.Some? && !IsNumber(floor) then [PositionError(index, FloorNotNumber)] else [])
  }

  /** The errors of a position are exactly its problems. */
  lemma PositionErrorsMembers(index: nat, pos: Json)
    ensures forall e :: e in PositionErrors(index, pos) <==> e.index == index && HasProblem(pos, e.problem)
  {
  }

  /** A position that passes every check. */
  predicate ValidPosition(pos: Json)
  {
    && IsString(Prop(pos, "endpoint_id")) && Prop(pos, "endpoint_id").value.s != ""
    && IsNumber(Prop(pos, "x")) && IsNumber(Prop(pos, "y"))
    && (Prop(pos, "z").None? || IsNumber(Prop(pos, "z")))
    && (Prop(pos, "floor").None? || IsNumber(Prop(pos, "floor")))
  }

  /** A position has no problem exactly when it is valid. */
  lemma NoErrorsIffValid(index: nat, pos: Json)
    ensures PositionErrors(index, pos) == [] <==> ValidPosition(pos)
  {
    PositionErrorsMembers(index, pos);
    if PositionErrors(index, pos) == [] {
      assert PositionError(index, EndpointIdRequired) !in PositionErrors(index, pos);
      assert PositionError(index, XRequired) !in PositionErrors(index, pos);
      assert PositionError(index, YRequired) !in PositionErrors(index, pos);
      assert PositionError(index, ZNotNumber) !in PositionErrors(index, pos);
      assert PositionError(index, FloorNotNumber) !in PositionErrors(index, pos);
    }
  }

  /** The problems of a batch, position by position in order. */
  function BatchErrors(ps: seq<Json>): (es: seq<PositionError>)
    ensures forall k :: 0 <= k < |es| ==> es[k].index < |ps|
  {
    if |ps| == 0 then []
    else
      var n := |ps| - 1;
      BatchErrors(ps[..n]) + PositionErrors(n, ps[n])
  }

  predicate AllValid(ps: seq<Json>)
  {
    forall i :: 0 <= i < |ps| ==> ValidPosition(ps[i])
  }

  /** A batch has no problem exactly when every position in it is valid. */
  lemma {:induction false} BatchErrorsEmpty(ps: seq<Json>)
    ensures BatchErrors(ps) == [] <==> AllValid(ps)
  {
    if |ps| > 0 {
      var n := |ps| - 1;
      BatchErrorsEmpty(ps[..n]);
      NoErrorsIffValid(n, ps[n]);
      if AllValid(ps[..n]) && ValidPosition(ps[n]) {
        forall i | 0 <= i < |ps| ensures ValidPosition(ps[i]) {
          if i < n {
            assert ps[..n][i] == ps[i];
          }
        }
      }
      if AllValid(ps) {
        forall i | 0 <= i < n ensures ValidPosition(ps[..n][i]) {
          assert ps[..n][i] == ps[i];
        }
      }
    }
  }

  /** The row written for a position. */
  datatype StoredPosition = StoredPosition(endpointId: string, x: real, y: real, z: real, floor: real, description: Option<Json>)

  /** `z || 0`, `floor || 1` and `description || null`. */
  function Stored(pos: Json): (row: StoredPosition)
    requires ValidPosition(pos)
    ensures row.endpointId == Prop(pos, "endpoint_id").value.s
    ensures row.x == Prop(pos, "x").value.n && row.y == Prop(pos, "y").value.n
    ensures Prop(pos, "z").None? ==> row.z == 0.0
    ensures Prop(pos, "z").Some? ==> row.z == Prop(pos, "z").value.n
    ensures Prop(pos, "floor").None? || Prop(pos, "floor").value.n == 0.0 ==> row.floor == 1.0
    ensures Prop(pos, "floor").Some? && Prop(pos, "floor").value.n != 0.0 ==> row.floor == Prop(pos, "floor").value.n
    ensures row.description.Some? <==> Truthy(Prop(pos, "description"))
    ensures row.description.Some? ==> row.description.value == Prop(pos, "description").value
  {
    var z := NumberOr(Prop(pos, "z"), 0.0);
    var floor := NumberOr(Prop(pos, "floor"), 1.0);
    var description := Prop(pos, "description");
    StoredPosition(Prop(pos, "endpoint_id").value.s, Prop(pos, "x").value.n, Prop(pos, "y").value.n,
      z.n, floor.n, if Truthy(description) then description else None)
  }

  function StoredAll(ps: seq<Json>): (rows: seq<StoredPosition>)
    requires AllValid(ps)
    ensures |rows| == |ps|
    ensures forall i :: 0 <= i < |ps| ==> rows[i] == Stored(ps[i])
  {
    seq(|ps|, i requires 0 <= i < |ps| => Stored(ps[i]))
  }

  // ---------------------------------------------------------------------------
  // The table

  /** The positions table: at most one row per endpoint id. */
  type Table = map<string, StoredPosition>

  /** `INSERT ... ON CONFLICT (endpoint_id) DO UPDATE`, one row after another. */
  function UpsertAll(table: Table, rows: seq<StoredPosition>): (t: Table)
    ensures t.Keys == table.Keys + set r | r in rows :: r.endpointId
  {
    if |rows| == 0 then table
    else
      var n := |rows| - 1;
      var t := UpsertAll(table, rows[..n]);
      assert forall r :: r in rows <==> r in rows[..n] || r == rows[n];
      t[rows[n].endpointId := rows[n]]
  }

  /** The last row written for `id`, if any. */
  function LastFor(rows: seq<StoredPosition>, id: string): (r: Option<StoredPosition>)
    ensures r.Some? ==> r.value in rows && r.value.endpointId == id
    ensures r.None? <==> forall i :: 0 <= i < |rows| ==> rows[i].endpointId != id
  {
    if |rows| == 0 then None
    else if rows[|rows| - 1].endpointId == id then Some(rows[|rows| - 1])
    else LastFor(rows[..|rows| - 1], id)
  }

  /** After an upsert batch, every endpoint holds the last row written for it
      in the batch, and every other endpoint keeps its row. */
  lemma {:induction false} UpsertAllLastWins(table: Table, rows: seq<StoredPosition>, id: string)
    ensures var t := UpsertAll(table, rows);
      && (LastFor(rows, id).Some? ==> id in t && t[id] == LastFor(rows, id).value)
      && (LastFor(rows, id).None? ==> (id in t <==> id in table) && (id in table ==> t[id] == table[id]))
  {
    if |rows| > 0 {
      UpsertAllLastWins(table, rows[..|rows| - 1], id);
    }
  }

  // ---------------------------------------------------------------------------
  // The handlers

  datatype PostResponse =
    | ServerError
    | ValidationFailed(errors: seq<PositionError>)
    | Upserted(rows: seq<StoredPosition>, table: Table)

  /** `POST`: a `null` position throws while its fields are read (500); any
      problem in any position fails the whole batch (400) with every problem
      listed; otherwise every position is written, in order (201). */
  function Post(table: Table, body: Json): (r: PostResponse)
    ensures var ps := Batch(body);
      && (r.ServerError? <==> exists i :: 0 <= i < |ps| && ps[i].JNull?)
      && (r.ValidationFailed? <==> !r.ServerError? && !AllValid(ps))
      && (r.ValidationFailed? ==> r.errors == BatchErrors(ps) && |r.errors| > 0)
      && (r.Upserted? ==> AllValid(ps) && r.rows == StoredAll(ps) && r.table == UpsertAll(table, r.rows))
  {
    var ps := Batch(body);
    BatchErrorsEmpty(ps);
    if exists i :: 0 <= i < |ps| && ps[i].JNull? then ServerError
    else
      var errors := BatchErrors(ps);
      if errors != [] then ValidationFailed(errors)
      else
        var rows := StoredAll(ps);
        Upserted(rows, UpsertAll(table, rows))
  }

  datatype DeleteResponse =
    | MissingEndpointId
    | NotFound
    | Deleted(row: StoredPosition, table: Table)

  /** `DELETE ?endpoint_id=...`: a missing or empty id is a 400, an id without a
      row a 404; otherwise that row is removed and returned. */
  function Delete(table: Table, endpointId: Option<string>): (r: DeleteResponse)
    ensures r.MissingEndpointId? <==> endpointId.None? || endpointId.value == ""
    ensures r.NotFound? <==> endpointId.Some? && endpointId.value != "" && endpointId.value !in table
    ensures r.Deleted? ==> endpointId.value in table && r.row == table[endpointId.value]
    ensures r.Deleted? ==> r.table.Keys == table.Keys - {endpointId.value}
    ensures r.Deleted? ==> forall k :: k in r.table ==> r.table[k] == table[k]
  {
    if endpointId.None? || endpointId.value == "" then MissingEndpointId
    else if endpointId.value !in table then NotFound
    else Deleted(table[endpointId.value], table - {endpointId.value})
  }
}
