/** Parsed JSON request bodies and the few JavaScript value tests the route
    handlers apply to them: property access, truthiness and `typeof`. A property
    that is absent reads as `undefined`, modelled as `None`. Numbers are exact
    reals; NaN and the infinities cannot come out of a JSON parse. */
module JsonValues {
  import opened Wrappers

  datatype Json =
    | JNull
    | JBool(b: bool)
    | JNum(n: real)
    | JStr(s: string)
    | JArr(items: seq<Json>)
    | JObj(fields: map<string, Json>)

  /** `value.name` on a value that is not null: an object's own property, and
      `undefined` for every other kind of value. */
  function Prop(value: Json, name: string): Option<Json>
  {
    if value.JObj? && name in value.fields then Some(value.fields[name]) else None
  }

  /** JavaScript truthiness of a possibly undefined value. */
  predicate Truthy(v: Option<Json>)
  {
    match v
    case None => false
    case Some(JNull) => false
    case Some(JBool(b)) => b
    case Some(JNum(n)) => n != 0.0
    case Some(JStr(s)) => s != ""
    case Some(JArr(_)) => true
    case Some(JObj(_)) => true
  }

  predicate IsString(v: Option<Json>)
  {
    v.Some? && v.value.JStr?
  }

  /** `typeof v === 'number'`. */
  predicate IsNumber(v: Option<Json>)
  {
    v.Some? && v.value.JNum?
  }

  /** `Number.isInteger(v)`. */
  predicate IsInteger(v: Option<Json>)
  {
    IsNumber(v) && v.value.n == v.value.n.Floor as real
  }

  /** `v || fallback` for a numeric default: an absent or numeric value always
      yields a number, a non-zero number is kept, and the result is falsy only
      when it is the fallback. */
  function NumberOr(v: Option<Json>, fallback: real): (r: Json)
    ensures !Truthy(v) ==> r == JNum(fallback)
    ensures Truthy(v) ==> r == v.value
    ensures (v.None? || IsNumber(v)) ==> r.JNum?
    ensures IsNumber(v) && v.value.n != 0.0 ==> r == v.value
    ensures Truthy(Some(r)) || r == JNum(fallback)
  {
    if Truthy(v) then v.value else JNum(fallback)
  }

  /** With a non-zero fallback the result is truthy, so defaulting it again
      changes nothing. */
  lemma NumberOrIdempotent(v: Option<Json>, fallback: real)
    ensures fallback != 0.0 ==> NumberOr(Some(NumberOr(v, fallback)), fallback) == NumberOr(v, fallback)
  {
  }

  /** `Array.isArray(body) ? body : [body]`: a body that is not an array is a
      batch of one. Every item is the body itself or one of its elements, and
      the batch is empty only for the empty array. */
  function Batch(body: Json): (items: seq<Json>)
    ensures body.JArr? ==> items == body.items
    ensures !body.JArr? ==> items == [body]
    ensures forall i :: 0 <= i < |items| ==> items[i] == body || (body.JArr? && items[i] in body.items)
    ensures |items| == 0 <==> body == JArr([])
  {
    if body.JArr? then body.items else [body]
  }

  /** Sending a batch back as an array body yields the same batch. */
  lemma BatchOfBatch(body: Json)
    ensures Batch(JArr(Batch(body))) == Batch(body)
  {
  }
}
