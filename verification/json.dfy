/**
 * The part of a parsed JSON request body the handlers look at.
 *
 * A body is a JSON object (or array, whose keys are its indices) turned into a
 * map from key to value; `None` stands for a request without a parsed body. A
 * key absent from the map reads as JavaScript `undefined`.
 */
module Json {
  import opened Options

  /** A JSON value, split only as finely as the handlers distinguish it.
      `Other` is an array or object: never falsy, never a string or boolean. */
  datatype JsonValue =
    | Str(s: string)
    | Bool(b: bool)
    | Num(n: real)
    | Null
    | Other

  type Object = map<string, JsonValue>

  type Body = Option<Object>

  /** `req.body[key]`: `None` when the body or the key is absent (`undefined`). */
  function Member(body: Body, key: string): Option<JsonValue>
  {
    if body.Some? && key in body.value then Some(body.value[key]) else None
  }

  /** `!req.body || Object.keys(req.body).length === 0`: a body is empty
      exactly when every key reads as `undefined`. */
  function IsEmptyBody(body: Body): (empty: bool)
    ensures !empty <==> exists key :: Member(body, key).Some?
  {
    if body.None? then true
    else if |body.value| == 0 then true
    else
      SomeKey(body);
      false
  }

  /** A body with at least one key defines some member. */
  lemma SomeKey(body: Body)
    requires body.Some? && |body.value| > 0
    ensures exists key :: Member(body, key).Some?
  {
    assert |body.value.Keys| == |body.value|;
    var key :| key in body.value.Keys;
    assert Member(body, key).Some?;
  }

  /** JavaScript truthiness of a value that may be `undefined`. JSON has no
      NaN, so the falsy values are exactly `undefined`, `""`, `null`, `false`
      and `0`. */
  function Truthy(v: Option<JsonValue>): (truthy: bool)
    ensures !truthy <==>
              v == None || v == Some(Str("")) || v == Some(Null)
              || v == Some(Bool(false)) || v == Some(Num(0.0))
  {
    match v
    case None => false
    case Some(Str(s)) => s != ""
    case Some(Bool(b)) => b
    case Some(Num(n)) => n != 0.0
    case Some(Null) => false
    case Some(Other) => true
  }
}
