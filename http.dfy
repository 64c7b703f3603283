/** The request and response values the route handlers work on: a parsed JSON
    body, and a reply made of a status code and a JSON payload. */
module Http {
  import opened Common

  /** A JSON value as `request.json()` yields it for one key of the body;
      booleans, arrays and objects are not told apart. */
  datatype Json = JNull | JString(s: string) | JNumber(n: real) | JOther

  /** A parsed JSON body, as the keys it answers: an object's own keys, and
      none for an array, a number, a string or a boolean. */
  type Body = map<string, Json>

  /** `body.<key>` for a text field: a missing key is `undefined`. A value of
      another JSON type is read as `undefined` too. */
  function TextField(body: Body, key: string): (r: Js<string>)
    ensures r.Undefined? <==> key !in body || body[key].JNumber? || body[key].JOther?
    ensures r.Null? <==> key in body && body[key] == JNull
    ensures r.Val? <==> key in body && body[key].JString?
    ensures r.Val? ==> body[key] == JString(r.v)
  {
    if key !in body then Undefined
    else match body[key]
      case JNull => Null
      case JString(s) => Val(s)
      case _ => Undefined
  }

  /** `body.<key>` for a REAL column. */
  function RealField(body: Body, key: string): (r: Js<real>)
    ensures r.Null? <==> key in body && body[key] == JNull
    ensures r.Val? <==> key in body && body[key].JNumber?
    ensures r.Val? ==> body[key] == JNumber(r.v)
  {
    if key !in body then Undefined
    else match body[key]
      case JNull => Null
      case JNumber(n) => Val(n)
      case _ => Undefined
  }

  /** The JSON a handler answers with. */
  datatype Payload<R> =
    | Records(list: seq<R>)
    | Record(record: R)
    | Success
    | Failure(error: string)

  datatype Reply<R> = Reply(status: int, payload: Payload<R>)
}
