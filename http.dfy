/**
 * The slice of the one-nio HTTP model the handlers read: the request method,
 * path, query parameters, headers and body, and a response reduced to its
 * status code and a description of its body.
 */
module Http {
  import opened JavaLang

  newtype byte = x: int | 0 <= x < 256

  /** one-nio's `Request.METHOD_*` codes. */
  datatype Method = GET | POST | HEAD | OPTIONS | PUT | DELETE | TRACE | CONNECT | PATCH

  /**
   * `params` maps a query parameter's name to its raw value (one-nio's
   * `getParameter("name=")`); `headers` maps a one-nio header key, the header
   * name followed by ':', to its value (`getHeader("Name:")`). A request
   * without a body has `body == None` (`getBody()` is null).
   */
  datatype Request = Request(
    requestMethod: Method,
    path: string,
    params: map<string, string>,
    headers: map<string, string>,
    body: Option<seq<byte>>)

  /**
   * A response body: empty, raw bytes, or the two encodings of a stored
   * entry (its timestamp alone, or its value together with its timestamp),
   * whose byte layout belongs to the storage layer.
   */
  datatype Body = Empty | Raw(bytes: seq<byte>) | TimeBytes(time: int) | ValueAndTime(value: seq<byte>, time: int)

  datatype Response = Response(status: int, body: Body)

  const OK: int := 200
  const CREATED: int := 201
  const ACCEPTED: int := 202
  const BAD_REQUEST: int := 400
  const NOT_FOUND: int := 404
  const METHOD_NOT_ALLOWED: int := 405
  const INTERNAL_ERROR: int := 500
  const SERVICE_UNAVAILABLE: int := 503
  /** "504 Not Enough Replicas": the code of the gateway-timeout status with a custom reason phrase. */
  const NOT_ENOUGH_REPLICAS: int := 504

  /** `request.getParameter(name + "=")`: `None` is Java's null. */
  function GetParameter(r: Request, name: string): (v: Option<string>)
    ensures v.Some? <==> name in r.params
    ensures v.Some? ==> v.value == r.params[name]
  {
    if name in r.params then Some(r.params[name]) else None
  }

  /** `request.getHeader(key)`: `None` is Java's null. */
  function GetHeader(r: Request, key: string): (v: Option<string>)
    ensures v.Some? <==> key in r.headers
    ensures v.Some? ==> v.value == r.headers[key]
  {
    if key in r.headers then Some(r.headers[key]) else None
  }

  /** The methods the entity handlers serve. */
  predicate IsEntityMethod(m: Method) {
    m == GET || m == PUT || m == DELETE
  }
}
