/**
 * Shared HTTP helpers: the replication header keys, the integer query
 * parameter reader and the fixed empty-body responses.
 */
module HttpUtils {
  import opened JavaLang
  import opened Http

  const X_LEADER_TIMESTAMP_HEADER: string := "X-Leader-Timestamp"
  const ONE_NIO_X_LEADER_TIMESTAMP_HEADER: string := OneNioHeaderKey(X_LEADER_TIMESTAMP_HEADER)
  const X_RECORD_TIMESTAMP_HEADER: string := "X-Record-Timestamp"
  const ONE_NIO_X_RECORD_TIMESTAMP_HEADER: string := OneNioHeaderKey(X_RECORD_TIMESTAMP_HEADER)

  /** one-nio looks a header up by its name followed by ':'. */
  function OneNioHeaderKey(name: string): (key: string)
    ensures |key| == |name| + 1 && key[..|name|] == name && key[|name|] == ':'
  {
    name + ":"
  }

  /** The two one-nio keys are the header names with ':' appended, and they differ. */
  lemma OneNioHeaderKeys()
    ensures ONE_NIO_X_LEADER_TIMESTAMP_HEADER == "X-Leader-Timestamp:"
    ensures ONE_NIO_X_RECORD_TIMESTAMP_HEADER == "X-Record-Timestamp:"
    ensures ONE_NIO_X_LEADER_TIMESTAMP_HEADER != ONE_NIO_X_RECORD_TIMESTAMP_HEADER
  {
    assert ONE_NIO_X_LEADER_TIMESTAMP_HEADER[2] == 'L' != ONE_NIO_X_RECORD_TIMESTAMP_HEADER[2];
  }

  /**
   * `getIntParameter`: a missing or empty parameter gives `defaultValue`;
   * any other value is parsed with `Integer.parseInt`, and `None` stands for
   * the NumberFormatException it throws on a malformed value.
   */
  function GetIntParameter(request: Request, parameterKey: string, defaultValue: int): (r: Option<int>)
    ensures GetParameter(request, parameterKey) in {None, Some("")} ==> r == Some(defaultValue)
    ensures GetParameter(request, parameterKey).Some? && GetParameter(request, parameterKey).value != "" ==>
              r == ParseInt(GetParameter(request, parameterKey).value)
  {
    var parameter := GetParameter(request, parameterKey);
    if parameter.None? || parameter.value == "" then Some(defaultValue)
    else ParseInt(parameter.value)
  }

  /** A parameter written as the decimal form of an `int` reads back as that `int`, whatever the default. */
  lemma GetIntParameterReadsWrittenValue(request: Request, parameterKey: string, defaultValue: int, n: int)
    requires INT_MIN <= n <= INT_MAX
    requires GetParameter(request, parameterKey) == Some(IntToString(n))
    ensures GetIntParameter(request, parameterKey, defaultValue) == Some(n)
  {
    ParseIntToString(n, INT_MIN, INT_MAX);
  }

  /**
   * A non-empty parameter never falls back to the default: one that is not a
   * decimal number, or one outside the `int` range, fails instead.
   */
  lemma GetIntParameterMalformedFails(request: Request, parameterKey: string, defaultValue: int)
    requires GetParameter(request, parameterKey).Some?
    requires var p := GetParameter(request, parameterKey).value;
      && p != ""
      && (|| p == "-" || p == "+"
          || (exists i :: 0 <= i < |p| && !IsDigit(p[i]) && !(i == 0 && IsSign(p[0])))
          || (IsDecimal(p) && !(INT_MIN <= DecimalValue(p) <= INT_MAX)))
    ensures GetIntParameter(request, parameterKey, defaultValue).None?
  {
    var p := GetParameter(request, parameterKey).value;
    if !IsDecimal(p) {
      ParseRejectsMalformed(p, INT_MIN, INT_MAX);
    }
  }

  function InternalError(): (r: Response)
    ensures r.status == 500 && r.body == Empty
  {
    Response(INTERNAL_ERROR, Empty)
  }

  function MethodNotAllowed(): (r: Response)
    ensures r.status == 405 && r.body == Empty
  {
    Response(METHOD_NOT_ALLOWED, Empty)
  }

  function BadRequest(): (r: Response)
    ensures r.status == 400 && r.body == Empty
  {
    Response(BAD_REQUEST, Empty)
  }
}
