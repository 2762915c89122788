/**
 * Payloads of the Chrome DevTools Protocol that the logger stores but never
 * looks inside (headers, the protocol request and response, a fetched body),
 * the error built from a `Network.loadingFailed` event, and JavaScript's
 * "fill if falsy" assignment `if (!x) x = y` for each kind of field.
 */
module Protocol {
  import opened Wrappers

  /** `Network.Headers`: a header-name to value dictionary. Any object is truthy. */
  datatype Headers = Headers(fields: map<string, string>)

  /** The parts of `Network.Request` the logger reads: its method (here `httpMethod`), url and hasPostData. */
  datatype ProtocolRequest = ProtocolRequest(httpMethod: string, url: string, hasPostData: bool)

  /** `Network.Response`, kept whole and never read by the logger. */
  datatype ProtocolResponse = ProtocolResponse(url: string, status: int, mimeType: string)

  /** `Network.GetResponseBodyResponse`. */
  datatype ResponseBody = ResponseBody(body: string, base64Encoded: bool)

  /** A `FetchingFailedError`, built from the fields of a `loadingFailed` event. */
  datatype FetchError = FetchingFailedError(requestId: string, errorText: string, canceled: bool)

  // JavaScript truthiness of the field kinds the merges look at: `null` (None),
  // `""`, `0` and `false` are falsy, every object is truthy.

  predicate TruthyOpt<T>(x: Option<T>) { x.Some? }
  predicate TruthyStr(s: string) { s != "" }
  predicate TruthyInt(n: int) { n != 0 }

  /** `if (!cur) cur = other` on an object-or-null field. */
  function FillOpt<T>(cur: Option<T>, other: Option<T>): (r: Option<T>)
    ensures TruthyOpt(cur) ==> r == cur
    ensures !TruthyOpt(cur) ==> r == other
  {
    if cur.Some? then cur else other
  }

  /** `if (!cur) cur = other` on a string field. */
  function FillStr(cur: string, other: string): (r: string)
    ensures TruthyStr(cur) ==> r == cur
    ensures !TruthyStr(cur) ==> r == other
  {
    if cur != "" then cur else other
  }

  /** `if (!cur) cur = other` on a numeric field. */
  function FillInt(cur: int, other: int): (r: int)
    ensures TruthyInt(cur) ==> r == cur
    ensures !TruthyInt(cur) ==> r == other
  {
    if cur != 0 then cur else other
  }

  /** `if (!cur) cur = other` on a boolean field. */
  function FillBool(cur: bool, other: bool): (r: bool)
    ensures r == (cur || other)
  {
    if cur then cur else other
  }
}
