/**
 * The response side of one exchange (lib/ResponseEntry.mjs): a record built from
 * `responseReceived` (with the protocol response) or as a placeholder from
 * `responseReceivedExtraInfo` or `dataReceived` (without one), the body flag,
 * the fetched body, and the in-place fill-if-empty merge.
 */
module ResponseEntries {
  import opened Wrappers
  import opened Protocol

  /** The fields of a `ResponseEntry` object as a value. */
  datatype ResponseValue = ResponseValue(
    id: string,
    res: Option<ProtocolResponse>,
    extraHeaders: Option<Headers>,
    resourceType: string,
    timestamp: int,
    hasResBody: bool,
    body: Option<ResponseBody>)

  /** The record the constructor builds: no body flag and no body, whatever the arguments. */
  function NewResponse(id: string, res: Option<ProtocolResponse>, extraHeaders: Option<Headers>,
                       resourceType: string, timestamp: int): (r: ResponseValue)
    ensures r.id == id && r.res == res && r.extraHeaders == extraHeaders
    ensures r.resourceType == resourceType && r.timestamp == timestamp
    ensures !r.hasResBody && r.body.None?
  {
    ResponseValue(id, res, extraHeaders, resourceType, timestamp, false, None)
  }

  /**
   * `fillEmptyPropsWith`: every falsy field among extraHeaders, resourceType,
   * timestamp, hasResBody and body takes `other`'s value; id and the protocol
   * response are never copied.
   */
  function FillResponse(cur: ResponseValue, other: ResponseValue): (r: ResponseValue)
    ensures r.id == cur.id && r.res == cur.res
    ensures TruthyOpt(cur.extraHeaders) ==> r.extraHeaders == cur.extraHeaders
    ensures TruthyStr(cur.resourceType) ==> r.resourceType == cur.resourceType
    ensures TruthyInt(cur.timestamp) ==> r.timestamp == cur.timestamp
    ensures TruthyOpt(cur.body) ==> r.body == cur.body
    ensures r.hasResBody == (cur.hasResBody || other.hasResBody)
    ensures !TruthyOpt(cur.extraHeaders) ==> r.extraHeaders == other.extraHeaders
    ensures !TruthyStr(cur.resourceType) ==> r.resourceType == other.resourceType
    ensures !TruthyInt(cur.timestamp) ==> r.timestamp == other.timestamp
    ensures !TruthyOpt(cur.body) ==> r.body == other.body
  {
    cur.(extraHeaders := FillOpt(cur.extraHeaders, other.extraHeaders),
         resourceType := FillStr(cur.resourceType, other.resourceType),
         timestamp := FillInt(cur.timestamp, other.timestamp),
         hasResBody := FillBool(cur.hasResBody, other.hasResBody),
         body := FillOpt(cur.body, other.body))
  }

  /** Filling twice with the same record is the same as filling once. */
  lemma FillResponseIdempotent(cur: ResponseValue, other: ResponseValue)
    ensures FillResponse(FillResponse(cur, other), other) == FillResponse(cur, other)
  {
  }

  /** Filling a record with itself changes nothing. */
  lemma FillResponseSelf(v: ResponseValue)
    ensures FillResponse(v, v) == v
  {
  }

  /**
   * A placeholder filled from the primary response keeps its own (absent)
   * protocol response: the protocol object is never copied.
   */
  lemma FillResponseKeepsPlaceholder(id: string, h: Option<Headers>, p: ProtocolResponse, t: string, ts: int)
    ensures FillResponse(NewResponse(id, None, h, "", 0), NewResponse(id, Some(p), None, t, ts)).res == None
  {
  }

  class ResponseEntry {
    var id: string
    var res: Option<ProtocolResponse>
    var extraHeaders: Option<Headers>
    var resourceType: string
    var timestamp: int
    var hasResBody: bool
    var body: Option<ResponseBody>

    ghost function Value(): ResponseValue
      reads this
    {
      ResponseValue(id, res, extraHeaders, resourceType, timestamp, hasResBody, body)
    }

    constructor (id: string, res: Option<ProtocolResponse>, extraHeaders: Option<Headers> := None,
                 resourceType: string := "", timestamp: int := 0)
      ensures Value() == NewResponse(id, res, extraHeaders, resourceType, timestamp)
    {
      this.id := id;
      this.res := res;
      this.extraHeaders := extraHeaders;
      this.resourceType := resourceType;
      this.timestamp := timestamp;
      this.hasResBody := false;
      this.body := None;
    }

    /** Overwrites extraHeaders, set or not, and nothing else. */
    method SetExtraHeaders(headers: Option<Headers>)
      modifies this
      ensures Value() == old(Value()).(extraHeaders := headers)
    {
      extraHeaders := headers;
    }

    /** Afterwards `HasBody()` holds; a second call changes nothing more. */
    method SetHasBody()
      modifies this
      ensures HasBody()
      ensures Value() == old(Value()).(hasResBody := true)
    {
      hasResBody := true;
    }

    /** Afterwards `GetBody()` returns `data`. */
    method SetBody(data: Option<ResponseBody>)
      modifies this
      ensures GetBody() == data
      ensures Value() == old(Value()).(body := data)
    {
      body := data;
    }

    predicate HasBody()
      reads this
      ensures HasBody() <==> Value().hasResBody
    {
      hasResBody
    }

    function GetBody(): (r: Option<ResponseBody>)
      reads this
      ensures r == Value().body
    {
      body
    }

    /** In-place fill-if-empty from `other`, which may be this very object. */
    method FillEmptyPropsWith(other: ResponseEntry)
      modifies this
      ensures Value() == FillResponse(old(Value()), old(other.Value()))
    {
      if extraHeaders.None? { extraHeaders := other.extraHeaders; }
      if resourceType == "" { resourceType := other.resourceType; }
      if timestamp == 0 { timestamp := other.timestamp; }
      if !hasResBody { hasResBody := other.hasResBody; }
      if body.None? { body := other.body; }
    }
  }
}
