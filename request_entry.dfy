/**
 * The request side of one exchange (lib/RequestEntry.mjs): a record built either
 * from `requestWillBeSent` (with the protocol request) or as a headers-only
 * placeholder from `requestWillBeSentExtraInfo` (without one), and its in-place
 * fill-if-empty merge.
 */
module RequestEntries {
  import opened Wrappers
  import opened Protocol

  /** The fields of a `RequestEntry` object as a value. */
  datatype RequestValue = RequestValue(
    id: string,
    req: Option<ProtocolRequest>,
    extraHeaders: Option<Headers>,
    resourceType: string,
    timestamp: int,
    httpMethod: string,
    url: string,
    hasResBody: bool)

  /** The record the constructor builds: method and url come from the protocol request, if any. */
  function NewRequest(id: string, req: Option<ProtocolRequest>, extraHeaders: Option<Headers>,
                      resourceType: string, timestamp: int): (r: RequestValue)
    ensures r.id == id && r.req == req && r.extraHeaders == extraHeaders
    ensures r.resourceType == resourceType && r.timestamp == timestamp && !r.hasResBody
    ensures req.None? ==> r.httpMethod == "" && r.url == ""
    ensures req.Some? ==> r.httpMethod == req.value.httpMethod && r.url == req.value.url
  {
    RequestValue(id, req, extraHeaders, resourceType, timestamp,
                 if req.Some? then req.value.httpMethod else "",
                 if req.Some? then req.value.url else "",
                 false)
  }

  /**
   * `fillEmptyPropsWith`: every falsy field among extraHeaders, resourceType,
   * timestamp and hasResBody takes `other`'s value; id, req, method and url
   * are never copied.
   */
  function FillRequest(cur: RequestValue, other: RequestValue): (r: RequestValue)
    ensures r.id == cur.id && r.req == cur.req && r.httpMethod == cur.httpMethod && r.url == cur.url
    ensures TruthyOpt(cur.extraHeaders) ==> r.extraHeaders == cur.extraHeaders
    ensures TruthyStr(cur.resourceType) ==> r.resourceType == cur.resourceType
    ensures TruthyInt(cur.timestamp) ==> r.timestamp == cur.timestamp
    ensures cur.hasResBody ==> r.hasResBody
    ensures !TruthyOpt(cur.extraHeaders) ==> r.extraHeaders == other.extraHeaders
    ensures !TruthyStr(cur.resourceType) ==> r.resourceType == other.resourceType
    ensures !TruthyInt(cur.timestamp) ==> r.timestamp == other.timestamp
    ensures !cur.hasResBody ==> r.hasResBody == other.hasResBody
  {
    cur.(extraHeaders := FillOpt(cur.extraHeaders, other.extraHeaders),
         resourceType := FillStr(cur.resourceType, other.resourceType),
         timestamp := FillInt(cur.timestamp, other.timestamp),
         hasResBody := FillBool(cur.hasResBody, other.hasResBody))
  }

  /** Filling twice with the same record is the same as filling once. */
  lemma FillRequestIdempotent(cur: RequestValue, other: RequestValue)
    ensures FillRequest(FillRequest(cur, other), other) == FillRequest(cur, other)
  {
  }

  /** Filling a record with itself changes nothing. */
  lemma FillRequestSelf(v: RequestValue)
    ensures FillRequest(v, v) == v
  {
  }

  /**
   * Fill-if-empty does not commute: a headers-only placeholder filled from a
   * full request keeps its empty method and url, while the full request
   * filled from the placeholder keeps them.
   */
  lemma FillRequestNotCommutative(id: string, h: Headers, p: ProtocolRequest, t: string, ts: int)
    requires p.url != ""
    ensures FillRequest(NewRequest(id, None, Some(h), "", 0), NewRequest(id, Some(p), None, t, ts)).url == ""
    ensures FillRequest(NewRequest(id, Some(p), None, t, ts), NewRequest(id, None, Some(h), "", 0)).url == p.url
  {
  }

  class RequestEntry {
    var id: string
    var req: Option<ProtocolRequest>
    var extraHeaders: Option<Headers>
    var resourceType: string
    var timestamp: int
    var httpMethod: string
    var url: string
    /** Never assigned by the constructor; `undefined` in the source, which is falsy like `false`. */
    var hasResBody: bool

    ghost function Value(): RequestValue
      reads this
    {
      RequestValue(id, req, extraHeaders, resourceType, timestamp, httpMethod, url, hasResBody)
    }

    constructor (id: string, req: Option<ProtocolRequest>, extraHeaders: Option<Headers> := None,
                 resourceType: string := "", timestamp: int := 0)
      ensures Value() == NewRequest(id, req, extraHeaders, resourceType, timestamp)
    {
      this.id := id;
      this.req := req;
      this.extraHeaders := extraHeaders;
      this.resourceType := resourceType;
      this.timestamp := timestamp;
      this.httpMethod := "";
      this.url := "";
      this.hasResBody := false;
      if req.Some? {
        this.httpMethod := req.value.httpMethod;
        this.url := req.value.url;
      }
    }

    function GetMethod(): (r: string)
      reads this
      ensures r == Value().httpMethod
    {
      httpMethod
    }

    function GetUrl(): (r: string)
      reads this
      ensures r == Value().url
    {
      url
    }

    /** Overwrites extraHeaders, set or not, and nothing else. */
    method SetExtraHeaders(headers: Option<Headers>)
      modifies this
      ensures Value() == old(Value()).(extraHeaders := headers)
    {
      extraHeaders := headers;
    }

    /**
     * `hasBody()` reads `req.hasPostData`; without a protocol request the
     * source throws a TypeError, modelled as None.
     */
    function HasBody(): (r: Option<bool>)
      reads this
      ensures r.Some? <==> req.Some?
      ensures req.Some? ==> r == Some(req.value.hasPostData)
    {
      if req.Some? then Some(req.value.hasPostData) else None
    }

    /** In-place fill-if-empty from `other`, which may be this very object. */
    method FillEmptyPropsWith(other: RequestEntry)
      modifies this
      ensures Value() == FillRequest(old(Value()), old(other.Value()))
    {
      if extraHeaders.None? { extraHeaders := other.extraHeaders; }
      if resourceType == "" { resourceType := other.resourceType; }
      if timestamp == 0 { timestamp := other.timestamp; }
      if !hasResBody { hasResBody := other.hasResBody; }
    }
  }
}
