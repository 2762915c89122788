/**
 * One exchange (lib/ReqResEntry.mjs): an optional request record, an optional
 * response record and an optional failure under one request id. A side that is
 * absent is set outright; a side that is present is kept and only its empty
 * fields are filled from the new record.
 */
module ReqResEntries {
  import opened Wrappers
  import opened Protocol
  import opened RequestEntries
  import opened ResponseEntries

  /** The state of a `ReqResEntry` and of the records it points to, as a value. */
  datatype EntryValue = EntryValue(
    id: string,
    req: Option<RequestValue>,
    res: Option<ResponseValue>,
    error: Option<FetchError>)

  /** `isFailed()`: an error is stored. */
  predicate Failed(e: EntryValue) {
    e.error.Some?
  }

  /** The entry `new ReqResEntry(id)` builds: nothing known yet. */
  function EmptyEntry(id: string): (e: EntryValue)
    ensures e.id == id && e.req.None? && e.res.None? && !Failed(e)
  {
    EntryValue(id, None, None, None)
  }

  /** `setRequest`: set the request if absent, otherwise fill its empty fields from `r`. */
  function WithRequest(e: EntryValue, r: RequestValue): (e': EntryValue)
    ensures e'.id == e.id && e'.res == e.res && e'.error == e.error
    ensures e.req.None? ==> e'.req == Some(r)
    ensures e.req.Some? ==> e'.req == Some(FillRequest(e.req.value, r))
  {
    match e.req
    case None => e.(req := Some(r))
    case Some(cur) => e.(req := Some(FillRequest(cur, r)))
  }

  /** `setResponse`: set the response if absent, otherwise fill its empty fields from `r`. */
  function WithResponse(e: EntryValue, r: ResponseValue): (e': EntryValue)
    ensures e'.id == e.id && e'.req == e.req && e'.error == e.error
    ensures e.res.None? ==> e'.res == Some(r)
    ensures e.res.Some? ==> e'.res == Some(FillResponse(e.res.value, r))
  {
    match e.res
    case None => e.(res := Some(r))
    case Some(cur) => e.(res := Some(FillResponse(cur, r)))
  }

  /** `setError`: the new error replaces any earlier one. */
  function WithError(e: EntryValue, err: FetchError): (e': EntryValue)
    ensures Failed(e') && e'.error == Some(err)
    ensures e'.id == e.id && e'.req == e.req && e'.res == e.res
  {
    e.(error := Some(err))
  }

  /** Setting the same request twice is the same as setting it once. */
  lemma WithRequestIdempotent(e: EntryValue, r: RequestValue)
    ensures WithRequest(WithRequest(e, r), r) == WithRequest(e, r)
  {
    if e.req.None? {
      FillRequestSelf(r);
    } else {
      FillRequestIdempotent(e.req.value, r);
    }
  }

  /** Setting the same response twice is the same as setting it once. */
  lemma WithResponseIdempotent(e: EntryValue, r: ResponseValue)
    ensures WithResponse(WithResponse(e, r), r) == WithResponse(e, r)
  {
    if e.res.None? {
      FillResponseSelf(r);
    } else {
      FillResponseIdempotent(e.res.value, r);
    }
  }

  /** The last error set wins. */
  lemma LastErrorWins(e: EntryValue, first: FetchError, second: FetchError)
    ensures WithError(WithError(e, first), second) == WithError(e, second)
  {
  }

  class ReqResEntry {
    var id: string
    var req: RequestEntry?
    var res: ResponseEntry?
    var error: Option<FetchError>

    /** This entry and the request and response objects it points to. */
    ghost function Footprint(): set<object>
      reads this
    {
      {this} + (if req == null then {} else {req}) + (if res == null then {} else {res})
    }

    ghost function Value(): EntryValue
      reads this, req, res
    {
      EntryValue(id,
                 if req == null then None else Some(req.Value()),
                 if res == null then None else Some(res.Value()),
                 error)
    }

    constructor (id: string, requestEntry: RequestEntry? := null, responseEntry: ResponseEntry? := null,
                 error: Option<FetchError> := None)
      ensures this.id == id && req == requestEntry && res == responseEntry && this.error == error
    {
      this.id := id;
      this.req := requestEntry;
      this.res := responseEntry;
      this.error := error;
    }

    function GetId(): (r: string)
      reads this
      ensures r == id
    {
      id
    }

    function GetReq(): (r: RequestEntry?)
      reads this
      ensures r == req
    {
      req
    }

    function GetRes(): (r: ResponseEntry?)
      reads this
      ensures r == res
    {
      res
    }

    function GetError(): (r: Option<FetchError>)
      reads this
      ensures r == error
    {
      error
    }

    /** `isFailed()`: an error is stored. */
    predicate IsFailed()
      reads this
      ensures IsFailed() <==> error.Some?
    {
      error.Some?
    }

    /**
     * Stores `requestEntry` itself when there is no request yet; otherwise the
     * stored request object stays and only its empty fields are filled.
     */
    method SetRequest(requestEntry: RequestEntry)
      modifies this, req
      ensures id == old(id) && res == old(res) && error == old(error)
      ensures old(req) == null ==> req == requestEntry
      ensures old(req) != null ==> req == old(req)
      ensures Value() == WithRequest(old(Value()), old(requestEntry.Value()))
    {
      if req == null {
        req := requestEntry;
        return;
      }
      FillRequestSelf(req.Value());
      req.FillEmptyPropsWith(requestEntry);
    }

    /** The same rule as SetRequest, on the response side. */
    method SetResponse(responseEntry: ResponseEntry)
      modifies this, res
      ensures id == old(id) && req == old(req) && error == old(error)
      ensures old(res) == null ==> res == responseEntry
      ensures old(res) != null ==> res == old(res)
      ensures Value() == WithResponse(old(Value()), old(responseEntry.Value()))
    {
      if res == null {
        res := responseEntry;
        return;
      }
      FillResponseSelf(res.Value());
      res.FillEmptyPropsWith(responseEntry);
    }

    method SetError(err: FetchError)
      modifies this
      ensures IsFailed() && error == Some(err)
      ensures id == old(id) && req == old(req) && res == old(res)
      ensures Value() == WithError(old(Value()), err)
    {
      error := Some(err);
    }
  }
}
