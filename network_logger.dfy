/**
 * lib/NetworkLogger.mjs: a logger owns a browser context, shares one request
 * store with the loggers of its iframes, and feeds every `Network.*` event of
 * its context into that store. Each handler is a method proved against Step;
 * Handle is the single dispatch over the event union.
 */
module NetworkLoggers {
  import opened Wrappers
  import opened Protocol
  import opened RequestEntries
  import opened ResponseEntries
  import opened ReqResEntries
  import opened RequestStores
  import opened NetworkEvents

  /**
   * Stand-in for lib/BrowserContext.mjs: a DevTools connection to a page, or
   * to the iframe target `target`, that can be closed.
   */
  class BrowserContext {
    const target: Option<string>
    var closed: bool

    constructor (target: Option<string>)
      ensures this.target == target && !closed
    {
      this.target := target;
      closed := false;
    }

    method Close()
      modifies this
      ensures closed
    {
      closed := true;
    }
  }

  // What Step does for each event kind, one kind at a time. These only unfold Step's match arms,
  // to keep the handler methods' proofs small; the properties of each handler are the lemmas
  // of NetworkEvents (RequestWillBeSentSets, ExtraInfoUnseen, ResponseReceivedCases, ...).

  lemma StepRequestWillBeSent(s: StoreValue, id: string, request: ProtocolRequest, resourceType: string, timestamp: int)
    ensures Step(s, RequestWillBeSent(id, request, resourceType, timestamp))
            == var s1 := SafeGetValue(s, id);
               Handled(Update(s1, id, WithRequest(s1.entries[id], NewRequest(id, Some(request), None, resourceType, timestamp))))
  {
  }

  lemma StepRequestExtraInfo(s: StoreValue, id: string, headers: Headers)
    ensures id !in s.entries ==>
              Step(s, RequestWillBeSentExtraInfo(id, headers))
              == Handled(PutValue(s, id, EntryValue(id, Some(RequestPlaceholder(id, headers)), None, None)))
    ensures id in s.entries && s.entries[id].req.None? ==> Step(s, RequestWillBeSentExtraInfo(id, headers)) == Threw
    ensures id in s.entries && s.entries[id].req.Some? ==>
              Step(s, RequestWillBeSentExtraInfo(id, headers))
              == var e := s.entries[id];
                 Handled(Update(s, id, e.(req := Some(e.req.value.(extraHeaders := Some(headers))))))
  {
  }

  lemma StepResponseReceived(s: StoreValue, id: string, response: ProtocolResponse, resourceType: string, timestamp: int)
    ensures Step(s, ResponseReceived(id, response, resourceType, timestamp))
            == var s1 := SafeGetValue(s, id);
               Handled(Update(s1, id, WithResponse(s1.entries[id], NewResponse(id, Some(response), None, resourceType, timestamp))))
  {
  }

  lemma StepResponseExtraInfo(s: StoreValue, id: string, headers: Headers)
    ensures Step(s, ResponseReceivedExtraInfo(id, headers))
            == var s1 := SafeGetValue(s, id);
               var e := s1.entries[id];
               Handled(Update(s1, id, if e.res.None? then WithResponse(e, ResponsePlaceholder(id, headers))
                                      else e.(res := Some(e.res.value.(extraHeaders := Some(headers))))))
  {
  }

  lemma StepDataReceived(s: StoreValue, id: string)
    ensures Step(s, DataReceived(id))
            == var s1 := SafeGetValue(s, id);
               var e := s1.entries[id];
               var e1 := if e.res.None? then WithResponse(e, BodyPlaceholder(id)) else e;
               Handled(Update(s1, id, e1.(res := Some(e1.res.value.(hasResBody := true)))))
  {
  }

  lemma StepLoadingFailed(s: StoreValue, id: string, errorText: string, canceled: bool)
    ensures Step(s, LoadingFailed(id, errorText, canceled))
            == var s1 := SafeGetValue(s, id);
               var e := s1.entries[id];
               var err := ErrorOf(id, errorText, canceled);
               Handled(Update(s1, id, WithError(if !Failed(e) then WithError(e, err) else e, err)))
  {
  }

  /** A tree of loggers none of which changed keeps its shape and its set of contexts. */
  twostate lemma TreeUnchanged(l: NetworkLogger)
    requires old(l.Valid()) && unchanged(l) && unchanged(old(l.Repr))
    ensures l.Valid() && l.TreeContexts() == old(l.TreeContexts())
  {
  }

  class NetworkLogger {
    /** The page url to load; None for an iframe logger, whose context is already loading. */
    var url: Option<string>
    const context: BrowserContext
    const store: RequestStore
    /** Loggers of the iframes found so far, by frame id. */
    var subframes: map<string, NetworkLogger>
    /** This logger and every logger below it. */
    ghost var Repr: set<NetworkLogger>

    /** The loggers form a tree below this one, all sharing this logger's store. */
    ghost predicate Valid()
      reads this, Repr
      decreases Repr
    {
      && this in Repr
      && (forall f :: f in subframes ==>
            && subframes[f] in Repr
            && subframes[f].Repr <= Repr
            && this !in subframes[f].Repr
            && subframes[f].store == store
            && subframes[f].Valid())
    }

    /** The contexts of this logger and of every logger below it. */
    ghost function TreeContexts(): set<BrowserContext>
      reads this, Repr
      decreases Repr
    {
      {context} + (set f, c | f in subframes && subframes[f] in Repr && subframes[f].Repr < Repr
                              && c in subframes[f].TreeContexts() :: c)
    }

    /** `new NetworkLogger(url, context, requestStore)`. */
    constructor (url: Option<string>, context: BrowserContext, store: RequestStore)
      ensures Valid() && fresh(Repr - {this})
      ensures this.url == url && this.context == context && this.store == store && subframes == map[]
    {
      this.url := url;
      this.context := context;
      this.store := store;
      subframes := map[];
      Repr := {this};
    }

    /** `new NetworkLogger(url, context)`: the default argument is a new empty store. */
    constructor WithNewStore(url: Option<string>, context: BrowserContext)
      ensures Valid() && fresh(Repr - {this}) && fresh(store)
      ensures store.Valid() && store.Separated() && store.Abstract() == EmptyStore
      ensures this.url == url && this.context == context && subframes == map[]
    {
      this.url := url;
      this.context := context;
      store := new RequestStore();
      subframes := map[];
      Repr := {this};
    }

    /** The store shared by this logger and every logger below it. */
    function GetStore(): (r: RequestStore)
      ensures r == store
    {
      store
    }

    /** `requestWillBeSent`: merge a full request record into the entry of its id. */
    method OnRequestWillBeSent(requestId: string, request: ProtocolRequest, resourceType: string, timestamp: int)
      requires store.Valid() && store.Separated()
      modifies store, store.Objects()
      ensures store.Valid() && store.Separated()
      ensures Step(old(store.Abstract()), RequestWillBeSent(requestId, request, resourceType, timestamp))
              == Handled(store.Abstract())
    {
      var e := store.SafeGet(requestId);
      ApplyRequest(requestId, e, request, resourceType, timestamp);
      StepRequestWillBeSent(old(store.Abstract()), requestId, request, resourceType, timestamp);
    }

    /** The stored entry `e` of `requestId` takes in a new request record. */
    method ApplyRequest(requestId: string, e: ReqResEntry, request: ProtocolRequest, resourceType: string, timestamp: int)
      requires store.Valid() && store.Separated() && requestId in store.store && store.store[requestId] == e
      modifies store.Objects()
      ensures store.Valid() && store.Separated()
      ensures store.Abstract() == Update(old(store.Abstract()), requestId,
                                         WithRequest(old(store.Abstract()).entries[requestId],
                                                     NewRequest(requestId, Some(request), None, resourceType, timestamp)))
    {
      FootprintWithin(store.store, requestId);
      var req := new RequestEntry(requestId, Some(request), None, resourceType, timestamp);
      e.SetRequest(req);
      EntryMutated((store, requestId));
    }

    /**
     * `requestWillBeSentExtraInfo`: a headers-only placeholder for an unseen
     * id, otherwise overwrite the stored request's headers. ok is false when
     * the seen entry has no request, where the source throws a TypeError
     * before changing anything.
     */
    method OnRequestWillBeSentExtraInfo(requestId: string, headers: Headers) returns (ok: bool)
      requires store.Valid() && store.Separated()
      modifies store, store.Objects()
      ensures store.Valid() && store.Separated()
      ensures Step(old(store.Abstract()), RequestWillBeSentExtraInfo(requestId, headers))
              == if ok then Handled(store.Abstract()) else Threw
      ensures !ok ==> store.Abstract() == old(store.Abstract())
    {
      StepRequestExtraInfo(store.Abstract(), requestId, headers);
      if !store.Has(requestId) {
        var req := new RequestEntry(requestId, None, Some(headers));
        var e := new ReqResEntry(requestId, req);
        store.Put(requestId, e);
        FreshEntryPut((store, requestId));
        return true;
      }
      var e := store.Get(requestId).value;
      if e.GetReq() == null {
        return false;
      }
      ApplyRequestHeaders(requestId, e, headers);
      ok := true;
    }

    /** The stored entry `e` of `requestId`, which has a request, gets that request's headers overwritten. */
    method ApplyRequestHeaders(requestId: string, e: ReqResEntry, headers: Headers)
      requires store.Valid() && store.Separated() && requestId in store.store && store.store[requestId] == e
      requires e.req != null
      modifies store.Objects()
      ensures store.Valid() && store.Separated()
      ensures var v := old(store.Abstract()).entries[requestId];
              v.req.Some? && store.Abstract() == Update(old(store.Abstract()), requestId, v.(req := Some(v.req.value.(extraHeaders := Some(headers)))))
    {
      FootprintWithin(store.store, requestId);
      e.GetReq().SetExtraHeaders(Some(headers));
      EntryMutated((store, requestId));
    }

    /** `responseReceived`: merge a full response record into the entry of its id. */
    method OnResponseReceived(requestId: string, response: ProtocolResponse, resourceType: string, timestamp: int)
      requires store.Valid() && store.Separated()
      modifies store, store.Objects()
      ensures store.Valid() && store.Separated()
      ensures Step(old(store.Abstract()), ResponseReceived(requestId, response, resourceType, timestamp))
              == Handled(store.Abstract())
    {
      var e := store.SafeGet(requestId);
      ApplyResponse(requestId, e, response, resourceType, timestamp);
      StepResponseReceived(old(store.Abstract()), requestId, response, resourceType, timestamp);
    }

    /** The stored entry `e` of `requestId` takes in a new response record. */
    method ApplyResponse(requestId: string, e: ReqResEntry, response: ProtocolResponse, resourceType: string, timestamp: int)
      requires store.Valid() && store.Separated() && requestId in store.store && store.store[requestId] == e
      modifies store.Objects()
      ensures store.Valid() && store.Separated()
      ensures store.Abstract() == Update(old(store.Abstract()), requestId,
                                         WithResponse(old(store.Abstract()).entries[requestId],
                                                      NewResponse(requestId, Some(response), None, resourceType, timestamp)))
    {
      FootprintWithin(store.store, requestId);
      var res := new ResponseEntry(requestId, Some(response), None, resourceType, timestamp);
      e.SetResponse(res);
      EntryMutated((store, requestId));
    }

    /** `responseReceivedExtraInfo`: a headers-only response if there is none, otherwise overwrite its headers. */
    method OnResponseReceivedExtraInfo(requestId: string, headers: Headers)
      requires store.Valid() && store.Separated()
      modifies store, store.Objects()
      ensures store.Valid() && store.Separated()
      ensures Step(old(store.Abstract()), ResponseReceivedExtraInfo(requestId, headers))
              == Handled(store.Abstract())
    {
      var e := store.SafeGet(requestId);
      ApplyResponseHeaders(requestId, e, headers);
      StepResponseExtraInfo(old(store.Abstract()), requestId, headers);
    }

    /** The stored entry `e` of `requestId` gets a headers-only response, or its response's headers overwritten. */
    method ApplyResponseHeaders(requestId: string, e: ReqResEntry, headers: Headers)
      requires store.Valid() && store.Separated() && requestId in store.store && store.store[requestId] == e
      modifies store.Objects()
      ensures store.Valid() && store.Separated()
      ensures var v := old(store.Abstract()).entries[requestId];
              store.Abstract() == Update(old(store.Abstract()), requestId,
                                         if v.res.None? then WithResponse(v, ResponsePlaceholder(requestId, headers))
                                         else v.(res := Some(v.res.value.(extraHeaders := Some(headers)))))
    {
      FootprintWithin(store.store, requestId);
      if e.GetRes() == null {
        var res := new ResponseEntry(requestId, None, Some(headers));
        e.SetResponse(res);
      } else {
        e.GetRes().SetExtraHeaders(Some(headers));
      }
      EntryMutated((store, requestId));
    }

    /** `dataReceived`: make sure there is a response, then flag that it has a body. */
    method OnDataReceived(requestId: string)
      requires store.Valid() && store.Separated()
      modifies store, store.Objects()
      ensures store.Valid() && store.Separated()
      ensures Step(old(store.Abstract()), DataReceived(requestId)) == Handled(store.Abstract())
    {
      var e := store.SafeGet(requestId);
      ApplyBody(requestId, e);
      StepDataReceived(old(store.Abstract()), requestId);
    }

    /** The stored entry `e` of `requestId` gets a body-only response if it has none; then its response is flagged as having a body. */
    method ApplyBody(requestId: string, e: ReqResEntry)
      requires store.Valid() && store.Separated() && requestId in store.store && store.store[requestId] == e
      modifies store.Objects()
      ensures store.Valid() && store.Separated()
      ensures var v := old(store.Abstract()).entries[requestId];
              var v1 := if v.res.None? then WithResponse(v, BodyPlaceholder(requestId)) else v;
              store.Abstract() == Update(old(store.Abstract()), requestId, v1.(res := Some(v1.res.value.(hasResBody := true))))
    {
      FootprintWithin(store.store, requestId);
      ghost var v := e.Value();
      if e.GetRes() == null {
        var res := new ResponseEntry(requestId, None, None);
        e.SetResponse(res);
      }
      ghost var v1 := e.Value();
      assert v1 == if v.res.None? then WithResponse(v, BodyPlaceholder(requestId)) else v;
      e.GetRes().SetHasBody();
      assert e.Value() == v1.(res := Some(v1.res.value.(hasResBody := true)));
      EntryMutated((store, requestId));
    }

    /** `loadingFailed`: record the error built from the event; the source sets it twice when none was set. */
    method OnLoadingFailed(requestId: string, errorText: string, canceled: bool)
      requires store.Valid() && store.Separated()
      modifies store, store.Objects()
      ensures store.Valid() && store.Separated()
      ensures Step(old(store.Abstract()), LoadingFailed(requestId, errorText, canceled)) == Handled(store.Abstract())
    {
      var e := store.SafeGet(requestId);
      ApplyError(requestId, e, errorText, canceled);
      StepLoadingFailed(old(store.Abstract()), requestId, errorText, canceled);
    }

    /** The stored entry `e` of `requestId` has its error set, twice when none was set before. */
    method ApplyError(requestId: string, e: ReqResEntry, errorText: string, canceled: bool)
      requires store.Valid() && store.Separated() && requestId in store.store && store.store[requestId] == e
      modifies store.Objects()
      ensures store.Valid() && store.Separated()
      ensures var v := old(store.Abstract()).entries[requestId];
              var err := ErrorOf(requestId, errorText, canceled);
              store.Abstract() == Update(old(store.Abstract()), requestId, WithError(if !Failed(v) then WithError(v, err) else v, err))
    {
      FootprintWithin(store.store, requestId);
      if e.GetError().None? {
        e.SetError(ErrorOf(requestId, errorText, canceled));
      }
      e.SetError(ErrorOf(requestId, errorText, canceled));
      EntryMutated((store, requestId));
    }

    /** One `Network.*` event routed to its handler; ok is false exactly when the handler throws. */
    method Handle(ev: NetworkEvent) returns (ok: bool)
      requires store.Valid() && store.Separated()
      modifies store, store.Objects()
      ensures store.Valid() && store.Separated()
      ensures Step(old(store.Abstract()), ev) == if ok then Handled(store.Abstract()) else Threw
      ensures old(store.Abstract()) == store.Abstract() || ok
    {
      ok := true;
      match ev
      case RequestWillBeSent(id, request, resourceType, timestamp) =>
        OnRequestWillBeSent(id, request, resourceType, timestamp);
      case RequestWillBeSentExtraInfo(id, headers) =>
        ok := OnRequestWillBeSentExtraInfo(id, headers);
      case ResponseReceived(id, response, resourceType, timestamp) =>
        OnResponseReceived(id, response, resourceType, timestamp);
      case ResponseReceivedExtraInfo(id, headers) =>
        OnResponseReceivedExtraInfo(id, headers);
      case DataReceived(id) =>
        OnDataReceived(id);
      case LoadingFailed(id, errorText, canceled) =>
        OnLoadingFailed(id, errorText, canceled);
    }

    /** One new frame: a logger with its own context and the shared store, registered under the frame id. */
    method AddSubframe(frameId: string)
      requires Valid() && frameId !in subframes
      modifies this
      ensures Valid() && fresh(Repr - old(Repr)) && url == old(url)
      ensures frameId in subframes && subframes == old(subframes)[frameId := subframes[frameId]]
      ensures fresh(subframes[frameId]) && subframes[frameId].store == store
      ensures subframes[frameId].url == None && subframes[frameId].subframes == map[]
      ensures fresh(subframes[frameId].context) && subframes[frameId].context.target == Some(frameId)
    {
      var frameContext := new BrowserContext(Some(frameId));
      var netlog := new NetworkLogger(None, frameContext, store);
      subframes := subframes[frameId := netlog];
      Repr := Repr + netlog.Repr;
    }

    /**
     * The `loadEventFired` loop over the iframes found in the page: a frame id
     * not yet in `subframes` gets a new logger on a new context for that
     * frame and on this logger's store; a known frame id is skipped.
     */
    method RegisterFrames(frameIds: seq<string>)
      requires Valid()
      modifies this
      ensures Valid() && fresh(Repr - old(Repr))
      ensures url == old(url)
      ensures forall f :: f in subframes <==> f in old(subframes) || f in frameIds
      ensures forall f :: f in old(subframes) ==> subframes[f] == old(subframes[f])
      ensures forall f :: f in subframes && f !in old(subframes) ==>
                && fresh(subframes[f]) && subframes[f].store == store
                && subframes[f].url == None && subframes[f].subframes == map[]
                && fresh(subframes[f].context) && subframes[f].context.target == Some(f)
      ensures (forall f :: f in frameIds ==> f in old(subframes)) ==> subframes == old(subframes)
    {
      var i := 0;
      while i < |frameIds|
        invariant 0 <= i <= |frameIds|
        invariant Valid() && fresh(Repr - old(Repr)) && url == old(url)
        invariant forall f :: f in subframes <==> f in old(subframes) || f in frameIds[..i]
        invariant forall f :: f in old(subframes) ==> subframes[f] == old(subframes[f])
        invariant forall f :: f in subframes && f !in old(subframes) ==>
                    && fresh(subframes[f]) && subframes[f].store == store
                    && subframes[f].url == None && subframes[f].subframes == map[]
                    && fresh(subframes[f].context) && subframes[f].context.target == Some(f)
      {
        var frameId := frameIds[i];
        if frameId !in subframes {
          AddSubframe(frameId);
        }
        assert frameIds[..i + 1] == frameIds[..i] + [frameId];
        i := i + 1;
      }
      assert frameIds[..i] == frameIds;
      if forall f :: f in frameIds ==> f in old(subframes) {
        assert subframes.Keys == old(subframes).Keys;
      }
    }

    /** The contexts of the tree: this logger's own and those of the trees below it. */
    lemma ChildContexts()
      requires Valid()
      ensures forall f :: f in subframes ==> subframes[f].TreeContexts() <= TreeContexts()
      ensures forall c :: c in TreeContexts() ==> c == context || exists f :: f in subframes && c in subframes[f].TreeContexts()
    {
    }

    /** `close`: close this logger's context, then every subframe logger, recursively. */
    method Close()
      requires Valid()
      modifies TreeContexts()
      ensures Valid()
      ensures forall c :: c in old(TreeContexts()) ==> c.closed
      decreases Repr
    {
      ChildContexts();
      context.Close();
      ghost var done := {context};
      var pending := subframes.Keys;
      while pending != {}
        invariant pending <= subframes.Keys
        invariant context in done
        invariant forall c :: c in done ==> c.closed
        invariant forall f :: f in subframes && f !in pending ==> old(subframes[f].TreeContexts()) <= done
        decreases pending
      {
        var f :| f in pending;
        TreeUnchanged(subframes[f]);
        subframes[f].Close();
        done := done + old(subframes[f].TreeContexts());
        pending := pending - {f};
      }
      TreeUnchanged(this);
      forall c | c in old(TreeContexts())
        ensures c.closed
      {
        if c != context {
          var f :| f in subframes && c in old(subframes[f].TreeContexts());
          assert c in done;
        }
      }
    }

    /** `reset`: an empty url and no subframes; the store and the context stay. */
    method Reset()
      requires Valid()
      modifies this
      ensures Valid()
      ensures url == Some("") && subframes == map[] && Repr == {this}
    {
      url := Some("");
      subframes := map[];
      Repr := {this};
    }
  }
}
