/**
 * What the six `Network.*` handlers of lib/NetworkLogger.mjs do to a store,
 * as a function on store values: the events are one tagged union, Step is the
 * single dispatch, and Run feeds a whole event stream through it.
 */
module NetworkEvents {
  import opened Wrappers
  import opened Protocol
  import opened RequestEntries
  import opened ResponseEntries
  import opened ReqResEntries
  import opened RequestStores

  datatype NetworkEvent =
    | RequestWillBeSent(requestId: string, request: ProtocolRequest, resourceType: string, timestamp: int)
    | RequestWillBeSentExtraInfo(requestId: string, headers: Headers)
    | ResponseReceived(requestId: string, response: ProtocolResponse, resourceType: string, timestamp: int)
    | ResponseReceivedExtraInfo(requestId: string, headers: Headers)
    | DataReceived(requestId: string)
    | LoadingFailed(requestId: string, errorText: string, canceled: bool)

  /** The `FetchingFailedError` a `loadingFailed` event builds. */
  function ErrorOf(requestId: string, errorText: string, canceled: bool): FetchError {
    FetchingFailedError(requestId, errorText, canceled)
  }

  /** The store after a handler, or Threw when the handler throws a TypeError before changing anything. */
  datatype Outcome = Handled(store: StoreValue) | Threw

  /** Replace the entry of a stored id in place; the sequence is untouched. */
  function Update(s: StoreValue, id: string, e: EntryValue): StoreValue {
    s.(entries := s.entries[id := e])
  }

  /** The request placeholder `requestWillBeSentExtraInfo` stores for an unseen id. */
  function RequestPlaceholder(id: string, headers: Headers): RequestValue {
    NewRequest(id, None, Some(headers), "", 0)
  }

  /** The response placeholder `responseReceivedExtraInfo` stores when the entry has no response. */
  function ResponsePlaceholder(id: string, headers: Headers): ResponseValue {
    NewResponse(id, None, Some(headers), "", 0)
  }

  /** The empty response `dataReceived` stores when the entry has no response. */
  function BodyPlaceholder(id: string): ResponseValue {
    NewResponse(id, None, None, "", 0)
  }

  /**
   * One handler run. Every kind touches only the entry of its own request id;
   * an unseen id gets one new entry and one place at the end of the sequence;
   * only `requestWillBeSentExtraInfo` on a seen id without a request throws.
   */
  function Step(s: StoreValue, ev: NetworkEvent): (o: Outcome)
    ensures o.Threw? <==>
              ev.RequestWillBeSentExtraInfo? && ev.requestId in s.entries && s.entries[ev.requestId].req.None?
    ensures o.Handled? ==> o.store.entries.Keys == s.entries.Keys + {ev.requestId}
    ensures o.Handled? ==> o.store.sequence == if ev.requestId in s.entries then s.sequence else s.sequence + [ev.requestId]
    ensures o.Handled? ==> forall k :: k in s.entries && k != ev.requestId ==> o.store.entries[k] == s.entries[k]
    ensures o.Handled? ==> o.store.entries[ev.requestId].id ==
                           if ev.requestId in s.entries then s.entries[ev.requestId].id else ev.requestId
  {
    var id := ev.requestId;
    match ev
    case RequestWillBeSent(_, request, resourceType, timestamp) =>
      var s1 := SafeGetValue(s, id);
      Handled(Update(s1, id, WithRequest(s1.entries[id], NewRequest(id, Some(request), None, resourceType, timestamp))))
    case RequestWillBeSentExtraInfo(_, headers) =>
      if id !in s.entries then
        Handled(PutValue(s, id, EntryValue(id, Some(RequestPlaceholder(id, headers)), None, None)))
      else
        var e := s.entries[id];
        if e.req.None? then Threw
        else Handled(Update(s, id, e.(req := Some(e.req.value.(extraHeaders := Some(headers))))))
    case ResponseReceived(_, response, resourceType, timestamp) =>
      var s1 := SafeGetValue(s, id);
      Handled(Update(s1, id, WithResponse(s1.entries[id], NewResponse(id, Some(response), None, resourceType, timestamp))))
    case ResponseReceivedExtraInfo(_, headers) =>
      var s1 := SafeGetValue(s, id);
      var e := s1.entries[id];
      if e.res.None? then
        Handled(Update(s1, id, WithResponse(e, ResponsePlaceholder(id, headers))))
      else
        Handled(Update(s1, id, e.(res := Some(e.res.value.(extraHeaders := Some(headers))))))
    case DataReceived(_) =>
      var s1 := SafeGetValue(s, id);
      var e := s1.entries[id];
      var e1 := if e.res.None? then WithResponse(e, BodyPlaceholder(id)) else e;
      Handled(Update(s1, id, e1.(res := Some(e1.res.value.(hasResBody := true)))))
    case LoadingFailed(_, errorText, canceled) =>
      var s1 := SafeGetValue(s, id);
      var e := s1.entries[id];
      var err := ErrorOf(id, errorText, canceled);
      var e1 := if !Failed(e) then WithError(e, err) else e;
      Handled(Update(s1, id, WithError(e1, err)))
  }

  /** The store after an event; a handler that throws leaves it as it was. */
  function After(s: StoreValue, ev: NetworkEvent): StoreValue {
    match Step(s, ev)
    case Handled(t) => t
    case Threw => s
  }

  /** Events handled one after another, in arrival order. */
  function Run(s: StoreValue, evs: seq<NetworkEvent>): StoreValue
    decreases |evs|
  {
    if evs == [] then s else Run(After(s, evs[0]), evs[1..])
  }

  /** The request id each event references. */
  function Ids(evs: seq<NetworkEvent>): (r: seq<string>)
    ensures |r| == |evs|
    ensures forall i :: 0 <= i < |evs| ==> r[i] == evs[i].requestId
  {
    if evs == [] then [] else [evs[0].requestId] + Ids(evs[1..])
  }

  /** The ids of `ids` not in `seen`, each once, in the order of their first occurrence. */
  function FirstTouches(seen: set<string>, ids: seq<string>): seq<string>
    decreases |ids|
  {
    if ids == [] then []
    else if ids[0] in seen then FirstTouches(seen, ids[1..])
    else [ids[0]] + FirstTouches(seen + {ids[0]}, ids[1..])
  }

  /** FirstTouches lists every unseen id of `ids`, once each, and nothing else. */
  lemma {:induction false} FirstTouchesExact(seen: set<string>, ids: seq<string>)
    ensures NoDuplicates(FirstTouches(seen, ids))
    ensures forall x :: x in FirstTouches(seen, ids) <==> x in ids && x !in seen
    decreases |ids|
  {
    if ids != [] {
      var rest := ids[1..];
      if ids[0] in seen {
        FirstTouchesExact(seen, rest);
        forall x ensures x in ids <==> x == ids[0] || x in rest {
          assert ids == [ids[0]] + rest;
        }
      } else {
        FirstTouchesExact(seen + {ids[0]}, rest);
        forall x ensures x in ids <==> x == ids[0] || x in rest {
          assert ids == [ids[0]] + rest;
        }
      }
    }
  }

  /**
   * A store that changes the way a handler changes it (one id gains or keeps
   * an entry, the sequence grows only by a new id, the other entries stay)
   * stays well-formed.
   */
  lemma TouchWellFormed(s: StoreValue, t: StoreValue, id: string)
    requires WellFormed(s)
    requires t.entries.Keys == s.entries.Keys + {id}
    requires t.sequence == if id in s.entries then s.sequence else s.sequence + [id]
    requires forall k :: k in s.entries && k != id ==> t.entries[k] == s.entries[k]
    requires t.entries[id].id == if id in s.entries then s.entries[id].id else id
    ensures WellFormed(t)
  {
    if id !in s.entries {
      forall i, j | 0 <= i < j < |t.sequence| ensures t.sequence[i] != t.sequence[j] {
        if j == |t.sequence| - 1 {
          assert t.sequence[i] == s.sequence[i];
          assert s.sequence[i] in s.entries;
        }
      }
    }
  }

  /** A handler never makes a well-formed store ill-formed. */
  lemma AfterWellFormed(s: StoreValue, ev: NetworkEvent)
    requires WellFormed(s)
    ensures WellFormed(After(s, ev))
  {
    var o := Step(s, ev);
    if o.Handled? {
      TouchWellFormed(s, o.store, ev.requestId);
    }
  }

  /** The ids a stream of events leaves stored: the old keys and every id referenced. */
  lemma {:induction false} RunKeys(s: StoreValue, evs: seq<NetworkEvent>)
    ensures forall x :: x in Run(s, evs).entries <==> x in s.entries || x in Ids(evs)
    decreases |evs|
  {
    if evs != [] {
      var t := After(s, evs[0]);
      RunKeys(t, evs[1..]);
      assert Ids(evs) == [evs[0].requestId] + Ids(evs[1..]);
    }
  }

  /** Whether or not its handler throws, an event adds its id to the keys and, if new, to the sequence. */
  lemma AfterShape(s: StoreValue, ev: NetworkEvent)
    ensures After(s, ev).entries.Keys == s.entries.Keys + {ev.requestId}
    ensures After(s, ev).sequence == if ev.requestId in s.entries then s.sequence else s.sequence + [ev.requestId]
  {
    if Step(s, ev).Threw? {
      assert ev.requestId in s.entries;
    }
  }

  lemma AppendOne(a: seq<string>, x: string, b: seq<string>)
    ensures (a + [x]) + b == a + ([x] + b)
  {
  }

  lemma FirstTouchesCons(seen: set<string>, id: string, rest: seq<string>)
    ensures FirstTouches(seen, [id] + rest) ==
            if id in seen then FirstTouches(seen, rest) else [id] + FirstTouches(seen + {id}, rest)
  {
    assert ([id] + rest)[1..] == rest;
  }

  /**
   * First-touch order: the store's sequence grows by the ids of the events,
   * each id once, at the position of the first event of any kind that
   * referenced it.
   */
  lemma {:induction false} RunOrder(s: StoreValue, evs: seq<NetworkEvent>)
    ensures Run(s, evs).sequence == s.sequence + FirstTouches(s.entries.Keys, Ids(evs))
    decreases |evs|
  {
    if evs != [] {
      var id := evs[0].requestId;
      var t := After(s, evs[0]);
      AfterShape(s, evs[0]);
      RunOrder(t, evs[1..]);
      assert Run(s, evs) == Run(t, evs[1..]);
      var rest := Ids(evs[1..]);
      assert Ids(evs) == [id] + rest;
      FirstTouchesCons(s.entries.Keys, id, rest);
      var ft := FirstTouches(t.entries.Keys, rest);
      assert Run(t, evs[1..]).sequence == t.sequence + ft;
      if id in s.entries {
        assert t.entries.Keys == s.entries.Keys;
        assert FirstTouches(s.entries.Keys, Ids(evs)) == ft;
      } else {
        assert FirstTouches(s.entries.Keys, Ids(evs)) == [id] + ft;
        AppendOne(s.sequence, id, ft);
      }
    }
  }

  /** Two events in a row. */
  lemma RunTwo(s: StoreValue, a: NetworkEvent, b: NetworkEvent)
    ensures Run(s, [a, b]) == After(After(s, a), b)
  {
    assert [a, b][1..] == [b];
    assert [b][1..] == [];
    assert Run(s, [a, b]) == Run(After(s, a), [b]);
    assert Run(After(s, a), [b]) == Run(After(After(s, a), b), []);
  }

  /** Any event stream keeps a well-formed store well-formed. */
  lemma {:induction false} RunWellFormed(s: StoreValue, evs: seq<NetworkEvent>)
    requires WellFormed(s)
    ensures WellFormed(Run(s, evs))
    decreases |evs|
  {
    if evs != [] {
      AfterWellFormed(s, evs[0]);
      RunWellFormed(After(s, evs[0]), evs[1..]);
    }
  }

  /** The same handled event delivered twice in a row changes nothing the second time. */
  lemma StepIdempotent(s: StoreValue, ev: NetworkEvent)
    requires Step(s, ev).Handled?
    ensures Step(Step(s, ev).store, ev) == Step(s, ev)
  {
    var id := ev.requestId;
    var s1 := SafeGetValue(s, id);
    match ev
    case RequestWillBeSent(_, request, resourceType, timestamp) =>
      WithRequestIdempotent(s1.entries[id], NewRequest(id, Some(request), None, resourceType, timestamp));
    case RequestWillBeSentExtraInfo(_, headers) =>
    case ResponseReceived(_, response, resourceType, timestamp) =>
      WithResponseIdempotent(s1.entries[id], NewResponse(id, Some(response), None, resourceType, timestamp));
    case ResponseReceivedExtraInfo(_, headers) =>
    case DataReceived(_) =>
    case LoadingFailed(_, errorText, canceled) =>
  }

  // The individual handlers.

  /** `requestWillBeSent` sets the request of a new or request-less entry outright. */
  lemma RequestWillBeSentSets(s: StoreValue, id: string, p: ProtocolRequest, t: string, ts: int)
    requires id !in s.entries || s.entries[id].req.None?
    ensures Step(s, RequestWillBeSent(id, p, t, ts)).store.entries[id].req == Some(NewRequest(id, Some(p), None, t, ts))
  {
  }

  /**
   * `requestWillBeSent` after an extra-info placeholder keeps the placeholder's
   * empty method and url and fills only its empty fields.
   */
  lemma RequestWillBeSentAfterPlaceholder(s: StoreValue, id: string, h: Headers,
                                          p: ProtocolRequest, t: string, ts: int)
    requires id in s.entries && s.entries[id].req == Some(RequestPlaceholder(id, h))
    ensures var r := Step(s, RequestWillBeSent(id, p, t, ts)).store.entries[id].req.value;
            && r.httpMethod == "" && r.url == "" && r.req.None?
            && r.extraHeaders == Some(h) && r.resourceType == t && r.timestamp == ts
  {
  }

  /** `requestWillBeSentExtraInfo` on an unseen id stores a headers-only request and nothing else. */
  lemma ExtraInfoUnseen(s: StoreValue, id: string, h: Headers)
    requires id !in s.entries
    ensures var o := Step(s, RequestWillBeSentExtraInfo(id, h));
            && o.Handled?
            && o.store.entries[id] == EntryValue(id, Some(RequestPlaceholder(id, h)), None, None)
            && o.store.entries[id].req.value.httpMethod == "" && o.store.entries[id].req.value.url == ""
            && o.store.sequence == s.sequence + [id]
  {
  }

  /** `requestWillBeSentExtraInfo` on a seen id overwrites the request's headers, set or not. */
  lemma ExtraInfoSeenOverwrites(s: StoreValue, id: string, h: Headers)
    requires id in s.entries && s.entries[id].req.Some?
    ensures var o := Step(s, RequestWillBeSentExtraInfo(id, h));
            && o.Handled?
            && o.store.entries[id].req == Some(s.entries[id].req.value.(extraHeaders := Some(h)))
            && o.store.entries[id].res == s.entries[id].res
            && o.store.entries[id].error == s.entries[id].error
            && o.store.sequence == s.sequence
  {
  }

  /** `requestWillBeSentExtraInfo` on a seen id whose entry has no request throws. */
  lemma ExtraInfoSeenWithoutRequestThrows(s: StoreValue, id: string, h: Headers)
    requires id in s.entries && s.entries[id].req.None?
    ensures Step(s, RequestWillBeSentExtraInfo(id, h)) == Threw
    ensures After(s, RequestWillBeSentExtraInfo(id, h)) == s
  {
  }

  /** `responseReceivedExtraInfo` creates a headers-only response, or overwrites the existing response's headers. */
  lemma ResponseExtraInfoCases(s: StoreValue, id: string, h: Headers)
    ensures var e := Step(s, ResponseReceivedExtraInfo(id, h)).store.entries[id];
            && (id !in s.entries || s.entries[id].res.None? ==> e.res == Some(ResponsePlaceholder(id, h)))
            && (id in s.entries && s.entries[id].res.Some? ==>
                  e.res == Some(s.entries[id].res.value.(extraHeaders := Some(h))))
  {
  }

  /** `responseReceived` sets an absent response outright, fills a present one, and leaves request and error alone. */
  lemma ResponseReceivedCases(s: StoreValue, id: string, p: ProtocolResponse, t: string, ts: int)
    ensures Step(s, ResponseReceived(id, p, t, ts)).Handled?
    ensures var e := Step(s, ResponseReceived(id, p, t, ts)).store.entries[id];
            var r := NewResponse(id, Some(p), None, t, ts);
            && (id !in s.entries || s.entries[id].res.None? ==> e.res == Some(r))
            && (id in s.entries && s.entries[id].res.Some? ==> e.res == Some(FillResponse(s.entries[id].res.value, r)))
            && (id in s.entries ==> e.req == s.entries[id].req && e.error == s.entries[id].error)
            && (id !in s.entries ==> e.req.None? && e.error.None?)
  {
  }

  /** After `dataReceived` the entry has a response whose body flag is set. */
  lemma DataReceivedSetsBody(s: StoreValue, id: string)
    ensures var e := Step(s, DataReceived(id)).store.entries[id];
            e.res.Some? && e.res.value.hasResBody
    ensures id in s.entries && s.entries[id].res.Some? ==>
              Step(s, DataReceived(id)).store.entries[id].res == Some(s.entries[id].res.value.(hasResBody := true))
  {
  }

  /** After `loadingFailed` the entry is failed with the error built from this event. */
  lemma LoadingFailedSetsError(s: StoreValue, id: string, text: string, canceled: bool)
    ensures var e := Step(s, LoadingFailed(id, text, canceled)).store.entries[id];
            Failed(e) && e.error == Some(ErrorOf(id, text, canceled))
  {
  }

  // Two orders of the same two request events, and what each leaves behind.

  /** Extra-info first: the url and method stay empty after the primary event. */
  lemma ExtraInfoFirstLosesUrl(id: string, h: Headers, p: ProtocolRequest, t: string, ts: int)
    ensures var s2 := Run(EmptyStore, [RequestWillBeSentExtraInfo(id, h), RequestWillBeSent(id, p, t, ts)]);
            id in s2.entries && s2.entries[id].req.Some?
    ensures var r := Run(EmptyStore, [RequestWillBeSentExtraInfo(id, h), RequestWillBeSent(id, p, t, ts)])
                       .entries[id].req.value;
            r.url == "" && r.httpMethod == "" && r.extraHeaders == Some(h)
  {
    RunTwo(EmptyStore, RequestWillBeSentExtraInfo(id, h), RequestWillBeSent(id, p, t, ts));
    var s1 := After(EmptyStore, RequestWillBeSentExtraInfo(id, h));
    assert s1.entries[id].req == Some(RequestPlaceholder(id, h));
    RequestWillBeSentAfterPlaceholder(s1, id, h, p, t, ts);
  }

  /** Primary first: the url and method are kept and the extra-info headers are added. */
  lemma PrimaryFirstKeepsUrl(id: string, h: Headers, p: ProtocolRequest, t: string, ts: int)
    ensures var s2 := Run(EmptyStore, [RequestWillBeSent(id, p, t, ts), RequestWillBeSentExtraInfo(id, h)]);
            id in s2.entries && s2.entries[id].req.Some?
    ensures var r := Run(EmptyStore, [RequestWillBeSent(id, p, t, ts), RequestWillBeSentExtraInfo(id, h)])
                       .entries[id].req.value;
            r.url == p.url && r.httpMethod == p.httpMethod && r.extraHeaders == Some(h)
  {
    RunTwo(EmptyStore, RequestWillBeSent(id, p, t, ts), RequestWillBeSentExtraInfo(id, h));
    var s1 := After(EmptyStore, RequestWillBeSent(id, p, t, ts));
    assert s1.entries[id].req == Some(NewRequest(id, Some(p), None, t, ts));
  }

  /** So the merge is not order-independent whenever the protocol url is non-empty. */
  lemma RequestEventsDoNotCommute(id: string, h: Headers, p: ProtocolRequest, t: string, ts: int)
    requires p.url != ""
    ensures Run(EmptyStore, [RequestWillBeSentExtraInfo(id, h), RequestWillBeSent(id, p, t, ts)])
         != Run(EmptyStore, [RequestWillBeSent(id, p, t, ts), RequestWillBeSentExtraInfo(id, h)])
  {
    ExtraInfoFirstLosesUrl(id, h, p, t, ts);
    PrimaryFirstKeepsUrl(id, h, p, t, ts);
  }

  /** A second extra-info event for a seen request replaces the headers of the first. */
  lemma ExtraInfoRegressesHeaders(id: string, h1: Headers, h2: Headers)
    ensures var s2 := Run(EmptyStore, [RequestWillBeSentExtraInfo(id, h1), RequestWillBeSentExtraInfo(id, h2)]);
            id in s2.entries && s2.entries[id].req.Some?
    ensures Run(EmptyStore, [RequestWillBeSentExtraInfo(id, h1), RequestWillBeSentExtraInfo(id, h2)])
              .entries[id].req.value.extraHeaders == Some(h2)
  {
    RunTwo(EmptyStore, RequestWillBeSentExtraInfo(id, h1), RequestWillBeSentExtraInfo(id, h2));
    var s1 := After(EmptyStore, RequestWillBeSentExtraInfo(id, h1));
    assert s1.entries[id].req.Some?;
    ExtraInfoSeenOverwrites(s1, id, h2);
  }

  /**
   * Repeating an extra-info event later, after another one for the same id, is not harmless:
   * the headers go back to those of the first event.
   */
  lemma LateRepeatRestoresHeaders(id: string, h1: Headers, h2: Headers)
    ensures var s3 := Run(EmptyStore, [RequestWillBeSentExtraInfo(id, h1), RequestWillBeSentExtraInfo(id, h2),
                                       RequestWillBeSentExtraInfo(id, h1)]);
            id in s3.entries && s3.entries[id].req.Some? && s3.entries[id].req.value.extraHeaders == Some(h1)
    ensures h1 != h2 ==>
              (Run(EmptyStore, [RequestWillBeSentExtraInfo(id, h1), RequestWillBeSentExtraInfo(id, h2),
                                RequestWillBeSentExtraInfo(id, h1)])
               != Run(EmptyStore, [RequestWillBeSentExtraInfo(id, h1), RequestWillBeSentExtraInfo(id, h2)]))
  {
    var a, b := RequestWillBeSentExtraInfo(id, h1), RequestWillBeSentExtraInfo(id, h2);
    var s1 := After(EmptyStore, a);
    assert s1.entries[id].req.Some?;
    ExtraInfoSeenOverwrites(s1, id, h2);
    var s2 := After(s1, b);
    ExtraInfoSeenOverwrites(s2, id, h1);
    var s3 := After(s2, a);
    assert [a, b, a][1..] == [b, a] && [b, a][1..] == [a] && [a][1..] == [];
    assert Run(EmptyStore, [a, b, a]) == Run(s1, [b, a]) == Run(s2, [a]) == Run(s3, []) == s3;
    RunTwo(EmptyStore, a, b);
  }
}
