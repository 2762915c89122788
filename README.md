# ChromeRemoteNetworkLogger: request/response correlation store and command tokenizer

This project models the part of ChromeRemoteNetworkLogger that records network traffic. A
`NetworkLogger` listens to Chrome DevTools Protocol `Network.*` events. It routes each event, by
request id, into a shared `RequestStore`.

A `RequestStore` holds two things:
- a map from request id to `ReqResEntry`;
- a `sequence` of ids in the order they were put. `put` appends on every call; the logger puts an
  id only when it is unseen, so there each id appears once.

A `ReqResEntry` pairs an optional `RequestEntry`, an optional `ResponseEntry` and an optional
failure.
- A side that is absent is set outright.
- A side that is present is kept, and the new record only fills the fields that are empty, meaning
  JavaScript-falsy.

Loggers of iframes are kept in a `frameId → logger` map and share their parent's store. `close`
closes the whole tree of contexts. A second, independent part is the interactive command line: the
character loop `parseCommand`, and the two pure decisions of `handleCommand` (which commands end the
session, and which entries `list` prints).

The model has two layers:
- Values. `RequestValue`, `ResponseValue`, `EntryValue` and `StoreValue` are datatypes. Pure
  functions over them give the meaning of each operation: `FillRequest`, `FillResponse`,
  `WithRequest`/`WithResponse`/`WithError`, `PutValue`/`SafeGetValue`, the event semantics
  `Step`/`After`/`Run`, and the tokenizer's `Tokens`.
- Objects. `RequestEntry`, `ResponseEntry`, `ReqResEntry`, `RequestStore` and `NetworkLogger` are
  classes with the source's fields. Their methods update those fields in place. The entry methods
  and the event-handler methods are proved against the value layer through a ghost `Value()` /
  `Abstract()` read-out. Of the store's methods, `SafeGet` is proved against `SafeGetValue` that
  way. `Put` is linked to `PutValue` by `FreshEntryPut`, for a fresh entry at an unseen id only.
  `Put`, `Get`, `Has` and `GetSequence` state the store's fields directly. So do the frame-tree
  methods (`AddSubframe`, `RegisterFrames`, `Close`, `Reset`).

The store's entries are kept separated: distinct ids reach disjoint objects. The handlers keep this
invariant, so one handler changes the value of one id only.

Modules, one per source file:
- `Protocol`: the protocol payloads and JavaScript falsiness.
- `RequestEntries`: `lib/RequestEntry.mjs`.
- `ResponseEntries`: `lib/ResponseEntry.mjs`.
- `ReqResEntries`: `lib/ReqResEntry.mjs`.
- `RequestStores`: `lib/RequestStore.mjs`.
- `NetworkEvents`: the handler semantics on values.
- `NetworkLoggers`: `lib/NetworkLogger.mjs`.
- `CommandLine`: `src/CommandLine.mjs`.
- `Wrappers`: `Option`.

## How the merge behaves

The merge of events into an entry depends on their order, and some events overwrite rather than
fill. The model proves each of these facts about the code:
- `RequestEntry.fillEmptyPropsWith` never copies `method`, `url` or `req`. If extra-info arrives
  before `requestWillBeSent`, the url stays `""`, so the two orders give different stores
  (`RequestEntries.FillRequestNotCommutative`, `NetworkEvents.ExtraInfoFirstLosesUrl`,
  `NetworkEvents.RequestEventsDoNotCommute`).
- `ResponseEntry.fillEmptyPropsWith` never copies `res`, so a headers-only placeholder never gets
  the protocol response (`ResponseEntries.FillResponseKeepsPlaceholder`).
- The extra-info handlers overwrite headers instead of filling them
  (`NetworkEvents.ExtraInfoSeenOverwrites`, `NetworkEvents.ExtraInfoRegressesHeaders`).
- `requestWillBeSentExtraInfo` on a seen id that has no request throws a `TypeError`
  (`NetworkEvents.ExtraInfoSeenWithoutRequestThrows`).

The same event delivered twice in a row changes nothing (`NetworkEvents.StepIdempotent`). A repeat
that comes after another extra-info event for the same id brings the old headers back
(`NetworkEvents.LateRepeatRestoresHeaders`).

`close` closes its own context first and then calls `close` on each subframe logger. It does not
wait for the children. The model's `Close` states only that every context of the tree ends closed.

## Model

| member | source | states |
|---|---|---|
| `Protocol.FillOpt` | lib/RequestEntry.mjs:55 | `if (!cur) cur = other` on an object-or-null field: a set value is kept, an unset one is replaced by the other's |
| `Protocol.FillStr` | lib/RequestEntry.mjs:56 | the same rule on a string field, where `""` is empty |
| `Protocol.FillInt` | lib/RequestEntry.mjs:57 | the same rule on a numeric field, where `0` is empty |
| `Protocol.FillBool` | lib/ResponseEntry.mjs:64 | the same rule on a boolean field: the result is true exactly when either value is true, so `true` is never lost |
| `RequestEntries.NewRequest` | lib/RequestEntry.mjs:10-23 | the constructor copies id, req, headers, type and timestamp; method and url are `""` without a protocol request and are copied from it otherwise; `hasResBody` is unset (false) |
| `RequestEntries.RequestEntry.constructor` | lib/RequestEntry.mjs:10-23 | the new object's fields are exactly `NewRequest` of the arguments; headers, type and timestamp default to null, `""` and `0` |
| `RequestEntries.FillRequest` | lib/RequestEntry.mjs:54-59 | headers, type, timestamp and `hasResBody` are taken from `other` exactly where the current value is falsy, and set fields are kept; id, req, method and url never change |
| `RequestEntries.FillRequestIdempotent` | lib/RequestEntry.mjs:54-59 | filling twice from the same record equals filling once |
| `RequestEntries.FillRequestSelf` | lib/RequestEntry.mjs:54-59 | filling a record from itself changes nothing |
| `RequestEntries.FillRequestNotCommutative` | lib/RequestEntry.mjs:54-59 | a headers-only placeholder filled from a full record keeps url `""`, while the full record filled from the placeholder keeps its url: the fill depends on the order |
| `RequestEntries.RequestEntry.SetExtraHeaders` | lib/RequestEntry.mjs:36-38 | overwrites `extraHeaders`, set or not, and changes no other field |
| `RequestEntries.RequestEntry.HasBody` | lib/RequestEntry.mjs:47-49 | `req.hasPostData` when there is a protocol request; None, the `TypeError` of dereferencing null, when there is none |
| `RequestEntries.RequestEntry.GetMethod` | lib/RequestEntry.mjs:25-27 | returns the stored method, the one the constructor derived |
| `RequestEntries.RequestEntry.GetUrl` | lib/RequestEntry.mjs:29-31 | returns the stored url, the one the constructor derived |
| `RequestEntries.RequestEntry.FillEmptyPropsWith` | lib/RequestEntry.mjs:54-59 | the object's new value is `FillRequest` of its old value and the argument's old value, also when the argument is the object itself |
| `ResponseEntries.NewResponse` | lib/ResponseEntry.mjs:10-23 | the constructor copies id, res, headers, type and timestamp and sets `hasResBody` to false and `body` to null whatever the arguments |
| `ResponseEntries.ResponseEntry.constructor` | lib/ResponseEntry.mjs:10-23 | the new object's fields are exactly `NewResponse` of the arguments; headers, type and timestamp default to null, `""` and `0` |
| `ResponseEntries.FillResponse` | lib/ResponseEntry.mjs:60-66 | headers, type, timestamp and body are filled exactly where falsy; `hasResBody` becomes the disjunction, so once true it stays true; id and res never change |
| `ResponseEntries.FillResponseIdempotent` | lib/ResponseEntry.mjs:60-66 | filling twice from the same record equals filling once |
| `ResponseEntries.FillResponseSelf` | lib/ResponseEntry.mjs:60-66 | filling a record from itself changes nothing |
| `ResponseEntries.FillResponseKeepsPlaceholder` | lib/ResponseEntry.mjs:60-66 | a placeholder without a protocol response still has none after being filled from a full record |
| `ResponseEntries.ResponseEntry.SetExtraHeaders` | lib/ResponseEntry.mjs:28-30 | overwrites `extraHeaders` unconditionally and changes no other field |
| `ResponseEntries.ResponseEntry.SetHasBody` | lib/ResponseEntry.mjs:32-34 | afterwards `HasBody()` holds, and only `hasResBody` changed, to true, so a second call changes nothing |
| `ResponseEntries.ResponseEntry.SetBody` | lib/ResponseEntry.mjs:39-41 | afterwards `GetBody()` returns the argument, and only `body` changed |
| `ResponseEntries.ResponseEntry.HasBody` | lib/ResponseEntry.mjs:49-51 | true exactly when the body flag is set |
| `ResponseEntries.ResponseEntry.GetBody` | lib/ResponseEntry.mjs:53-55 | returns the stored body |
| `ResponseEntries.ResponseEntry.FillEmptyPropsWith` | lib/ResponseEntry.mjs:60-66 | the object's new value is `FillResponse` of its old value and the argument's old value |
| `ReqResEntries.EmptyEntry` | lib/ReqResEntry.mjs:16-21 | a new entry has its id, no request, no response and no error, and is not failed |
| `ReqResEntries.WithRequest` | lib/ReqResEntry.mjs:47-53 | an absent request becomes the argument; a present one is filled from it; response and error are untouched |
| `ReqResEntries.WithResponse` | lib/ReqResEntry.mjs:59-65 | the same absent-set, present-fill rule on the response side; request and error are untouched |
| `ReqResEntries.WithError` | lib/ReqResEntry.mjs:70-72 | the error becomes the argument, whatever was there, and the entry is failed |
| `ReqResEntries.WithRequestIdempotent` | lib/ReqResEntry.mjs:47-53 | setting the same request twice equals setting it once |
| `ReqResEntries.WithResponseIdempotent` | lib/ReqResEntry.mjs:59-65 | setting the same response twice equals setting it once |
| `ReqResEntries.LastErrorWins` | lib/ReqResEntry.mjs:70-72 | of two errors set one after the other, the entry keeps the second |
| `ReqResEntries.ReqResEntry.constructor` | lib/ReqResEntry.mjs:16-21 | the fields are the arguments; request, response and error default to null, null and no error |
| `ReqResEntries.ReqResEntry.SetRequest` | lib/ReqResEntry.mjs:47-53 | an absent request object becomes the argument; a present object stays and is filled in place; the new value is `WithRequest` of the old ones |
| `ReqResEntries.ReqResEntry.SetResponse` | lib/ReqResEntry.mjs:59-65 | the same on the response side; the new value is `WithResponse` of the old ones |
| `ReqResEntries.ReqResEntry.SetError` | lib/ReqResEntry.mjs:70-72 | afterwards `IsFailed()` holds with this error, and request and response are untouched |
| `ReqResEntries.ReqResEntry.GetId` | lib/ReqResEntry.mjs:23-25 | returns the field `id` |
| `ReqResEntries.ReqResEntry.GetReq` | lib/ReqResEntry.mjs:27-29 | returns the request object, or null |
| `ReqResEntries.ReqResEntry.GetRes` | lib/ReqResEntry.mjs:31-33 | returns the response object, or null |
| `ReqResEntries.ReqResEntry.GetError` | lib/ReqResEntry.mjs:35-37 | returns the stored error, or none |
| `ReqResEntries.ReqResEntry.IsFailed` | lib/ReqResEntry.mjs:39-41 | true exactly when an error is stored |
| `RequestStores.PutValue` | lib/RequestStore.mjs:27-30 | the id's entry is replaced, the other entries stay, and the id is appended to the sequence whether or not it was there |
| `RequestStores.SafeGetValue` | lib/RequestStore.mjs:43-47 | an unseen id gets exactly one empty entry and one place at the end of the sequence; a seen id changes nothing |
| `RequestStores.SafeGetIdempotent` | lib/RequestStore.mjs:43-47 | a second `safeGet` of the same id changes nothing more |
| `RequestStores.SafeGetWellFormed` | lib/RequestStore.mjs:43-47 | `safeGet` keeps the invariant: the sequence lists each key once and nothing else, and each entry carries its own id |
| `RequestStores.PutSeenDuplicates` | lib/RequestStore.mjs:27-30 | a `put` of an id already stored lists it twice in the sequence |
| `RequestStores.RequestStore.constructor` | lib/RequestStore.mjs:9-21 | an empty map and an empty sequence |
| `RequestStores.RequestStore.Put` | lib/RequestStore.mjs:27-30 | the map gets the entry at the id and the id is appended to the sequence; the keys stay those of the sequence |
| `RequestStores.RequestStore.Get` | lib/RequestStore.mjs:35-37 | the stored entry when the id is stored, None (`undefined`) otherwise; it reads and changes nothing |
| `RequestStores.RequestStore.SafeGet` | lib/RequestStore.mjs:43-47 | a seen id returns its entry with map and sequence unchanged; an unseen id gets a fresh empty `ReqResEntry(id)`, stored and appended once; the store's value moves as `SafeGetValue` says |
| `RequestStores.RequestStore.Has` | lib/RequestStore.mjs:52-54 | true exactly when the id has an entry, which is when it is in the sequence |
| `RequestStores.RequestStore.GetSequence` | lib/RequestStore.mjs:56-58 | the result is the sequence itself, ids in the order they were put, and its ids are exactly the stored keys |
| `RequestStores.RequestStore.GetSequencedRequests` | lib/RequestStore.mjs:64-68 | as long as the sequence, and element i is the entry stored for `sequence[i]` |
| `NetworkEvents.Step` | lib/NetworkLogger.mjs:64-96 | each handler throws only for extra-info on a seen id without a request; otherwise it adds the id to the keys, appends it to the sequence exactly when it is new, and changes no other id's entry |
| `NetworkEvents.FirstTouchesExact` | lib/NetworkLogger.mjs:64-96 | the ids a stream of events newly touches are listed once each, and exactly the unseen ids it references |
| `NetworkEvents.AfterWellFormed` | lib/NetworkLogger.mjs:64-96 | no handler breaks the store invariant, whether or not it throws |
| `NetworkEvents.RunKeys` | lib/NetworkLogger.mjs:64-96 | after any stream of events the stored ids are the old ones plus every id an event references |
| `NetworkEvents.RunOrder` | lib/NetworkLogger.mjs:64-96 | after any stream of events the sequence is the old one followed by the new ids in order of first reference |
| `NetworkEvents.RunWellFormed` | lib/NetworkLogger.mjs:64-96 | any stream of events keeps the store invariant |
| `NetworkEvents.StepIdempotent` | lib/NetworkLogger.mjs:64-96 | the same handled event delivered twice in a row changes nothing the second time |
| `NetworkEvents.RequestWillBeSentSets` | lib/NetworkLogger.mjs:64-69 | on an entry without a request, `requestWillBeSent` stores the new request record outright |
| `NetworkEvents.RequestWillBeSentAfterPlaceholder` | lib/NetworkLogger.mjs:64-69 | after an extra-info placeholder, `requestWillBeSent` leaves method and url `""` and no protocol request, keeps the headers, and fills type and timestamp |
| `NetworkEvents.ExtraInfoUnseen` | lib/NetworkLogger.mjs:70-73 | on an unseen id it stores a new entry whose request holds only the headers, with method and url `""`, and appends the id |
| `NetworkEvents.ExtraInfoSeenOverwrites` | lib/NetworkLogger.mjs:74 | on a seen id with a request it overwrites that request's headers and changes nothing else |
| `NetworkEvents.ExtraInfoSeenWithoutRequestThrows` | lib/NetworkLogger.mjs:74 | on a seen id without a request it throws and the store is as before |
| `NetworkEvents.ResponseExtraInfoCases` | lib/NetworkLogger.mjs:81-86 | it creates a headers-only response when there is none, and otherwise overwrites the response's headers |
| `NetworkEvents.ResponseReceivedCases` | lib/NetworkLogger.mjs:76-80 | `responseReceived` never throws; it sets an absent response outright to the new record, fills a present one from it, and leaves request and error as they were |
| `NetworkEvents.DataReceivedSetsBody` | lib/NetworkLogger.mjs:87-91 | afterwards the entry has a response with `hasResBody` set; an existing response keeps everything else |
| `NetworkEvents.LoadingFailedSetsError` | lib/NetworkLogger.mjs:92-96 | afterwards the entry is failed with the error built from this event |
| `NetworkEvents.ExtraInfoFirstLosesUrl` | lib/NetworkLogger.mjs:64-75 | extra-info then `requestWillBeSent` gives url and method `""` with the headers |
| `NetworkEvents.PrimaryFirstKeepsUrl` | lib/NetworkLogger.mjs:64-75 | `requestWillBeSent` then extra-info keeps url and method and adds the headers |
| `NetworkEvents.RequestEventsDoNotCommute` | lib/NetworkLogger.mjs:64-75 | for a non-empty url the two orders give different stores |
| `NetworkEvents.ExtraInfoRegressesHeaders` | lib/NetworkLogger.mjs:70-75 | a second extra-info event replaces the headers of the first |
| `NetworkEvents.LateRepeatRestoresHeaders` | lib/NetworkLogger.mjs:70-75 | an extra-info event repeated after another one for the same id restores the first headers, so for different headers the store differs from the one before the repeat |
| `NetworkLoggers.NetworkLogger.constructor` | lib/NetworkLogger.mjs:22-32 | url, context and store are the arguments, and there are no subframes |
| `NetworkLoggers.NetworkLogger.WithNewStore` | lib/NetworkLogger.mjs:22 | without a store argument the logger gets a fresh empty store |
| `NetworkLoggers.NetworkLogger.GetStore` | lib/NetworkLogger.mjs:34-36 | returns the store this logger shares with its subframe loggers |
| `NetworkLoggers.NetworkLogger.OnRequestWillBeSent` | lib/NetworkLogger.mjs:64-69 | the store's new value is the one `Step` gives for the event, and the store stays valid and separated |
| `NetworkLoggers.NetworkLogger.OnRequestWillBeSentExtraInfo` | lib/NetworkLogger.mjs:70-75 | the store moves as `Step` says; when the handler throws, ok is false and the store is unchanged |
| `NetworkLoggers.NetworkLogger.OnResponseReceived` | lib/NetworkLogger.mjs:76-80 | the store's new value is the one `Step` gives for the event |
| `NetworkLoggers.NetworkLogger.OnResponseReceivedExtraInfo` | lib/NetworkLogger.mjs:81-86 | the store's new value is the one `Step` gives for the event |
| `NetworkLoggers.NetworkLogger.OnDataReceived` | lib/NetworkLogger.mjs:87-91 | the store's new value is the one `Step` gives for the event |
| `NetworkLoggers.NetworkLogger.OnLoadingFailed` | lib/NetworkLogger.mjs:92-96 | the store's new value is the one `Step` gives for the event, where the error is set twice when none was set |
| `NetworkLoggers.NetworkLogger.Handle` | lib/NetworkLogger.mjs:64-96 | one event routed to its handler: the store moves as `Step` says, ok is false exactly when it throws, and a throw changes nothing |
| `NetworkLoggers.NetworkLogger.AddSubframe` | lib/NetworkLogger.mjs:105-109 | an unknown frame id is registered with a fresh logger without url, on a fresh context for that frame, sharing this logger's store |
| `NetworkLoggers.NetworkLogger.RegisterFrames` | lib/NetworkLogger.mjs:104-110 | known frames keep their loggers, each new frame id is added once with a logger sharing the store, nothing else is added, and a list of known frames leaves the map unchanged |
| `NetworkLoggers.NetworkLogger.ChildContexts` | lib/NetworkLogger.mjs:128-131 | the contexts of the tree are this logger's own and those of its subframe trees |
| `NetworkLoggers.NetworkLogger.Close` | lib/NetworkLogger.mjs:128-131 | every context of the logger tree is closed afterwards |
| `NetworkLoggers.NetworkLogger.Reset` | lib/NetworkLogger.mjs:133-137 | url becomes `""` and the subframe map is empty; store and context stay |
| `CommandLine.QuoteAt` | src/CommandLine.mjs:96-97 | the index of the first `"` or `'` of the line, the point where string mode starts, or None when there is no quote |
| `CommandLine.JoinSplit` | src/CommandLine.mjs:92-95 | splitting at every space and joining with single spaces gives the text back, so consecutive spaces give empty pieces |
| `CommandLine.SplitJoin` | src/CommandLine.mjs:92-95 | words without spaces, joined with single spaces, split back into the same words |
| `CommandLine.SplitCount` | src/CommandLine.mjs:92-95 | there is one piece more than there are spaces |
| `CommandLine.SplitNoSpace` | src/CommandLine.mjs:92-95 | no piece contains a space |
| `CommandLine.SplitAtSpace` | src/CommandLine.mjs:92-95 | two texts joined by a space split into the pieces of the first followed by those of the second |
| `CommandLine.SplitConcat` | src/CommandLine.mjs:92-95 | the pieces put together are the text without its spaces |
| `CommandLine.QuoteAtFirst` | src/CommandLine.mjs:96-97 | `QuoteAt` is q exactly when q holds a quote and no earlier character does |
| `CommandLine.HeadHasNoQuote` | src/CommandLine.mjs:96-97 | the part read outside string mode holds no quote |
| `CommandLine.HeadQuoteTail` | src/CommandLine.mjs:86-98 | the line is the part before the first quote, that quote, and the part after it |
| `CommandLine.TokensConcat` | src/CommandLine.mjs:84-104 | the tokens put together are the line without its first quote and without the spaces before it |
| `CommandLine.TokensCount` | src/CommandLine.mjs:92-95 | the number of tokens is the number of spaces before the first quote, plus one when the final word is not empty |
| `CommandLine.TokensWords` | src/CommandLine.mjs:87-101 | every token but the last holds no space and no quote, and without a quote in the line no token does |
| `CommandLine.HeadWithoutQuote` | src/CommandLine.mjs:96-98 | a line without quotes is read entirely outside string mode |
| `CommandLine.HeadAtQuote` | src/CommandLine.mjs:96-98 | the text after the first quote is all read in string mode, whatever it holds |
| `CommandLine.TokensNoQuote` | src/CommandLine.mjs:92-103 | without a quote the tokens are the space-separated pieces, with an empty last piece dropped |
| `CommandLine.TokensOfWords` | src/CommandLine.mjs:92-103 | plain words joined with single spaces read back as those words, less an empty last one |
| `CommandLine.TokensQuoted` | src/CommandLine.mjs:86-103 | after the first quote every remaining character, spaces and quotes included, joins the final token verbatim; no closing quote is recognised |
| `CommandLine.TokensThreeWords` | src/CommandLine.mjs:78-105 | three plain words separated by single spaces read back as those three words |
| `CommandLine.TokensExample` | src/CommandLine.mjs:78-83 | `"a b c"` reads as `["a", "b", "c"]` |
| `CommandLine.QuoteAtSnoc` | src/CommandLine.mjs:88-98 | reading one more character moves the first quote only when there was none yet |
| `CommandLine.StateSnoc` | src/CommandLine.mjs:87-101 | one turn of the loop takes the variables of a prefix to those of the prefix one character longer |
| `CommandLine.FinishTokens` | src/CommandLine.mjs:102-104 | the final word is pushed only when it is not empty, and the result is the tokens of the line |
| `CommandLine.ParseCommand` | src/CommandLine.mjs:83-105 | the loop returns exactly the line's tokens |
| `CommandLine.IsExitWord` | src/CommandLine.mjs:44 | a word ends the session exactly when it is `exit`, `done` or `quit` |
| `CommandLine.Exits` | src/CommandLine.mjs:43-44 | the first token is `exit`, `done` or `quit`; an empty command has no first token and does not exit |
| `CommandLine.Shown` | src/CommandLine.mjs:54 | an entry is printed when it has no request, or a request whose url does not start with `data:image/`; this depends only on its printed line |
| `CommandLine.LineOf` | src/CommandLine.mjs:55 | the printed line holds the entry's id, and a url exactly when the entry has a request, which is that request's url |
| `CommandLine.ListingOmitsImages` | src/CommandLine.mjs:53-56 | no printed line is one of a request whose url starts with `data:image/` |
| `CommandLine.ListingExact` | src/CommandLine.mjs:52-56 | every shown entry is printed, every printed line is a shown entry's, and there are no more lines than ids |
| `CommandLine.ListingExample` | src/CommandLine.mjs:53-56 | an inline image is left out and an entry without a request is printed |
| `CommandLine.HandleCommand` | src/CommandLine.mjs:38-76 | the result is true exactly when the first token is `exit`, `done` or `quit`; `list` prints the listing of the store |
| `CommandLine.ListStep` | src/CommandLine.mjs:53-56 | the listing from one id on is that entry's line, if shown, followed by the rest |
| `CommandLine.EntryLines` | src/CommandLine.mjs:54-55 | one entry prints its line exactly when it is shown |
| `CommandLine.ListEntries` | src/CommandLine.mjs:52-56 | the loop over `getSequencedRequests()` prints exactly the listing of the store, in sequence order |
| `CommandLine.ExitsFirstWord` | src/CommandLine.mjs:44 | for a line of plain words, ending the session depends only on the first word being an exit word |
| `CommandLine.NoExitLeadingSpace` | src/CommandLine.mjs:44 | `" exit"` does not end the session, because its first token is empty |
| `CommandLine.NoExitQuoted` | src/CommandLine.mjs:44 | `"\"exit\""` does not end the session, because its closing quote stays in the token, while `'exit` does |

## Left out

- I/O and asynchrony: the CDP connection, `Network.on`/`Page.on` subscription, `setup`, `loadPage`, the debug `"event"` listener and every `await`. Handlers are sequential methods called one at a time, with no race across `await`.
- DOM navigation: `lib/BrowserContext.mjs` and both `DomNavigator.mjs` files are not part of this model. Iframe discovery is an input list of frame ids. A child context is a small `BrowserContext` class that holds only its target and a `closed` flag.
- `FetchingFailedError` is not part of this model beyond the three fields of the event it is built from.
- `help`, `man`, `inspect`/`find`, `reqbody` and `resbody`/`body` in `handleCommand` only print or call CDP; the exception they may raise is caught and printed, and the result is false, which `HandleCommand` states.
- Console output: the lines `list` prints are returned as values (`ListLine`) rather than written.
- `lib/Logger.mjs`, `lib/util.mjs`, `src/index.js`, `src/CommandLineHelp.mjs` and `scripts/precommit.cjs`: logging, prompt I/O, process entry and help text only.
- `getAllRequests` returns the map itself and has no contract of its own.
- `getSubframesNetlog` and `getSubframesStores` only copy out the subframe map; they are not modelled.
- `RequestEntry.hasResBody` is never set by the constructor, so it starts `undefined`; `fillEmptyPropsWith` may copy another request's `hasResBody`, which is `undefined` too. The model uses `false`, which is falsy in the same way.
- Protocol timestamps are floats; the model uses integers, with `0` as the empty value, as in the source's falsiness test. Headers and protocol payloads are opaque values.
- Keys of a plain JavaScript object that collide with `Object.prototype` members (such as `"constructor"`) are not modelled; the store is a map.
- The iteration order of the JavaScript `Map` of subframes is not modelled; `Close` does not depend on it.
- `reset` also sets a `log` field that nothing else reads; the model leaves it out.
- Strings are sequences of Dafny characters, which are Unicode scalar values, as `for (let c of rawcmd)` iterates them; a string holding a lone surrogate cannot be represented.
- NetworkEvents.Run: after an event whose handler throws, `Run` goes on with the next event on the unchanged store. Nothing in the handlers catches that `TypeError`; that the event stream goes on after it depends on the CDP client library, which is not part of this model. `RunKeys`, `RunOrder` and `RunWellFormed` over streams holding such an event rely on this.
- NetworkLoggers.NetworkLogger.Close: states that every context of the tree ends closed, not the order in which they are closed (own context first, then the subframes).
- NetworkEvents.StepIdempotent: stated only for events whose handler does not throw; for the one event that throws, `ExtraInfoSeenWithoutRequestThrows` states that the store is left as it was.
