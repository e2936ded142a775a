# Delta cache for Express: a Dafny model

This project models the server side of an RFC 3229 delta-encoding cache written as Express
middleware for Node.

`lib/delta.js` keeps a version history per route path. On every request it records the body
the route produced as a new version and sets that version's ETag. It then reads the client's
`If-None-Match` list and answers in one of three ways:

- the full latest text, with status 200;
- `304 Not Modified`, with no body, when the version the client holds is the current one;
- `226 IM Used`, with `IM: googlediffjson`, `Delta-Base: "<id>"` and the diff-match-patch
  patches as JSON, when the content changed and the client's `A-IM` header accepts
  `googlediffjson`.

`lib/create_delta_cache.js` is the capturing side. It replaces `res.write` and `res.end` for
one request and buffers every chunk. When the route ends the response, it concatenates the
buffers, puts the original methods back, and hands the complete body to the delta
responder.

Modules:

- `Wrappers`: `Option`, for JavaScript's `undefined`-or-value results.
- `JsString`: `String.prototype.split`/`indexOf` with a string separator, and
  `Array.prototype.join`/`indexOf`, with the split/join round trip.
- `DiffMatchPatch`: the patch values and the one contract of the diff engine the middleware
  depends on. A diff is empty exactly when the two texts are identical.
- `TextHistory`: the per-route version store (`addVersion`, `hasVersion`, `getPatches`,
  `lastVersion`), as a class over a `map` from id to text. `hasVersion(id)` is membership
  of `id` in that map, and `getPatches` is a function of the map and the latest text. The rule that turns a text into an
  id is the parameter `idOf`; lib/server.js:32 uses an md5 digest for it. The diff engine is
  the parameter `diff`.
- `Express`: the request, the response (status, headers, body, number of sends) and `next`.
- `Delta`: lib/delta.js. The pure decision is `Negotiate`, over the versions a history
  holds and its latest text. The middleware closure is the class `DeltaCache`, whose field
  `resourceHistories` is the closure's dictionary. Two scenario methods run the middleware
  twice on one route.
- `DeltaCapture`: lib/create_delta_cache.js. It is a two-phase class (`Capturing`, then
  `Ended`) over the captured `buffers`. Reference functions over the sequence of calls a
  route makes give the state those calls must leave. The loop that runs the route is
  proved against them.

Details of the code that the model keeps:

- In the full-text branch the code never sets a status, so the response keeps the status it
  already had (Node's default is 200).
- The ETag header is set before the branch is chosen, so 304 and 226 responses carry it too.
- `res.write`/`res.end` are restored before the responder is called, not after the decision.
- Buffering is a separate middleware in the code. `lib/delta.js` reads the body from
  `res.locals.responseBody`.

## Model

| member | source | states |
|---|---|---|
| JsString.IndexOf | lib/delta.js:52 | the first occurrence of the separator, or -1 exactly when there is none |
| JsString.Split | lib/delta.js:52 | `split(', ')` never returns an empty array; joining the parts with the separator gives back the input; no part contains the separator |
| JsString.SplitJoin | lib/delta.js:52 | splitting a ", "-joined list of parts free of ", " gives back exactly those parts |
| JsString.ArrayIndexOf | lib/delta.js:65 | `indexOf` on an array: -1 exactly when the value is absent, otherwise the first position holding it |
| JsString.NoCommaNoSeparator | lib/delta.js:52 | a text without a comma (such as a hex digest) cannot be cut by `split(', ')` |
| Delta.Quote | lib/delta.js:16 | the template `"${id}"` (also lib/delta.js:39) is `id` with one double quote added on each side |
| Delta.StripQuotes | lib/delta.js:54 | the global replace of a leading or a trailing quote removes at most one leading and at most one trailing double quote, only quotes, and keeps the rest in order |
| Delta.EtagTokens | lib/delta.js:52-54 | one token per ", "-separated part of `If-None-Match`, in order, each that part with its quotes stripped; at least one token, and none holds ", " |
| Delta.StripQuotesOfQuote | lib/delta.js:54 | stripping undoes the quoting of lib/delta.js:16 for every id |
| Delta.QuotePreservesNoSeparator | lib/delta.js:16 | quoting an id adds no ", ", so a quoted id stays one list element |
| Delta.FindKnown | lib/delta.js:56 | `find(hasVersion)`: undefined exactly when no token is known, otherwise the first known token in order |
| Delta.FirstMatchingEtag | lib/delta.js:51-57 | splits on exactly ", ", strips quotes per token, and returns the first token in header order that the history knows, or undefined when it knows none |
| Delta.FirstMatchingEtagOfQuotedList | lib/delta.js:51-57 | for a header listing quoted ids the middleware issued, the match is the first of those ids the history knows |
| Delta.EchoedEtagMatches | lib/delta.js:16-20 | an ETag echoed back unchanged matches exactly when the history still holds that id |
| Delta.IsDeltaCompatible | lib/delta.js:59-67 | false without `a-im`; otherwise true exactly when one of its ", "-separated tokens is `googlediffjson`, character for character |
| Delta.DeltaCompatibleListed | lib/delta.js:65 | an `A-IM` list of ", "-free tokens is delta compatible exactly when it contains `googlediffjson` |
| Delta.DeltaFormatIsOneToken | lib/delta.js:65 | `googlediffjson` contains no ", ", so it can stand as a token of any list |
| Delta.SoleDeltaFormatCompatible | lib/delta.js:59-67 | `A-IM: googlediffjson` on its own is delta compatible |
| Delta.Negotiate | lib/delta.js:18-46 | without `If-None-Match` the outcome is the full latest text; it is anything else exactly when a listed token is known and either its patches are empty or the client is delta compatible; only the first known token decides: 304 exactly when its patches are empty, and a delta is always based on it, is delta compatible and carries its non-empty patches; with an engine that meets its contract, 304 means that token's version is the latest text |
| Delta.UnknownValidatorsIgnored | lib/delta.js:18-26 | a validator list naming no known version is answered exactly as if there were none: the full latest text |
| Delta.RevalidateUnchanged | lib/delta.js:29-34 | echoing the ETag of the current text gives 304, whatever `A-IM` says |
| Delta.RevalidateChangedWithDelta | lib/delta.js:36-41 | echoing an older ETag with a delta-compatible `A-IM` gives a delta from that version to the latest, with non-empty patches |
| Delta.RevalidateChangedWithoutDelta | lib/delta.js:42-45 | echoing an older ETag without delta compatibility gives the full latest text |
| Delta.DeltaOutcomeForListedFormat | lib/delta.js:36-41 | echoing an older ETag with an `A-IM` list that contains `googlediffjson` gives the delta from that version |
| Delta.DeltaCache.constructor | lib/delta.js:4-6 | a new cache has no route histories |
| Delta.DeltaCache.RouteHistory | lib/delta.js:11-13 | a route's history is created empty only when the route is new; an existing one is reused and no other route's entry changes |
| Delta.DeltaCache.RecordVersion | lib/delta.js:10-16 | the route's history, new only for a new route, gains `responseBody` as a version under its id and as the latest text; the ETag header is the quoted id; every other route keeps its history object and its contents |
| Delta.DeltaCache.Respond | lib/delta.js:18-47 | the response is the one `Negotiate` chooses from the route's history as it stands, with that history's diff engine, sent once; `next` is called once (the body sends first, then calls `next`) |
| Delta.DeltaCache.Handle | lib/delta.js:9-48 | the route's history gains `responseBody` as a new version and latest text; the ETag header is the quoted id; the response is exactly what `Negotiate` chose; it is sent once and `next` is called once; the other routes' histories, down to every field, are untouched |
| Delta.SendNegotiated | lib/delta.js:18-46 | sets 304, or 226 with `IM` and `Delta-Base`, or leaves the status, to match the negotiated outcome, and sends exactly once |
| Delta.FirstVisit | lib/delta.js:9-26 | the first request to a route, without validator, gets 200 with the full text and its quoted ETag, and the history holds that one version |
| Delta.UnchangedRevalidation | lib/delta.js:9-48 | a second request that echoes the ETag of unchanged content gets 304 with no body and the same ETag header |
| Delta.ChangedRevalidation | lib/delta.js:9-48 | a second request after a change that echoes the first ETag and accepts `googlediffjson` gets 226 with the patches from the first text to the second, `IM: googlediffjson`, the first ETag as `Delta-Base` and the new ETag |
| Delta.LaterVisit | lib/delta.js:9-48 | a request to a route the cache has seen gets, under the ETag of its body, the answer `Negotiate` gives for the route's earlier versions plus that body |
| Delta.TwoVersionDelta | lib/delta.js:29-41 | with two distinct versions, the second the latest, echoing the first ETag with `googlediffjson` accepted gives the non-empty delta from the first text to the second |
| TextHistory.History.constructor | lib/delta.js:12 | a new history holds no version and no latest text |
| TextHistory.History.AddVersion | lib/delta.js:14 | `addVersion` returns the text's id, stores the text under it, keeps the versions of every other id and makes the text the latest; a text whose id an earlier text already had takes that earlier text's place |
| TextHistory.GetPatches | lib/delta.js:29-32 | the patches from a known version to the latest are empty exactly when that version is the latest text |
| Express.Response.Header | lib/delta.js:16 | `res.header` sets one header and keeps the others |
| Express.Response.Status | lib/delta.js:33 | `res.status` sets the status code |
| Express.Response.Send | lib/delta.js:25 | `res.send` records the body and counts one send |
| Express.Response.SendJson | lib/delta.js:40 | `res.json` sends the patches as the body, once |
| Express.Next.Call | lib/delta.js:47 | `next()` is counted once per call |
| DeltaCapture.ConcatAppend | lib/create_delta_cache.js:33 | concatenating two runs of chunks gives the concatenation of each run, one after the other |
| DeltaCapture.Concat | lib/create_delta_cache.js:33 | `Buffer.concat(buffers)` holds exactly as many bytes as the chunks together |
| DeltaCapture.Truthy | lib/create_delta_cache.js:28 | `if (data)`: absent data and the empty string are falsy, a string is truthy exactly when non-empty, every Buffer is truthy; so data that `end` skips never carries bytes, given a chunk `Buffer.from` could have made |
| DeltaCapture.ConcatPlacesChunk | lib/create_delta_cache.js:33 | every captured chunk appears unchanged in the final buffer, in call order, right after the bytes of the chunks before it |
| DeltaCapture.CapturedResponse.Install | lib/create_delta_cache.js:11-14 | capture starts with an empty `buffers`, with nothing sent to the original methods or the responder |
| DeltaCapture.CapturedResponse.Write | lib/create_delta_cache.js:17-24 | while capturing, the chunk goes to the end of `buffers` and not to the original `write`, and the callback runs at once exactly when one was given; after `end`, the original `write` gets the call |
| DeltaCapture.CapturedResponse.End | lib/create_delta_cache.js:27-38 | while capturing, truthy data becomes the last chunk and falsy data adds none; the responder gets the in-order concatenation of all chunks (the earlier chunks' bytes followed by those of the data) together with the callback, which `end` does not run; the originals are restored, so a later `end` goes to the original and capture happens at most once |
| DeltaCapture.CaptureAtMostOnce | lib/create_delta_cache.js:35-37 | after the first `end`, further calls (the responder's own writes among them) change neither the captured chunks, the handover nor the callbacks run, and reach the original methods in order |
| DeltaCapture.WritesCaptured | lib/create_delta_cache.js:17-23 | before any `end`, every written chunk is captured in call order, every callback given to `write` is run in call order, nothing reaches the original methods and nothing is handed over |
| DeltaCapture.WritesThenEnd | lib/create_delta_cache.js:17-37 | writes, with or without callbacks, followed by `end(data, callback)` hand the responder the bytes of every chunk in order, then those of `data` when it is truthy, with the callback of `end`, which is not run; the write callbacks are run in order and nothing reaches the original methods |
| DeltaCapture.RunRoute | lib/create_delta_cache.js:40 | while `next()` runs, the route's calls go through the installed overrides in order, and the response ends up in exactly the state the reference definitions give for those calls; `next` is called once |
| DeltaCapture.Middleware | lib/create_delta_cache.js:10-41 | each request gets a fresh capture with empty `buffers`, installed before `next()` runs the route, so the final state is the one the route's calls leave in a fresh capture; `next` is called exactly once |

## Left out

- The `text-history` library is not part of this model. Its store is modelled by the contract
  the middleware relies on, with the id rule (`idOf`) and the diff engine (`diff`) as
  parameters. lib/delta.js:12 calls `TextHistory()` without the md5 argument that
  lib/server.js:32 passes, and the library's default id rule is not visible. The model
  takes an id to be a function of the text alone (`idOf: string -> string`), as an md5
  digest is. Were the default a counter or a random id, the same text would get a new id
  on each request, and `Delta.UnchangedRevalidation` (equal ETags for unchanged content)
  would not hold.
- The diff-match-patch algorithm is not modelled. The only assumption the model makes about
  the diff engine is `EmptyIffIdentical`, and it appears as a precondition wherever a
  property needs it. Diff minimality and the patch round trip are not modelled.
- md5 is not modelled. An id is whatever `idOf` returns. The lemmas about echoed ETags
  require an id without commas, which every hex digest satisfies.
- Express's own `res.send` logic is not modelled. For a GET or HEAD request without
  `Cache-Control: no-cache`, its freshness check turns any 2xx reply into a 304 when
  `If-None-Match` is `*` or lists the current ETag anywhere. That covers the 200
  replies and also the 226 of lib/delta.js:40, when an older known token comes first and the
  current ETag later. `Content-Type`, `Content-Length` and JSON serialisation of the patches
  are not modelled either. `send` and `json` record the body value they were given.
- `req.route` is taken to exist: mounted with `app.use`, lib/delta.js:11 reads `path` of
  `undefined` and throws a TypeError, which the model does not represent.
- `res.locals.responseBody` is taken to be a string set by the route before the middleware
  runs; nothing in the code shown sets it, and other values are not modelled.
- Header names are taken to arrive lower-cased, as Node delivers them. Case-insensitive
  lookup is not modelled.
- DeltaCapture.CapturedResponse.Write: the `encoding` argument of `write`/`end` is not
  modelled. A string chunk carries its text, which decides the truthiness test of `end`,
  together with the bytes `Buffer.from` makes of it. Which bytes an encoding makes is not
  modelled. Nor do `write` and `end` require `Consistent` of their chunks, the one fact
  about those bytes that holds for every encoding (the empty string makes none). The model
  thus admits a chunk such as `Str("", [1])` that no call can produce. `Truthy` states what
  the skipped data holds only for chunks that are `Consistent`.
- DeltaCapture.CapturedResponse.Write: the short forms `write(chunk, callback)` and
  `end(data, callback)` are not modelled. There the callback arrives as `encoding`, so
  lib/create_delta_cache.js:20-22 never runs it and :37 hands over `undefined`. The model's
  `callback` is always the third argument.
- DeltaCapture.CapturedResponse.End: `end(callback)` is not modelled. The function is truthy,
  so lib/create_delta_cache.js:30 writes it and `Buffer.from` throws.
- DeltaCapture.Middleware: the route is a fixed sequence of calls made while `next()` runs.
  A route that writes later, asynchronously, reaches the same overrides in the same order,
  and that timing is not modelled.
- DeltaCapture.CapturedResponse.End: the original Node `write`/`end` are not modelled. A
  call that reaches them after restoration is recorded in `originalCalls`, and their own
  asynchronous callbacks are not invoked.
- `respondWithDeltaEncoding` comes from the `delta-cache` package, which is not part of this
  model; lib/delta.js exports no such function. What it is given (the final buffer and the
  callback) is recorded in `handover`.
- lib/server.js (a demo HTTPS server with an earlier, different handler), lib/testing_client.js
  (a polling client over the network) and test/test.js (which asserts nothing) are not part
  of this model.
- Concurrency is not modelled: the source runs on single-threaded Node. History eviction is
  not modelled either, because the source never evicts.
