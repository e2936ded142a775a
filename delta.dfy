/**
  lib/delta.js: the delta-negotiation middleware. For every request it records the body
  the route produced as a new version of that route's history, tags the response with
  the version's ETag, and answers with the full body (200), "not modified" (304) or the
  patches from the client's cached version (226, RFC 3229 delta encoding).
*/
module Delta {
  import opened Wrappers
  import opened JsString
  import opened DiffMatchPatch
  import opened TextHistory
  import opened Express

  const IfNoneMatch: string := "if-none-match"
  const AIm: string := "a-im"
  /** The instance-manipulation token naming diff-match-patch JSON patches. */
  const DeltaFormat: string := "googlediffjson"

  const NotModifiedStatus: int := 304
  const IMUsedStatus: int := 226

  /** The template `"${id}"` used for the ETag and Delta-Base headers: one double quote on each side of `id`. */
  function Quote(id: string): (q: string)
    ensures |q| == |id| + 2 && q[0] == '"' && q[|q| - 1] == '"'
    ensures q[1..|q| - 1] == id
  {
    "\"" + id + "\""
  }

  /** 1 when `etag` opens with a double quote, which `StripQuotes` then drops. */
  function LeadingQuote(etag: string): nat {
    if |etag| > 0 && etag[0] == '"' then 1 else 0
  }

  /**
    `etag.replace(/^"|"$/g, '')`: drops one leading and one trailing double quote. The
    result is the rest of `etag` after an optional leading quote; only quotes are cut;
    the trailing one goes exactly when a quote ends what the leading cut left.
  */
  function StripQuotes(etag: string): (r: string)
    ensures var lead := LeadingQuote(etag);
      && lead + |r| <= |etag| <= lead + |r| + 1
      && r == etag[lead..lead + |r|]
      && (lead + |r| < |etag| <==> |etag| > lead && etag[|etag| - 1] == '"')
    ensures forall i :: 0 <= i < |etag| && !(LeadingQuote(etag) <= i < LeadingQuote(etag) + |r|) ==> etag[i] == '"'
  {
    var t := if |etag| > 0 && etag[0] == '"' then etag[1..] else etag;
    if |t| > 0 && t[|t| - 1] == '"' then t[..|t| - 1] else t
  }

  /**
    The validators of an `If-None-Match` value, in header order, quotes removed: one per
    ", "-separated part, none of them holding ", " itself.
  */
  function EtagTokens(etagsHeader: string): (tokens: seq<string>)
    ensures |tokens| == |SplitList(etagsHeader)| > 0
    ensures forall i :: 0 <= i < |tokens| ==> tokens[i] == StripQuotes(SplitList(etagsHeader)[i])
    ensures forall i :: 0 <= i < |tokens| ==> !Contains(tokens[i], ListSeparator)
  {
    var etags := SplitList(etagsHeader);
    var tokens := seq(|etags|, i requires 0 <= i < |etags| => StripQuotes(etags[i]));
    forall i | 0 <= i < |tokens| ensures !Contains(tokens[i], ListSeparator) {
      var lead := LeadingQuote(etags[i]);
      NoSeparatorInSlice(etags[i], ListSeparator, lead, lead + |tokens[i]|);
    }
    tokens
  }

  /** `tokens[i]` is the first token with a version in `versions`. */
  ghost predicate FirstKnownAt(tokens: seq<string>, versions: map<string, string>, i: int) {
    && 0 <= i < |tokens|
    && tokens[i] in versions
    && forall j :: 0 <= j < i ==> tokens[j] !in versions
  }

  /** `tokens.find(etag => history.hasVersion(etag))`, for a history holding `versions`. */
  function FindKnown(tokens: seq<string>, versions: map<string, string>): (r: Option<string>)
    ensures r.None? <==> forall i :: 0 <= i < |tokens| ==> tokens[i] !in versions
    ensures r.Some? ==> exists i :: FirstKnownAt(tokens, versions, i) && tokens[i] == r.value
    decreases |tokens|
  {
    if |tokens| == 0 then None
    else if tokens[0] in versions then
      assert FirstKnownAt(tokens, versions, 0);
      Some(tokens[0])
    else
      var r := FindKnown(tokens[1..], versions);
      assert forall i :: 1 <= i < |tokens| ==> tokens[i] == tokens[1..][i - 1];
      if r.Some? then
        assert exists i :: FirstKnownAt(tokens, versions, i) && tokens[i] == r.value by {
          var i :| FirstKnownAt(tokens[1..], versions, i) && tokens[1..][i] == r.value;
          assert FirstKnownAt(tokens, versions, i + 1);
        }
        r
      else r
  }

  /**
    `firstMatchingEtag(etagsHeader, history)`: splits the header on exactly ", ", strips
    one quote from each end of each part, and returns the first part, in header order,
    that the history knows; `None` when it knows none of them.
  */
  function FirstMatchingEtag(etagsHeader: string, versions: map<string, string>): (r: Option<string>)
    ensures var tokens := EtagTokens(etagsHeader);
      && |tokens| == |SplitList(etagsHeader)|
      && (r.None? <==> forall i :: 0 <= i < |tokens| ==> tokens[i] !in versions)
      && (r.Some? ==> exists i :: FirstKnownAt(tokens, versions, i) && tokens[i] == r.value)
  {
    FindKnown(EtagTokens(etagsHeader), versions)
  }

  /**
    `isDeltaCompatible(headers)`: false without an `A-IM` header; otherwise true exactly
    when one of its ", "-separated tokens is `googlediffjson`, character for character.
  */
  function IsDeltaCompatible(headers: map<string, string>): (r: bool)
    ensures AIm !in headers ==> !r
    ensures AIm in headers ==>
      var tokens := SplitList(headers[AIm]);
      (r <==> exists i :: 0 <= i < |tokens| && tokens[i] == DeltaFormat)
  {
    if AIm !in headers then false
    else ArrayIndexOf(SplitList(headers[AIm]), DeltaFormat) != -1
  }

  /** The three response shapes the middleware chooses between. */
  datatype Outcome =
    | Full(content: string)
    | NotModified
    | Delta(base: string, patches: seq<Patch>)

  /**
    The decision of lib/delta.js:18-46, taken after the new version is recorded, for a
    history holding `versions` whose latest text is `latest`. The client gets something
    other than the full latest text only when it named a version the history knows; a
    delta only when the content changed and it accepts one. Only the first known token
    of `If-None-Match` counts: it alone decides 304 against the rest, and it alone can
    be the delta base.
  */
  function Negotiate(headers: map<string, string>, versions: map<string, string>, latest: string, diff: Differ)
    : (r: Outcome)
    ensures r.Full? ==> r.content == latest
    ensures IfNoneMatch !in headers ==> r.Full?
    ensures !r.Full? <==>
      && IfNoneMatch in headers
      && (exists i :: FirstKnownAt(EtagTokens(headers[IfNoneMatch]), versions, i))
      && (GetPatches(diff, versions, latest, FirstMatchingEtag(headers[IfNoneMatch], versions).value) == []
          || IsDeltaCompatible(headers))
    ensures r.Delta? ==>
      && IsDeltaCompatible(headers)
      && r.base in versions
      && r.base in EtagTokens(headers[IfNoneMatch])
      && r.patches == GetPatches(diff, versions, latest, r.base) != []
    ensures var m := if IfNoneMatch in headers then FirstMatchingEtag(headers[IfNoneMatch], versions) else None;
      && (r.NotModified? <==> m.Some? && GetPatches(diff, versions, latest, m.value) == [])
      && (r.Delta? ==> m.Some? && r.base == m.value)
      && (r.NotModified? && EmptyIffIdentical(diff) ==> versions[m.value] == latest)
  {
    var matchingEtag :=
      if IfNoneMatch !in headers then None else FirstMatchingEtag(headers[IfNoneMatch], versions);
    if matchingEtag.None? then Full(latest)
    else
      var patches := GetPatches(diff, versions, latest, matchingEtag.value);
      if |patches| == 0 then NotModified
      else if IsDeltaCompatible(headers) then Delta(matchingEtag.value, patches)
      else Full(latest)
  }

  /** A quoted id holds ", " only where the id does. */
  lemma QuotePreservesNoSeparator(id: string)
    requires !Contains(id, ListSeparator)
    ensures !Contains(Quote(id), ListSeparator)
  {
    var q := Quote(id);
    forall j | 0 <= j <= |q| ensures !OccursAt(q, ListSeparator, j) {
      if 1 <= j && j + 2 <= |id| + 1 {
        assert q[j..j + 2] == id[j - 1..j + 1];
        assert !OccursAt(id, ListSeparator, j - 1);
      } else if j == 0 {
        assert q[0] == '"';
      } else if j + 2 <= |q| {
        assert q[j + 1] == '"';
      }
    }
  }

  /** Stripping undoes quoting, whatever the id holds. */
  lemma StripQuotesOfQuote(id: string)
    ensures StripQuotes(Quote(id)) == id
  {
  }

  /**
    A client that echoes a list of ETags this middleware issued gets back the first of
    those ids the history knows, in the order it listed them.
  */
  lemma {:induction false} FirstMatchingEtagOfQuotedList(ids: seq<string>, versions: map<string, string>)
    requires |ids| > 0
    requires forall i :: 0 <= i < |ids| ==> !Contains(ids[i], ListSeparator)
    ensures FirstMatchingEtag(Join(seq(|ids|, i requires 0 <= i < |ids| => Quote(ids[i])), ListSeparator), versions)
            == FindKnown(ids, versions)
  {
    var quoted := seq(|ids|, i requires 0 <= i < |ids| => Quote(ids[i]));
    forall i | 0 <= i < |quoted| ensures !Contains(quoted[i], ListSeparator) {
      QuotePreservesNoSeparator(ids[i]);
    }
    SplitJoin(quoted);
    var tokens := EtagTokens(Join(quoted, ListSeparator));
    forall i | 0 <= i < |ids| ensures tokens[i] == ids[i] {
      StripQuotesOfQuote(ids[i]);
    }
    assert tokens == ids;
  }

  /** `A-IM` listing `googlediffjson` among other ", "-free tokens is delta compatible. */
  lemma {:induction false} DeltaCompatibleListed(headers: map<string, string>, tokens: seq<string>)
    requires |tokens| > 0
    requires forall i :: 0 <= i < |tokens| ==> !Contains(tokens[i], ListSeparator)
    requires AIm in headers && headers[AIm] == Join(tokens, ListSeparator)
    ensures IsDeltaCompatible(headers) <==> DeltaFormat in tokens
  {
    SplitJoin(tokens);
  }

  /** `googlediffjson` holds no ", ", so it is one token of any list it is joined into. */
  lemma DeltaFormatIsOneToken()
    ensures !Contains(DeltaFormat, ListSeparator)
  {
    NoCommaNoSeparator(DeltaFormat);
  }

  /** `A-IM: googlediffjson` on its own is delta compatible. */
  lemma SoleDeltaFormatCompatible(headers: map<string, string>)
    requires AIm in headers && headers[AIm] == DeltaFormat
    ensures IsDeltaCompatible(headers)
  {
    DeltaFormatIsOneToken();
    DeltaCompatibleListed(headers, [DeltaFormat]);
  }

  /** A single ETag that was issued by this history and is echoed unchanged matches. */
  lemma EchoedEtagMatches(id: string, versions: map<string, string>)
    requires !Contains(id, ListSeparator)
    ensures FirstMatchingEtag(Quote(id), versions) == if id in versions then Some(id) else None
  {
    FirstMatchingEtagOfQuotedList([id], versions);
    assert Join(seq(1, i requires 0 <= i < 1 => Quote([id][i])), ListSeparator) == Quote(id);
  }

  /**
    Revalidation of unchanged content: the client echoes the ETag of the current text,
    so the answer is 304 whatever `A-IM` says.
  */
  lemma RevalidateUnchanged(headers: map<string, string>, versions: map<string, string>, latest: string,
                            diff: Differ, id: string)
    requires EmptyIffIdentical(diff)
    requires !Contains(id, ListSeparator)
    requires id in versions && versions[id] == latest
    requires IfNoneMatch in headers && headers[IfNoneMatch] == Quote(id)
    ensures Negotiate(headers, versions, latest, diff) == NotModified
  {
    EchoedEtagMatches(id, versions);
  }

  /**
    Revalidation of changed content by a client that accepts googlediffjson: 226 with
    the patches from its cached version, named as the delta base.
  */
  lemma RevalidateChangedWithDelta(headers: map<string, string>, versions: map<string, string>, latest: string,
                                   diff: Differ, id: string)
    requires EmptyIffIdentical(diff)
    requires !Contains(id, ListSeparator)
    requires id in versions && versions[id] != latest
    requires IfNoneMatch in headers && headers[IfNoneMatch] == Quote(id)
    requires IsDeltaCompatible(headers)
    ensures Negotiate(headers, versions, latest, diff) == Delta(id, diff(versions[id], latest))
    ensures diff(versions[id], latest) != []
  {
    EchoedEtagMatches(id, versions);
  }

  /**
    Revalidation of changed content by a client that does not accept a delta: the full
    latest text, as if it had sent no validator.
  */
  lemma RevalidateChangedWithoutDelta(headers: map<string, string>, versions: map<string, string>, latest: string,
                                      diff: Differ, id: string)
    requires EmptyIffIdentical(diff)
    requires !Contains(id, ListSeparator)
    requires id in versions && versions[id] != latest
    requires IfNoneMatch in headers && headers[IfNoneMatch] == Quote(id)
    requires !IsDeltaCompatible(headers)
    ensures Negotiate(headers, versions, latest, diff) == Full(latest)
  {
    EchoedEtagMatches(id, versions);
  }

  /** A validator naming no known version is answered as if there were none. */
  lemma UnknownValidatorsIgnored(headers: map<string, string>, versions: map<string, string>, latest: string,
                                 diff: Differ)
    requires IfNoneMatch in headers
    requires forall t :: t in EtagTokens(headers[IfNoneMatch]) ==> t !in versions
    ensures Negotiate(headers, versions, latest, diff) == Negotiate(headers - {IfNoneMatch}, versions, latest, diff)
    ensures Negotiate(headers, versions, latest, diff) == Full(latest)
  {
  }

  /** `RevalidateChangedWithDelta` for an `A-IM` list that names googlediffjson. */
  lemma DeltaOutcomeForListedFormat(headers: map<string, string>, versions: map<string, string>, latest: string,
                                    diff: Differ, id: string, accepted: seq<string>)
    requires EmptyIffIdentical(diff)
    requires forall i :: 0 <= i < |id| ==> id[i] != ','
    requires id in versions && versions[id] != latest
    requires DeltaFormat in accepted
    requires forall i :: 0 <= i < |accepted| ==> !Contains(accepted[i], ListSeparator)
    requires headers == map[IfNoneMatch := Quote(id), AIm := Join(accepted, ListSeparator)]
    ensures Negotiate(headers, versions, latest, diff) == Delta(id, diff(versions[id], latest))
    ensures diff(versions[id], latest) != []
  {
    NoCommaNoSeparator(id);
    DeltaCompatibleListed(headers, accepted);
    RevalidateChangedWithDelta(headers, versions, latest, diff, id);
  }

  /**
    A history holding two versions, the second the latest: a client that echoes the
    first one's ETag and accepts googlediffjson gets the patches from it to the second.
  */
  lemma TwoVersionDelta(headers: map<string, string>, id1: string, id2: string, text1: string, text2: string,
                        diff: Differ, accepted: seq<string>)
    requires EmptyIffIdentical(diff)
    requires id1 != id2 && text1 != text2
    requires forall i :: 0 <= i < |id1| ==> id1[i] != ','
    requires DeltaFormat in accepted
    requires forall i :: 0 <= i < |accepted| ==> !Contains(accepted[i], ListSeparator)
    requires headers == map[IfNoneMatch := Quote(id1), AIm := Join(accepted, ListSeparator)]
    ensures Negotiate(headers, map[id1 := text1][id2 := text2], text2, diff) == Delta(id1, diff(text1, text2))
    ensures diff(text1, text2) != []
  {
    var versions := map[id1 := text1][id2 := text2];
    assert versions[id1] == text1;
    DeltaOutcomeForListedFormat(headers, versions, text2, diff, id1, accepted);
  }

  /** The middleware returned by `DeltaCache()`, with its per-route histories. */
  class DeltaCache {
    const idOf: string -> string
    const diff: Differ
    /** `resourceHistories`: route path to that route's history. */
    var resourceHistories: map<string, History>

    /** Every history is valid, built with this cache's parameters, and owned by one route. */
    ghost predicate Valid()
      reads this, resourceHistories.Values
    {
      && (forall p | p in resourceHistories ::
            resourceHistories[p].Valid() &&
            resourceHistories[p].idOf == idOf && resourceHistories[p].diff == diff)
      && (forall p, q | p in resourceHistories && q in resourceHistories && p != q ::
            resourceHistories[p] != resourceHistories[q])
    }

    /** `DeltaCache()`: no route seen yet. */
    constructor (idOf: string -> string, diff: Differ)
      ensures Valid()
      ensures this.idOf == idOf && this.diff == diff && resourceHistories == map[]
    {
      this.idOf := idOf;
      this.diff := diff;
      resourceHistories := map[];
    }

    /**
      lib/delta.js:11-13: the history of `path`, created empty only when the route is new;
      no other route's entry changes.
    */
    method RouteHistory(path: string) returns (history: History)
      requires Valid()
      modifies this
      ensures Valid()
      ensures resourceHistories.Keys == old(resourceHistories.Keys) + {path}
      ensures history == resourceHistories[path]
      ensures path in old(resourceHistories) ==> history == old(resourceHistories[path])
      ensures path !in old(resourceHistories) ==>
        fresh(history) && history.versions == map[] && history.lastVersion == None
      ensures forall p | p in old(resourceHistories) :: resourceHistories[p] == old(resourceHistories[p])
    {
      // first request for this route: start its history
      if path !in resourceHistories {
        var created := new History(idOf, diff);
        resourceHistories := resourceHistories[path := created];
      }
      history := resourceHistories[path];
    }

    /**
      lib/delta.js:10-16: the route's history, created only when the route is new, gets
      the route's body as its newest version, and the response gets that version's
      quoted id as its ETag. Other routes' histories are untouched.
    */
    method RecordVersion(req: Request, res: Response) returns (history: History)
      requires Valid()
      modifies this, resourceHistories.Values, res`headers
      ensures Valid()
      ensures resourceHistories.Keys == old(resourceHistories.Keys) + {req.routePath}
      ensures history == resourceHistories[req.routePath]
      ensures req.routePath in old(resourceHistories) ==> history == old(resourceHistories[req.routePath])
      ensures req.routePath !in old(resourceHistories) ==> fresh(history)
      ensures forall p | p in old(resourceHistories) && p != req.routePath ::
        resourceHistories[p] == old(resourceHistories[p])
      ensures forall h | h in old(resourceHistories.Values) && h != resourceHistories[req.routePath] ::
        unchanged(h)
      ensures history.versions ==
        (if req.routePath in old(resourceHistories) then old(history.versions) else map[])
        [idOf(res.responseBody) := res.responseBody]
      ensures history.lastVersion == Some(res.responseBody)
      ensures history.Valid()
      ensures res.headers == old(res.headers)["ETag" := Quote(idOf(res.responseBody))]
    {
      history := RouteHistory(req.routePath);
      var id := history.AddVersion(res.responseBody);
      res.Header("ETag", Quote(id));
    }

    /**
      The middleware `function(req, res, next)`. The route's history is created only when
      the route is new; other routes' histories are untouched. The route's body becomes a
      new version, its quoted id the ETag; exactly one response is sent, shaped by
      `Negotiate` on the versions the history holds then, and `next` is called once.
    */
    method Handle(req: Request, res: Response, next: Next)
      requires Valid()
      modifies this, resourceHistories.Values, res, next
      ensures Valid()
      ensures resourceHistories.Keys == old(resourceHistories.Keys) + {req.routePath}
      ensures req.routePath in old(resourceHistories) ==>
        resourceHistories[req.routePath] == old(resourceHistories[req.routePath])
      ensures req.routePath !in old(resourceHistories) ==> fresh(resourceHistories[req.routePath])
      ensures forall p | p in old(resourceHistories) && p != req.routePath ::
        resourceHistories[p] == old(resourceHistories[p])
      ensures forall h | h in old(resourceHistories.Values) && h != resourceHistories[req.routePath] ::
        unchanged(h)
      ensures var history := resourceHistories[req.routePath];
        && history.versions ==
             (if req.routePath in old(resourceHistories)
              then old(resourceHistories[req.routePath].versions) else map[])
             [idOf(res.responseBody) := res.responseBody]
        && history.lastVersion == Some(res.responseBody)
      ensures Answered(res, Negotiate(req.headers, resourceHistories[req.routePath].versions,
                                 resourceHistories[req.routePath].lastVersion.value, diff),
                       old(res.statusCode), old(res.headers)["ETag" := Quote(idOf(res.responseBody))])
      ensures res.sends == old(res.sends) + 1
      ensures next.calls == old(next.calls) + 1
    {
      var history := RecordVersion(req, res);
      Respond(req, res, next);
    }

    /**
      lib/delta.js:18-47: answers from the route's history, with the history's own diff
      engine, and then calls `next`.
    */
    method Respond(req: Request, res: Response, next: Next)
      requires req.routePath in resourceHistories
      requires resourceHistories[req.routePath].lastVersion.Some?
      requires resourceHistories[req.routePath].diff == diff
      modifies res, next
      ensures Answered(res, Negotiate(req.headers, resourceHistories[req.routePath].versions,
                                      resourceHistories[req.routePath].lastVersion.value, diff),
                       old(res.statusCode), old(res.headers))
      ensures res.sends == old(res.sends) + 1
      ensures next.calls == old(next.calls) + 1
    {
      var history := resourceHistories[req.routePath];
      SendNegotiated(req, res, history.versions, history.lastVersion.value, history.diff);
      next.Call();
    }
  }

  /**
    `res` now carries the response `outcome` describes, given the status and headers it
    had before: the full text under the status it had (Node's default 200), 304 with no
    body, or 226 with `IM` and `Delta-Base` and the patches as JSON.
  */
  ghost predicate Answered(res: Response, outcome: Outcome, status0: int, headers0: map<string, string>)
    reads res
  {
    match outcome
    case Full(content) =>
      res.statusCode == status0 && res.headers == headers0 && res.body == Text(content)
    case NotModified =>
      res.statusCode == NotModifiedStatus && res.headers == headers0 && res.body == NoBody
    case Delta(base, patches) =>
      && res.statusCode == IMUsedStatus
      && res.headers == headers0["IM" := DeltaFormat]["Delta-Base" := Quote(base)]
      && res.body == Json(patches)
  }

  /**
    lib/delta.js:18-46: picks the response shape from the versions of the route's
    history and its latest text, and sends it, once.
  */
  method SendNegotiated(req: Request, res: Response,
                        versions: map<string, string>, latest: string, diff: Differ)
    modifies res
    ensures Answered(res, Negotiate(req.headers, versions, latest, diff),
                     old(res.statusCode), old(res.headers))
    ensures res.sends == old(res.sends) + 1
  {
    var matchingEtag :=
      if IfNoneMatch !in req.headers then None
      else FirstMatchingEtag(req.headers[IfNoneMatch], versions);

    // no validator, or none the history knows: the full text
    if matchingEtag.None? {
      res.Send(Text(latest));
    } else {
      var patches := GetPatches(diff, versions, latest, matchingEtag.value);
      if |patches| == 0 {
        // the client already holds the latest text
        res.Status(NotModifiedStatus);
        res.Send(NoBody);
      } else if IsDeltaCompatible(req.headers) {
        res.Header("IM", DeltaFormat);
        res.Header("Delta-Base", Quote(matchingEtag.value));
        res.Status(IMUsedStatus);
        res.SendJson(patches);
      } else {
        res.Send(Text(latest));
      }
    }
  }

  /**
    The first request for `path` to a new cache, without validator: 200 with the full
    text and its ETag, and the route's history now holds that one version.
  */
  method FirstVisit(idOf: string -> string, diff: Differ, path: string, text: string)
    returns (cache: DeltaCache, next: Next, first: Response)
    ensures fresh(cache) && fresh(next) && cache.Valid()
    ensures cache.idOf == idOf && cache.diff == diff
    ensures path in cache.resourceHistories
    ensures var history := cache.resourceHistories[path];
      && cache.resourceHistories == map[path := history] && fresh(history)
      && history.versions == map[idOf(text) := text] && history.lastVersion == Some(text)
    ensures first.statusCode == 200 && first.body == Text(text)
    ensures first.headers == map["ETag" := Quote(idOf(text))]
  {
    cache := new DeltaCache(idOf, diff);
    next := new Next();
    first := new Response(text);
    cache.Handle(Request(path, map[]), first, next);
  }

  /**
    A later request for a route the cache has seen, on a fresh response: the body is
    added to the route's versions, which then decide the answer, sent under the ETag of
    the body.
  */
  method LaterVisit(cache: DeltaCache, next: Next, path: string, headers: map<string, string>, text: string)
    returns (res: Response)
    requires cache.Valid() && path in cache.resourceHistories
    modifies cache, cache.resourceHistories.Values, next
    ensures fresh(res)
    ensures Answered(res, Negotiate(headers, old(cache.resourceHistories[path].versions)[cache.idOf(text) := text],
                                    text, cache.diff),
                     200, map["ETag" := Quote(cache.idOf(text))])
  {
    res := new Response(text);
    cache.Handle(Request(path, headers), res, next);
  }

  /**
    Two requests for one route with the same content: the first, without validator,
    gets 200 with the full text and its ETag; the second, echoing that ETag, gets 304
    with no body.
  */
  method UnchangedRevalidation(idOf: string -> string, diff: Differ, path: string, text: string)
    returns (first: Response, second: Response)
    requires EmptyIffIdentical(diff)
    requires forall i :: 0 <= i < |idOf(text)| ==> idOf(text)[i] != ','
    ensures first.statusCode == 200 && first.body == Text(text)
    ensures first.headers == map["ETag" := Quote(idOf(text))]
    ensures second.statusCode == NotModifiedStatus && second.body == NoBody
    ensures second.headers == first.headers
  {
    var id := idOf(text);
    var cache, next;
    cache, next, first := FirstVisit(idOf, diff, path, text);

    var revalidate := map[IfNoneMatch := Quote(id)];
    NoCommaNoSeparator(id);
    // the second visit adds the same text again, under the same id
    RevalidateUnchanged(revalidate, map[id := text][id := text], text, diff, id);
    second := LaterVisit(cache, next, path, revalidate, text);
  }

  /**
    Two requests for one route whose content changed in between: the second echoes the
    first ETag and lists googlediffjson among the instance manipulations it accepts, so
    it gets 226 with the patches from the first text to the second, `IM: googlediffjson`
    and the first ETag as `Delta-Base`.
  */
  method ChangedRevalidation(idOf: string -> string, diff: Differ, path: string, text1: string, text2: string,
                             accepted: seq<string>)
    returns (first: Response, second: Response)
    requires EmptyIffIdentical(diff)
    requires DeltaFormat in accepted
    requires forall i :: 0 <= i < |accepted| ==> !Contains(accepted[i], ListSeparator)
    requires text1 != text2 && idOf(text1) != idOf(text2)
    requires forall i :: 0 <= i < |idOf(text1)| ==> idOf(text1)[i] != ','
    ensures first.statusCode == 200 && first.body == Text(text1)
    ensures second.statusCode == IMUsedStatus && second.body == Json(diff(text1, text2))
    ensures diff(text1, text2) != []
    ensures first.headers == map["ETag" := Quote(idOf(text1))]
    ensures second.headers == map["ETag" := Quote(idOf(text2))]["IM" := DeltaFormat]["Delta-Base" := Quote(idOf(text1))]
  {
    var id1 := idOf(text1);
    var revalidate := map[IfNoneMatch := Quote(id1), AIm := Join(accepted, ListSeparator)];
    TwoVersionDelta(revalidate, id1, idOf(text2), text1, text2, diff, accepted);

    var cache, next;
    cache, next, first := FirstVisit(idOf, diff, path, text1);
    second := LaterVisit(cache, next, path, revalidate, text2);
  }

}
