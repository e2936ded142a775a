/**
  lib/create_delta_cache.js: a middleware that captures everything the route writes to
  the response, instead of sending it, and hands the complete body to the delta-cache
  responder when the route ends the response.

  For each request it swaps the response's `write` and `end` for its own: `write`
  collects chunks, `end` adds the last chunk, concatenates, puts the saved originals
  back and delegates to `respondWithDeltaEncoding`, whose own code is not part of this
  model; what it receives is recorded.
*/
module DeltaCapture {
  import opened Wrappers
  import opened Express

  newtype byte = x: int | 0 <= x < 256

  /**
    A chunk handed to `write` or `end`: a JavaScript string together with the bytes
    `Buffer.from` makes of it under the call's encoding, or a Buffer. They differ in
    truthiness: a string is falsy exactly when it is '', whatever its bytes; every
    Buffer is truthy, even an empty one.
  */
  datatype Chunk = Str(text: string, bytes: seq<byte>) | Buf(bytes: seq<byte>)

  /**
    What `Buffer.from` guarantees of a string chunk: the empty string makes no bytes,
    whatever the encoding.
  */
  predicate Consistent(c: Chunk) {
    c.Str? && |c.text| == 0 ==> |c.bytes| == 0
  }

  /**
    The `if (data)` test of `end` for an optional chunk: absent data and the empty string
    are falsy, every Buffer is truthy. So the data `end` skips never carries bytes.
  */
  function Truthy(data: Option<Chunk>): (r: bool)
    ensures data.None? ==> !r
    ensures data.Some? && data.value.Buf? ==> r
    ensures data.Some? && data.value.Str? ==> (r <==> data.value.text != "")
    ensures data.Some? && Consistent(data.value) && !r ==> data.value.bytes == []
  {
    match data
    case None => false
    case Some(Str(text, _)) => |text| > 0
    case Some(Buf(_)) => true
  }

  /** A callback passed to `write` or `end`, by identity. */
  datatype Callback = Callback(id: nat)

  /** Whether `res.write`/`res.end` are the overrides or the restored originals. */
  datatype Phase = Capturing | Ended

  /** A call of `res.write(chunk, encoding, callback)` or `res.end(data, encoding, callback)`. */
  datatype ResponseCall =
    | WriteCall(chunk: Chunk, callback: Option<Callback>)
    | EndCall(data: Option<Chunk>, callback: Option<Callback>)

  /** The one call to `deltaCache.respondWithDeltaEncoding(req, res, finalBuffer, callback)`. */
  datatype Handover = Handover(finalBuffer: seq<byte>, callback: Option<Callback>)

  /** `Buffer.concat(buffers)`: holds exactly as many bytes as all chunks together. */
  function Concat(buffers: seq<seq<byte>>): (r: seq<byte>)
    ensures |r| == TotalLength(buffers)
    decreases |buffers|
  {
    if |buffers| == 0 then [] else buffers[0] + Concat(buffers[1..])
  }

  /** The total number of bytes in `buffers`. */
  function TotalLength(buffers: seq<seq<byte>>): nat
    decreases |buffers|
  {
    if |buffers| == 0 then 0 else |buffers[0]| + TotalLength(buffers[1..])
  }

  /** Where chunk `i` starts in the concatenation: the lengths of the chunks before it. */
  function Offset(buffers: seq<seq<byte>>, i: nat): nat
    requires i <= |buffers|
  {
    TotalLength(buffers[..i])
  }

  /** Concatenating two runs of chunks concatenates their results. */
  lemma {:induction false} ConcatAppend(a: seq<seq<byte>>, b: seq<seq<byte>>)
    ensures Concat(a + b) == Concat(a) + Concat(b)
    decreases |a|
  {
    if |a| == 0 {
      assert a + b == b;
    } else {
      assert (a + b)[1..] == a[1..] + b;
      ConcatAppend(a[1..], b);
    }
  }

  /**
    Every chunk sits in the concatenation unchanged, in call order: chunk `i` occupies
    the bytes from `Offset(buffers, i)` on.
  */
  lemma {:induction false} ConcatPlacesChunk(buffers: seq<seq<byte>>, i: nat)
    requires i < |buffers|
    ensures Offset(buffers, i) + |buffers[i]| <= |Concat(buffers)|
    ensures Concat(buffers)[Offset(buffers, i)..Offset(buffers, i) + |buffers[i]|] == buffers[i]
  {
    var before, rest := buffers[..i], buffers[i..];
    assert buffers == before + rest;
    ConcatAppend(before, rest);
    assert Concat(rest) == buffers[i] + Concat(rest[1..]);
    var whole := Concat(buffers);
    assert whole == Concat(before) + (buffers[i] + Concat(rest[1..]));
    assert whole[|Concat(before)|..|Concat(before)| + |buffers[i]|] == buffers[i];
  }

  /**
    The response of one request with the middleware's overrides, from the moment the
    middleware was entered.
  */
  class CapturedResponse {
    var phase: Phase
    /** `buffers`: the chunks captured so far, in call order. */
    var buffers: seq<seq<byte>>
    /** The calls that reached the original `write`/`end`, in order. */
    var originalCalls: seq<ResponseCall>
    /** What the responder was given, once `end` ran. */
    var handover: Option<Handover>
    /** Callbacks invoked synchronously by the overridden `write`, in order. */
    var callbacksRun: seq<Callback>

    /**
      While capturing nothing has reached the original methods or the responder; after
      `end` the responder has been called, with the concatenation of what was captured.
    */
    ghost predicate Valid()
      reads this
    {
      && (phase == Capturing <==> handover.None?)
      && (phase == Capturing ==> originalCalls == [])
      && (phase == Ended ==> handover.value.finalBuffer == Concat(buffers))
    }

    /** The state is the one the calls `calls`, in order, leave behind. */
    ghost predicate Reflects(calls: seq<ResponseCall>)
      reads this
    {
      && phase == (if HasEnded(calls) then Ended else Capturing)
      && buffers == CapturedChunks(calls)
      && originalCalls == ForwardedCalls(calls)
      && handover == HandedOver(calls)
      && callbacksRun == RunCallbacks(calls)
    }

    /** The overrides are installed on entry, with a fresh, empty `buffers`. */
    constructor Install()
      ensures Valid()
      ensures phase == Capturing && buffers == [] && originalCalls == []
      ensures handover == None && callbacksRun == []
    {
      phase := Capturing;
      buffers := [];
      originalCalls := [];
      handover := None;
      callbacksRun := [];
    }

    /**
      `res.write(chunk, encoding, callback)`. While capturing: the chunk goes to the end
      of `buffers` and nowhere else, and the callback, if there is one, runs at once. Once
      restored: the original `write` gets the call and nothing is captured.
    */
    method Write(chunk: Chunk, callback: Option<Callback>)
      requires Valid()
      modifies this
      ensures Valid()
      ensures phase == old(phase) && handover == old(handover)
      ensures old(phase) == Capturing ==>
        && buffers == old(buffers) + [chunk.bytes]
        && originalCalls == old(originalCalls)
        && callbacksRun == old(callbacksRun) + (if callback.Some? then [callback.value] else [])
      ensures old(phase) == Ended ==>
        && buffers == old(buffers)
        && originalCalls == old(originalCalls) + [WriteCall(chunk, callback)]
        && callbacksRun == old(callbacksRun)
    {
      if phase == Capturing {
        buffers := buffers + [chunk.bytes];
        if callback.Some? {
          // run at once: nothing here waits
          callbacksRun := callbacksRun + [callback.value];
        }
      } else {
        originalCalls := originalCalls + [WriteCall(chunk, callback)];
      }
    }

    /**
      `res.end(data, encoding, callback)`. While capturing: truthy `data` becomes the last
      chunk, the originals are restored, and the responder gets the concatenation of all
      chunks together with `callback`, which `end` does not itself run. Once restored: the
      original `end` gets the call, so capture happens at most once.
    */
    method End(data: Option<Chunk>, callback: Option<Callback>)
      requires Valid()
      modifies this
      ensures Valid()
      ensures phase == Ended
      ensures callbacksRun == old(callbacksRun)
      ensures old(phase) == Capturing ==>
        && buffers == old(buffers) + (if Truthy(data) then [data.value.bytes] else [])
        && originalCalls == old(originalCalls)
        && handover == Some(Handover(Concat(buffers), callback))
      ensures old(phase) == Capturing ==>
        handover.value.finalBuffer == Concat(old(buffers)) + (if Truthy(data) then data.value.bytes else [])
      ensures old(phase) == Ended ==>
        && buffers == old(buffers)
        && originalCalls == old(originalCalls) + [EndCall(data, callback)]
        && handover == old(handover)
    {
      if phase == Capturing {
        if Truthy(data) {
          // the chunk is captured at once, so write needs no callback
          Write(data.value, None);
        }
        ConcatAppend(old(buffers), if Truthy(data) then [data.value.bytes] else []);
        var finalBuffer := Concat(buffers);
        // the originals are back before the responder writes anything
        phase := Ended;
        handover := Some(Handover(finalBuffer, callback));
      } else {
        originalCalls := originalCalls + [EndCall(data, callback)];
      }
    }
  }

  /**
    The calls a route makes on the response, as a reference for the state they leave:
    each function below looks at the last call and at whether an `end` came before it.
  */

  /** Some call in `calls` is an `end`. */
  predicate HasEnded(calls: seq<ResponseCall>)
    decreases |calls|
  {
    |calls| > 0 && (HasEnded(calls[..|calls| - 1]) || calls[|calls| - 1].EndCall?)
  }

  /** The chunks one call adds while capture is on. */
  function ChunksOf(call: ResponseCall): seq<seq<byte>> {
    match call
    case WriteCall(chunk, _) => [chunk.bytes]
    case EndCall(data, _) => if Truthy(data) then [data.value.bytes] else []
  }

  /** The chunks captured: those of every call up to and including the first `end`. */
  function CapturedChunks(calls: seq<ResponseCall>): seq<seq<byte>>
    decreases |calls|
  {
    if |calls| == 0 then []
    else
      var before := calls[..|calls| - 1];
      CapturedChunks(before) + (if HasEnded(before) then [] else ChunksOf(calls[|calls| - 1]))
  }

  /** The callbacks run at once: those of the writes before the first `end`. */
  function RunCallbacks(calls: seq<ResponseCall>): seq<Callback>
    decreases |calls|
  {
    if |calls| == 0 then []
    else
      var before, last := calls[..|calls| - 1], calls[|calls| - 1];
      RunCallbacks(before) +
        (if !HasEnded(before) && last.WriteCall? && last.callback.Some? then [last.callback.value] else [])
  }

  /** The calls that reach the original methods: every call after the first `end`. */
  function ForwardedCalls(calls: seq<ResponseCall>): seq<ResponseCall>
    decreases |calls|
  {
    if |calls| == 0 then []
    else
      var before := calls[..|calls| - 1];
      ForwardedCalls(before) + (if HasEnded(before) then [calls[|calls| - 1]] else [])
  }

  /** What the responder gets: set by the first `end`, from the chunks captured up to it. */
  function HandedOver(calls: seq<ResponseCall>): Option<Handover>
    decreases |calls|
  {
    if |calls| == 0 then None
    else
      var before, last := calls[..|calls| - 1], calls[|calls| - 1];
      if HasEnded(before) then HandedOver(before)
      else if last.EndCall? then Some(Handover(Concat(CapturedChunks(calls)), last.callback))
      else None
  }

  /**
    Capture happens at most once: after the first `end`, further calls (the responder's
    own writes among them) change neither the captured chunks nor the handover, and
    reach the original methods in order.
  */
  lemma {:induction false} CaptureAtMostOnce(calls: seq<ResponseCall>, more: seq<ResponseCall>)
    requires HasEnded(calls)
    ensures HasEnded(calls + more)
    ensures CapturedChunks(calls + more) == CapturedChunks(calls)
    ensures HandedOver(calls + more) == HandedOver(calls)
    ensures RunCallbacks(calls + more) == RunCallbacks(calls)
    ensures ForwardedCalls(calls + more) == ForwardedCalls(calls) + more
    decreases |more|
  {
    if |more| == 0 {
      assert calls + more == calls;
    } else {
      var shorter := more[..|more| - 1];
      assert (calls + more)[..|calls + more| - 1] == calls + shorter;
      assert (calls + more)[|calls + more| - 1] == more[|more| - 1];
      CaptureAtMostOnce(calls, shorter);
      assert shorter + [more[|more| - 1]] == more;
    }
  }

  /** Writes of `chunks`, in order, the `i`-th with the callback `callbacks[i]`, if any. */
  function Writes(chunks: seq<Chunk>, callbacks: seq<Option<Callback>>): seq<ResponseCall>
    requires |callbacks| == |chunks|
  {
    seq(|chunks|, i requires 0 <= i < |chunks| => WriteCall(chunks[i], callbacks[i]))
  }

  /** The bytes of each chunk. */
  function BytesOf(chunks: seq<Chunk>): seq<seq<byte>> {
    seq(|chunks|, i requires 0 <= i < |chunks| => chunks[i].bytes)
  }

  /** The callbacks that were given, in order. */
  function Given(callbacks: seq<Option<Callback>>): seq<Callback>
    decreases |callbacks|
  {
    if |callbacks| == 0 then []
    else
      var last := callbacks[|callbacks| - 1];
      Given(callbacks[..|callbacks| - 1]) + (if last.Some? then [last.value] else [])
  }

  /**
    Before any `end`, every write is captured, in order, every callback given to
    `write` is run, in order, nothing reaches the original methods and nothing is
    handed over.
  */
  lemma {:induction false} WritesCaptured(chunks: seq<Chunk>, callbacks: seq<Option<Callback>>)
    requires |callbacks| == |chunks|
    ensures !HasEnded(Writes(chunks, callbacks))
    ensures CapturedChunks(Writes(chunks, callbacks)) == BytesOf(chunks)
    ensures RunCallbacks(Writes(chunks, callbacks)) == Given(callbacks)
    ensures ForwardedCalls(Writes(chunks, callbacks)) == []
    ensures HandedOver(Writes(chunks, callbacks)) == None
    decreases |chunks|
  {
    if |chunks| > 0 {
      var shorter, fewer := chunks[..|chunks| - 1], callbacks[..|callbacks| - 1];
      assert Writes(chunks, callbacks)[..|chunks| - 1] == Writes(shorter, fewer);
      assert BytesOf(chunks) == BytesOf(shorter) + [chunks[|chunks| - 1].bytes];
      WritesCaptured(shorter, fewer);
    }
  }

  /**
    A route that writes `chunks` and then ends with `data` hands the responder the
    bytes of every chunk in order, followed by those of `data` when it is truthy, and
    the callback given to `end`, which is not run; the callbacks given to `write` are.
  */
  lemma WritesThenEnd(chunks: seq<Chunk>, callbacks: seq<Option<Callback>>,
                      data: Option<Chunk>, callback: Option<Callback>)
    requires |callbacks| == |chunks|
    ensures var calls := Writes(chunks, callbacks) + [EndCall(data, callback)];
      && HasEnded(calls)
      && HandedOver(calls)
         == Some(Handover(Concat(BytesOf(chunks)) + (if Truthy(data) then data.value.bytes else []), callback))
      && RunCallbacks(calls) == Given(callbacks)
      && ForwardedCalls(calls) == []
  {
    var calls := Writes(chunks, callbacks) + [EndCall(data, callback)];
    assert calls[..|calls| - 1] == Writes(chunks, callbacks);
    WritesCaptured(chunks, callbacks);
    var last := if Truthy(data) then [data.value.bytes] else [];
    assert CapturedChunks(calls) == BytesOf(chunks) + last;
    ConcatAppend(BytesOf(chunks), last);
    assert Concat(last) == if Truthy(data) then data.value.bytes else [] by {
      if Truthy(data) {
        assert last[1..] == [];
      }
    }
  }

  /**
    `next()`: the rest of the chain runs synchronously and the route makes the calls
    `route` on the response, in order, through whatever `res.write`/`res.end` are at
    the time of each call.
  */
  method RunRoute(res: CapturedResponse, next: Next, route: seq<ResponseCall>)
    requires res.Valid() && res.Reflects([])
    modifies res, next
    ensures res.Valid() && res.Reflects(route)
    ensures next.calls == old(next.calls) + 1
  {
    next.Call();
    for i := 0 to |route|
      invariant res.Valid() && res.Reflects(route[..i])
      invariant next.calls == old(next.calls) + 1
    {
      var calls := route[..i + 1];
      assert calls[..|calls| - 1] == route[..i];
      match route[i]
      case WriteCall(chunk, callback) => res.Write(chunk, callback);
      case EndCall(data, callback) => res.End(data, callback);
    }
    assert route[..|route|] == route;
  }

  /**
    The middleware `function(req, res, next)`: installs the overrides on the response,
    with an empty `buffers`, and then calls `next` once, so that every call the route
    makes goes through them.
  */
  method Middleware(next: Next, route: seq<ResponseCall>) returns (res: CapturedResponse)
    modifies next
    ensures fresh(res) && res.Valid() && res.Reflects(route)
    ensures next.calls == old(next.calls) + 1
  {
    res := new CapturedResponse.Install();
    RunRoute(res, next, route);
  }

}
