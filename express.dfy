/**
  The parts of Express's request and response that the middleware touches: the route
  path, the request headers, and the response's status, headers and body.
*/
module Express {
  import opened DiffMatchPatch

  /** `req.route.path` and `req.headers` (header names arrive lower-cased). */
  datatype Request = Request(routePath: string, headers: map<string, string>)

  /** What `res.send` or `res.json` was given: nothing, a text, or patches as JSON. */
  datatype Body = NoBody | Text(text: string) | Json(patches: seq<Patch>)

  class Response {
    var statusCode: int
    var headers: map<string, string>
    var body: Body
    /** How many times the response has been sent. */
    var sends: nat
    /** `res.locals.responseBody`, left there by the route handler. */
    const responseBody: string

    /** A fresh response: Node's default status 200, nothing set or sent yet. */
    constructor (responseBody: string)
      ensures this.responseBody == responseBody
      ensures statusCode == 200 && headers == map[] && body == NoBody && sends == 0
    {
      this.responseBody := responseBody;
      statusCode := 200;
      headers := map[];
      body := NoBody;
      sends := 0;
    }

    /** `res.header(name, value)`. */
    method Header(name: string, value: string)
      modifies this`headers
      ensures headers == old(headers)[name := value]
    {
      headers := headers[name := value];
    }

    /** `res.status(code)`. */
    method Status(code: int)
      modifies this`statusCode
      ensures statusCode == code
    {
      statusCode := code;
    }

    /** `res.send(body)`, and `res.send()` with `NoBody`. */
    method Send(b: Body)
      modifies this`body, this`sends
      ensures body == b && sends == old(sends) + 1
    {
      body := b;
      sends := sends + 1;
    }

    /** `res.json(patches)`. */
    method SendJson(patches: seq<Patch>)
      modifies this`body, this`sends
      ensures body == Json(patches) && sends == old(sends) + 1
    {
      Send(Json(patches));
    }
  }

  /** The `next` callback of a middleware, counting its invocations. */
  class Next {
    var calls: nat

    constructor ()
      ensures calls == 0
    {
      calls := 0;
    }

    method Call()
      modifies this
      ensures calls == old(calls) + 1
    {
      calls := calls + 1;
    }
  }

}
