/**
 * The parts of an incoming HTTP request and of the replies that the
 * file-manager handlers look at or produce.
 */
module Http {

  /** One request argument (query or form parameter). */
  datatype Param = Param(name: string, value: string)

  /** A request, reduced to its arguments in the order the server parsed them. */
  datatype Request = Request(params: seq<Param>)

  /** `request->args()`. */
  function ArgCount(req: Request): nat {
    |req.params|
  }

  /** `request->hasArg(name)`: some argument is called `name`. */
  predicate HasArg(req: Request, name: string) {
    exists p :: p in req.params && p.name == name
  }

  /**
   * `request->arg(i)`. The handlers only call it after checking that
   * `args()` is not zero, so the value given here for an index out of
   * range is never used.
   */
  function ArgAt(req: Request, i: nat): string {
    if i < |req.params| then req.params[i].value else ""
  }

  /** What a response carries: a literal text, or the contents of a stored file. */
  datatype Content = Text(text: string) | FileData(path: string, data: seq<bv8>)

  /** A response handed to `request->send`; `gzip` is the `Content-Encoding: gzip` header. */
  datatype Response = Response(code: nat, contentType: string, content: Content, gzip: bool)

  /** A `text/plain` reply built with `beginResponse_P(code, "text/plain", text)`. */
  function PlainReply(code: nat, text: string): Response {
    Response(code, "text/plain", Text(text), false)
  }
}
