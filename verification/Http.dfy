/** What the browser side sees of an answer from the Go boundary. */
module Http {
  import opened Wrappers

  /** A body after JSON parsing; `NoJson` covers empty, malformed and unreadable bodies.
      `signedOut` says that the member `authenticated` is the literal false. */
  datatype Body =
    | NoJson
    | Json(signedOut: bool, reason: Option<string>, error: Option<string>, correlationId: Option<string>)

  datatype Response = Response(
    status: nat, body: Body, requestId: Option<string>, retryAfter: Option<string>)
  {
    predicate Ok() {
      200 <= status < 300
    }

    predicate SignedOut() {
      status == 200 && body.Json? && body.signedOut
    }

    /** The body as one read of it delivers it: a read that fails delivers no JSON. */
    function Read(readable: bool): Body {
      if readable then body else NoJson
    }

    /** 5xx or 429: the identity provider could not judge. */
    predicate Outage() {
      status >= 500 || status == 429
    }
  }
}
