/** Request verification: `verifyHeader`, `verifyUrlQueryParams` and the
    fallback between them in `verifyRequest`. The asynchronous steps run one
    after the other, so each is a pure function from the fields it may write
    (`req.user`, `res.statusCode`) to their new values and the error it
    throws, if any. The signature check of `jsonwebtoken` is a parameter. */
module Pipeline {
  import opened Wrappers
  import opened Interceptor
  import opened Locators

  /** The parts of an incoming request the interceptor reads. */
  datatype Request = Request(url: string, headers: map<string, string>)

  /** The fields the interceptor writes: `req.user` and `res.statusCode`. */
  datatype Exchange<P> = Exchange(user: Option<P>, statusCode: int)

  /** The exchange after a step, and the error the step throws (`None`
      when it resolves). */
  datatype Step<P> = Step(exchange: Exchange<P>, thrown: Option<Error>)

  /** `jwt.verify(token, secret, config)`: the decoded payload, or the
      library's error. */
  type JwtVerify<P> = (string, string, Config) -> Result<P, string>

  const Unauthorized: int := 401

  /** A call the verification callback makes on its promise; `None` in a
      `Resolve` is JavaScript's `undefined`. */
  datatype Settlement<P> = Resolve(value: Option<P>) | Reject(reason: string)

  /** The calls the callback makes, in order, for the library's answer: on
      an error it rejects and then falls through to resolve with the
      (undefined) decoded value; otherwise it resolves with the payload. */
  function CallbackCalls<P>(answer: Result<P, string>): seq<Settlement<P>>
  {
    match answer
    case Failure(err) => [Reject(err), Resolve(None)]
    case Success(decoded) => [Resolve(Some(decoded))]
  }

  /** A promise settles on the first call it receives and ignores the rest. */
  function SettledBy<P>(calls: seq<Settlement<P>>): Option<Settlement<P>>
  {
    if |calls| == 0 then None else Some(calls[0])
  }

  /** `verify(token)`: the promise wrapping the library's callback, read
      back as its settled outcome. The rejection comes first, so the
      fall-through resolve is ignored and the promise reports exactly what
      the library answered for the interceptor's own secret and policy. */
  function Verify<P>(ic: JwtHttpInterceptor, jwtVerify: JwtVerify<P>, token: string): (r: Result<P, string>)
    ensures r == jwtVerify(token, ic.secret, ic.config)
  {
    match SettledBy(CallbackCalls(jwtVerify(token, ic.secret, ic.config)))
    case Some(Reject(err)) => Failure(err)
    case Some(Resolve(Some(payload))) => Success(payload)
    case _ => assert false; Failure("")
  }

  /** The payload a locator's result leads to: the located token's decoded
      payload when verification accepts it, else nothing. */
  function Accepted<P>(ic: JwtHttpInterceptor, jwtVerify: JwtVerify<P>, located: Result<string, Error>): Option<P>
  {
    match located
    case Failure(_) => None
    case Success(token) =>
      match Verify(ic, jwtVerify, token)
      case Failure(_) => None
      case Success(payload) => Some(payload)
  }

  /** The body shared by `verifyHeader` and `verifyUrlQueryParams`: a
      locator failure sets 401 and throws "token is required"; a
      verification failure sets 401 and throws "token is invalid"; an
      accepted token stores its payload as the user and leaves the status. */
  function Authenticate<P>(ic: JwtHttpInterceptor, jwtVerify: JwtVerify<P>, located: Result<string, Error>, ex: Exchange<P>): (r: Step<P>)
    ensures r.thrown.None? <==> Accepted(ic, jwtVerify, located).Some?
    ensures r.thrown.None? ==> r.exchange == ex.(user := Accepted(ic, jwtVerify, located))
    ensures r.thrown.Some? ==> r.exchange == ex.(statusCode := Unauthorized)
    ensures r.thrown == Some(TokenRequired) <==> located.Failure?
    ensures r.thrown.Some? ==> r.thrown.value in {TokenRequired, TokenInvalid}
  {
    match located
    case Failure(_) => Step(ex.(statusCode := Unauthorized), Some(TokenRequired))
    case Success(token) =>
      match Verify(ic, jwtVerify, token)
      case Failure(_) => Step(ex.(statusCode := Unauthorized), Some(TokenInvalid))
      case Success(payload) => Step(ex.(user := Some(payload)), None)
  }

  /** `verifyHeader`. */
  function VerifyHeader<P>(ic: JwtHttpInterceptor, jwtVerify: JwtVerify<P>, req: Request, ex: Exchange<P>): (r: Step<P>)
    ensures r.thrown.None? <==> Accepted(ic, jwtVerify, TokenByHeader(req.headers)).Some?
    ensures r.thrown == Some(TokenRequired) <==> TokenByHeader(req.headers).Failure?
    ensures r.thrown == Some(TokenInvalid) <==>
      TokenByHeader(req.headers).Success? && Verify(ic, jwtVerify, TokenByHeader(req.headers).value).Failure?
    ensures r.thrown.None? ==>
      (&& r.exchange.statusCode == ex.statusCode
       && r.exchange.user.Some?
       && TokenByHeader(req.headers).Success?
       && Verify(ic, jwtVerify, TokenByHeader(req.headers).value) == Success(r.exchange.user.value))
    ensures r.thrown.Some? ==> r.exchange == ex.(statusCode := Unauthorized)
  {
    Authenticate(ic, jwtVerify, TokenByHeader(req.headers), ex)
  }

  /** `verifyUrlQueryParams`. */
  function VerifyUrlQueryParams<P>(ic: JwtHttpInterceptor, jwtVerify: JwtVerify<P>, req: Request, ex: Exchange<P>): (r: Step<P>)
    ensures r.thrown.None? <==> Accepted(ic, jwtVerify, TokenByQuery(req.url)).Some?
    ensures r.thrown == Some(TokenRequired) <==> TokenByQuery(req.url).Failure?
    ensures r.thrown == Some(TokenInvalid) <==>
      TokenByQuery(req.url).Success? && Verify(ic, jwtVerify, TokenByQuery(req.url).value).Failure?
    ensures r.thrown.None? ==>
      (&& r.exchange.statusCode == ex.statusCode
       && r.exchange.user.Some?
       && TokenByQuery(req.url).Success?
       && Verify(ic, jwtVerify, TokenByQuery(req.url).value) == Success(r.exchange.user.value))
    ensures r.thrown.Some? ==> r.exchange == ex.(statusCode := Unauthorized)
  {
    Authenticate(ic, jwtVerify, TokenByQuery(req.url), ex)
  }

  /** `verifyRequest`: the header flow first; on any failure of it the
      query flow, run on the exchange the header flow left behind; when
      both fail, status 401 and "token is invalid". */
  function VerifyRequest<P>(ic: JwtHttpInterceptor, jwtVerify: JwtVerify<P>, req: Request, ex: Exchange<P>): (r: Step<P>)
    ensures var byHeader := Accepted(ic, jwtVerify, TokenByHeader(req.headers));
      byHeader.Some? ==> r == Step(ex.(user := byHeader), None)
    ensures var byHeader := Accepted(ic, jwtVerify, TokenByHeader(req.headers));
      var byQuery := Accepted(ic, jwtVerify, TokenByQuery(req.url));
      byHeader.None? && byQuery.Some? ==> r == Step(Exchange(byQuery, Unauthorized), None)
    ensures var byHeader := Accepted(ic, jwtVerify, TokenByHeader(req.headers));
      var byQuery := Accepted(ic, jwtVerify, TokenByQuery(req.url));
      byHeader.None? && byQuery.None? ==> r == Step(ex.(statusCode := Unauthorized), Some(TokenInvalid))
  {
    var header := VerifyHeader(ic, jwtVerify, req, ex);
    if header.thrown.None? then
      header
    else
      var query := VerifyUrlQueryParams(ic, jwtVerify, req, header.exchange);
      if query.thrown.None? then
        query
      else
        Step(query.exchange.(statusCode := Unauthorized), Some(TokenInvalid))
  }

  /** `payload` is what verification returned for the header token or for
      the query token of `req`. */
  predicate AcceptedFromRequest<P(==)>(ic: JwtHttpInterceptor, jwtVerify: JwtVerify<P>, req: Request, payload: P)
  {
    || (TokenByHeader(req.headers).Success? && Verify(ic, jwtVerify, TokenByHeader(req.headers).value) == Success(payload))
    || (TokenByQuery(req.url).Success? && Verify(ic, jwtVerify, TokenByQuery(req.url).value) == Success(payload))
  }

  /** Whatever the outcome, the user is either untouched or a payload that
      verification accepted for the header token or the query token; any
      status change is to 401, and the only error that escapes is
      "token is invalid". */
  lemma VerifyRequestEffects<P>(ic: JwtHttpInterceptor, jwtVerify: JwtVerify<P>, req: Request, ex: Exchange<P>)
    ensures var r := VerifyRequest(ic, jwtVerify, req, ex);
      r.exchange.user == ex.user ||
      (r.exchange.user.Some? && AcceptedFromRequest(ic, jwtVerify, req, r.exchange.user.value))
    ensures var r := VerifyRequest(ic, jwtVerify, req, ex);
      r.exchange.statusCode == ex.statusCode || r.exchange.statusCode == Unauthorized
    ensures var r := VerifyRequest(ic, jwtVerify, req, ex);
      r.thrown.None? || r.thrown == Some(TokenInvalid)
    ensures var r := VerifyRequest(ic, jwtVerify, req, ex);
      r.thrown.Some? ==> r.exchange.user == ex.user && r.exchange.statusCode == Unauthorized
  {
  }

  /** When the header token is accepted, the URL is never consulted: any
      two requests with the same headers verify alike. */
  lemma HeaderTakesPrecedence<P>(ic: JwtHttpInterceptor, jwtVerify: JwtVerify<P>, req1: Request, req2: Request, ex: Exchange<P>)
    requires req1.headers == req2.headers
    requires Accepted(ic, jwtVerify, TokenByHeader(req1.headers)).Some?
    ensures VerifyRequest(ic, jwtVerify, req1, ex) == VerifyRequest(ic, jwtVerify, req2, ex)
    ensures VerifyRequest(ic, jwtVerify, req1, ex).exchange.statusCode == ex.statusCode
  {
  }

  /** The query flow is reached only after the header flow has written 401,
      so a request authenticated by its URL ends with a user AND status 401. */
  lemma QueryFallbackKeeps401<P>(ic: JwtHttpInterceptor, jwtVerify: JwtVerify<P>, req: Request, ex: Exchange<P>)
    requires AuthorizationKey !in req.headers
    requires Accepted(ic, jwtVerify, TokenByQuery(req.url)).Some?
    ensures var r := VerifyRequest(ic, jwtVerify, req, ex);
      r.thrown.None? && r.exchange.user.Some? && r.exchange.statusCode == Unauthorized
  {
  }
}
