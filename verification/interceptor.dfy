/** The `JwtHttpInterceptor` object: its secret, its verification policy and
    the defaulting its constructor applies. JavaScript's falsy values are made
    explicit: a number is falsy when absent (`undefined`, or `NaN`, both
    written `None`) or zero; a string is falsy when absent or empty. */
module Interceptor {
  import opened Wrappers

  /** The errors the interceptor throws, one per distinct message. */
  datatype Error = SecretRequired | AuthorizationRequired | TokenRequired | TokenInvalid

  /** The text of each thrown `Error`. */
  function Message(e: Error): string
  {
    match e
    case SecretRequired => "JwtHttpInterceptor: secret is required"
    case AuthorizationRequired => "JwtHttpInterceptor: authorization is required"
    case TokenRequired => "JwtHttpInterceptor: token is required"
    case TokenInvalid => "JwtHttpInterceptor: token is invalid"
  }

  /** Every error carries its own message, so a caller can tell them apart
      by text alone. */
  lemma MessagesDistinct(e1: Error, e2: Error)
    ensures Message(e1) == Message(e2) <==> e1 == e2
  {
  }

  /** A policy as a caller may pass it: any field may be missing. */
  datatype ConfigInput = ConfigInput(expiresIn: Option<int>, issuer: Option<string>, audience: Option<string>)

  /** The policy an interceptor holds once every field has been filled. */
  datatype Config = Config(expiresIn: int, issuer: string, audience: string)

  datatype JwtHttpInterceptor = JwtHttpInterceptor(secret: string, config: Config)

  /** Seven days, in seconds. */
  const DefaultExpiresIn: int := 60 * 60 * 24 * 7
  const DefaultIssuer: string := "localhost"
  const DefaultAudience: string := "localhost"

  /** The empty object `{}` the constructor substitutes for a missing config. */
  const EmptyConfig := ConfigInput(None, None, None)

  predicate TruthyNumber(n: Option<int>)
  {
    n.Some? && n.value != 0
  }

  predicate TruthyString(s: Option<string>)
  {
    s.Some? && s.value != ""
  }

  /** No field of the policy is falsy. */
  predicate Complete(c: Config)
  {
    c.expiresIn != 0 && c.issuer != "" && c.audience != ""
  }

  /** The complete policy `c`, seen as a caller-supplied one. */
  function AsInput(c: Config): ConfigInput
  {
    ConfigInput(Some(c.expiresIn), Some(c.issuer), Some(c.audience))
  }

  /** `new JwtHttpInterceptor(secret, config)`: throws when the secret is
      empty; otherwise keeps the secret and fills each falsy policy field
      with its default, field by field, keeping every truthy one. */
  function New(secret: string, config: Option<ConfigInput>): (r: Result<JwtHttpInterceptor, Error>)
    ensures r.Failure? <==> secret == ""
    ensures r.Failure? ==> r.error == SecretRequired
    ensures r.Success? ==> r.value.secret == secret && Complete(r.value.config)
    ensures r.Success? ==> var c := config.GetOr(EmptyConfig);
      && (TruthyNumber(c.expiresIn) ==> r.value.config.expiresIn == c.expiresIn.value)
      && (!TruthyNumber(c.expiresIn) ==> r.value.config.expiresIn == DefaultExpiresIn)
      && (TruthyString(c.issuer) ==> r.value.config.issuer == c.issuer.value)
      && (!TruthyString(c.issuer) ==> r.value.config.issuer == DefaultIssuer)
      && (TruthyString(c.audience) ==> r.value.config.audience == c.audience.value)
      && (!TruthyString(c.audience) ==> r.value.config.audience == DefaultAudience)
  {
    if secret == "" then
      Failure(SecretRequired)
    else
      var c := config.GetOr(EmptyConfig);
      var expiresIn := if TruthyNumber(c.expiresIn) then c.expiresIn.value else DefaultExpiresIn;
      var issuer := if TruthyString(c.issuer) then c.issuer.value else DefaultIssuer;
      var audience := if TruthyString(c.audience) then c.audience.value else DefaultAudience;
      Success(JwtHttpInterceptor(secret, Config(expiresIn, issuer, audience)))
  }

  /** Passing no config and passing `{}` construct the same interceptor. */
  lemma MissingConfigIsEmpty(secret: string)
    ensures New(secret, None) == New(secret, Some(EmptyConfig))
    ensures secret != "" ==>
      New(secret, None) == Success(JwtHttpInterceptor(secret, Config(DefaultExpiresIn, DefaultIssuer, DefaultAudience)))
  {
  }

  /** Defaulting is idempotent: re-constructing from a constructed
      interceptor's own secret and policy gives the same interceptor. */
  lemma NewIdempotent(secret: string, config: Option<ConfigInput>)
    requires New(secret, config).Success?
    ensures var ic := New(secret, config).value;
      New(ic.secret, Some(AsInput(ic.config))) == Success(ic)
  {
  }

  /** Each policy field depends only on the same field of the input: two
      inputs that agree on a field produce policies that agree on it. */
  lemma FieldsIndependent(secret: string, a: ConfigInput, b: ConfigInput)
    requires secret != ""
    ensures a.expiresIn == b.expiresIn ==>
      New(secret, Some(a)).value.config.expiresIn == New(secret, Some(b)).value.config.expiresIn
    ensures a.issuer == b.issuer ==>
      New(secret, Some(a)).value.config.issuer == New(secret, Some(b)).value.config.issuer
    ensures a.audience == b.audience ==>
      New(secret, Some(a)).value.config.audience == New(secret, Some(b)).value.config.audience
  {
  }
}
