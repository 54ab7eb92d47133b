/** `getJwtHttpInterceptor`: the factory that falls back to the process
    environment for the policy. The environment is an explicit map, and
    JavaScript's `Number(...)` is a parameter whose `None` stands for `NaN`. */
module Environment {
  import opened Wrappers
  import opened Interceptor

  const ExpiresInVariable: string := "TOKENEXPIRESINSECONDS"
  const IssuerVariable: string := "ISSUER"
  const AudienceVariable: string := "AUDIENCE"

  /** `process.env[name]` is truthy: present and non-empty. */
  predicate IsSet(env: map<string, string>, name: string)
  {
    name in env && env[name] != ""
  }

  /** The config handed to the constructor: an explicit config as given;
      otherwise, when at least one variable is set, an object carrying
      exactly the set variables; otherwise none. */
  function ResolveConfig(config: Option<ConfigInput>, env: map<string, string>, parseNumber: string -> Option<int>): (r: Option<ConfigInput>)
    ensures config.Some? ==> r == config
    ensures config.None? ==>
      (r.Some? <==> IsSet(env, ExpiresInVariable) || IsSet(env, IssuerVariable) || IsSet(env, AudienceVariable))
    ensures config.None? && r.Some? ==>
      (&& (!IsSet(env, ExpiresInVariable) ==> r.value.expiresIn.None?)
       && (r.value.issuer.Some? <==> IsSet(env, IssuerVariable))
       && (r.value.audience.Some? <==> IsSet(env, AudienceVariable)))
    ensures config.None? && r.Some? ==>
      (&& (IsSet(env, ExpiresInVariable) ==> r.value.expiresIn == parseNumber(env[ExpiresInVariable]))
       && (IsSet(env, IssuerVariable) ==> r.value.issuer == Some(env[IssuerVariable]))
       && (IsSet(env, AudienceVariable) ==> r.value.audience == Some(env[AudienceVariable])))
  {
    if config.None? && (IsSet(env, ExpiresInVariable) || IsSet(env, IssuerVariable) || IsSet(env, AudienceVariable)) then
      var expiresIn := if IsSet(env, ExpiresInVariable) then parseNumber(env[ExpiresInVariable]) else None;
      var issuer := if IsSet(env, IssuerVariable) then Some(env[IssuerVariable]) else None;
      var audience := if IsSet(env, AudienceVariable) then Some(env[AudienceVariable]) else None;
      Some(ConfigInput(expiresIn, issuer, audience))
    else
      config
  }

  /** `getJwtHttpInterceptor(secret, config)`. */
  function GetJwtHttpInterceptor(secret: string, config: Option<ConfigInput>, env: map<string, string>, parseNumber: string -> Option<int>): (r: Result<JwtHttpInterceptor, Error>)
    ensures config.Some? ==> r == New(secret, config)
    ensures r.Failure? <==> secret == ""
  {
    New(secret, ResolveConfig(config, env, parseNumber))
  }

  /** With no explicit config, each policy field comes from its own variable
      when that variable is set (and, for the expiry, parses to a non-zero
      number), and is the default otherwise. Whether any variable was set at
      all makes no difference to the outcome. */
  lemma EnvironmentFields(secret: string, env: map<string, string>, parseNumber: string -> Option<int>)
    requires secret != ""
    ensures var r := GetJwtHttpInterceptor(secret, None, env, parseNumber);
      && r.Success?
      && r.value.secret == secret
      && r.value.config.expiresIn ==
        (if IsSet(env, ExpiresInVariable) && TruthyNumber(parseNumber(env[ExpiresInVariable]))
         then parseNumber(env[ExpiresInVariable]).value else DefaultExpiresIn)
      && r.value.config.issuer ==
        (if IsSet(env, IssuerVariable) then env[IssuerVariable] else DefaultIssuer)
      && r.value.config.audience ==
        (if IsSet(env, AudienceVariable) then env[AudienceVariable] else DefaultAudience)
  {
  }

  /** Only the three variables are read: environments that agree on them
      give the same interceptor. */
  lemma OnlyThreeVariables(secret: string, config: Option<ConfigInput>, env1: map<string, string>, env2: map<string, string>, parseNumber: string -> Option<int>)
    requires forall name :: name in {ExpiresInVariable, IssuerVariable, AudienceVariable} ==>
      (name in env1 <==> name in env2) && (name in env1 ==> env1[name] == env2[name])
    ensures GetJwtHttpInterceptor(secret, config, env1, parseNumber) == GetJwtHttpInterceptor(secret, config, env2, parseNumber)
  {
    assert IsSet(env1, ExpiresInVariable) == IsSet(env2, ExpiresInVariable);
    assert IsSet(env1, IssuerVariable) == IsSet(env2, IssuerVariable);
    assert IsSet(env1, AudienceVariable) == IsSet(env2, AudienceVariable);
  }
}
