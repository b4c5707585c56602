/** The bearer-token gate in front of the product routes: the JWT verifier
    the service installs and its `validate` step. */
module Security {
  import opened Common
  import opened Jwt
  import UserSchema

  /** The `postgres.audience`, `postgres.domain` and `postgres.realm`
      configuration properties. */
  datatype JwtConfig = JwtConfig(audience: string, domain: string, realm: string)

  /** The verifier's key: a literal of its own, separate from the one the
      token issuer uses. */
  const JwtSecret := "secret"

  datatype UserIdPrincipal = UserIdPrincipal(name: string)

  /** `JWT.require(HMAC256(secret)).withAudience(audience).withIssuer(domain)`:
      the token is signed with the secret, its issuer is the configured
      domain and its audience list holds the configured audience. */
  predicate VerifierAccepts(cfg: JwtConfig, t: Token)
  {
    && SignedWith(t, JwtSecret)
    && t.claims.issuer == Some(cfg.domain)
    && cfg.audience in t.claims.audience
  }

  /** `validate`: a principal named by the subject when the audience list
      holds the configured audience, `null` otherwise. */
  function Validate(cfg: JwtConfig, t: Token): (r: Option<UserIdPrincipal>)
    ensures r.Some? <==> cfg.audience in t.claims.audience
    ensures r.Some? ==> r.value.name == t.claims.subject
  {
    if cfg.audience in t.claims.audience then Some(UserIdPrincipal(t.claims.subject)) else None
  }

  /** The whole gate: no bearer token, a token the verifier refuses, or a
      `null` from `validate` all give no principal. */
  function Authenticate(cfg: JwtConfig, bearer: Option<Token>): (r: Option<UserIdPrincipal>)
    ensures r.Some? <==> bearer.Some? && VerifierAccepts(cfg, bearer.value)
    ensures r.Some? ==> r.value == UserIdPrincipal(bearer.value.claims.subject)
  {
    match bearer
    case None => None
    case Some(t) => if VerifierAccepts(cfg, t) then Validate(cfg, t) else None
  }

  /** A token is accepted only if its issuer is the configured domain. */
  lemma AcceptedIssuer(cfg: JwtConfig, t: Token)
    requires Authenticate(cfg, Some(t)).Some?
    ensures t.claims.issuer == Some(cfg.domain)
  {
  }

  /** A token whose signature does not check under the secret, or whose
      issuer or audience is not the configured one, is refused. */
  lemma RejectedTokens(cfg: JwtConfig, t: Token)
    requires !SignedWith(t, JwtSecret) || t.claims.issuer != Some(cfg.domain) || cfg.audience !in t.claims.audience
    ensures Authenticate(cfg, Some(t)) == None
  {
  }

  /** With the audience and domain configured to the values the issuer
      writes, a token minted for a user is accepted as that user's email. */
  lemma IssueVerifyRoundTrip(cfg: JwtConfig, user: UserSchema.ExposedUser)
    requires cfg.audience == UserSchema.JwtAudience && cfg.domain == UserSchema.JwtDomain
    ensures Authenticate(cfg, Some(UserSchema.CreateJWT(user))) == Some(UserIdPrincipal(user.email))
  {
  }

  /** With any other domain configured, no minted token is accepted. */
  lemma MintedTokensNeedMatchingDomain(cfg: JwtConfig, user: UserSchema.ExposedUser)
    requires cfg.domain != UserSchema.JwtDomain
    ensures Authenticate(cfg, Some(UserSchema.CreateJWT(user))) == None
  {
  }
}
