/** JSON Web Tokens as claim records. Encoding and the HMAC-SHA256
    computation are abstracted: a signature records the key it was made with
    and the header and claims it covers, so a signature checks under a key
    exactly when it was made with that key over those very claims. */
module Jwt {
  import opened Common

  /** The registered and private claims the service reads or writes.
      `audience` is a list, as `Payload.getAudience()` returns it. */
  datatype Claims = Claims(
    issuer: Option<string>,
    audience: seq<string>,
    subject: string,
    custom: map<string, string>)

  /** HMAC-SHA256 under `key` over the header algorithm and the claims. */
  datatype Signature = Hmac256(key: string, alg: string, over: Claims)

  datatype Token = Token(alg: string, claims: Claims, signature: Signature)

  const HS256 := "HS256"

  /** `JWT.create()...sign(Algorithm.HMAC256(key))`. */
  function Sign(claims: Claims, key: string): (t: Token)
    ensures t.claims == claims && SignedWith(t, key)
  {
    Token(HS256, claims, Hmac256(key, HS256, claims))
  }

  /** The algorithm check and signature check of `JWTVerifier` for an
      `Algorithm.HMAC256(key)` verifier. */
  predicate SignedWith(t: Token, key: string)
  {
    t.alg == HS256 && t.signature == Hmac256(key, t.alg, t.claims)
  }

  /** Changing a signed token's claims without re-signing breaks it. This
      holds under the signature-as-record abstraction alone, since a
      signature records the claims it covers. */
  lemma TamperedClaimsRejected(t: Token, key: string, forged: Claims)
    requires SignedWith(t, key) && forged != t.claims
    ensures !SignedWith(t.(claims := forged), key)
  {
  }
}
