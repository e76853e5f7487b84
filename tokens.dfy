/** HS256 JSON Web Tokens (RFC 7519) as both services use them through PyJWT:
    only the claims and the outcomes the handlers branch on are modelled, not
    the encoding or the signature. */
module Tokens {

  /** The shared `SECRET_KEY`, read from the environment by both services. */
  type Secret = string

  /** The compact serialisation returned by `jwt.encode`. */
  type Token = string

  /** A claim value as it travels in the JSON payload. */
  datatype ClaimValue = IntClaim(n: int) | StrClaim(s: string)

  /** A decoded payload: the JSON object of claims. */
  type Payload = map<string, ClaimValue>

  /** What `jwt.decode(token, SECRET_KEY, algorithms=['HS256'])` does: return
      the payload, raise `ExpiredSignatureError`, or raise another
      `InvalidTokenError` (bad structure, bad signature, bad claim type). */
  datatype Decoded = Ok(payload: Payload) | Expired | Invalid

  /** `jwt.encode` and `jwt.decode` as uninterpreted functions; decoding reads
      the clock, which is passed in as `now` (whole seconds since the epoch). */
  datatype TokenCodec = TokenCodec(
    encode: (Payload, Secret) -> Token,
    decode: (Token, Secret, int) -> Decoded)

  /** `timedelta(hours=24)`, in seconds. */
  const TokenLifetime: int := 24 * 60 * 60

  /** The payload `login` signs: the stored id, the email as supplied, and an
      `exp` one lifetime after the time of issue. */
  function IssuedClaims(userId: int, email: string, now: int): Payload {
    map["user_id" := IntClaim(userId), "email" := StrClaim(email), "exp" := IntClaim(now + TokenLifetime)]
  }

  /** PyJWT's expiry rule (`exp` claim, section 4.1.4 of RFC 7519, with no
      leeway): a token is expired once `exp <= now`. */
  function ExpiryCheck(p: Payload, exp: int, now: int): Decoded {
    if exp <= now then Expired else Ok(p)
  }

  /** What the model relies on from PyJWT, for one secret and algorithm:
      a token it produced is a non-empty string without spaces (base64url
      segments joined by dots); decoding it with the same secret gives back
      the payload it signed, or `Expired` once its integer `exp` has passed,
      provided the payload holds no claim beyond those login signs (PyJWT
      also validates `aud`, `nbf`, `iat` and `iss` when present); and the
      empty string never decodes. */
  ghost predicate WellBehaved(c: TokenCodec) {
    && (forall k: Secret, now: int :: c.decode([], k, now) == Invalid)
    && (forall p: Payload, k: Secret :: c.encode(p, k) != [] && ' ' !in c.encode(p, k))
    && (forall p: Payload, k: Secret, now: int ::
          "exp" in p && p["exp"].IntClaim? && p.Keys <= {"user_id", "email", "exp"} ==>
            c.decode(c.encode(p, k), k, now) == ExpiryCheck(p, p["exp"].n, now))
  }

  /** A token freshly issued by login decodes, with the secret that signed it,
      to exactly its claims until its `exp`, and as expired from then on. */
  lemma IssuedTokenDecodes(c: TokenCodec, k: Secret, userId: int, email: string, issuedAt: int, now: int)
    requires WellBehaved(c)
    ensures var d := c.decode(c.encode(IssuedClaims(userId, email, issuedAt), k), k, now);
            if now < issuedAt + TokenLifetime then d == Ok(IssuedClaims(userId, email, issuedAt))
            else d == Expired
  {
  }
}
