/** Session tokens: the payload `generateToken` signs and a symbolic model of
    JSON Web Token signing and verification (RFC 7519). A signed token
    records its claims and the key that signed it; verification accepts it
    only under the same key and before its `exp` claim (section 4.1.4 of
    RFC 7519). Times are in whole seconds. */
module Tokens {
  import opened Common
  import opened Users
  import opened Bcrypt

  /** `expiresIn: '30d'`. */
  const ExpiresInSeconds: nat := 30 * 24 * 60 * 60

  /** The `user` claim: exactly `id`, `name`, `email` and `avatar`. */
  datatype TokenUser = TokenUser(id: Id, name: string, email: string, avatar: string)

  /** The payload with the registered claims the signer adds: `iat` (issued
      at) and `exp` (expiration time). */
  datatype Claims = Claims(user: TokenUser, iat: nat, exp: nat)

  /** A compact token string: either one produced by `Sign`, or any other
      text (a forged, truncated or garbage string). */
  datatype Token = Signed(claims: Claims, key: string) | Malformed(text: string)

  /** `jwt.sign(payload, secret, { expiresIn: '30d' })` at time `now`. */
  function Sign(user: TokenUser, secret: string, now: nat): (t: Token)
    ensures t.Signed? && t.claims.user == user
    ensures t.claims.exp - t.claims.iat == ExpiresInSeconds
  {
    Signed(Claims(user, now, now + ExpiresInSeconds), secret)
  }

  /** `jwt.verify(token, secret)` at time `now`: the decoded payload, or
      `None` for a bad signature, a malformed token or an expired one
      (`now >= exp`). */
  function Verify(t: Token, secret: string, now: nat): (r: Option<Claims>)
    ensures r.Some? <==> t.Signed? && t.key == secret && now < t.claims.exp
    ensures r.Some? ==> r.value == t.claims
  {
    match t
    case Signed(claims, key) => if key == secret && now < claims.exp then Some(claims) else None
    case Malformed(_) => None
  }

  /** `generateToken(user)`: the signed payload is the user's `_id`, name,
      email and avatar, and nothing else. */
  function GenerateToken(u: User, secret: string, now: nat): (t: Token)
    ensures t.Signed? && t.claims.user.id == u.id
    ensures t.claims.user == TokenUser(u.id, u.name, u.email, u.avatar)
    ensures t.claims.exp == now + ExpiresInSeconds
  {
    Sign(TokenUser(u.id, u.name, u.email, u.avatar), secret, now)
  }

  /** Verification inverts signing: within thirty days of issue, under the
      signing key, the decoded payload is exactly the signed one; from the
      thirtieth day on it is rejected. */
  lemma VerifySign(user: TokenUser, secret: string, issued: nat, now: nat)
    ensures now < issued + ExpiresInSeconds ==>
      Verify(Sign(user, secret, issued), secret, now) == Some(Claims(user, issued, issued + ExpiresInSeconds))
    ensures now >= issued + ExpiresInSeconds ==> Verify(Sign(user, secret, issued), secret, now) == None
  {
  }

  /** A token signed under another key never verifies. */
  lemma ForeignKeyRejected(user: TokenUser, key: string, secret: string, issued: nat, now: nat)
    requires key != secret
    ensures Verify(Sign(user, key, issued), secret, now) == None
  {
  }

  /** The token does not depend on the password: two users that differ only
      in their stored digest get the same token. */
  lemma TokenIgnoresPassword(u: User, other: Digest, secret: string, now: nat)
    ensures GenerateToken(u.(password := other), secret, now) == GenerateToken(u, secret, now)
  {
  }
}
