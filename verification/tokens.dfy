/** Signed tokens as the `jsonwebtoken` library issues and checks them, the
    configuration the handlers read them with, and the two ways the handlers
    extract a token from an `Authorization` header. Signing and parsing are
    library code and enter as an opaque codec. */
module Tokens {
  import opened Common

  const Hour: nat := 3600
  const Day: nat := 86400

  /** The payload fields the handlers put into tokens. `kind` is the
      `type` field of the JavaScript refresh token. */
  datatype Claims = Claims(userId: nat, email: Option<string>, role: Option<string>, kind: Option<string>)

  /** A signed token: payload, the secret that signed it, and its issue and
      expiry times in seconds. */
  datatype Jwt = Jwt(claims: Claims, secret: string, issuedAt: nat, expiresAt: nat)

  /** The compact string form of signed tokens and its parser. */
  datatype Codec = Codec(encode: Jwt -> string, decode: string -> Option<Jwt>)

  /** Parsing a string produced by `encode` gives the token back. */
  ghost predicate Faithful(c: Codec) {
    forall j :: c.decode(c.encode(j)) == Some(j)
  }

  /** `jwt.sign(claims, secret, { expiresIn: ttl })` at clock `now`. */
  function Sign(c: Codec, claims: Claims, secret: string, now: nat, ttl: nat): string {
    c.encode(Jwt(claims, secret, now, now + ttl))
  }

  /** What `jwt.verify` does with a token: return the payload, or throw one
      of its errors (all of which are `JsonWebTokenError`s). */
  datatype Verdict = Valid(claims: Claims) | Expired | BadSignature | Malformed

  /** `jwt.verify(token, secret)` at clock `now`: the signature is checked
      before the expiry, and a token is expired once `now` reaches `exp`. */
  function Verify(c: Codec, token: string, secret: string, now: nat): Verdict {
    match c.decode(token)
    case None => Malformed
    case Some(j) =>
      if j.secret != secret then BadSignature
      else if now >= j.expiresAt then Expired
      else Valid(j.claims)
  }

  /** A token issued with lifetime `ttl` is accepted, with its payload, at
      every instant before `now + ttl`, and rejected as expired from then on. */
  lemma SignedTokenLifetime(c: Codec, claims: Claims, secret: string, now: nat, ttl: nat, at: nat)
    requires Faithful(c)
    ensures at < now + ttl ==> Verify(c, Sign(c, claims, secret, now, ttl), secret, at) == Valid(claims)
    ensures at >= now + ttl ==> Verify(c, Sign(c, claims, secret, now, ttl), secret, at) == Expired
  {
    assert c.decode(c.encode(Jwt(claims, secret, now, now + ttl))) == Some(Jwt(claims, secret, now, now + ttl));
  }

  /** A token is never accepted under a secret other than the one that
      signed it. */
  lemma OtherSecretRejected(c: Codec, claims: Claims, secret: string, other: string, now: nat, ttl: nat, at: nat)
    requires Faithful(c) && other != secret
    ensures Verify(c, Sign(c, claims, secret, now, ttl), other, at) == BadSignature
  {
    assert c.decode(c.encode(Jwt(claims, secret, now, now + ttl))) == Some(Jwt(claims, secret, now, now + ttl));
  }

  /** A verified token was signed with the verifying secret and is unexpired. */
  lemma VerifiedMeansSignedAndLive(c: Codec, token: string, secret: string, now: nat)
    requires Verify(c, token, secret, now).Valid?
    ensures exists j :: c.decode(token) == Some(j) && j.secret == secret && now < j.expiresAt
                        && j.claims == Verify(c, token, secret, now).claims
  {
    var j := c.decode(token).value;
    assert c.decode(token) == Some(j);
  }

  // ---------------------------------------------------------------------
  // Configuration
  // ---------------------------------------------------------------------

  /** The environment variables the handlers read: `JWT_SECRET`,
      `JWT_REFRESH_SECRET`, `JWT_EXPIRES_IN`, `JWT_REFRESH_EXPIRES_IN`
      (the lifetimes already converted to seconds; `None` when unset or
      empty). */
  datatype Env = Env(jwtSecret: Option<string>, refreshSecret: Option<string>,
                     accessTtl: Option<nat>, refreshTtl: Option<nat>)

  const JsSecretFallback := "your-secret-key-change-in-production"
  const TsSecretFallback := "fallback-secret"
  const TsRefreshSecretFallback := "fallback-refresh-secret"

  /** Lifetimes fixed by the file-database login handler. */
  const JsAccessTtl: nat := 1 * Hour
  const JsRefreshTtl: nat := 7 * Day

  /** Default lifetimes of the PostgreSQL handlers. */
  const TsAccessTtlDefault: nat := 7 * Day
  const TsRefreshTtlDefault: nat := 30 * Day

  /** The signing secret of the file-database handlers. */
  function JsSecret(env: Env): string {
    OrElse(env.jwtSecret, JsSecretFallback)
  }

  /** The access-token secret of the PostgreSQL handlers. */
  function TsSecret(env: Env): string {
    OrElse(env.jwtSecret, TsSecretFallback)
  }

  /** The refresh-token secret of the PostgreSQL handlers. */
  function TsRefreshSecret(env: Env): string {
    OrElse(env.refreshSecret, TsRefreshSecretFallback)
  }

  function TsAccessTtl(env: Env): nat {
    if env.accessTtl.Some? then env.accessTtl.value else TsAccessTtlDefault
  }

  function TsRefreshTtl(env: Env): nat {
    if env.refreshTtl.Some? then env.refreshTtl.value else TsRefreshTtlDefault
  }

  /** The two handler families sign with the same secret exactly when
      `JWT_SECRET` is set; with it unset their fallbacks differ, and with
      both secrets unset access and refresh secrets differ as well. */
  lemma SecretsAgreeIffConfigured(env: Env)
    ensures JsSecret(env) == TsSecret(env) <==> Truthy(env.jwtSecret)
    ensures !Truthy(env.jwtSecret) && !Truthy(env.refreshSecret) ==> TsSecret(env) != TsRefreshSecret(env)
  {
    assert JsSecretFallback[0] != TsSecretFallback[0];
    assert |TsSecretFallback| != |TsRefreshSecretFallback|;
  }

  // ---------------------------------------------------------------------
  // Authorization header
  // ---------------------------------------------------------------------

  const BearerPrefix := "Bearer "

  /** The file-database rule: the header must start with `Bearer `, and the
      token is what follows its first seven characters. */
  function StrictBearer(header: Option<string>): (r: Option<string>)
    ensures r.Some? <==> header.Some? && BearerPrefix <= header.value
    ensures r.Some? ==> header.value == BearerPrefix + r.value
  {
    if header.Some? && BearerPrefix <= header.value then Some(header.value[|BearerPrefix|..]) else None
  }

  /** First position at or after `from` where `pat` occurs in `s`. */
  function FindFrom(s: string, pat: string, from: nat): (r: Option<nat>)
    requires from <= |s|
    ensures r.Some? ==> from <= r.value <= |s| && pat <= s[r.value..]
    ensures r.Some? ==> forall k | from <= k < r.value :: !(pat <= s[k..])
    ensures r.None? ==> forall k | from <= k <= |s| :: !(pat <= s[k..])
    decreases |s| - from
  {
    if pat <= s[from..] then Some(from)
    else if from == |s| then None
    else FindFrom(s, pat, from + 1)
  }

  /** `s.replace(pat, "")` with a string pattern: deletes the first
      occurrence, if any. */
  function RemoveFirst(s: string, pat: string): (r: string)
    ensures FindFrom(s, pat, 0).None? ==> r == s
    ensures FindFrom(s, pat, 0).Some? ==>
      var i := FindFrom(s, pat, 0).value;
      |r| + |pat| == |s| && r == s[..i] + s[i + |pat|..]
  {
    match FindFrom(s, pat, 0)
    case None => s
    case Some(i) => s[..i] + s[i + |pat|..]
  }

  /** The PostgreSQL rule: `header?.replace('Bearer ', '')`, so `None` for
      a missing header and otherwise the header with its first `Bearer `
      deleted, wherever it stands. */
  function LenientBearer(header: Option<string>): Option<string> {
    if header.Some? then Some(RemoveFirst(header.value, BearerPrefix)) else None
  }

  /** On a header of the form `Bearer <t>` both rules yield `t`; a header
      without `Bearer ` is passed on verbatim by the lenient rule and refused
      by the strict one; the bare header `Bearer ` leaves the empty token. */
  lemma BearerRulesCompared(header: string)
    ensures StrictBearer(Some(header)).Some? ==> LenientBearer(Some(header)) == StrictBearer(Some(header))
    ensures FindFrom(header, BearerPrefix, 0).None? ==>
              LenientBearer(Some(header)) == Some(header) && StrictBearer(Some(header)).None?
    ensures header == BearerPrefix ==> LenientBearer(Some(header)) == Some("")
  {
    if BearerPrefix <= header {
      assert header[0..] == header;
      assert FindFrom(header, BearerPrefix, 0) == Some(0);
    }
    if FindFrom(header, BearerPrefix, 0).None? {
      assert header[0..] == header;
    }
  }
}
