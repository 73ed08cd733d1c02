/** The first steps shared by the PostgreSQL handlers that need a signed-in
    caller (app/api/auth/me/route.ts and both CMS routes): take the token
    from the `Authorization` header and verify it with the access secret. */
module TsAuth {
  import opened Common
  import opened Tokens

  const MsgNoToken := "No token provided"
  const MsgBadToken := "Invalid token"

  /** `headers.get('authorization')?.replace('Bearer ', '')`, kept only when
      truthy. */
  function HeaderToken(header: Option<string>): (r: Option<string>)
    ensures r.Some? <==> header.Some? && RemoveFirst(header.value, BearerPrefix) != ""
    ensures r.Some? ==> r == LenientBearer(header)
  {
    var t := LenientBearer(header);
    if t.Some? && t.value != "" then t else None
  }

  /** Token extraction and `jwt.verify(token, JWT_SECRET || 'fallback-secret')`.
      Every error that function throws is a `JsonWebTokenError`, so every
      refusal here is 401. */
  function Authenticate(header: Option<string>, env: Env, codec: Codec, now: nat): (r: Reply<Claims>)
    ensures r.Refused? ==> r.code == 401
    ensures r == Refused(401, MsgNoToken) <==> HeaderToken(header).None?
    ensures r.Done? <==> HeaderToken(header).Some? && Verify(codec, HeaderToken(header).value, TsSecret(env), now).Valid?
    ensures r.Done? ==> r.body == Verify(codec, HeaderToken(header).value, TsSecret(env), now).claims
  {
    match HeaderToken(header)
    case None => Refused(401, MsgNoToken)
    case Some(token) =>
      match Verify(codec, token, TsSecret(env), now)
      case Valid(claims) => Done(200, claims)
      case _ => Refused(401, MsgBadToken)
  }

  /** A missing header, an empty one and the bare `Bearer ` all count as
      "no token". */
  lemma EmptyHeadersCarryNoToken()
    ensures HeaderToken(None).None?
    ensures HeaderToken(Some("")).None?
    ensures HeaderToken(Some(BearerPrefix)).None?
  {
    BearerRulesCompared(BearerPrefix);
    assert FindFrom("", BearerPrefix, 0).None?;
  }

  /** A header without `Bearer ` is itself taken as the token. */
  lemma HeaderWithoutBearerIsTheToken(header: string)
    requires header != "" && FindFrom(header, BearerPrefix, 0).None?
    ensures HeaderToken(Some(header)) == Some(header)
  {
    BearerRulesCompared(header);
  }

  /** An access token the handlers issued authenticates its holder, with
      its claims, for its whole lifetime and not a second longer. */
  lemma IssuedTokenAuthenticates(codec: Codec, claims: Claims, env: Env, now: nat, ttl: nat, at: nat)
    requires Faithful(codec)
    requires Sign(codec, claims, TsSecret(env), now, ttl) != ""
    ensures var header := Some(BearerPrefix + Sign(codec, claims, TsSecret(env), now, ttl));
            && (at < now + ttl ==> Authenticate(header, env, codec, at) == Done(200, claims))
            && (at >= now + ttl ==> Authenticate(header, env, codec, at) == Refused(401, MsgBadToken))
  {
    var token := Sign(codec, claims, TsSecret(env), now, ttl);
    BearerRulesCompared(BearerPrefix + token);
    assert (BearerPrefix + token)[|BearerPrefix|..] == token;
    SignedTokenLifetime(codec, claims, TsSecret(env), now, ttl, at);
  }
}
