/** `GET /api/auth/me` over the file database (app/api/auth/me/route.js):
    a strict `Bearer ` header, the token verified with the file-database
    secret, and the caller's profile read by id, whatever their status. */
module MeJs {
  import opened Common
  import opened Tokens
  import LiteDb
  import LoginJs

  const MsgBadHeader := "Token không hợp lệ"
  const MsgBadToken := "Token đã hết hạn hoặc không hợp lệ"
  const MsgNoUser := "User không tồn tại"

  /** `SELECT id, email, name, avatar, created_at FROM users`: no status and
      no password. */
  function Profile(u: LiteDb.User): (r: Row)
    ensures r.Keys == {"id", "email", "name", "avatar", "created_at"}
    ensures r["id"] == Int(u.id) && r["email"] == Str(u.email)
  {
    map["id" := Int(u.id), "email" := Str(u.email), "name" := Str(u.name),
        "avatar" := Str(u.avatar), "created_at" := Int(u.createdAt)]
  }

  /** The handler; `header` is the `Authorization` header, if sent. */
  function Me(db: LiteDb.Db, header: Option<string>, env: Env, codec: Codec, now: nat): (r: Reply<Row>)
    ensures r == Refused(401, MsgBadHeader) <==> StrictBearer(header).None?
    ensures r == Refused(401, MsgBadToken) <==>
              StrictBearer(header).Some? && !Verify(codec, StrictBearer(header).value, JsSecret(env), now).Valid?
    ensures r.Refused? ==> r.code in {401, 404}
    // Whoever the verified token names is served, whatever their status.
    ensures r.Done? <==>
              && StrictBearer(header).Some?
              && var v := Verify(codec, StrictBearer(header).value, JsSecret(env), now);
                 v.Valid? && LiteDb.UserWithId(db, v.claims.userId).Some?
    ensures r.Done? ==>
              var v := Verify(codec, StrictBearer(header).value, JsSecret(env), now);
              r == Done(200, Profile(LiteDb.UserWithId(db, v.claims.userId).value))
  {
    match StrictBearer(header)
    case None => Refused(401, MsgBadHeader)
    case Some(token) =>
      var v := Verify(codec, token, JsSecret(env), now);
      if !v.Valid? then Refused(401, MsgBadToken)
      else
        match LiteDb.UserWithId(db, v.claims.userId)
        case None => Refused(404, MsgNoUser)
        case Some(u) => Done(200, Profile(u))
  }

  /** The profile of the user a token names, for as long as the token
      lives: the lookup does not look at the status, so a user banned after
      signing in keeps being served. */
  lemma TokenServesItsUser(db: LiteDb.Db, k: nat, claims: Claims, env: Env, codec: Codec,
                           issued: nat, ttl: nat, at: nat)
    requires LiteDb.IdsAscending(db.users) && Faithful(codec)
    requires k < |db.users| && claims.userId == db.users[k].id
    ensures var header := Some(BearerPrefix + Sign(codec, claims, JsSecret(env), issued, ttl));
            && (at < issued + ttl ==> Me(db, header, env, codec, at) == Done(200, Profile(db.users[k])))
            && (at >= issued + ttl ==> Me(db, header, env, codec, at) == Refused(401, MsgBadToken))
  {
    var token := Sign(codec, claims, JsSecret(env), issued, ttl);
    assert (BearerPrefix + token)[|BearerPrefix|..] == token;
    SignedTokenLifetime(codec, claims, JsSecret(env), issued, ttl, at);
    LiteDb.UserWithIdFinds(db, k);
  }

  /** After a successful sign-in, the access token gives the caller's own
      profile for one hour, and so does the refresh token for seven days:
      both are signed with the same secret and nothing tells them apart. */
  lemma LoginThenMe(db: LiteDb.Db, req: LoginJs.Request, env: Env, matches: (string, string) -> bool,
                    codec: Codec, now: nat, at: nat)
    requires LiteDb.Valid(db) && Faithful(codec)
    requires LoginJs.Login(db, Some(req), env, matches, codec, now).0.Done?
    ensures var (reply, db') := LoginJs.Login(db, Some(req), env, matches, codec, now);
            var u := LiteDb.UserWithEmail(db, req.email.s).value;
            && (at < now + JsAccessTtl ==>
                  Me(db', Some(BearerPrefix + reply.body.token), env, codec, at) == Done(200, Profile(u)))
            && (at < now + JsRefreshTtl ==>
                  Me(db', Some(BearerPrefix + reply.body.refreshToken), env, codec, at) == Done(200, Profile(u)))
  {
    var (reply, db') := LoginJs.Login(db, Some(req), env, matches, codec, now);
    var u := LiteDb.UserWithEmail(db, req.email.s).value;
    var k :| 0 <= k < |db.users| && db.users[k] == u;
    assert db'.users == db.users;
    TokenServesItsUser(db', k, LoginJs.AccessClaims(u), env, codec, now, JsAccessTtl, at);
    TokenServesItsUser(db', k, LoginJs.RefreshClaims(u), env, codec, now, JsRefreshTtl, at);
  }
}
