/** `GET /api/auth/me` over PostgreSQL (app/api/auth/me/route.ts): the
    token from a lenient `Bearer ` header, verified with the access secret,
    then `findUserById`, which sees only active users. */
module MeTs {
  import opened Common
  import opened Tokens
  import PgDb
  import TsAuth
  import LoginTs
  import EmailShape

  const MsgNoUser := "User not found"
  const MsgInactive := "Account is not active"
  const MsgServer := "Internal server error"

  /** The handler; `header` is the `Authorization` header, if sent. */
  function Me(db: PgDb.Db, header: Option<string>, env: Env, codec: Codec, now: nat): (r: Reply<Row>)
    // Authentication failures come first and are passed on as they are.
    ensures TsAuth.Authenticate(header, env, codec, now).Refused? ==>
              r == Refused(401, TsAuth.Authenticate(header, env, codec, now).error)
    ensures r.Refused? && r.code == 500 <==>
              TsAuth.Authenticate(header, env, codec, now).Done? && !db.online
    // "Not found" covers every user who is not active.
    ensures r.Refused? && r.code == 404 <==>
              && TsAuth.Authenticate(header, env, codec, now).Done? && db.online
              && var id := TsAuth.Authenticate(header, env, codec, now).body.userId;
                 forall u | u in db.users :: !(u.id == id && u.status == PgDb.Active)
    // The "not active" reply is never given.
    ensures r != Refused(401, MsgInactive)
    ensures r.Done? ==>
              && r.code == 200
              && exists u | u in db.users ::
                   && u.id == TsAuth.Authenticate(header, env, codec, now).body.userId
                   && u.status == PgDb.Active && r.body == PgDb.ProfileRow(u)
  {
    match TsAuth.Authenticate(header, env, codec, now)
    case Refused(code, error) => Refused(code, error)
    case Done(_, claims) =>
      match PgDb.FindUserById(db, claims.userId)
      case Err(_) => Refused(500, MsgServer)
      case Ok(None) => Refused(404, MsgNoUser)
      case Ok(Some(u)) =>
        if u.status != PgDb.Active then Refused(401, MsgInactive)
        else Done(200, PgDb.ProfileRow(u))
  }

  /** In a valid store, an authenticated user who is not active is told
      that they do not exist. */
  lemma InactiveUserNotFound(db: PgDb.Db, header: Option<string>, env: Env, codec: Codec, now: nat, k: nat)
    requires PgDb.Valid(db) && db.online && k < |db.users| && db.users[k].status != PgDb.Active
    requires TsAuth.Authenticate(header, env, codec, now) == Done(200, LoginTs.AccessClaims(db.users[k]))
    ensures Me(db, header, env, codec, now) == Refused(404, MsgNoUser)
  {
    forall u | u in db.users ensures !(u.id == db.users[k].id && u.status == PgDb.Active) {
      var m :| 0 <= m < |db.users| && db.users[m] == u;
      assert forall i, j | 0 <= i < j < |db.users| :: db.users[i].id < db.users[j].id;
      assert m == k || db.users[m].id != db.users[k].id;
    }
  }

  /** A soft-deleted user's still-live token is worth nothing: the next
      request answers "User not found". */
  lemma DeletedUserTokenIsUseless(db: PgDb.Db, header: Option<string>, env: Env, codec: Codec,
                                  now: nat, k: nat)
    requires PgDb.Valid(db) && db.online && k < |db.users|
    requires TsAuth.Authenticate(header, env, codec, now).Done?
    requires TsAuth.Authenticate(header, env, codec, now).body.userId == db.users[k].id
    ensures Me(PgDb.DeleteUser(db, db.users[k].id, now).value.0, header, env, codec, now)
            == Refused(404, MsgNoUser)
  {
    PgDb.DeletedUserIsInvisible(db, db.users[k].id, now, k);
  }

  /** An authenticated caller who is an active user gets their own
      profile. */
  lemma ActiveUserServed(db: PgDb.Db, header: Option<string>, env: Env, codec: Codec, now: nat, k: nat)
    requires db.online && k < |db.users| && db.users[k].status == PgDb.Active
    requires forall i, j | 0 <= i < j < |db.users| :: db.users[i].id < db.users[j].id
    requires TsAuth.Authenticate(header, env, codec, now).Done?
    requires TsAuth.Authenticate(header, env, codec, now).body.userId == db.users[k].id
    ensures Me(db, header, env, codec, now) == Done(200, PgDb.ProfileRow(db.users[k]))
  {
    var found := PgDb.FindUserById(db, db.users[k].id).value;
    assert found.Some? by {
      assert db.users[k] in db.users;
    }
    var n :| 0 <= n < |db.users| && db.users[n] == found.value;
    assert n == k;
  }

  /** In a valid store, the access token a successful sign-in hands out
      gives the caller's own profile, as the sign-in left it, for the whole
      access lifetime. */
  lemma LoginThenMe(db: PgDb.Db, email: string, password: string, env: Env,
                    matches: (string, string) -> bool, codec: Codec, now: nat, at: nat, k: nat)
    requires PgDb.Valid(db) && db.online && Faithful(codec)
    requires EmailShape.IsEmail(email) && password != ""
    requires k < |db.users| && db.users[k].email == email && db.users[k].status == PgDb.Active
    requires matches(password, db.users[k].passwordHash)
    requires at < now + TsAccessTtl(env)
    ensures var (reply, db') := LoginTs.Login(db, Some(LoginTs.Request(Text(email), Text(password))),
                                             env, matches, codec, now);
            && reply.Done?
            && (reply.body.token != "" ==>
                  Me(db', Some(BearerPrefix + reply.body.token), env, codec, at)
                  == Done(200, PgDb.ProfileRow(db.users[k].(updatedAt := now))))
  {
    var (reply, db') := LoginTs.Login(db, Some(LoginTs.Request(Text(email), Text(password))),
                                     env, matches, codec, now);
    LoginTs.ValidStoreLoginIssues(db, email, password, env, matches, codec, now, k);
    if reply.body.token != "" {
      IssuedTokenServesUser(db', db.users[k], env, codec, now, at, k);
    }
  }

  /** The access token issued for an active user serves that user's
      profile until it expires. */
  lemma IssuedTokenServesUser(db: PgDb.Db, u: PgDb.User, env: Env, codec: Codec, now: nat, at: nat, k: nat)
    requires db.online && k < |db.users| && db.users[k].status == PgDb.Active && db.users[k].id == u.id
    requires forall i, j | 0 <= i < j < |db.users| :: db.users[i].id < db.users[j].id
    requires Faithful(codec) && at < now + TsAccessTtl(env)
    requires Sign(codec, LoginTs.AccessClaims(u), TsSecret(env), now, TsAccessTtl(env)) != ""
    ensures Me(db, Some(BearerPrefix + Sign(codec, LoginTs.AccessClaims(u), TsSecret(env), now, TsAccessTtl(env))),
               env, codec, at)
            == Done(200, PgDb.ProfileRow(db.users[k]))
  {
    TsAuth.IssuedTokenAuthenticates(codec, LoginTs.AccessClaims(u), env, now, TsAccessTtl(env), at);
    ActiveUserServed(db, Some(BearerPrefix + Sign(codec, LoginTs.AccessClaims(u), TsSecret(env), now,
                                                  TsAccessTtl(env))), env, codec, at, k);
  }
}
