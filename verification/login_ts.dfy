/** `POST /api/auth/login` over PostgreSQL (app/api/auth/login/route.ts):
    presence and e-mail shape, lookup of an ACTIVE user, a status check that
    lookup makes unreachable, password check, two tokens under two secrets,
    and an `updateUser` that rewrites the row with its own values. */
module LoginTs {
  import opened Common
  import opened EmailShape
  import opened Tokens
  import PgDb

  datatype Request = Request(email: Field, password: Field)

  /** The success payload: the user row without its hash, and both tokens. */
  datatype Body = Body(user: Row, token: string, refreshToken: string)

  const MsgRequired := "Email and password are required"
  const MsgBadEmail := "Invalid email format"
  const MsgInvalid := "Invalid credentials"
  const MsgInactive := "Account is not active"
  const MsgServer := "Internal server error"

  function AccessClaims(u: PgDb.User): Claims {
    Claims(u.id, Some(u.email), Some(PgDb.RoleName(u.role)), None)
  }

  function RefreshClaims(u: PgDb.User): Claims {
    Claims(u.id, None, None, None)
  }

  /** `const { password_hash, ...rest } = user`. */
  function WithoutPassword(row: Row): (r: Row)
    ensures r.Keys == row.Keys - {"password_hash"}
    ensures forall k | k in r :: r[k] == row[k]
  {
    row - {"password_hash"}
  }

  /** The checks made before the store is consulted; `None` when they pass. */
  function Validate(req: Request): (r: Option<string>)
    ensures r.None? <==> Present(req.email) && Present(req.password) && IsEmail(req.email.s)
  {
    if !Present(req.email) || !Present(req.password) then Some(MsgRequired)
    else if !IsEmail(req.email.s) then Some(MsgBadEmail)
    else None
  }

  /** The handler: the reply and the store afterwards. `matches` is
      `bcrypt.compare`. */
  function Login(db: PgDb.Db, req: Option<Request>, env: Env, matches: (string, string) -> bool,
                 codec: Codec, now: nat): (r: (Reply<Body>, PgDb.Db))
    ensures !r.0.Done? ==> r.1 == db
    // Malformed requests are refused whether or not the store is reachable.
    ensures req.Some? && Validate(req.value).Some? ==> r.0 == Refused(400, Validate(req.value).value)
    // No 403: every refusal after validation is 401 or 500.
    ensures r.0.Refused? ==> r.0.code in {400, 401, 500}
    // 401 exactly for an e-mail no active user holds or a wrong password,
    // always with the same message.
    ensures r.0.Refused? && r.0.code == 401 <==>
              && req.Some? && Validate(req.value).None? && db.online && PgDb.Bindable(req.value.email.s)
              && var found := PgDb.FindUserByEmail(db, req.value.email.s).value;
                 (found.None? || !matches(req.value.password.s, found.value.passwordHash))
    ensures r.0.Refused? && r.0.code == 401 ==> r.0.error == MsgInvalid
    ensures r.0.Done? ==>
              && req.Some? && db.online && PgDb.Bindable(req.value.email.s)
              && var u := PgDb.FindUserByEmail(db, req.value.email.s).value.value;
              && matches(req.value.password.s, u.passwordHash)
              && r.0 == Done(200, Body(WithoutPassword(PgDb.UserRow(u)),
                                       Sign(codec, AccessClaims(u), TsSecret(env), now, TsAccessTtl(env)),
                                       Sign(codec, RefreshClaims(u), TsRefreshSecret(env), now, TsRefreshTtl(env))))
              && PgDb.UpdateUser(db, u.id, u.name, u.email, PgDb.RoleName(u.role), now).Ok?
              && r.1 == PgDb.UpdateUser(db, u.id, u.name, u.email, PgDb.RoleName(u.role), now).value.0
  {
    if req.None? then (Refused(500, MsgServer), db)
    else if Validate(req.value).Some? then (Refused(400, Validate(req.value).value), db)
    else
      var email := req.value.email.s;
      var password := req.value.password.s;
      match PgDb.FindUserByEmail(db, email)
      case Err(_) => (Refused(500, MsgServer), db)
      case Ok(None) => (Refused(401, MsgInvalid), db)
      case Ok(Some(user)) =>
        if user.status != PgDb.Active then (Refused(401, MsgInactive), db)
        else if !matches(password, user.passwordHash) then (Refused(401, MsgInvalid), db)
        else
          var token := Sign(codec, AccessClaims(user), TsSecret(env), now, TsAccessTtl(env));
          var refresh := Sign(codec, RefreshClaims(user), TsRefreshSecret(env), now, TsRefreshTtl(env));
          match PgDb.UpdateUser(db, user.id, user.name, user.email, PgDb.RoleName(user.role), now)
          case Err(_) => (Refused(500, MsgServer), db)
          case Ok((db', _)) => (Done(200, Body(WithoutPassword(PgDb.UserRow(user)), token, refresh)), db')
  }

  /** A user who is not active is refused with "Invalid credentials" even
      with the right password: the active-only lookup does not see them, so
      the "Account is not active" reply is never given. */
  lemma InactiveUserLooksUnknown(db: PgDb.Db, email: string, password: string, env: Env,
                                 matches: (string, string) -> bool, codec: Codec, now: nat)
    requires db.online && password != "" && IsEmail(email) && PgDb.Bindable(email)
    requires forall u | u in db.users && u.email == email :: u.status != PgDb.Active
    ensures Login(db, Some(Request(Text(email), Text(password))), env, matches, codec, now).0
            == Refused(401, MsgInvalid)
  {
    assert email != [] by {
      EmailHasOneAt(email);
    }
  }

  /** An e-mail holding U+0000 has the right shape, since the pattern does
      not count it as white space, but it cannot be bound: the lookup fails
      and the reply is 500, not 401. */
  lemma NulEmailCausesServerError(db: PgDb.Db, email: string, password: string, env: Env,
                                  matches: (string, string) -> bool, codec: Codec, now: nat)
    requires password != "" && IsEmail(email) && !PgDb.Bindable(email)
    ensures Login(db, Some(Request(Text(email), Text(password))), env, matches, codec, now)
            == (Refused(500, MsgServer), db)
  {
    assert email != [] by {
      EmailHasOneAt(email);
    }
  }

  /** The refresh token is signed with the refresh secret, so it is refused
      wherever the access secret is expected, unless both are configured to
      the same value. */
  lemma RefreshTokenIsNotAnAccessToken(u: PgDb.User, env: Env, codec: Codec, now: nat, at: nat)
    requires Faithful(codec) && TsSecret(env) != TsRefreshSecret(env)
    ensures Verify(codec, Sign(codec, RefreshClaims(u), TsRefreshSecret(env), now, TsRefreshTtl(env)),
                   TsSecret(env), at) == BadSignature
  {
    OtherSecretRejected(codec, RefreshClaims(u), TsRefreshSecret(env), TsSecret(env), now, TsRefreshTtl(env), at);
  }

  /** Rewriting a user's own name, e-mail and role succeeds in a valid
      store and changes nothing but `updated_at`: `last_login` is not one of
      the columns `updateUser` sets. */
  lemma SelfUpdateOnlyTouchesUpdatedAt(db: PgDb.Db, k: nat, now: nat)
    requires PgDb.Valid(db) && db.online && k < |db.users| && db.users[k].status == PgDb.Active
    ensures var u := db.users[k];
            var r := PgDb.UpdateUser(db, u.id, u.name, u.email, PgDb.RoleName(u.role), now);
            && r.Ok?
            && r.value.0.templates == db.templates && r.value.0.pages == db.pages
            && |r.value.0.users| == |db.users|
            && (forall m | 0 <= m < |db.users| ::
                  r.value.0.users[m] == if m == k then u.(updatedAt := now) else db.users[m])
  {
    var u := db.users[k];
    PgDb.ParseRoleIff(PgDb.RoleName(u.role), u.role);
    assert PgDb.Matches(db.users[k], u.id);
    var rows := PgDb.UpdateRows(db.users, u.id, u.name, u.email, u.role, now);
    assert forall m | 0 <= m < |db.users| && m != k :: db.users[m].id != u.id;
    assert PgDb.DistinctEmails(rows) by {
      forall i, j | 0 <= i < j < |rows| ensures rows[i].email != rows[j].email {
        assert rows[i].email == db.users[i].email && rows[j].email == db.users[j].email;
      }
    }
  }

  /** In a valid, reachable store a well-formed request from an active user
      with the right password always succeeds, and the store afterwards
      differs only in that user's `updated_at`. */
  lemma ValidStoreLoginSucceeds(db: PgDb.Db, email: string, password: string, env: Env,
                                matches: (string, string) -> bool, codec: Codec, now: nat, k: nat)
    requires PgDb.Valid(db) && db.online && IsEmail(email) && password != ""
    requires k < |db.users| && db.users[k].email == email && db.users[k].status == PgDb.Active
    requires matches(password, db.users[k].passwordHash)
    ensures var r := Login(db, Some(Request(Text(email), Text(password))), env, matches, codec, now);
            && r.0.Done?
            && r.1.templates == db.templates && r.1.pages == db.pages && |r.1.users| == |db.users|
            && (forall m | 0 <= m < |db.users| ::
                  r.1.users[m] == if m == k then db.users[k].(updatedAt := now) else db.users[m])
  {
    ActiveHolderFound(db, email, k);
    SelfUpdateOnlyTouchesUpdatedAt(db, k, now);
  }

  /** The sign-in above hands out the access token of user `k`, and leaves
      a store whose ids still increase and where that user differs only in
      `updated_at`. */
  lemma ValidStoreLoginIssues(db: PgDb.Db, email: string, password: string, env: Env,
                              matches: (string, string) -> bool, codec: Codec, now: nat, k: nat)
    requires PgDb.Valid(db) && db.online && IsEmail(email) && password != ""
    requires k < |db.users| && db.users[k].email == email && db.users[k].status == PgDb.Active
    requires matches(password, db.users[k].passwordHash)
    ensures var r := Login(db, Some(Request(Text(email), Text(password))), env, matches, codec, now);
            && r.0.Done?
            && r.0.body.token == Sign(codec, AccessClaims(db.users[k]), TsSecret(env), now, TsAccessTtl(env))
            && r.1.online && |r.1.users| == |db.users| && r.1.users[k] == db.users[k].(updatedAt := now)
            && forall i, j | 0 <= i < j < |r.1.users| :: r.1.users[i].id < r.1.users[j].id
  {
    ValidStoreLoginSucceeds(db, email, password, env, matches, codec, now, k);
    ActiveHolderFound(db, email, k);
    var r := Login(db, Some(Request(Text(email), Text(password))), env, matches, codec, now);
    assert forall i | 0 <= i < |db.users| :: r.1.users[i].id == db.users[i].id;
  }

  /** In a valid store the active-only lookup finds the holder of the
      address. */
  lemma ActiveHolderFound(db: PgDb.Db, email: string, k: nat)
    requires PgDb.Valid(db) && db.online && IsEmail(email)
    requires k < |db.users| && db.users[k].email == email && db.users[k].status == PgDb.Active
    ensures PgDb.FindUserByEmail(db, email) == Ok(Some(db.users[k]))
  {
    assert email != [] by {
      EmailHasOneAt(email);
    }
    var found := PgDb.FindUserByEmail(db, email).value;
    assert found.Some? by {
      assert PgDb.IsActiveWithEmail(db.users[k], email);
    }
    var m :| 0 <= m < |db.users| && db.users[m] == found.value;
    assert db.users[m].email == db.users[k].email;
    assert m == k;
  }
}
