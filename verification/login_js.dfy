/** `POST /api/auth/login` over the file database (app/api/auth/login/route.js):
    presence check, lookup by e-mail of any status, password check, then the
    banned / pending / inactive gate, two tokens, one session row. */
module LoginJs {
  import opened Common
  import opened Tokens
  import LiteDb

  /** The JSON body; `None` stands for a body that is not JSON. */
  datatype Request = Request(email: Field, password: Field)

  /** The success payload: the public user fields and both tokens. */
  datatype Body = Body(user: Row, token: string, refreshToken: string)

  const MsgRequired := "Email và password là bắt buộc"
  const MsgInvalid := "Email hoặc password không đúng"
  const MsgBanned := "Tài khoản đã bị khóa"
  const MsgPending := "Tài khoản đang chờ xác thực. Vui lòng liên hệ admin."
  const MsgInactive := "Tài khoản đã bị vô hiệu hóa"
  const MsgServer := "Lỗi server, vui lòng thử lại sau"

  /** The session row outlives its creation by seven days. */
  const SessionTtl: nat := 7 * Day

  /** The user object of the reply: `id, email, name, avatar, status`. */
  function PublicUser(u: LiteDb.User): Row {
    map["id" := Int(u.id), "email" := Str(u.email), "name" := Str(u.name),
        "avatar" := Str(u.avatar),
        "status" := if u.status.Some? then Str(LiteDb.StatusName(u.status.value)) else Nil]
  }

  function AccessClaims(u: LiteDb.User): Claims {
    Claims(u.id, Some(u.email), None, None)
  }

  function RefreshClaims(u: LiteDb.User): Claims {
    Claims(u.id, None, None, Some("refresh"))
  }

  /** The 403 message for a status the gate refuses, `None` for the
      statuses (active, NULL) it lets through. */
  function GateMessage(status: Option<LiteDb.Status>): Option<string> {
    if status == Some(LiteDb.Banned) then Some(MsgBanned)
    else if status == Some(LiteDb.Pending) then Some(MsgPending)
    else if status == Some(LiteDb.Inactive) then Some(MsgInactive)
    else None
  }

  /** The handler: the reply and the database afterwards. `matches` is
      `bcrypt.compare`; `now` is the clock in seconds. */
  function Login(db: LiteDb.Db, req: Option<Request>, env: Env, matches: (string, string) -> bool,
                 codec: Codec, now: nat): (r: (Reply<Body>, LiteDb.Db))
    // Only a success writes to the database.
    ensures !r.0.Done? ==> r.1 == db
    // Missing fields are refused before any lookup.
    ensures req.Some? && (!Present(req.value.email) || !Present(req.value.password)) ==>
              r.0 == Refused(400, MsgRequired)
    // Unknown e-mail and wrong password are indistinguishable.
    ensures r.0.Refused? && r.0.code == 401 <==>
              && req.Some? && Present(req.value.email) && Present(req.value.password)
              && var u := LiteDb.UserWithEmail(db, req.value.email.s);
                 (u.None? || !matches(req.value.password.s, u.value.password))
    ensures r.0.Refused? && r.0.code == 401 ==> r.0.error == MsgInvalid
    // The status gate applies only after the password matched.
    ensures r.0.Refused? && r.0.code == 403 <==>
              && req.Some? && Present(req.value.email) && Present(req.value.password)
              && var u := LiteDb.UserWithEmail(db, req.value.email.s);
                 u.Some? && matches(req.value.password.s, u.value.password)
                 && GateMessage(u.value.status).Some?
    // A login that passes every check succeeds unless its refresh token is
    // already stored (UNIQUE), which gives 500.
    ensures r.0.Done? <==>
              && req.Some? && Present(req.value.email) && Present(req.value.password)
              && var u := LiteDb.UserWithEmail(db, req.value.email.s);
                 && u.Some? && matches(req.value.password.s, u.value.password)
                 && GateMessage(u.value.status).None?
                 && !LiteDb.HasRefreshToken(db, Sign(codec, RefreshClaims(u.value), JsSecret(env), now, JsRefreshTtl))
    // A success issues both tokens for the stored user and records one session.
    ensures r.0.Done? ==>
              && req.Some?
              && var u := LiteDb.UserWithEmail(db, req.value.email.s);
              && u.Some? && r.0.code == 200
              && r.0.body == Body(PublicUser(u.value),
                                  Sign(codec, AccessClaims(u.value), JsSecret(env), now, JsAccessTtl),
                                  Sign(codec, RefreshClaims(u.value), JsSecret(env), now, JsRefreshTtl))
              && r.1.users == db.users
              && r.1.sessions == db.sessions + [LiteDb.Session(db.nextSessionId, u.value.id,
                                                               r.0.body.refreshToken, now + SessionTtl, now)]
  {
    if req.None? then (Refused(500, MsgServer), db)
    else if !Present(req.value.email) || !Present(req.value.password) then (Refused(400, MsgRequired), db)
    else
      var email := req.value.email.s;
      var password := req.value.password.s;
      match LiteDb.UserWithEmail(db, email)
      case None => (Refused(401, MsgInvalid), db)
      case Some(user) =>
        if !matches(password, user.password) then (Refused(401, MsgInvalid), db)
        else if GateMessage(user.status).Some? then (Refused(403, GateMessage(user.status).value), db)
        else
          var secret := JsSecret(env);
          var token := Sign(codec, AccessClaims(user), secret, now, JsAccessTtl);
          var refresh := Sign(codec, RefreshClaims(user), secret, now, JsRefreshTtl);
          match LiteDb.InsertSession(db, user.id, refresh, now + SessionTtl, now)
          case Err(_) => (Refused(500, MsgServer), db)
          case Ok(db') => (Done(200, Body(PublicUser(user), token, refresh)), db')
  }

  /** The three refusals of the status gate carry three different messages,
      and the gate lets exactly active and NULL statuses through. */
  lemma GateMessagesDistinct(s: Option<LiteDb.Status>)
    ensures MsgBanned != MsgPending && MsgPending != MsgInactive && MsgBanned != MsgInactive
    ensures GateMessage(s).None? <==> s == Some(LiteDb.Active) || s.None?
  {
    assert |MsgBanned| < |MsgInactive| < |MsgPending|;
    if s.Some? {
      match s.value
      case Active =>
      case Inactive =>
      case Pending =>
      case Banned =>
    }
  }

  /** The public user object never carries the password column and has
      exactly five fields. */
  lemma PublicUserHidesPassword(u: LiteDb.User)
    ensures PublicUser(u).Keys == {"id", "email", "name", "avatar", "status"}
    ensures "password" !in PublicUser(u)
  {
  }

  /** A user whose password does not match is refused with 401, whatever
      their status: the gate is never reached. */
  lemma WrongPasswordBeatsStatus(db: LiteDb.Db, email: string, password: string, env: Env,
                                 matches: (string, string) -> bool, codec: Codec, now: nat)
    requires email != "" && password != ""
    requires LiteDb.UserWithEmail(db, email).Some?
    requires !matches(password, LiteDb.UserWithEmail(db, email).value.password)
    ensures Login(db, Some(Request(Text(email), Text(password))), env, matches, codec, now).0
            == Refused(401, MsgInvalid)
  {
  }

  /** Logging the same user in twice within one second fails the second
      time: both refresh tokens carry the same payload and times, so the
      second session row collides with the first on the UNIQUE
      `refresh_token` column, and the reply is 500. */
  lemma SameSecondLoginCollides(db: LiteDb.Db, req: Request, env: Env,
                                matches: (string, string) -> bool, codec: Codec, now: nat)
    requires Login(db, Some(req), env, matches, codec, now).0.Done?
    ensures var db' := Login(db, Some(req), env, matches, codec, now).1;
            Login(db', Some(req), env, matches, codec, now) == (Refused(500, MsgServer), db')
  {
    var (reply, db') := Login(db, Some(req), env, matches, codec, now);
    var u := LiteDb.UserWithEmail(db, req.email.s).value;
    assert db'.users == db.users;
    assert LiteDb.UserWithEmail(db', req.email.s) == Some(u);
    var refresh := Sign(codec, RefreshClaims(u), JsSecret(env), now, JsRefreshTtl);
    assert db'.sessions[|db.sessions|].refreshToken == refresh;
    assert LiteDb.HasRefreshToken(db', refresh);
  }

  /** Once the password matches, the stored status alone decides between
      the gate's refusal and a success. */
  lemma GateAfterPassword(db: LiteDb.Db, email: string, password: string, env: Env,
                          matches: (string, string) -> bool, codec: Codec, now: nat)
    requires email != "" && password != ""
    requires LiteDb.UserWithEmail(db, email).Some?
    requires matches(password, LiteDb.UserWithEmail(db, email).value.password)
    ensures var s := LiteDb.UserWithEmail(db, email).value.status;
            GateMessage(s).Some? ==>
              Login(db, Some(Request(Text(email), Text(password))), env, matches, codec, now).0
              == Refused(403, GateMessage(s).value)
  {
  }
}
