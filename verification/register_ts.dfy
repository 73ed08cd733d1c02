/** `POST /api/auth/register` over PostgreSQL
    (app/api/auth/register/route.ts): four required fields, e-mail shape,
    length, confirmation, a duplicate check that sees only ACTIVE users,
    then `createUser` and two tokens. */
module RegisterTs {
  import opened Common
  import opened EmailShape
  import opened Tokens
  import PgDb
  import LoginTs

  datatype Request = Request(name: Field, email: Field, password: Field, confirmPassword: Field)

  /** The success payload: the `createUser` row and both tokens. */
  datatype Body = Body(user: Row, token: string, refreshToken: string)

  const MsgRequired := "All fields are required"
  const MsgBadEmail := "Invalid email format"
  const MsgShortPassword := "Password must be at least 6 characters long"
  const MsgMismatch := "Passwords do not match"
  const MsgTaken := "User with this email already exists"
  const MsgServer := "Internal server error"

  const MinPasswordLength := 6

  /** The checks made before the store is consulted, in the handler's
      order; `None` when all pass. */
  function Validate(req: Request): (r: Option<string>)
    ensures r.None? <==>
              && Present(req.name) && Present(req.email) && Present(req.password) && Present(req.confirmPassword)
              && IsEmail(req.email.s) && |req.password.s| >= MinPasswordLength
              && req.password.s == req.confirmPassword.s
  {
    if !Present(req.name) || !Present(req.email) || !Present(req.password) || !Present(req.confirmPassword)
    then Some(MsgRequired)
    else if !IsEmail(req.email.s) then Some(MsgBadEmail)
    else if |req.password.s| < MinPasswordLength then Some(MsgShortPassword)
    else if req.password.s != req.confirmPassword.s then Some(MsgMismatch)
    else None
  }

  /** An e-mail held by an active user. */
  predicate HeldByActive(db: PgDb.Db, email: string) {
    exists u | u in db.users :: PgDb.IsActiveWithEmail(u, email)
  }

  /** The handler. `hash` is `bcrypt.hash(password, 12)`. */
  function Register(db: PgDb.Db, req: Option<Request>, hash: string -> string, env: Env,
                    codec: Codec, now: nat): (r: (Reply<Body>, PgDb.Db))
    ensures !r.0.Done? ==> r.1 == db
    ensures req.Some? && Validate(req.value).Some? ==> r.0 == Refused(400, Validate(req.value).value)
    ensures r.0.Refused? && r.0.code == 409 <==>
              && req.Some? && Validate(req.value).None? && db.online && PgDb.Bindable(req.value.email.s)
              && HeldByActive(db, req.value.email.s)
    // Success needs the e-mail to be free among ALL users, not only active
    // ones, no U+0000 in what is bound, and the name, e-mail and hash to fit
    // their VARCHAR(255) columns.
    ensures r.0.Done? <==>
              && req.Some? && Validate(req.value).None? && db.online && !PgDb.HasEmail(db, req.value.email.s)
              && PgDb.UserParamsBind(req.value.name.s, req.value.email.s, hash(req.value.password.s), "user")
              && PgDb.UserColumnsFit(req.value.name.s, req.value.email.s, hash(req.value.password.s), "user")
    // The name and hash lose the spaces past their column's length; the
    // e-mail, which holds no spaces, is stored as sent.
    ensures r.0.Done? ==>
              var u := PgDb.NewUser(db, req.value.name.s, req.value.email.s, hash(req.value.password.s),
                                    PgDb.Member, now);
              && u.email == req.value.email.s
              && r.1 == db.(users := db.users + [u], nextUserId := db.nextUserId + 1)
              && r.0 == Done(201, Body(Select(PgDb.UserRow(u), PgDb.CreatedColumns),
                                       Sign(codec, LoginTs.AccessClaims(u), TsSecret(env), now, TsAccessTtl(env)),
                                       Sign(codec, LoginTs.RefreshClaims(u), TsRefreshSecret(env), now,
                                            TsRefreshTtl(env))))
  {
    if req.None? then (Refused(500, MsgServer), db)
    else if Validate(req.value).Some? then (Refused(400, Validate(req.value).value), db)
    else
      var email := req.value.email.s;
      match PgDb.FindUserByEmail(db, email)
      case Err(_) => (Refused(500, MsgServer), db)
      case Ok(Some(_)) => (Refused(409, MsgTaken), db)
      case Ok(None) =>
        EmailFitsWhole(email);
        match PgDb.CreateUser(db, req.value.name.s, email, hash(req.value.password.s), Some("user"), now)
        case Err(_) => (Refused(500, MsgServer), db)
        case Ok((db', row)) =>
          var u := db'.users[|db.users|];
          var token := Sign(codec, LoginTs.AccessClaims(u), TsSecret(env), now, TsAccessTtl(env));
          var refresh := Sign(codec, LoginTs.RefreshClaims(u), TsRefreshSecret(env), now, TsRefreshTtl(env));
          (Done(201, Body(row, token, refresh)), db')
  }

  /** An e-mail address holds no spaces, so it fits its column only when it
      is within the column's length, and is then stored whole. */
  lemma EmailFitsWhole(email: string)
    requires IsEmail(email)
    ensures PgDb.Fits(email, PgDb.VarcharLimit) <==> |email| <= PgDb.VarcharLimit
    ensures PgDb.Fits(email, PgDb.VarcharLimit) ==> PgDb.Clip(email, PgDb.VarcharLimit) == email
  {
    EmailHasOneAt(email);
    if |email| > PgDb.VarcharLimit {
      assert !IsSpace(email[PgDb.VarcharLimit]);
    }
  }

  /** The length check comes before the confirmation check. */
  lemma LengthCheckedBeforeConfirmation(req: Request)
    requires Present(req.name) && Present(req.email) && Present(req.password) && Present(req.confirmPassword)
    requires IsEmail(req.email.s) && |req.password.s| < MinPasswordLength
    ensures Validate(req) == Some(MsgShortPassword)
  {
  }

  /** An e-mail held only by an inactive or deleted user passes the
      duplicate check and then breaks the UNIQUE constraint: the reply is
      500, not 409, and nothing is stored. */
  lemma InactiveHolderCausesServerError(db: PgDb.Db, req: Request, hash: string -> string, env: Env,
                                        codec: Codec, now: nat)
    requires Validate(req).None? && db.online
    requires PgDb.HasEmail(db, req.email.s) && !HeldByActive(db, req.email.s)
    ensures Register(db, Some(req), hash, env, codec, now) == (Refused(500, MsgServer), db)
  {
  }

  /** A name with a character that is not a space past its column's
      length passes every check of the handler and then fails the insert:
      the reply is 500 and nothing is stored. */
  lemma LongNameCausesServerError(db: PgDb.Db, req: Request, hash: string -> string, env: Env,
                                  codec: Codec, now: nat)
    requires Validate(req).None? && db.online && PgDb.Bindable(req.email.s) && !HeldByActive(db, req.email.s)
    requires exists k | PgDb.VarcharLimit <= k < |req.name.s| :: req.name.s[k] != ' '
    ensures Register(db, Some(req), hash, env, codec, now) == (Refused(500, MsgServer), db)
  {
    assert PgDb.FindUserByEmail(db, req.email.s) == Ok(None);
  }

  /** A name padded with spaces past its column's length is accepted: the
      user is registered, and the stored name is cut at 255 characters. */
  lemma PaddedNameIsClipped(db: PgDb.Db, req: Request, hash: string -> string, env: Env,
                            codec: Codec, now: nat)
    requires Validate(req).None? && db.online && !PgDb.HasEmail(db, req.email.s)
    requires PgDb.Bindable(req.name.s) && PgDb.Bindable(req.email.s) && PgDb.Bindable(hash(req.password.s))
    requires |req.email.s| <= PgDb.VarcharLimit && |hash(req.password.s)| <= PgDb.VarcharLimit
    requires |req.name.s| > PgDb.VarcharLimit && forall k | PgDb.VarcharLimit <= k < |req.name.s| :: req.name.s[k] == ' '
    ensures var (reply, db') := Register(db, Some(req), hash, env, codec, now);
            && reply.Done? && reply.code == 201
            && db'.users[|db.users|].name == req.name.s[..PgDb.VarcharLimit]
  {
    assert PgDb.Bindable("user");
  }

  /** An e-mail holding U+0000 passes the handler's checks, which do not
      count it as white space, and then cannot be bound: 500. */
  lemma NulEmailCausesServerError(db: PgDb.Db, req: Request, hash: string -> string, env: Env,
                                  codec: Codec, now: nat)
    requires Validate(req).None? && !PgDb.Bindable(req.email.s)
    ensures Register(db, Some(req), hash, env, codec, now) == (Refused(500, MsgServer), db)
  {
  }

  /** A freshly registered user, active from the start, can log in at once
      with the password they chose. */
  lemma RegisteredUserCanLogIn(db: PgDb.Db, req: Request, hash: string -> string, env: Env,
                               matches: (string, string) -> bool, codec: Codec, now: nat, later: nat)
    requires PgDb.Valid(db)
    requires Register(db, Some(req), hash, env, codec, now).0.Done?
    requires matches(req.password.s, hash(req.password.s))
    // A bcrypt hash is 60 characters long.
    requires |hash(req.password.s)| <= PgDb.VarcharLimit
    ensures var db' := Register(db, Some(req), hash, env, codec, now).1;
            LoginTs.Login(db', Some(LoginTs.Request(req.email, req.password)), env, matches, codec, later).0.Done?
  {
    var db' := Register(db, Some(req), hash, env, codec, now).1;
    var u := db'.users[|db.users|];
    PgDb.AppendUserKeepsValid(db, u);
    LoginTs.ValidStoreLoginSucceeds(db', req.email.s, req.password.s, env, matches, codec, later, |db.users|);
  }
}
