/** `POST /api/auth/register` over the file database
    (app/api/auth/register/route.js): presence, e-mail shape, password
    length, duplicate e-mail of any status, then one new row whose status is
    whatever the caller sent, `pending` when it sent none. */
module RegisterJs {
  import opened Common
  import opened EmailShape
  import opened Tokens
  import LiteDb
  import LoginJs

  datatype Request = Request(email: Field, password: Field, name: Field, status: Field)

  const MsgRequired := "Email, password và name là bắt buộc"
  const MsgBadEmail := "Email không hợp lệ"
  const MsgShortPassword := "Password phải có ít nhất 6 ký tự"
  const MsgTaken := "Email đã được sử dụng"
  const MsgServer := "Lỗi server, vui lòng thử lại sau"

  const MinPasswordLength := 6
  const PlaceholderAvatar := "https://via.placeholder.com/150"

  /** The value bound to the status column: the destructuring default
      `'pending'` applies only to an absent field; an explicit `null` is
      stored as NULL; any string is passed on unchecked. */
  function StatusToStore(f: Field): Option<string> {
    match f
    case Missing => Some("pending")
    case Null => None
    case Text(s) => Some(s)
  }

  /** The reply's user object: `id, email, name, avatar, status, created_at`. */
  function CreatedRow(u: LiteDb.User): Row {
    map["id" := Int(u.id), "email" := Str(u.email), "name" := Str(u.name),
        "avatar" := Str(u.avatar),
        "status" := if u.status.Some? then Str(LiteDb.StatusName(u.status.value)) else Nil,
        "created_at" := Int(u.createdAt)]
  }

  /** The validation steps, in the handler's order; `None` when all pass. */
  function Validate(req: Request): (r: Option<string>)
    ensures r.None? <==> Present(req.email) && Present(req.password) && Present(req.name)
                         && IsEmail(req.email.s) && |req.password.s| >= MinPasswordLength
  {
    if !Present(req.email) || !Present(req.password) || !Present(req.name) then Some(MsgRequired)
    else if !IsEmail(req.email.s) then Some(MsgBadEmail)
    else if |req.password.s| < MinPasswordLength then Some(MsgShortPassword)
    else None
  }

  /** The handler. `hash` is `bcrypt.hash(password, 10)`. */
  function Register(db: LiteDb.Db, req: Option<Request>, hash: string -> string, now: nat)
    : (r: (Reply<Row>, LiteDb.Db))
    ensures !r.0.Done? ==> r.1 == db
    ensures r.0.Refused? && r.0.code == 400 <==> req.Some? && Validate(req.value).Some?
    // An e-mail held by any user, whatever its status, is refused.
    ensures r.0.Refused? && r.0.code == 409 <==>
              req.Some? && Validate(req.value).None? && LiteDb.HasEmail(db, req.value.email.s)
    // Creation succeeds exactly when the status passes the CHECK constraint.
    ensures r.0.Done? <==>
              && req.Some? && Validate(req.value).None? && !LiteDb.HasEmail(db, req.value.email.s)
              && var st := StatusToStore(req.value.status);
                 st.None? || LiteDb.ParseStatus(st.value).Some?
    // The store grows by exactly the new row.
    ensures r.0.Done? ==>
              var st := StatusToStore(req.value.status);
              var u := LiteDb.User(db.nextUserId, req.value.email.s, hash(req.value.password.s),
                                   req.value.name.s, PlaceholderAvatar,
                                   if st.Some? then LiteDb.ParseStatus(st.value) else None, now, now);
              && r.0 == Done(201, CreatedRow(u))
              && r.1.users == db.users + [u] && r.1.sessions == db.sessions
  {
    if req.None? then (Refused(500, MsgServer), db)
    else if Validate(req.value).Some? then (Refused(400, Validate(req.value).value), db)
    else
      var email := req.value.email.s;
      if LiteDb.HasEmail(db, email) then (Refused(409, MsgTaken), db)
      else
        match LiteDb.InsertUser(db, email, hash(req.value.password.s), req.value.name.s,
                                PlaceholderAvatar, StatusToStore(req.value.status), now)
        case Err(_) => (Refused(500, MsgServer), db)
        case Ok((db', u)) => (Done(201, CreatedRow(u)), db')
  }

  /** The checks fire in order: a malformed e-mail is reported even when the
      password is also too short. */
  lemma EmailCheckedBeforeLength(req: Request)
    requires Present(req.email) && Present(req.password) && Present(req.name)
    requires !IsEmail(req.email.s)
    ensures Validate(req) == Some(MsgBadEmail)
  {
  }

  /** An accepted insert always adds exactly one row, so the handler's
      "no row changed" refusal can never be taken. */
  lemma InsertAddsOneRow(db: LiteDb.Db, req: Request, hash: string -> string, now: nat)
    requires Register(db, Some(req), hash, now).0.Done?
    ensures |Register(db, Some(req), hash, now).1.users| == |db.users| + 1
  {
  }

  /** The reply's user object never carries the password column. */
  lemma CreatedRowHidesPassword(u: LiteDb.User)
    ensures CreatedRow(u).Keys == {"id", "email", "name", "avatar", "status", "created_at"}
  {
  }

  /** A user registered without a status (as well as through the page,
      which always sends `pending`) cannot log in yet: the correct password
      meets the pending gate. */
  lemma FreshRegistrationIsPending(db: LiteDb.Db, email: string, password: string, name: string,
                                   status: Field, hash: string -> string, matches: (string, string) -> bool,
                                   env: Env, codec: Codec, now: nat, later: nat)
    requires status == Missing || status == Text("pending")
    requires Register(db, Some(Request(Text(email), Text(password), Text(name), status)), hash, now).0.Done?
    requires matches(password, hash(password))
    ensures var db' := Register(db, Some(Request(Text(email), Text(password), Text(name), status)), hash, now).1;
            LoginJs.Login(db', Some(LoginJs.Request(Text(email), Text(password))), env, matches, codec, later).0
            == Refused(403, LoginJs.MsgPending)
  {
    var req := Request(Text(email), Text(password), Text(name), status);
    var db' := Register(db, Some(req), hash, now).1;
    var u := db'.users[|db.users|];
    assert !LiteDb.HasEmail(db, email);
    assert db'.users == db.users + [u];
    var i := FirstIndex(db'.users, (v: LiteDb.User) => v.email == email);
    assert i == Some(|db.users|);
    assert LiteDb.UserWithEmail(db', email) == Some(u);
  }
}
