/** The gate in front of every CMS handler (app/api/cms/pages/route.ts and
    app/api/cms/templates/route.ts): an authenticated caller who is an
    active user, and the role each write needs. */
module CmsAccess {
  import opened Common
  import opened Tokens
  import PgDb
  import TsAuth

  const MsgUnauthorized := "Unauthorized"
  const MsgForbidden := "Insufficient permissions"
  const MsgServer := "Internal server error"

  /** The caller, as `findUserById(decoded.userId)` returns them, or the
      refusal. */
  function Caller(db: PgDb.Db, header: Option<string>, env: Env, codec: Codec, now: nat): (r: Reply<PgDb.User>)
    ensures TsAuth.Authenticate(header, env, codec, now).Refused? ==>
              r == Refused(401, TsAuth.Authenticate(header, env, codec, now).error)
    ensures r.Refused? && r.code == 500 <==> TsAuth.Authenticate(header, env, codec, now).Done? && !db.online
    ensures r == Refused(401, MsgUnauthorized) <==>
              && TsAuth.Authenticate(header, env, codec, now).Done? && db.online
              && var id := TsAuth.Authenticate(header, env, codec, now).body.userId;
                 forall u | u in db.users :: !(u.id == id && u.status == PgDb.Active)
    ensures r.Refused? ==> r.code in {401, 500}
    ensures r.Done? ==>
              && r.body in db.users && r.body.status == PgDb.Active
              && r.body.id == TsAuth.Authenticate(header, env, codec, now).body.userId
  {
    match TsAuth.Authenticate(header, env, codec, now)
    case Refused(code, error) => Refused(code, error)
    case Done(_, claims) =>
      match PgDb.FindUserById(db, claims.userId)
      case Err(_) => Refused(500, MsgServer)
      case Ok(found) =>
        if found.None? || found.value.status != PgDb.Active then Refused(401, MsgUnauthorized)
        else Done(200, found.value)
  }

  /** Pages may be written by administrators and editors. */
  predicate MayWritePages(u: PgDb.User) {
    u.role in {PgDb.Admin, PgDb.Editor}
  }

  /** Templates may be written by administrators only. */
  predicate MayWriteTemplates(u: PgDb.User) {
    u.role == PgDb.Admin
  }

  /** Every template writer is a page writer, and an ordinary member is
      neither. */
  lemma WriteRightsAreNested(u: PgDb.User)
    ensures MayWriteTemplates(u) ==> MayWritePages(u)
    ensures u.role == PgDb.Member ==> !MayWritePages(u) && !MayWriteTemplates(u)
    ensures MayWritePages(u) && !MayWriteTemplates(u) <==> u.role == PgDb.Editor
  {
  }

  /** In a valid store the gate admits exactly the active owner of the id
      the token names. */
  lemma CallerIsTheTokenOwner(db: PgDb.Db, header: Option<string>, env: Env, codec: Codec, now: nat, k: nat)
    requires PgDb.Valid(db) && db.online && k < |db.users| && db.users[k].status == PgDb.Active
    requires TsAuth.Authenticate(header, env, codec, now).Done?
    requires TsAuth.Authenticate(header, env, codec, now).body.userId == db.users[k].id
    ensures Caller(db, header, env, codec, now) == Done(200, db.users[k])
  {
    var r := Caller(db, header, env, codec, now);
    assert r.Done? by {
      assert db.users[k] in db.users;
    }
    var m :| 0 <= m < |db.users| && db.users[m] == r.body;
    PgDb.UserIdsUnique(db, m, k);
  }
}
