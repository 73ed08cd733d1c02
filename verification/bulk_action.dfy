/** `POST` and `DELETE /api/admin/users/bulk-action`
    (app/api/admin/users/bulk-action/route.js): set one status on many
    users at once, or delete many users with their sessions. The handlers
    check no credentials at all. */
module BulkAction {
  import opened Common
  import opened Tokens
  import LiteDb
  import LoginJs

  const MsgRequired := "Action và danh sách user IDs là bắt buộc"
  const MsgBadAction := "Action không hợp lệ"
  const MsgBadStatus := "Status không hợp lệ"
  const MsgIdsRequired := "Danh sách user IDs là bắt buộc"
  const MsgNoneFound := "Không tìm thấy users để xóa"
  const MsgServer := "Lỗi server, vui lòng thử lại sau"

  /** The actions on the whitelist. */
  datatype Action = Approve | Reject | Ban | Activate | Deactivate

  function ParseAction(s: string): (r: Option<Action>)
    ensures r.Some? <==> s in {"approve", "reject", "ban", "activate", "deactivate"}
  {
    if s == "approve" then Some(Approve)
    else if s == "reject" then Some(Reject)
    else if s == "ban" then Some(Ban)
    else if s == "activate" then Some(Activate)
    else if s == "deactivate" then Some(Deactivate)
    else None
  }

  /** The status each action sets. */
  function Target(a: Action): LiteDb.Status {
    match a
    case Approve => LiteDb.Active
    case Reject => LiteDb.Inactive
    case Ban => LiteDb.Banned
    case Activate => LiteDb.Active
    case Deactivate => LiteDb.Inactive
  }

  function Message(a: Action): string {
    match a
    case Approve => "Duyệt thành công"
    case Reject => "Từ chối thành công"
    case Ban => "Khóa tài khoản thành công"
    case Activate => "Kích hoạt thành công"
    case Deactivate => "Vô hiệu hóa thành công"
  }

  /** No action sets `pending`: the switch's fallback, the only way to it,
      sits behind the whitelist; and so every target passes the status
      whitelist. Two pairs of actions set the same status under different
      messages. */
  lemma TargetsAreValidStatuses(a: Action)
    ensures Target(a) != LiteDb.Pending
    ensures LiteDb.ParseStatus(LiteDb.StatusName(Target(a))) == Some(Target(a))
    ensures Target(Approve) == Target(Activate) && Message(Approve) != Message(Activate)
    ensures Target(Reject) == Target(Deactivate) && Message(Reject) != Message(Deactivate)
  {
    LiteDb.ParseStatusIff(LiteDb.StatusName(Target(a)), Target(a));
    assert Message(Approve)[0] != Message(Activate)[0];
    assert Message(Reject)[0] != Message(Deactivate)[0];
  }

  /** The JSON body; `userIds` is `None` unless it is an array. */
  datatype Request = Request(action: Field, userIds: Option<seq<int>>, status: Field)

  datatype Updated = Updated(message: string, updatedCount: nat, users: seq<Row>)

  /** `SELECT id, email, name, avatar, status, created_at, updated_at`. */
  function StatusRow(u: LiteDb.User): (r: Row)
    ensures r.Keys == {"id", "email", "name", "avatar", "status", "created_at", "updated_at"}
    ensures r["id"] == Int(u.id)
  {
    map["id" := Int(u.id), "email" := Str(u.email), "name" := Str(u.name), "avatar" := Str(u.avatar),
        "status" := if u.status.Some? then Str(LiteDb.StatusName(u.status.value)) else Nil,
        "created_at" := Int(u.createdAt), "updated_at" := Int(u.updatedAt)]
  }

  function Rows<T>(us: seq<T>, f: T -> Row): (r: seq<Row>)
    ensures |r| == |us| && forall k | 0 <= k < |us| :: r[k] == f(us[k])
  {
    seq(|us|, k requires 0 <= k < |us| => f(us[k]))
  }

  predicate HasIds(ids: Option<seq<int>>) {
    ids.Some? && ids.value != []
  }

  /** Each statement binds one `?` per listed id, and SQLite refuses a
      statement with more than `maxVars` of them (SQLITE_MAX_VARIABLE_NUMBER
      of the linked SQLite: 999 before version 3.32, 32766 from then on). */
  predicate WithinVariables(count: nat, maxVars: nat) {
    count <= maxVars
  }

  /** The `POST` handler; `req` is `None` when the body is not JSON. */
  function Apply(db: LiteDb.Db, req: Option<Request>, now: nat, maxVars: nat): (r: (Reply<Updated>, LiteDb.Db))
    ensures !r.0.Done? ==> r.1 == db
    ensures r.0 == Refused(400, MsgRequired) <==>
              req.Some? && (!Present(req.value.action) || !HasIds(req.value.userIds))
    ensures r.0 == Refused(400, MsgBadAction) <==>
              && req.Some? && Present(req.value.action) && HasIds(req.value.userIds)
              && ParseAction(req.value.action.s).None?
    // The status check after the switch never refuses.
    ensures r.0 != Refused(400, MsgBadStatus)
    // The UPDATE binds the status and every id.
    ensures r.0.Done? <==>
              req.Some? && HasIds(req.value.userIds) && Present(req.value.action)
              && ParseAction(req.value.action.s).Some?
              && WithinVariables(|req.value.userIds.value| + 1, maxVars)
    ensures r.0 == Refused(500, MsgServer) <==>
              req.None? ||
              (HasIds(req.value.userIds) && Present(req.value.action) && ParseAction(req.value.action.s).Some?
               && !WithinVariables(|req.value.userIds.value| + 1, maxVars))
    ensures r.0.Done? ==>
              var a := ParseAction(req.value.action.s).value;
              var ids := req.value.userIds.value;
              && r.1 == LiteDb.SetStatusWhereIdIn(db, ids, Target(a), now).0
              // Every row whose id is listed is counted, changed or not.
              && r.0.body.updatedCount == Count(db.users, (u: LiteDb.User) => u.id in ids)
              && r.0.body.message == Message(a) + " " + DecimalString(r.0.body.updatedCount) + " users"
              && r.0.body.users == Rows(LiteDb.UsersWithIdIn(r.1, ids), StatusRow)
  {
    if req.None? then (Refused(500, MsgServer), db)
    else if !Present(req.value.action) || !HasIds(req.value.userIds) then (Refused(400, MsgRequired), db)
    else match ParseAction(req.value.action.s)
      case None => (Refused(400, MsgBadAction), db)
      case Some(a) =>
        var ids := req.value.userIds.value;
        var target := Target(a);
        if LiteDb.ParseStatus(LiteDb.StatusName(target)).None? then (Refused(400, MsgBadStatus), db)
        else if !WithinVariables(|ids| + 1, maxVars) then (Refused(500, MsgServer), db)
        else
          var (db', changes) := LiteDb.SetStatusWhereIdIn(db, ids, target, now);
          (Done(200, Updated(Message(a) + " " + DecimalString(changes) + " users", changes,
                             Rows(LiteDb.UsersWithIdIn(db', ids), StatusRow))), db')
  }

  /** Applying the same action twice leaves the same statuses and reports
      the same count. */
  lemma RepeatIsStable(db: LiteDb.Db, req: Request, now: nat, later: nat, maxVars: nat)
    requires Apply(db, Some(req), now, maxVars).0.Done?
    ensures var r1 := Apply(db, Some(req), now, maxVars);
            var r2 := Apply(r1.1, Some(req), later, maxVars);
            && r2.0.Done? && r2.0.body.updatedCount == r1.0.body.updatedCount
            && |r2.1.users| == |r1.1.users|
            && forall k | 0 <= k < |r1.1.users| :: r2.1.users[k].status == r1.1.users[k].status
  {
    var db1 := Apply(db, Some(req), now, maxVars).1;
    var ids := req.userIds.value;
    var target := Target(ParseAction(req.action.s).value);
    assert db1 == LiteDb.SetStatusWhereIdIn(db, ids, target, now).0;
    assert forall k | 0 <= k < |db.users| :: db1.users[k].id == db.users[k].id;
    CountSameIds(db.users, db1.users, ids);
  }

  /** Changing users' columns other than the id changes no count by id. */
  lemma {:induction false} CountSameIds(a: seq<LiteDb.User>, b: seq<LiteDb.User>, ids: seq<int>)
    requires |a| == |b| && forall k | 0 <= k < |a| :: a[k].id == b[k].id
    ensures Count(a, (u: LiteDb.User) => u.id in ids) == Count(b, (u: LiteDb.User) => u.id in ids)
    decreases |a|
  {
    if a != [] {
      CountSameIds(a[1..], b[1..], ids);
    }
  }

  /** A user banned in bulk, in a request SQLite can bind, is refused at
      sign-in with the ban message, even with the right password. */
  lemma BannedUserCannotLogIn(db: LiteDb.Db, ids: seq<int>, now: nat, maxVars: nat, k: nat, password: string,
                              env: Env, matches: (string, string) -> bool, codec: Codec, later: nat)
    requires LiteDb.Valid(db) && ids != [] && |ids| < maxVars && k < |db.users| && db.users[k].id in ids
    requires db.users[k].email != "" && password != ""
    requires matches(password, db.users[k].password)
    ensures var db' := Apply(db, Some(Request(Text("ban"), Some(ids), Missing)), now, maxVars).1;
            LoginJs.Login(db', Some(LoginJs.Request(Text(db.users[k].email), Text(password))),
                          env, matches, codec, later).0
            == Refused(403, LoginJs.MsgBanned)
  {
    var db' := Apply(db, Some(Request(Text("ban"), Some(ids), Missing)), now, maxVars).1;
    BanSetsBanned(db, ids, now, maxVars);
    LiteDb.StatusChangeKeepsLookup(db, ids, LiteDb.Banned, now, k);
    LoginJs.GateAfterPassword(db', db.users[k].email, password, env, matches, codec, later);
  }

  lemma BanSetsBanned(db: LiteDb.Db, ids: seq<int>, now: nat, maxVars: nat)
    requires ids != [] && |ids| < maxVars
    ensures Apply(db, Some(Request(Text("ban"), Some(ids), Missing)), now, maxVars).1
            == LiteDb.SetStatusWhereIdIn(db, ids, LiteDb.Banned, now).0
  {
    BanParses();
    AppliesTarget(db, "ban", Ban, ids, Missing, now, maxVars);
  }

  /** A whitelisted action on a non-empty id list sets its status, unless
      the list is too long to bind, when nothing changes. */
  lemma AppliesTarget(db: LiteDb.Db, action: string, a: Action, ids: seq<int>, status: Field, now: nat,
                      maxVars: nat)
    requires action != "" && ParseAction(action) == Some(a) && ids != []
    ensures Apply(db, Some(Request(Text(action), Some(ids), status)), now, maxVars).1
            == if |ids| < maxVars then LiteDb.SetStatusWhereIdIn(db, ids, Target(a), now).0 else db
  {
    assert Present(Text(action)) && HasIds(Some(ids));
  }

  lemma BanParses()
    ensures ParseAction("ban") == Some(Ban)
  {
    assert "ban" != "approve" && "ban" != "reject";
  }

  // ---------------------------------------------------------------------
  // DELETE
  // ---------------------------------------------------------------------

  datatype DeleteRequest = DeleteRequest(userIds: Option<seq<int>>)

  datatype Deleted = Deleted(message: string, deletedCount: nat, deletedUsers: seq<Row>)

  /** `SELECT id, email`. */
  function IdRow(u: LiteDb.User): (r: Row)
    ensures r.Keys == {"id", "email"}
  {
    map["id" := Int(u.id), "email" := Str(u.email)]
  }

  /** The `DELETE` handler: the listed users' sessions, then the users. */
  function Remove(db: LiteDb.Db, req: Option<DeleteRequest>, maxVars: nat): (r: (Reply<Deleted>, LiteDb.Db))
    ensures !r.0.Done? ==> r.1 == db
    ensures r.0 == Refused(400, MsgIdsRequired) <==> req.Some? && !HasIds(req.value.userIds)
    // The first SELECT binds every id; so do the two DELETEs.
    ensures r.0 == Refused(500, MsgServer) <==>
              req.None? || (HasIds(req.value.userIds) && !WithinVariables(|req.value.userIds.value|, maxVars))
    ensures r.0 == Refused(404, MsgNoneFound) <==>
              && req.Some? && HasIds(req.value.userIds) && WithinVariables(|req.value.userIds.value|, maxVars)
              && LiteDb.UsersWithIdIn(db, req.value.userIds.value) == []
    ensures r.0.Done? <==>
              && req.Some? && HasIds(req.value.userIds) && WithinVariables(|req.value.userIds.value|, maxVars)
              && LiteDb.UsersWithIdIn(db, req.value.userIds.value) != []
    ensures r.0.Done? ==>
              var ids := req.value.userIds.value;
              && r.0.body.deletedUsers == Rows(LiteDb.UsersWithIdIn(db, ids), IdRow)
              // The count reported is the number of users listed as deleted.
              && r.0.body.deletedCount == |r.0.body.deletedUsers| > 0
              && r.0.body.message == "Đã xóa " + DecimalString(r.0.body.deletedCount) + " users thành công"
              // Exactly the listed users are gone, with all their sessions.
              && (forall u | u in r.1.users :: u in db.users && u.id !in ids)
              && (forall u | u in db.users && u.id !in ids :: u in r.1.users)
              && (forall s | s in r.1.sessions :: s in db.sessions && s.userId !in ids)
              && (forall s | s in db.sessions && s.userId !in ids :: s in r.1.sessions)
  {
    if req.None? then (Refused(500, MsgServer), db)
    else if !HasIds(req.value.userIds) then (Refused(400, MsgIdsRequired), db)
    else
      var ids := req.value.userIds.value;
      var doomed := LiteDb.UsersWithIdIn(db, ids);
      if !WithinVariables(|ids|, maxVars) then (Refused(500, MsgServer), db)
      else if doomed == [] then (Refused(404, MsgNoneFound), db)
      else
        var db1 := LiteDb.DeleteSessionsOfUsers(db, ids);
        var (db2, changes) := LiteDb.DeleteUsersWithIdIn(db1, ids);
        FilterPartition(db.users, (u: LiteDb.User) => u.id in ids, (u: LiteDb.User) => u.id !in ids);
        (Done(200, Deleted("Đã xóa " + DecimalString(changes) + " users thành công", changes,
                           Rows(doomed, IdRow))), db2)
  }

  /** Deleting by ids no user carries changes nothing and answers 404, or
      500 when the list is too long to bind. */
  lemma UnknownIdsDeleteNothing(db: LiteDb.Db, ids: seq<int>, maxVars: nat)
    requires ids != [] && forall u | u in db.users :: u.id !in ids
    ensures Remove(db, Some(DeleteRequest(Some(ids))), maxVars)
            == (if |ids| <= maxVars then Refused(404, MsgNoneFound) else Refused(500, MsgServer), db)
  {
  }
}
