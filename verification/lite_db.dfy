/** The file database behind the `.js` handlers: the `users` and `sessions`
    tables of scripts/setup-db.js, each a sequence of rows in rowid order,
    with the statements the handlers run against them. */
module LiteDb {
  import opened Common

  /** The statuses the `users.status` CHECK constraint admits. */
  datatype Status = Active | Inactive | Pending | Banned

  function StatusName(s: Status): string {
    match s
    case Active => "active"
    case Inactive => "inactive"
    case Pending => "pending"
    case Banned => "banned"
  }

  /** `CHECK (status IN ('active', 'inactive', 'pending', 'banned'))`. */
  function ParseStatus(name: string): Option<Status> {
    if name == "active" then Some(Active)
    else if name == "inactive" then Some(Inactive)
    else if name == "pending" then Some(Pending)
    else if name == "banned" then Some(Banned)
    else None
  }

  /** The constraint admits exactly the four status names, each naming one
      status. */
  lemma ParseStatusIff(name: string, s: Status)
    ensures ParseStatus(name) == Some(s) <==> StatusName(s) == name
  {
  }

  /** A `users` row. `status` is `None` for SQL NULL, which the CHECK
      constraint lets through. */
  datatype User = User(id: nat, email: string, password: string, name: string, avatar: string,
                       status: Option<Status>, createdAt: nat, updatedAt: nat)

  /** A `sessions` row. */
  datatype Session = Session(id: nat, userId: nat, refreshToken: string, expiresAt: nat, createdAt: nat)

  /** The database: both tables, and the next AUTOINCREMENT values. */
  datatype Db = Db(users: seq<User>, sessions: seq<Session>, nextUserId: nat, nextSessionId: nat)

  /** The schema's invariants: AUTOINCREMENT ids, strictly increasing in
      rowid order and below the next value; UNIQUE `users.email`; UNIQUE
      `sessions.refresh_token`. */
  ghost predicate Valid(db: Db) {
    && db.nextUserId > 0 && db.nextSessionId > 0
    && (forall i | 0 <= i < |db.users| :: 0 < db.users[i].id < db.nextUserId)
    && IdsAscending(db.users)
    && (forall i, j | 0 <= i < j < |db.users| :: db.users[i].email != db.users[j].email)
    && (forall i | 0 <= i < |db.sessions| :: 0 < db.sessions[i].id < db.nextSessionId)
    && (forall i, j | 0 <= i < j < |db.sessions| :: db.sessions[i].id < db.sessions[j].id)
    && (forall i, j | 0 <= i < j < |db.sessions| :: db.sessions[i].refreshToken != db.sessions[j].refreshToken)
  }

  /** Ids grow along the table, as AUTOINCREMENT assigns them. */
  predicate IdsAscending(users: seq<User>) {
    forall i, j | 0 <= i < j < |users| :: users[i].id < users[j].id
  }

  predicate HasEmail(db: Db, email: string) {
    exists i | 0 <= i < |db.users| :: db.users[i].email == email
  }

  /** `SELECT ... FROM users WHERE email = ?` read with `get`: the first
      matching row, whatever its status. */
  function UserWithEmail(db: Db, email: string): (r: Option<User>)
    ensures r.Some? ==> r.value in db.users && r.value.email == email
    ensures r.None? <==> !HasEmail(db, email)
  {
    var i := FirstIndex(db.users, (u: User) => u.email == email);
    if i.Some? then Some(db.users[i.value]) else None
  }

  /** `SELECT ... FROM users WHERE id = ?` read with `get`, whatever the
      status. */
  function UserWithId(db: Db, id: int): (r: Option<User>)
    ensures r.Some? ==> r.value in db.users && r.value.id == id
    ensures r.None? ==> forall u | u in db.users :: u.id != id
  {
    var i := FirstIndex(db.users, (u: User) => u.id == id);
    if i.Some? then Some(db.users[i.value]) else None
  }

  /** In a valid database the lookup by id finds the one row with that id. */
  lemma UserWithIdFinds(db: Db, k: nat)
    requires IdsAscending(db.users) && k < |db.users|
    ensures UserWithId(db, db.users[k].id) == Some(db.users[k])
  {
    var i := FirstIndex(db.users, (u: User) => u.id == db.users[k].id);
    assert i.Some? && i.value <= k;
    assert forall m | 0 <= m < k :: db.users[m].id < db.users[k].id;
  }

  /** `INSERT INTO users (email, password, name, avatar, status)`: fails on
      a duplicate e-mail (UNIQUE) or a status the CHECK constraint rejects;
      otherwise appends one row with the next id. */
  function InsertUser(db: Db, email: string, password: string, name: string, avatar: string,
                      status: Option<string>, now: nat): (r: Result<(Db, User)>)
    ensures r.Ok? <==> !HasEmail(db, email) && (status.None? || ParseStatus(status.value).Some?)
    ensures r.Ok? ==>
      var (db', u) := r.value;
      && db'.users == db.users + [u] && db'.sessions == db.sessions
      && u.id == db.nextUserId && u.email == email && u.password == password
      && u.name == name && u.avatar == avatar
      && u.status == (if status.Some? then ParseStatus(status.value) else None)
    ensures r.Ok? && Valid(db) ==> Valid(r.value.0)
  {
    if status.Some? && ParseStatus(status.value).None? then Err(CheckViolation)
    else if HasEmail(db, email) then Err(UniqueViolation)
    else
      var u := User(db.nextUserId, email, password, name, avatar,
                    if status.Some? then ParseStatus(status.value) else None, now, now);
      Ok((db.(users := db.users + [u], nextUserId := db.nextUserId + 1), u))
  }

  predicate HasRefreshToken(db: Db, token: string) {
    exists i | 0 <= i < |db.sessions| :: db.sessions[i].refreshToken == token
  }

  /** `INSERT INTO sessions (user_id, refresh_token, expires_at)`: fails when
      the token is already stored (UNIQUE); otherwise appends one row. The
      file database does not enforce the foreign key to `users`. */
  function InsertSession(db: Db, userId: nat, token: string, expiresAt: nat, now: nat): (r: Result<Db>)
    ensures r.Ok? <==> !HasRefreshToken(db, token)
    ensures r.Ok? ==> (r.value.users == db.users &&
                       r.value.sessions == db.sessions + [Session(db.nextSessionId, userId, token, expiresAt, now)])
    ensures r.Ok? && Valid(db) ==> Valid(r.value)
  {
    if HasRefreshToken(db, token) then Err(UniqueViolation)
    else
      Ok(db.(sessions := db.sessions + [Session(db.nextSessionId, userId, token, expiresAt, now)],
             nextSessionId := db.nextSessionId + 1))
  }

  /** `UPDATE users SET status = ?, updated_at = now WHERE id IN (ids)`,
      returning the new database and the number of changed rows. */
  function SetStatusWhereIdIn(db: Db, ids: seq<int>, status: Status, now: nat): (r: (Db, nat))
    ensures |r.0.users| == |db.users| && r.0.sessions == db.sessions
    ensures forall i | 0 <= i < |db.users| ::
      r.0.users[i] == if db.users[i].id in ids then db.users[i].(status := Some(status), updatedAt := now)
                      else db.users[i]
    ensures r.1 == Count(db.users, (u: User) => u.id in ids)
    ensures Valid(db) ==> Valid(r.0)
  {
    var users := seq(|db.users|, i requires 0 <= i < |db.users| =>
                       if db.users[i].id in ids then db.users[i].(status := Some(status), updatedAt := now)
                       else db.users[i]);
    SameKeysKeepValid(db, users);
    (db.(users := users), Count(db.users, (u: User) => u.id in ids))
  }

  /** Rewriting users' other columns in place keeps the invariants, which
      speak only of ids and e-mails. */
  lemma SameKeysKeepValid(db: Db, users: seq<User>)
    requires |users| == |db.users|
    requires forall i | 0 <= i < |users| :: users[i].id == db.users[i].id && users[i].email == db.users[i].email
    ensures Valid(db) ==> Valid(db.(users := users))
  {
  }

  /** A status change keeps every e-mail where it was, so the lookup by
      e-mail finds the same row, with its new status. */
  lemma StatusChangeKeepsLookup(db: Db, ids: seq<int>, status: Status, now: nat, k: nat)
    requires Valid(db) && k < |db.users|
    ensures var db' := SetStatusWhereIdIn(db, ids, status, now).0;
            UserWithEmail(db', db.users[k].email) == Some(db'.users[k])
  {
    var db' := SetStatusWhereIdIn(db, ids, status, now).0;
    var email := db.users[k].email;
    var j := FirstIndex(db'.users, (u: User) => u.email == email);
    assert db'.users[k].email == email;
    assert j.Some? && j.value <= k;
    assert db.users[j.value].email == email;
  }

  /** `SELECT ... FROM users WHERE id IN (ids)`, in rowid order. */
  function UsersWithIdIn(db: Db, ids: seq<int>): (r: seq<User>)
    ensures forall u | u in r :: u in db.users && u.id in ids
    ensures forall u | u in db.users && u.id in ids :: u in r
  {
    Filter(db.users, (u: User) => u.id in ids)
  }

  /** `DELETE FROM sessions WHERE user_id IN (ids)`. */
  function DeleteSessionsOfUsers(db: Db, ids: seq<int>): (r: Db)
    ensures r.users == db.users
    ensures forall s | s in r.sessions :: s in db.sessions && s.userId !in ids
    ensures forall s | s in db.sessions && s.userId !in ids :: s in r.sessions
  {
    db.(sessions := Filter(db.sessions, (s: Session) => s.userId !in ids))
  }

  /** `DELETE FROM users WHERE id IN (ids)`, returning the number of
      deleted rows. */
  function DeleteUsersWithIdIn(db: Db, ids: seq<int>): (r: (Db, nat))
    ensures r.0.sessions == db.sessions
    ensures forall u | u in r.0.users :: u in db.users && u.id !in ids
    ensures forall u | u in db.users && u.id !in ids :: u in r.0.users
    ensures r.1 == |db.users| - |r.0.users|
  {
    var kept := Filter(db.users, (u: User) => u.id !in ids);
    (db.(users := kept), |db.users| - |kept|)
  }
}
