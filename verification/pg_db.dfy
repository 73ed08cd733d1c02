/** The PostgreSQL store behind the `.ts` handlers (lib/postgresql.js): the
    `users`, `templates` and `pages` tables of scripts/setup-postgresql.js,
    each a sequence of rows in insertion order, and the query functions the
    handlers call. A store that cannot be reached makes every query fail. */
module PgDb {
  import opened Common
  import opened Sorting

  // ---------------------------------------------------------------------
  // Schema
  // ---------------------------------------------------------------------

  /** `role` values admitted by the CHECK constraint; `Member` is `'user'`. */
  datatype Role = Admin | Editor | Member

  function RoleName(r: Role): string {
    match r
    case Admin => "admin"
    case Editor => "editor"
    case Member => "user"
  }

  function ParseRole(name: string): Option<Role> {
    if name == "admin" then Some(Admin)
    else if name == "editor" then Some(Editor)
    else if name == "user" then Some(Member)
    else None
  }

  lemma ParseRoleIff(name: string, r: Role)
    ensures ParseRole(name) == Some(r) <==> RoleName(r) == name
  {
  }

  /** `users.status` values admitted by the CHECK constraint. */
  datatype Status = Active | Inactive | Deleted

  function StatusName(s: Status): string {
    match s
    case Active => "active"
    case Inactive => "inactive"
    case Deleted => "deleted"
  }

  /** `pages.status` values admitted by the CHECK constraint. */
  datatype PageStatus = Draft | Published | Archived

  function PageStatusName(s: PageStatus): string {
    match s
    case Draft => "draft"
    case Published => "published"
    case Archived => "archived"
  }

  function ParsePageStatus(name: string): Option<PageStatus> {
    if name == "draft" then Some(Draft)
    else if name == "published" then Some(Published)
    else if name == "archived" then Some(Archived)
    else None
  }

  lemma ParsePageStatusIff(name: string, s: PageStatus)
    ensures ParsePageStatus(name) == Some(s) <==> PageStatusName(s) == name
  {
  }

  datatype User = User(id: nat, name: string, email: string, passwordHash: string, role: Role,
                       status: Status, avatarUrl: Option<string>, lastLogin: Option<nat>,
                       createdAt: nat, updatedAt: nat)

  /** A `templates` row; `tags` is the stored JSONB value as the driver
      returns it (already parsed). */
  datatype Template = Template(id: nat, name: string, description: Option<string>, category: string,
                               thumbnail: Option<string>, previewUrl: Option<string>, content: string,
                               tags: Value, isActive: bool, createdAt: nat, updatedAt: nat)

  /** A `pages` row. The columns no query writes (`slug`, the `meta_*`
      columns, `featured_image`, `published_at`) are always NULL. A NULL
      status passes the CHECK constraint. */
  datatype Page = Page(id: nat, title: string, content: string, templateId: Option<nat>,
                       authorId: nat, status: Option<PageStatus>, createdAt: nat, updatedAt: nat)

  /** `VARCHAR(255)`: the users' name, e-mail and password hash, the
      templates' name and the pages' title. */
  const VarcharLimit := 255
  /** `VARCHAR(100)`: the templates' category. */
  const CategoryLimit := 100
  /** `VARCHAR(50)`: the users' role and the pages' status. PostgreSQL casts a
      value to the column's type before it tests the CHECK constraint, so a
      value too long for this column fails as too long, not as unlisted. */
  const ShortLimit := 50

  /** PostgreSQL's UTF-8 text cannot hold U+0000: a statement with a text
      parameter containing it fails before it runs. */
  predicate Bindable(s: string) {
    forall k | 0 <= k < |s| :: s[k] != '\0'
  }

  /** Storing a string into a `VARCHAR(n)` column fails only when some
      character past the n-th is not a space; excess spaces are cut off. */
  predicate Fits(s: string, n: nat) {
    forall k | n <= k < |s| :: s[k] == ' '
  }

  /** The value a `VARCHAR(n)` column holds for a string that fits: the
      string without the spaces past its n-th character. */
  function Clip(s: string, n: nat): (r: string)
    ensures |r| <= n && r <= s
    ensures r == s <==> |s| <= n
    ensures Fits(s, n) ==> forall k | |r| <= k < |s| :: s[k] == ' '
  {
    if |s| <= n then s else s[..n]
  }

  /** A prefix of a string without U+0000 has none either. */
  lemma ClipBindable(s: string, n: nat)
    requires Bindable(s)
    ensures Bindable(Clip(s, n))
  {
  }

  /** `createUser` and `updateUser` bind these as text: the name, e-mail,
      password hash and role. */
  predicate UserParamsBind(name: string, email: string, passwordHash: string, role: string) {
    Bindable(name) && Bindable(email) && Bindable(passwordHash) && Bindable(role)
  }

  predicate UserColumnsFit(name: string, email: string, passwordHash: string, role: string) {
    && Fits(name, VarcharLimit) && Fits(email, VarcharLimit) && Fits(passwordHash, VarcharLimit)
    && Fits(role, ShortLimit)
  }

  /** A stored user row: its `VARCHAR(255)` values within the length, and
      its text free of U+0000. */
  predicate UserFits(u: User) {
    && |u.name| <= VarcharLimit && |u.email| <= VarcharLimit && |u.passwordHash| <= VarcharLimit
    && Bindable(u.name) && Bindable(u.email) && Bindable(u.passwordHash)
  }

  predicate AllUsersFit(users: seq<User>) {
    forall k | 0 <= k < |users| :: UserFits(users[k])
  }

  /** `createTemplate` binds the six text columns as text, and the tags as
      `JSON.stringify(tags)`, which must be accepted as `jsonb`
      (`jsonb(tags).Some?`, see CreateTemplate). */
  predicate TemplateParamsBind(name: string, description: Option<string>, category: string,
                               thumbnail: Option<string>, previewUrl: Option<string>, content: string,
                               tags: Value, jsonb: Value -> Option<Value>) {
    && Bindable(name) && Bindable(category) && Bindable(content)
    && (description.Some? ==> Bindable(description.value))
    && (thumbnail.Some? ==> Bindable(thumbnail.value))
    && (previewUrl.Some? ==> Bindable(previewUrl.value))
    && jsonb(tags).Some?
  }

  predicate TemplateColumnsFit(name: string, category: string) {
    Fits(name, VarcharLimit) && Fits(category, CategoryLimit)
  }

  /** Everything `createTemplate` needs of its arguments. */
  predicate TemplateAccepted(name: string, description: Option<string>, category: string,
                             thumbnail: Option<string>, previewUrl: Option<string>, content: string,
                             tags: Value, jsonb: Value -> Option<Value>) {
    TemplateParamsBind(name, description, category, thumbnail, previewUrl, content, tags, jsonb)
    && TemplateColumnsFit(name, category)
  }

  /** `createPage` binds the title, content and status as text. */
  predicate PageParamsBind(title: string, content: string, status: Option<string>) {
    Bindable(title) && Bindable(content) && (status.Some? ==> Bindable(status.value))
  }

  /** The title and the status must fit their columns. */
  predicate PageColumnsFit(title: string, status: Option<string>) {
    Fits(title, VarcharLimit) && (status.Some? ==> Fits(status.value, ShortLimit))
  }

  predicate PageAccepted(title: string, content: string, status: Option<string>) {
    PageParamsBind(title, content, status) && PageColumnsFit(title, status)
  }

  /** The store: reachable or not, the three tables, and the next SERIAL
      values. */
  datatype Db = Db(online: bool, users: seq<User>, templates: seq<Template>, pages: seq<Page>,
                   nextUserId: nat, nextTemplateId: nat, nextPageId: nat)

  predicate DistinctEmails(users: seq<User>) {
    forall i, j | 0 <= i < j < |users| :: users[i].email != users[j].email
  }

  predicate HasTemplate(db: Db, id: int) {
    exists i | 0 <= i < |db.templates| :: db.templates[i].id == id
  }

  predicate HasUser(db: Db, id: int) {
    exists i | 0 <= i < |db.users| :: db.users[i].id == id
  }

  ghost predicate UsersValid(db: Db) {
    && db.nextUserId > 0
    && (forall i | 0 <= i < |db.users| :: 0 < db.users[i].id < db.nextUserId)
    && (forall i, j | 0 <= i < j < |db.users| :: db.users[i].id < db.users[j].id)
    && DistinctEmails(db.users)
    && AllUsersFit(db.users)
  }

  ghost predicate TemplatesValid(db: Db) {
    && db.nextTemplateId > 0
    && (forall i | 0 <= i < |db.templates| :: 0 < db.templates[i].id < db.nextTemplateId)
    && (forall i, j | 0 <= i < j < |db.templates| :: db.templates[i].id < db.templates[j].id)
    && (forall i | 0 <= i < |db.templates| ::
          |db.templates[i].name| <= VarcharLimit && |db.templates[i].category| <= CategoryLimit)
  }

  ghost predicate PagesValid(db: Db) {
    && db.nextPageId > 0
    && (forall i | 0 <= i < |db.pages| :: 0 < db.pages[i].id < db.nextPageId)
    && (forall i, j | 0 <= i < j < |db.pages| :: db.pages[i].id < db.pages[j].id)
    && (forall i | 0 <= i < |db.pages| :: |db.pages[i].title| <= VarcharLimit)
  }

  /** The `pages` foreign keys. */
  ghost predicate LinksValid(db: Db) {
    && (forall p | p in db.pages :: HasUser(db, p.authorId))
    && (forall p | p in db.pages && p.templateId.Some? :: HasTemplate(db, p.templateId.value))
  }

  /** The schema's invariants: SERIAL ids, increasing in insertion order and
      below the next value; UNIQUE `users.email`; the `VARCHAR(n)` lengths;
      no U+0000 in the users' text; the `pages` foreign keys. */
  ghost predicate Valid(db: Db) {
    UsersValid(db) && TemplatesValid(db) && PagesValid(db) && LinksValid(db)
  }

  /** In a valid store an id names at most one user. */
  lemma UserIdsUnique(db: Db, i: nat, j: nat)
    requires Valid(db) && i < |db.users| && j < |db.users| && db.users[i].id == db.users[j].id
    ensures i == j
  {
  }

  // ---------------------------------------------------------------------
  // Result rows
  // ---------------------------------------------------------------------

  /** `SELECT *` on `users`. */
  function UserRow(u: User): Row {
    map["id" := Int(u.id), "name" := Str(u.name), "email" := Str(u.email),
        "password_hash" := Str(u.passwordHash), "role" := Str(RoleName(u.role)),
        "status" := Str(StatusName(u.status)), "avatar_url" := OptStr(u.avatarUrl),
        "last_login" := OptInt(u.lastLogin), "created_at" := Int(u.createdAt),
        "updated_at" := Int(u.updatedAt)]
  }

  /** The columns `findUserById` and `getAllUsers` select. */
  const ProfileColumns := {"id", "name", "email", "role", "status", "created_at", "updated_at"}
  /** The columns `createUser` returns. */
  const CreatedColumns := {"id", "name", "email", "role", "status", "created_at"}
  /** The columns `updateUser` returns. */
  const UpdatedColumns := {"id", "name", "email", "role", "status", "updated_at"}

  function ProfileRow(u: User): Row {
    Select(UserRow(u), ProfileColumns)
  }

  /** No projection the queries return for a user, other than `SELECT *`,
      carries the password hash. */
  lemma ProjectionsHidePassword(u: User)
    ensures "password_hash" in UserRow(u)
    ensures "password_hash" !in ProfileRow(u)
    ensures "password_hash" !in Select(UserRow(u), CreatedColumns)
    ensures "password_hash" !in Select(UserRow(u), UpdatedColumns)
    ensures ProfileRow(u).Keys == ProfileColumns
  {
  }

  /** `SELECT *` on `pages`, the never-written columns as NULL. */
  function PageRow(p: Page): Row {
    map["id" := Int(p.id), "title" := Str(p.title), "slug" := Nil, "content" := Str(p.content),
        "template_id" := OptInt(p.templateId), "author_id" := Int(p.authorId),
        "status" := if p.status.Some? then Str(PageStatusName(p.status.value)) else Nil,
        "meta_title" := Nil, "meta_description" := Nil, "meta_keywords" := Nil,
        "featured_image" := Nil, "published_at" := Nil,
        "created_at" := Int(p.createdAt), "updated_at" := Int(p.updatedAt)]
  }

  /** `SELECT *` on `templates`. */
  function TemplateRow(t: Template): Row {
    map["id" := Int(t.id), "name" := Str(t.name), "description" := OptStr(t.description),
        "category" := Str(t.category), "thumbnail" := OptStr(t.thumbnail),
        "preview_url" := OptStr(t.previewUrl), "content" := Str(t.content), "tags" := t.tags,
        "is_active" := Json(if t.isActive then "true" else "false"),
        "created_at" := Int(t.createdAt), "updated_at" := Int(t.updatedAt)]
  }

  // ---------------------------------------------------------------------
  // userQueries
  // ---------------------------------------------------------------------

  predicate IsActiveWithEmail(u: User, email: string) {
    u.email == email && u.status == Active
  }

  /** `findUserByEmail`: `WHERE email = $1 AND status = 'active'`, first
      row; an e-mail holding U+0000 cannot be bound. */
  function FindUserByEmail(db: Db, email: string): (r: Result<Option<User>>)
    ensures r.Err? <==> !db.online || !Bindable(email)
    ensures r.Ok? && r.value.Some? ==> r.value.value in db.users && IsActiveWithEmail(r.value.value, email)
    ensures r.Ok? && r.value.None? ==> forall u | u in db.users :: !IsActiveWithEmail(u, email)
  {
    if !db.online then Err(Unreachable)
    else if !Bindable(email) then Err(BadEncoding)
    else
      var i := FirstIndex(db.users, (u: User) => IsActiveWithEmail(u, email));
      Ok(if i.Some? then Some(db.users[i.value]) else None)
  }

  /** `findUserById`: `WHERE id = $1 AND status = 'active'`, first row. */
  function FindUserById(db: Db, id: int): (r: Result<Option<User>>)
    ensures r.Err? <==> !db.online
    ensures r.Ok? && r.value.Some? ==> r.value.value in db.users && r.value.value.id == id && r.value.value.status == Active
    ensures r.Ok? && r.value.None? ==> forall u | u in db.users :: !(u.id == id && u.status == Active)
  {
    if !db.online then Err(Unreachable)
    else
      var i := FirstIndex(db.users, (u: User) => u.id == id && u.status == Active);
      Ok(if i.Some? then Some(db.users[i.value]) else None)
  }

  predicate HasEmail(db: Db, email: string) {
    exists i | 0 <= i < |db.users| :: db.users[i].email == email
  }

  /** `role = 'user'` in the destructuring: the default replaces only an
      absent role. */
  function RoleOrDefault(role: Option<string>): string {
    if role.Some? then role.value else "user"
  }

  /** Rewriting user rows without touching their ids, keeping e-mails
      distinct and every value within its column, preserves the
      invariants. */
  lemma UserEditKeepsValid(db: Db, users': seq<User>)
    requires |users'| == |db.users| && forall k | 0 <= k < |db.users| :: users'[k].id == db.users[k].id
    requires DistinctEmails(db.users) ==> DistinctEmails(users')
    requires AllUsersFit(db.users) ==> AllUsersFit(users')
    ensures Valid(db) ==> Valid(db.(users := users'))
  {
    var db' := db.(users := users');
    if Valid(db) {
      forall p | p in db.pages ensures HasUser(db', p.authorId) {
        var i :| 0 <= i < |db.users| && db.users[i].id == p.authorId;
        assert db'.users[i].id == p.authorId;
      }
    }
  }

  /** Appending a user with the next id, a new e-mail and values within
      their columns and free of U+0000 preserves the invariants. */
  lemma AppendUserKeepsValid(db: Db, u: User)
    requires u.id == db.nextUserId && !HasEmail(db, u.email) && UserFits(u)
    ensures Valid(db) ==> Valid(db.(users := db.users + [u], nextUserId := db.nextUserId + 1))
  {
    var db' := db.(users := db.users + [u], nextUserId := db.nextUserId + 1);
    if Valid(db) {
      forall p | p in db.pages ensures HasUser(db', p.authorId) {
        var i :| 0 <= i < |db.users| && db.users[i].id == p.authorId;
        assert db'.users[i].id == p.authorId;
      }
      forall i, j | 0 <= i < j < |db'.users| ensures db'.users[i].email != db'.users[j].email {
        if j == |db.users| {
          assert db'.users[i] == db.users[i];
        }
      }
    }
  }

  /** The row `createUser` inserts: the `VARCHAR(255)` values clipped. */
  function NewUser(db: Db, name: string, email: string, passwordHash: string, role: Role, now: nat): User {
    User(db.nextUserId, Clip(name, VarcharLimit), Clip(email, VarcharLimit), Clip(passwordHash, VarcharLimit),
         role, Active, None, None, now, now)
  }

  /** `createUser`: inserts with status `'active'` and role `'user'` unless
      one is given. It fails on a parameter holding U+0000, then on a name,
      e-mail, hash or role with a character that is not a space past its
      column's length, a role the CHECK constraint rejects, or a stored e-mail held
      by any user, whatever its status (UNIQUE). */
  function CreateUser(db: Db, name: string, email: string, passwordHash: string,
                      role: Option<string>, now: nat): (r: Result<(Db, Row)>)
    ensures r.Ok? <==>
              && db.online && UserParamsBind(name, email, passwordHash, RoleOrDefault(role))
              && UserColumnsFit(name, email, passwordHash, RoleOrDefault(role))
              && ParseRole(RoleOrDefault(role)).Some? && !HasEmail(db, Clip(email, VarcharLimit))
    ensures r == Err(BadEncoding) <==> db.online && !UserParamsBind(name, email, passwordHash, RoleOrDefault(role))
    ensures r == Err(TooLong) <==>
              && db.online && UserParamsBind(name, email, passwordHash, RoleOrDefault(role))
              && !UserColumnsFit(name, email, passwordHash, RoleOrDefault(role))
    ensures r.Ok? ==>
      var u := NewUser(db, name, email, passwordHash, ParseRole(RoleOrDefault(role)).value, now);
      && r.value.0 == db.(users := db.users + [u], nextUserId := db.nextUserId + 1)
      && r.value.1 == Select(UserRow(u), CreatedColumns)
    ensures r.Ok? && Valid(db) ==> Valid(r.value.0)
  {
    if !db.online then Err(Unreachable)
    else if !UserParamsBind(name, email, passwordHash, RoleOrDefault(role)) then Err(BadEncoding)
    else if !UserColumnsFit(name, email, passwordHash, RoleOrDefault(role)) then Err(TooLong)
    else if ParseRole(RoleOrDefault(role)).None? then Err(CheckViolation)
    else if HasEmail(db, Clip(email, VarcharLimit)) then Err(UniqueViolation)
    else
      var u := NewUser(db, name, email, passwordHash, ParseRole(RoleOrDefault(role)).value, now);
      ClipBindable(name, VarcharLimit);
      ClipBindable(email, VarcharLimit);
      ClipBindable(passwordHash, VarcharLimit);
      AppendUserKeepsValid(db, u);
      Ok((db.(users := db.users + [u], nextUserId := db.nextUserId + 1), Select(UserRow(u), CreatedColumns)))
  }

  /** The row `updateUser` writes for a matching user. */
  function Updated(u: User, name: string, email: string, role: Role, now: nat): User {
    u.(name := name, email := email, role := role, updatedAt := now)
  }

  predicate Matches(u: User, id: int) {
    u.id == id && u.status == Active
  }

  /** Every active row with id `id` rewritten, the others kept. */
  function UpdateRows(users: seq<User>, id: int, name: string, email: string, role: Role, now: nat)
    : (r: seq<User>)
    ensures |r| == |users|
    ensures forall k | 0 <= k < |users| ::
      r[k] == if Matches(users[k], id) then Updated(users[k], name, email, role, now) else users[k]
  {
    seq(|users|, k requires 0 <= k < |users| =>
          if Matches(users[k], id) then Updated(users[k], name, email, role, now) else users[k])
  }

  predicate AnyMatch(db: Db, id: int) {
    exists k | 0 <= k < |db.users| :: Matches(db.users[k], id)
  }

  /** `updateUser`: `SET name, email, role, updated_at WHERE id = $4 AND
      status = 'active'`, returning the first updated row, if any. A text
      parameter holding U+0000 fails the statement; so does, when some row
      matches, a name, e-mail or role with a character that is not a space
      past its column's length, a role the CHECK constraint rejects or an e-mail
      that another row holds (UNIQUE). */
  function UpdateUser(db: Db, id: int, name: string, email: string, role: string, now: nat)
    : (r: Result<(Db, Option<Row>)>)
    ensures r.Ok? <==>
              && db.online && Bindable(name) && Bindable(email) && Bindable(role)
              && (AnyMatch(db, id) ==>
                    Fits(name, VarcharLimit) && Fits(email, VarcharLimit) && Fits(role, ShortLimit)
                    && ParseRole(role).Some?
                    && DistinctEmails(UpdateRows(db.users, id, Clip(name, VarcharLimit), Clip(email, VarcharLimit),
                                                 ParseRole(role).value, now)))
    ensures r == Err(TooLong) <==>
              && db.online && Bindable(name) && Bindable(email) && Bindable(role) && AnyMatch(db, id)
              && !(Fits(name, VarcharLimit) && Fits(email, VarcharLimit) && Fits(role, ShortLimit))
    // Only the matching rows change, and in them only the four columns.
    ensures r.Ok? && AnyMatch(db, id) ==>
              r.value.0 == db.(users := UpdateRows(db.users, id, Clip(name, VarcharLimit), Clip(email, VarcharLimit),
                                                   ParseRole(role).value, now))
    ensures r.Ok? && !AnyMatch(db, id) ==> r.value == (db, None)
    ensures r.Ok? && AnyMatch(db, id) ==>
              exists k | 0 <= k < |db.users| && Matches(db.users[k], id) ::
                r.value.1 == Some(Select(UserRow(r.value.0.users[k]), UpdatedColumns))
    ensures r.Ok? && Valid(db) ==> Valid(r.value.0)
  {
    if !db.online then Err(Unreachable)
    else if !(Bindable(name) && Bindable(email) && Bindable(role)) then Err(BadEncoding)
    else
      var i := FirstIndex(db.users, (u: User) => Matches(u, id));
      if i.None? then Ok((db, None))
      else if !(Fits(name, VarcharLimit) && Fits(email, VarcharLimit) && Fits(role, ShortLimit)) then Err(TooLong)
      else if ParseRole(role).None? then Err(CheckViolation)
      else
        var users' := UpdateRows(db.users, id, Clip(name, VarcharLimit), Clip(email, VarcharLimit),
                                 ParseRole(role).value, now);
        if !DistinctEmails(users') then Err(UniqueViolation)
        else
          ClipBindable(name, VarcharLimit);
          ClipBindable(email, VarcharLimit);
          UserEditKeepsValid(db, users');
          Ok((db.(users := users'), Some(Select(UserRow(users'[i.value]), UpdatedColumns))))
  }

  /** Each row `updateUser` rewrites keeps its id, password hash, status,
      avatar, last login and creation time. */
  lemma UpdateTouchesOnlyProfile(db: Db, id: int, name: string, email: string, role: string, now: nat, k: nat)
    requires UpdateUser(db, id, name, email, role, now).Ok?
    requires k < |db.users|
    ensures var u := db.users[k];
            var u' := UpdateUser(db, id, name, email, role, now).value.0.users[k];
            && u'.id == u.id && u'.passwordHash == u.passwordHash && u'.status == u.status
            && u'.avatarUrl == u.avatarUrl && u'.lastLogin == u.lastLogin && u'.createdAt == u.createdAt
            && (u' != u ==> Matches(u, id))
  {
  }

  /** The rows of a soft delete. */
  function MarkDeleted(users: seq<User>, id: int, now: nat): (r: seq<User>)
    ensures |r| == |users|
    ensures forall k | 0 <= k < |users| ::
      r[k] == if users[k].id == id then users[k].(status := Deleted, updatedAt := now) else users[k]
  {
    seq(|users|, k requires 0 <= k < |users| =>
          if users[k].id == id then users[k].(status := Deleted, updatedAt := now) else users[k])
  }

  /** `deleteUser`: a soft delete. Every row with id `id`, whatever its
      status, stays in the table with status `'deleted'`; the id is returned
      when such a row exists. */
  function DeleteUser(db: Db, id: int, now: nat): (r: Result<(Db, Option<int>)>)
    ensures r.Err? <==> !db.online
    ensures r.Ok? ==> r.value.0 == db.(users := MarkDeleted(db.users, id, now))
    ensures r.Ok? ==> r.value.1 == if HasUser(db, id) then Some(id) else None
    ensures r.Ok? && Valid(db) ==> Valid(r.value.0)
  {
    if !db.online then Err(Unreachable)
    else
      var users' := MarkDeleted(db.users, id, now);
      assert forall k | 0 <= k < |users'| :: users'[k].email == db.users[k].email;
      UserEditKeepsValid(db, users');
      Ok((db.(users := users'), if HasUser(db, id) then Some(id) else None))
  }

  /** A soft-deleted user can no longer be found by id or by e-mail, yet
      still holds the e-mail: a new account with it fails on UNIQUE. */
  lemma DeletedUserIsInvisible(db: Db, id: int, now: nat, k: nat)
    requires Valid(db) && db.online && k < |db.users| && db.users[k].id == id
    ensures var db' := DeleteUser(db, id, now).value.0;
            var u := db.users[k];
            && FindUserById(db', id) == Ok(None)
            && FindUserByEmail(db', u.email) == Ok(None)
            && HasEmail(db', u.email)
            && CreateUser(db', u.name, u.email, u.passwordHash, None, now) == Err(UniqueViolation)
  {
    var db' := DeleteUser(db, id, now).value.0;
    assert db'.users[k].email == db.users[k].email;
    NoActiveHolderAfterDelete(db, id, now, k);
  }

  /** After the soft delete no active row carries the user's id or
      e-mail. */
  lemma NoActiveHolderAfterDelete(db: Db, id: int, now: nat, k: nat)
    requires Valid(db) && db.online && k < |db.users| && db.users[k].id == id
    ensures var db' := DeleteUser(db, id, now).value.0;
            forall v | v in db'.users :: !IsActiveWithEmail(v, db.users[k].email) && !(v.id == id && v.status == Active)
  {
    var db' := DeleteUser(db, id, now).value.0;
    var u := db.users[k];
    forall v | v in db'.users ensures !IsActiveWithEmail(v, u.email) && !(v.id == id && v.status == Active) {
      var m :| 0 <= m < |db'.users| && db'.users[m] == v;
      if m != k {
        assert m < k || k < m;
      }
    }
  }

  // ---------------------------------------------------------------------
  // Pagination
  // ---------------------------------------------------------------------

  const DefaultPage := 1
  const DefaultLimit := 10

  /** What the listing queries return; `totalPages` is `None` where
      JavaScript computes NaN or Infinity, which JSON renders as `null`. */
  datatype Listing = Listing(rows: seq<Row>, total: nat, page: int, limit: int, totalPages: Option<int>)

  function Min(a: int, b: int): int {
    if a <= b then a else b
  }

  /** The largest `bigint`, the type of `LIMIT` and `OFFSET`. */
  const BigintMax := 0x7fff_ffff_ffff_ffff

  /** A value `LIMIT` and `OFFSET` accept: not negative, within `bigint`. */
  predicate CountArgument(n: int) {
    0 <= n <= BigintMax
  }

  /** `LIMIT limit OFFSET offset`: a negative value, or one beyond `bigint`,
      is an error; otherwise the rows from position `offset` on, at most
      `limit` of them. */
  function Window<T>(rows: seq<T>, offset: int, limit: int): (r: Result<seq<T>>)
    ensures r.Err? <==> !CountArgument(limit) || !CountArgument(offset)
    ensures r.Ok? ==> |r.value| == if offset >= |rows| then 0 else Min(limit, |rows| - offset)
    ensures r.Ok? ==> forall k | 0 <= k < |r.value| :: r.value[k] == rows[offset + k]
  {
    if !CountArgument(limit) || !CountArgument(offset) then Err(BadArgument)
    else if offset >= |rows| then Ok([])
    else Ok(rows[offset..Min(offset + limit, |rows|)])
  }

  /** `Math.ceil(total / limit)`: `None` for a zero limit (Infinity, or NaN
      when the total is zero as well). */
  function PageCount(total: nat, limit: int): (r: Option<int>)
    ensures r.None? <==> limit == 0
    ensures limit > 0 ==> r.value >= 0 && (r.value - 1) * limit < total <= r.value * limit
  {
    if limit == 0 then None
    else if limit > 0 then
      var q := (total + limit - 1) / limit;
      assert total + limit - 1 == q * limit + (total + limit - 1) % limit;
      Some(q)
    else Some(-(total / -limit))
  }

  /** Row `k` of the ordered result appears on page `k / limit + 1`, which
      is one of the `totalPages` pages, at position `k % limit`. */
  lemma RowOnItsPage<T>(rows: seq<T>, limit: int, k: nat)
    requires 0 < limit <= BigintMax && k < |rows| && k <= BigintMax
    ensures var page := k / limit + 1;
            var w := Window(rows, (page - 1) * limit, limit);
            && 1 <= page <= PageCount(|rows|, limit).value
            && w.Ok? && k % limit < |w.value| && w.value[k % limit] == rows[k]
  {
    var m := k / limit;
    PageOffset(k, limit);
    WindowAt(rows, m * limit, limit, k - m * limit);
    PageWithinCount(|rows|, limit, m);
  }

  /** Row `k` sits at offset `k - k / limit * limit` of page `k / limit + 1`. */
  lemma PageOffset(k: nat, limit: int)
    requires limit > 0
    ensures var m := k / limit;
            && 0 <= m * limit <= k && k - m * limit == k % limit < limit
            && (m + 1 - 1) * limit == m * limit
  {
    MulMonotone(0, k / limit, limit);
  }

  /** A page whose offset lies before the total is one of the counted pages. */
  lemma PageWithinCount(total: nat, limit: int, m: nat)
    requires limit > 0 && m * limit < total
    ensures m + 1 <= PageCount(total, limit).value
  {
    MulCancel(m, PageCount(total, limit).value, limit);
  }

  /** Position `rest` of the window at `offset` is row `offset + rest`. */
  lemma WindowAt<T>(rows: seq<T>, offset: int, limit: int, rest: nat)
    requires CountArgument(offset) && rest < limit <= BigintMax && offset + rest < |rows|
    ensures Window(rows, offset, limit).Ok? && rest < |Window(rows, offset, limit).value|
    ensures Window(rows, offset, limit).value[rest] == rows[offset + rest]
  {
  }

  lemma MulCancel(a: int, b: int, c: int)
    requires c > 0 && a * c < b * c
    ensures a < b
  {
    if a >= b {
      MulMonotone(b, a, c);
    }
  }

  lemma MulMonotone(a: int, b: int, c: int)
    requires a <= b && c >= 0
    ensures a * c <= b * c
  {
  }

  /** Past the last page every page is empty. */
  lemma PagesPastTheLastAreEmpty<T>(rows: seq<T>, limit: int, page: int)
    requires 0 < limit <= BigintMax && page > PageCount(|rows|, limit).value
    requires (page - 1) * limit <= BigintMax
    ensures Window(rows, (page - 1) * limit, limit) == Ok([])
  {
    var n := PageCount(|rows|, limit).value;
    MulMonotone(n, page - 1, limit);
  }

  // ---------------------------------------------------------------------
  // Listings
  // ---------------------------------------------------------------------

  predicate IsActive(u: User) {
    u.status == Active
  }

  /** `ORDER BY created_at DESC`. */
  predicate NewerUserFirst(a: User, b: User) {
    a.createdAt >= b.createdAt
  }

  /** `ORDER BY updated_at DESC`. */
  predicate RecentPageFirst(a: Page, b: Page) {
    a.updatedAt >= b.updatedAt
  }

  lemma TimeOrdersArePreorders()
    ensures TotalPreorder(NewerUserFirst) && TotalPreorder(RecentPageFirst)
  {
  }

  /** The active users, newest first. */
  function ActiveUsersNewestFirst(db: Db): (r: seq<User>)
    ensures multiset(r) == multiset(Filter(db.users, IsActive))
    ensures forall i, j | 0 <= i < j < |r| :: r[i].createdAt >= r[j].createdAt
  {
    TimeOrdersArePreorders();
    SortBy(Filter(db.users, IsActive), NewerUserFirst)
  }

  /** The listing holds exactly the active users, each once, newest first. */
  lemma ActiveListingContents(db: Db)
    ensures forall u | u in ActiveUsersNewestFirst(db) :: u in db.users && u.status == Active
    ensures forall u | u in db.users && u.status == Active :: u in ActiveUsersNewestFirst(db)
  {
    var s := ActiveUsersNewestFirst(db);
    forall u | u in s ensures u in Filter(db.users, IsActive) {
      assert u in multiset(s);
    }
    forall u | u in Filter(db.users, IsActive) ensures u in s {
      assert u in multiset(Filter(db.users, IsActive));
    }
  }

  /** `getAllUsers(page, limit)`: one window of the active users, newest
      first, with their count. */
  function GetAllUsers(db: Db, page: int, limit: int): (r: Result<Listing>)
    ensures r.Err? <==> !db.online || !CountArgument(limit) || !CountArgument((page - 1) * limit)
    ensures r.Ok? ==>
              && r.value.total == Count(db.users, IsActive)
              && r.value.page == page && r.value.limit == limit
              && r.value.totalPages == PageCount(r.value.total, limit)
    ensures r.Ok? ==>
              var all := ActiveUsersNewestFirst(db);
              var w := Window(all, (page - 1) * limit, limit).value;
              |r.value.rows| == |w| && forall k | 0 <= k < |w| :: r.value.rows[k] == ProfileRow(w[k])
  {
    if !db.online then Err(Unreachable)
    else
      match Window(ActiveUsersNewestFirst(db), (page - 1) * limit, limit)
      case Err(f) => Err(f)
      case Ok(w) =>
        var total := Count(db.users, IsActive);
        Ok(Listing(seq(|w|, k requires 0 <= k < |w| => ProfileRow(w[k])), total, page, limit,
                   PageCount(total, limit)))
  }

  /** A row on an earlier page stands earlier in the ordered result: when
      row `j` of page `q` exists, page `p < q` is full, and its row `i` comes
      before it. */
  lemma EarlierPageEarlierRow<T>(rows: seq<T>, limit: int, p: int, q: int, i: nat, j: nat)
    requires 0 < limit && 1 <= p < q && i < limit && j < limit
    requires (q - 1) * limit + j < |rows| && (q - 1) * limit <= BigintMax
    ensures Window(rows, (p - 1) * limit, limit).Ok? && |Window(rows, (p - 1) * limit, limit).value| == limit
    ensures Window(rows, (q - 1) * limit, limit).Ok? && j < |Window(rows, (q - 1) * limit, limit).value|
    ensures (p - 1) * limit + i < (q - 1) * limit + j
    ensures Window(rows, (p - 1) * limit, limit).value[i] == rows[(p - 1) * limit + i]
    ensures Window(rows, (q - 1) * limit, limit).value[j] == rows[(q - 1) * limit + j]
  {
    MulMonotone(0, p - 1, limit);
    assert (p - 1) * limit + limit == p * limit;
    MulMonotone(p, q - 1, limit);
  }

  /** Across pages the listing stays newest first: any row of an earlier
      page is at least as new as any row of a later one. */
  lemma ListingPagesAreOrdered(db: Db, limit: int, p: int, q: int, i: nat, j: nat)
    requires 0 < limit && 1 <= p < q && i < limit && j < limit
    requires (q - 1) * limit + j < Count(db.users, IsActive) && (q - 1) * limit <= BigintMax
    ensures Window(ActiveUsersNewestFirst(db), (p - 1) * limit, limit).Ok?
    ensures Window(ActiveUsersNewestFirst(db), (q - 1) * limit, limit).Ok?
    ensures i < |Window(ActiveUsersNewestFirst(db), (p - 1) * limit, limit).value|
    ensures j < |Window(ActiveUsersNewestFirst(db), (q - 1) * limit, limit).value|
    ensures Window(ActiveUsersNewestFirst(db), (p - 1) * limit, limit).value[i].createdAt
            >= Window(ActiveUsersNewestFirst(db), (q - 1) * limit, limit).value[j].createdAt
  {
    var all := ActiveUsersNewestFirst(db);
    assert |all| == |multiset(all)| == |multiset(Filter(db.users, IsActive))|;
    EarlierPageEarlierRow(all, limit, p, q, i, j);
  }

  /** The user on the other end of `pages.author_id`, and the template on
      the other end of `pages.template_id` (LEFT JOIN: NULL when none). */
  function AuthorName(db: Db, p: Page): Value {
    var i := FirstIndex(db.users, (u: User) => u.id == p.authorId);
    if i.Some? then Str(db.users[i.value].name) else Nil
  }

  function TemplateName(db: Db, p: Page): Value {
    if p.templateId.None? then Nil
    else
      var i := FirstIndex(db.templates, (t: Template) => t.id == p.templateId.value);
      if i.Some? then Str(db.templates[i.value].name) else Nil
  }

  function JoinedPageRow(db: Db, p: Page): (r: Row)
    ensures r.Keys == PageRow(p).Keys + {"author_name", "template_name"}
  {
    PageRow(p)["author_name" := AuthorName(db, p)]["template_name" := TemplateName(db, p)]
  }

  /** In a store that keeps its foreign keys, every listed page shows its
      author's name. */
  lemma JoinFindsAuthor(db: Db, p: Page)
    requires Valid(db) && p in db.pages
    ensures AuthorName(db, p).Str?
  {
  }

  function PagesRecentFirst(db: Db): (r: seq<Page>)
    ensures multiset(r) == multiset(db.pages)
    ensures forall i, j | 0 <= i < j < |r| :: r[i].updatedAt >= r[j].updatedAt
  {
    TimeOrdersArePreorders();
    SortBy(db.pages, RecentPageFirst)
  }

  /** A page updated later than every other heads the ordering. */
  lemma LatestPageFirst(db: Db, p: Page)
    requires p in db.pages
    requires forall q | q in db.pages && q != p :: q.updatedAt < p.updatedAt
    ensures PagesRecentFirst(db) != [] && PagesRecentFirst(db)[0] == p
  {
    var sorted := PagesRecentFirst(db);
    assert p in multiset(sorted);
    var j :| 0 <= j < |sorted| && sorted[j] == p;
    assert sorted[0] in multiset(db.pages);
    assert sorted[0].updatedAt >= p.updatedAt;
  }

  /** `getAllPages(page, limit)`: one window of all pages, most recently
      updated first, each with its author's and template's names, and the
      count of all pages. */
  function GetAllPages(db: Db, page: int, limit: int): (r: Result<Listing>)
    ensures r.Err? <==> !db.online || !CountArgument(limit) || !CountArgument((page - 1) * limit)
    ensures r.Ok? ==>
              && r.value.total == |db.pages|
              && r.value.page == page && r.value.limit == limit
              && r.value.totalPages == PageCount(|db.pages|, limit)
    ensures r.Ok? ==>
              var w := Window(PagesRecentFirst(db), (page - 1) * limit, limit).value;
              |r.value.rows| == |w| && forall k | 0 <= k < |w| :: r.value.rows[k] == JoinedPageRow(db, w[k])
  {
    if !db.online then Err(Unreachable)
    else
      match Window(PagesRecentFirst(db), (page - 1) * limit, limit)
      case Err(f) => Err(f)
      case Ok(w) =>
        Ok(Listing(seq(|w|, k requires 0 <= k < |w| => JoinedPageRow(db, w[k])), |db.pages|, page, limit,
                   PageCount(|db.pages|, limit)))
  }

  // ---------------------------------------------------------------------
  // pageQueries.createPage and templateQueries
  // ---------------------------------------------------------------------

  /** `createPage`: fails on a text parameter holding U+0000, then on a
      title or status with a character that is not a space past its column's
      length, a status the CHECK constraint rejects, or a template or author id no
      row carries (REFERENCES); otherwise appends one page, its title
      clipped, and returns it whole. */
  function CreatePage(db: Db, title: string, content: string, templateId: Option<int>,
                      authorId: nat, status: Option<string>, now: nat): (r: Result<(Db, Row)>)
    ensures r.Ok? <==>
              && db.online
              && PageAccepted(title, content, status)
              && (status.None? || ParsePageStatus(status.value).Some?)
              && (templateId.None? || HasTemplate(db, templateId.value))
              && HasUser(db, authorId)
    ensures r == Err(BadEncoding) <==> db.online && !PageParamsBind(title, content, status)
    ensures r == Err(TooLong) <==> db.online && PageParamsBind(title, content, status) && !PageColumnsFit(title, status)
    ensures r.Ok? ==>
              && templateId.Some? ==> templateId.value >= 0
    ensures r.Ok? ==>
              var p := Page(db.nextPageId, Clip(title, VarcharLimit), content,
                            if templateId.Some? then Some(templateId.value as nat) else None, authorId,
                            if status.Some? then ParsePageStatus(status.value) else None, now, now);
              && r.value.0 == db.(pages := db.pages + [p], nextPageId := db.nextPageId + 1)
              && r.value.1 == PageRow(p)
    ensures r.Ok? && Valid(db) ==> Valid(r.value.0)
  {
    if !db.online then Err(Unreachable)
    else if !PageParamsBind(title, content, status) then Err(BadEncoding)
    else if !PageColumnsFit(title, status) then Err(TooLong)
    else if status.Some? && ParsePageStatus(status.value).None? then Err(CheckViolation)
    else if templateId.Some? && !HasTemplate(db, templateId.value) then Err(ForeignKeyViolation)
    else if !HasUser(db, authorId) then Err(ForeignKeyViolation)
    else
      var tid: Option<nat> := if templateId.Some? then
                                var i :| 0 <= i < |db.templates| && db.templates[i].id == templateId.value;
                                Some(db.templates[i].id)
                              else None;
      var p := Page(db.nextPageId, Clip(title, VarcharLimit), content, tid, authorId,
                    if status.Some? then ParsePageStatus(status.value) else None, now, now);
      AppendPageKeepsValid(db, p);
      Ok((db.(pages := db.pages + [p], nextPageId := db.nextPageId + 1), PageRow(p)))
  }

  /** A status of fifty-one letters is cast to `VARCHAR(50)` and refused as
      too long before the CHECK constraint sees it. */
  lemma LongStatusIsTooLong(db: Db, title: string, content: string, templateId: Option<int>,
                            authorId: nat, now: nat)
    requires db.online && Bindable(title) && Bindable(content) && Fits(title, VarcharLimit)
    ensures var status := seq(ShortLimit + 1, _ => 'a');
            && ParsePageStatus(status).None?
            && CreatePage(db, title, content, templateId, authorId, Some(status), now) == Err(TooLong)
  {
    var status := seq(ShortLimit + 1, _ => 'a');
    assert status[ShortLimit] != ' ';
  }

  /** A page with the next id, a title within its column and existing
      references keeps the store valid. */
  lemma AppendPageKeepsValid(db: Db, p: Page)
    requires p.id == db.nextPageId && HasUser(db, p.authorId) && |p.title| <= VarcharLimit
    requires p.templateId.Some? ==> HasTemplate(db, p.templateId.value)
    ensures Valid(db) ==> Valid(db.(pages := db.pages + [p], nextPageId := db.nextPageId + 1))
  {
    var db' := db.(pages := db.pages + [p], nextPageId := db.nextPageId + 1);
    if Valid(db) {
      assert UsersValid(db') && TemplatesValid(db');
      assert forall q | q in db'.pages :: q in db.pages || q == p;
    }
  }

  /** `ORDER BY category, name`. */
  predicate CategoryThenName(a: Template, b: Template) {
    StrLt(a.category, b.category) || (a.category == b.category && StrLe(a.name, b.name))
  }

  lemma CategoryThenNameIsPreorder()
    ensures TotalPreorder(CategoryThenName)
  {
    forall a: Template, b: Template ensures CategoryThenName(a, b) || CategoryThenName(b, a) {
      StrLeTotal(a.category, b.category);
      StrLeTotal(a.name, b.name);
    }
    forall a: Template, b: Template, c: Template | CategoryThenName(a, b) && CategoryThenName(b, c)
      ensures CategoryThenName(a, c)
    {
      if a.category == b.category && b.category == c.category {
        StrLeTrans(a.name, b.name, c.name);
      } else {
        StrLeReflexive(b.category);
        StrLeTrans(a.category, b.category, c.category);
        if a.category == c.category {
          StrLeAntisymmetric(b.category, c.category);
        }
      }
    }
  }

  /** `getAllTemplates`: every template, by category and then by name. */
  function GetAllTemplates(db: Db): (r: Result<seq<Template>>)
    ensures r.Err? <==> !db.online
    ensures r.Ok? ==> multiset(r.value) == multiset(db.templates)
    ensures r.Ok? ==> forall i, j | 0 <= i < j < |r.value| :: CategoryThenName(r.value[i], r.value[j])
  {
    if !db.online then Err(Unreachable)
    else
      CategoryThenNameIsPreorder();
      Ok(SortBy(db.templates, CategoryThenName))
  }

  /** A template with the next id and its name and category within their
      columns keeps the store valid. */
  lemma AppendTemplateKeepsValid(db: Db, t: Template)
    requires t.id == db.nextTemplateId && |t.name| <= VarcharLimit && |t.category| <= CategoryLimit
    ensures Valid(db) ==> Valid(db.(templates := db.templates + [t], nextTemplateId := db.nextTemplateId + 1))
  {
    var db' := db.(templates := db.templates + [t], nextTemplateId := db.nextTemplateId + 1);
    if Valid(db) {
      forall p | p in db.pages && p.templateId.Some? ensures HasTemplate(db', p.templateId.value) {
        var i :| 0 <= i < |db.templates| && db.templates[i].id == p.templateId.value;
        assert db'.templates[i].id == p.templateId.value;
      }
    }
  }

  /** `createTemplate`. The tags are bound as `JSON.stringify(tags)`;
      `jsonb` is what PostgreSQL's `jsonb` input makes of that text, as the
      driver hands it back (object keys reordered, duplicates dropped), or
      `None` when it refuses the text (a `\u0000` escape). The statement
      fails on a text parameter holding U+0000 or refused tags, then on a
      name or category with a character that is not a space past its
      column's length; otherwise it appends one active template, name and
      category clipped. */
  function CreateTemplate(db: Db, name: string, description: Option<string>, category: string,
                          thumbnail: Option<string>, previewUrl: Option<string>, content: string,
                          tags: Value, jsonb: Value -> Option<Value>, now: nat): (r: Result<(Db, Template)>)
    ensures r.Err? <==>
              !db.online || !TemplateAccepted(name, description, category, thumbnail, previewUrl, content, tags, jsonb)
    ensures r == Err(TooLong) <==>
              && db.online && TemplateParamsBind(name, description, category, thumbnail, previewUrl, content, tags, jsonb)
              && !TemplateColumnsFit(name, category)
    ensures r.Ok? ==>
              var t := r.value.1;
              && t == Template(db.nextTemplateId, Clip(name, VarcharLimit), description, Clip(category, CategoryLimit),
                               thumbnail, previewUrl, content, jsonb(tags).value, true, now, now)
              && r.value.0 == db.(templates := db.templates + [t], nextTemplateId := db.nextTemplateId + 1)
    ensures r.Ok? && Valid(db) ==> Valid(r.value.0)
  {
    if !db.online then Err(Unreachable)
    else if !TemplateParamsBind(name, description, category, thumbnail, previewUrl, content, tags, jsonb) then
      Err(BadEncoding)
    else if !TemplateColumnsFit(name, category) then Err(TooLong)
    else
      var t := Template(db.nextTemplateId, Clip(name, VarcharLimit), description, Clip(category, CategoryLimit),
                        thumbnail, previewUrl, content, jsonb(tags).value, true, now, now);
      var db' := db.(templates := db.templates + [t], nextTemplateId := db.nextTemplateId + 1);
      AppendTemplateKeepsValid(db, t);
      Ok((db', t))
  }
}
