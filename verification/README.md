# Auth and CMS demo: a functional model

This project models the decision logic of a small Next.js application with user
accounts and a content-management corner. It covers two back-end variants and
the browser code that drives them.

- **File-database handlers** (`.js`): login, registration, "who am I", and the
  administrators' bulk status change and bulk delete. They run over the
  `users` and `sessions` tables of the file database (`LiteDb`).
- **PostgreSQL handlers** (`.ts`): login, registration, "who am I", and the CMS
  page and template routes. They run over the query layer in
  `lib/postgresql.js` (`PgDb`).
- **Browser logic**:
  - the registration form's validator (`RegisterForm`);
  - the administrators' user table: filter, sort, selection and counters
    (`UserManagement`);
  - the static template gallery (`TemplateGallery`);
  - the page editor's save and publish over local storage (`PageBuilder`);
  - the local-storage session kept by `authService` (`AuthService`).

Every handler is a pure function. It takes the parsed request, the store, the
clock and the library oracles. It returns a `Reply` (`Refused(code, error)` or
`Done(code, body)`) together with the store afterwards.

- A body that is not JSON is `None`.
- A body property is `Missing`, `Null` or `Text(s)`, so that JavaScript
  truthiness (`!field`) and destructuring defaults (`status = 'pending'`) can
  be stated exactly.
- `bcrypt.compare` and `bcrypt.hash` are function parameters.
- `jsonwebtoken` is a `Codec`: an encoder and a parser. Verification
  (`Tokens.Verify`) checks the secret and the expiry against a clock in
  seconds. `Faithful(codec)` says that parsing an encoded token gives it back.
- `JSON.parse` is a partial function parameter.

The schema scripts contribute only their constraints, as store invariants and
failure cases:

- the status and role CHECK lists;
- UNIQUE e-mail;
- UNIQUE refresh token;
- SERIAL / AUTOINCREMENT ids;
- the page foreign keys;
- the `VARCHAR(n)` lengths of user names, e-mails, password hashes and
  roles, page titles and statuses, template names and template categories.
  A value is cast to its column's type before the CHECK lists apply.
  PostgreSQL clips a value whose characters past `n` are all spaces, and
  refuses any other longer value;
- the `bigint` range of `LIMIT` and `OFFSET`;
- PostgreSQL's refusal of the character U+0000 in a text parameter;
- the `tags` column's JSONB type. Storing a value there may reorder or merge
  object keys, or refuse the value; this reading is a function parameter.

The `.js` bulk handlers bind one SQL variable per listed id. SQLite refuses a
statement with more variables than its `SQLITE_MAX_VARIABLE_NUMBER`, which is
a parameter of the model.

A store that cannot be reached makes every PostgreSQL query fail with a 500.

The e-mail test `/^[^\s@]+@[^\s@]+\.[^\s@]+$/` appears in five places. It is
defined once, as `EmailShape.IsEmail`, and proved equal to a literal reading of
the regular expression.

Behaviour of the code as written that the contracts pin down:

- **The two login handlers gate status differently.**
  - The `.js` login checks the password before the status, so a wrong password
    always gives 401, and banned, pending and inactive users get three distinct
    403s.
  - The `.ts` login's lookup sees only active users. Its "Account is not
    active" branch can never be taken, and a non-active user is told "Invalid
    credentials".
- **The sign-up page never sends `confirmPassword`.** The `.ts` registration
  requires it, so it answers every form submission with 400 "All fields are
  required". The `.js` registration does not ask for it and accepts them.
- **Values too long for their columns are not checked by any handler.** A
  name, title or category with a non-space character past its `VARCHAR(n)`
  length reaches the database and the reply is a 500. So does a `limit`
  beyond `bigint`, and so does U+0000 in any text the handlers pass on.
- **The `.ts` registration's duplicate check sees only active users.** An
  e-mail held by an inactive or deleted user gets past it, breaks the UNIQUE
  constraint, and the reply is 500 instead of 409.
- **The `.js` "who am I" handler has no status gate.** It serves banned and
  pending users. The `.js` refresh token is signed with the same secret as the
  access token, so it is accepted there as well.
- **Two `.js` logins of one user within the same second fail the second time.**
  Both refresh tokens are identical and collide on the UNIQUE column.
- **The bulk-action handlers check no credentials.** Their status whitelist
  after the action switch can never refuse.
- **Sending `limit=0` to the CMS page listing** gives an empty page with
  `totalPages` `null`. `page=0` gives a 500.
- **Template tags sent as a JSON string that does not parse are stored**, and
  then the reply is a 500. Every later catalogue listing fails as well.
- **In the page editor, three gallery templates have no starter content** and
  load the default page.
- **`toggleSelectAll` compares lengths only.**
- **The password-complexity pattern needs its three characters on one line.**
  The servers accept passwords the form rejects.
- **`authService.login` stores the text `undefined`** when the reply has no
  token, and the session still counts as authenticated.

## Model

| member | source | states |
|---|---|---|
| Common.TrimEmptyIff | app/components/RegisterForm.tsx:29-30 | `trim()` yields the empty string exactly when every character is white space |
| Common.Select | lib/postgresql.js:75 | a projection keeps exactly the listed columns that the row has, with their values |
| Common.FirstIndex | app/components/PageBuilder.tsx:108 | `findIndex`: the first position satisfying the predicate, or none when no position does |
| Common.Filter | app/components/UserManagement.tsx:184-190 | `filter` keeps exactly the elements satisfying the predicate, as a sub-multiset of the input |
| Common.FilterIsSubsequence | app/components/TemplateGallery.tsx:83-89 | a filtered list keeps the order of its source |
| Common.FilterAll | app/components/TemplateGallery.tsx:83-89 | a filter that accepts every element returns the list unchanged |
| Common.FilterPartition | app/api/admin/users/bulk-action/route.js:125-128 | a filter and its complement together account for every element once |
| Common.DecimalRoundTrip | app/components/PageBuilder.tsx:95 | reading back the decimal rendering of a clock value gives the value |
| Common.DecimalInjective | app/components/PageBuilder.tsx:95 | distinct clock readings give distinct page ids |
| Sorting.SortBy | app/components/UserManagement.tsx:191-200 | the sorted list is a permutation of its input, ordered by any total preorder |
| Sorting.SortSorted | app/components/UserManagement.tsx:191-200 | sorting an already ordered list leaves it unchanged |
| Sorting.StrLeTotal | app/components/UserManagement.tsx:195-199 | string `<` comparison orders any two strings |
| Sorting.StrLeTrans | app/components/UserManagement.tsx:195-199 | string comparison is transitive |
| Sorting.StrLeAntisymmetric | lib/postgresql.js:210 | two strings each at most the other are equal, so `ORDER BY category, name` is a total preorder |
| Sorting.PermutationSameMembers | app/components/UserManagement.tsx:191-200 | a sorted copy of a list has the same elements as the list |
| EmailShape.EmailShapeMatchesPattern | app/components/RegisterForm.tsx:31-33 | the one-`@` characterisation agrees with the literal reading of the regular expression, in both directions |
| EmailShape.ShapeImpliesPattern | app/api/auth/register/route.js:18-24 | an address of the stated shape matches the regular expression |
| EmailShape.PatternImpliesShape | app/api/auth/login/route.ts:19-25 | a string matching the regular expression has the stated shape |
| EmailShape.EmailHasOneAt | app/api/auth/register/route.ts:19-25 | an accepted address has exactly one `@`, no white space and at least five characters |
| EmailShape.AliceIsEmail | app/components/RegisterForm.tsx:31-33 | a plain address is accepted |
| EmailShape.NoDotNoEmail | app/components/RegisterForm.tsx:31-33 | a domain without a dot is rejected |
| EmailShape.NoLocalPartNoEmail | app/components/RegisterForm.tsx:31-33 | an empty local part is rejected |
| EmailShape.DotFirstNoEmail | app/components/RegisterForm.tsx:31-33 | an address whose domain starts with its only dot is rejected, whatever the local part |
| EmailShape.AliceDotFirstNoEmail | app/components/RegisterForm.tsx:31-33 | `alice@.com` is rejected |
| EmailShape.SpaceNoEmail | app/components/RegisterForm.tsx:31-33 | an address with a space is rejected |
| EmailShape.SpaceRefutes | app/api/auth/register/route.js:18-24 | any white-space character anywhere makes the string fail the test |
| JsNumber.Magnitude | app/api/cms/pages/route.ts:31-32 | `parseInt`'s unsigned part is NaN exactly when no digit follows, with `0x` switching to hexadecimal |
| JsNumber.LeadingSpaceIgnored | app/api/cms/pages/route.ts:31-32 | leading white space does not change what `parseInt` reads |
| JsNumber.ReadsSigned | app/api/cms/pages/route.ts:31-32 | a leading sign applies to the magnitude after it |
| JsNumber.NoDigitsNoNumber | app/api/cms/pages/route.ts:31-32 | the empty string, a bare sign, a bare `0x` and a word all read as NaN |
| JsNumber.DecimalReadsBack | app/api/cms/pages/route.ts:31-32 | a decimal rendering followed by a non-digit reads back as its number |
| JsNumber.NegativeDecimalReadsBack | app/api/cms/pages/route.ts:31-32 | with a minus sign it reads back negated |
| JsNumber.PositiveDecimalReadsBack | app/api/cms/pages/route.ts:31-32 | with a plus sign it reads back unchanged |
| JsNumber.DefaultLiterals | app/api/cms/pages/route.ts:31-32 | the fallback texts `'1'` and `'10'` and the text `'0'` read as 1, 10 and 0 |
| JsNumber.LiteralReadsBack | app/api/cms/pages/route.ts:31-32 | any string of decimal digits reads as its value |
| JsNumber.RunOfDigits | app/api/cms/pages/route.ts:31-32 | the digit run of digits followed by a non-digit is exactly those digits |
| Tokens.SignedTokenLifetime | app/api/auth/login/route.js:65-82 | a token verifies, with its payload, before issue time plus lifetime, and is expired from then on |
| Tokens.OtherSecretRejected | app/api/auth/login/route.ts:65-69 | a token never verifies under a secret other than its own |
| Tokens.VerifiedMeansSignedAndLive | app/api/auth/me/route.js:21-29 | a verified token was signed with the verifying secret and has not expired |
| Tokens.SecretsAgreeIffConfigured | app/api/auth/me/route.ts:17 | the `.js` and `.ts` handlers sign alike exactly when `JWT_SECRET` is set, and the `.ts` access and refresh fallbacks differ |
| Tokens.StrictBearer | app/api/auth/me/route.js:10-18 | a header is accepted exactly when it starts with `Bearer `, and the token is what follows those seven characters |
| Tokens.FindFrom | app/api/auth/me/route.ts:7 | the first occurrence of the pattern at or after a position, and none before it |
| Tokens.RemoveFirst | app/api/auth/me/route.ts:7 | `replace` with a string pattern deletes only its first occurrence, or changes nothing |
| Tokens.BearerRulesCompared | app/api/auth/me/route.ts:7 | both header rules agree on `Bearer <t>`; a header without `Bearer ` is kept whole by one and refused by the other |
| TsAuth.HeaderToken | app/api/auth/me/route.ts:7-14 | a token exists exactly when deleting the first `Bearer ` leaves a non-empty string |
| TsAuth.Authenticate | app/api/auth/me/route.ts:7-47 | no token gives 401 "No token provided"; any verification error gives 401; otherwise the verified claims |
| TsAuth.EmptyHeadersCarryNoToken | app/api/auth/me/route.ts:9-14 | a missing header, an empty one and the bare `Bearer ` all give "no token" |
| TsAuth.HeaderWithoutBearerIsTheToken | app/api/auth/me/route.ts:7 | a header without `Bearer ` is itself taken as the token |
| TsAuth.IssuedTokenAuthenticates | app/api/auth/me/route.ts:17-29 | an issued access token authenticates its claims for exactly its lifetime |
| LiteDb.ParseStatusIff | scripts/setup-db.js:21 | the CHECK constraint admits exactly the four status names, each naming one status |
| LiteDb.UserWithEmail | app/api/auth/login/route.js:21-24 | the lookup returns a user with that e-mail, whatever the status, and none exactly when no user has it |
| LiteDb.UserWithId | app/api/auth/me/route.js:32-35 | the lookup by id ignores the status; none means no row has the id |
| LiteDb.UserWithIdFinds | scripts/setup-db.js:16 | with AUTOINCREMENT ids the lookup by a row's id returns that row |
| LiteDb.InsertUser | app/api/auth/register/route.js:51-54 | the insert fails on a held e-mail or an unlisted status; otherwise it appends one row with the next id and keeps the invariants |
| LiteDb.InsertSession | app/api/auth/login/route.js:85-92 | the session insert fails on a stored refresh token; otherwise it appends one row and changes no user |
| LiteDb.SetStatusWhereIdIn | app/api/admin/users/bulk-action/route.js:68-71 | exactly the rows with a listed id get the status and a new `updated_at`; the count is those rows; the invariants are kept |
| LiteDb.SameKeysKeepValid | scripts/setup-db.js:15-24 | rewriting columns other than id and e-mail keeps the table invariants |
| LiteDb.StatusChangeKeepsLookup | app/api/admin/users/bulk-action/route.js:68-71 | after a status change the e-mail lookup finds the same row, with its new status |
| LiteDb.UsersWithIdIn | app/api/admin/users/bulk-action/route.js:74-77 | the select by ids returns exactly the stored users whose id is listed |
| LiteDb.DeleteSessionsOfUsers | app/api/admin/users/bulk-action/route.js:125 | exactly the sessions of listed users are removed and the users are untouched |
| LiteDb.DeleteUsersWithIdIn | app/api/admin/users/bulk-action/route.js:128 | exactly the listed users are removed; the count is the number removed |
| LoginJs.Login | app/api/auth/login/route.js:8-117 | missing fields give 400; unknown e-mail or wrong password give the same 401; a status gate gives 403 after the password; a request passing all three succeeds exactly when its refresh token is not already stored, issuing a 1 h access and a 7 d refresh token and adding exactly one session expiring in 7 days |
| LoginJs.GateMessagesDistinct | app/api/auth/login/route.js:43-62 | banned, pending and inactive have three distinct messages, and only active and NULL statuses pass |
| LoginJs.PublicUserHidesPassword | app/api/auth/login/route.js:95-101 | the reply's user has exactly id, email, name, avatar and status, with no password |
| LoginJs.WrongPasswordBeatsStatus | app/api/auth/login/route.js:34-62 | a wrong password gives 401 whatever the user's status |
| LoginJs.GateAfterPassword | app/api/auth/login/route.js:43-62 | with the right password a gated status gives its 403 |
| LoginJs.SameSecondLoginCollides | app/api/auth/login/route.js:75-92 | a second login of the same request at the same clock reading gives 500 and changes nothing |
| RegisterJs.Validate | app/api/auth/register/route.js:10-32 | the request passes exactly when e-mail, password and name are present, the e-mail has the shape and the password has at least 6 characters |
| RegisterJs.Register | app/api/auth/register/route.js:7-81 | validation failures give 400; an e-mail of any status gives 409; otherwise exactly one row is appended with the placeholder avatar and the sent status, `pending` when absent, and the reply is 201 |
| RegisterJs.EmailCheckedBeforeLength | app/api/auth/register/route.js:18-32 | a bad e-mail is reported before a short password |
| RegisterJs.InsertAddsOneRow | app/api/auth/register/route.js:56-61 | an accepted registration always adds exactly one row, so the "no row changed" refusal is never taken |
| RegisterJs.CreatedRowHidesPassword | app/api/auth/register/route.js:64-73 | the reply's user has exactly id, email, name, avatar, status and created_at |
| RegisterJs.FreshRegistrationIsPending | app/api/auth/register/route.js:7 | a user registered without a status, or with `pending`, meets the pending 403 at login even with the right password |
| MeJs.Profile | app/api/auth/me/route.js:32-35 | the profile has exactly id, email, name, avatar and created_at |
| MeJs.Me | app/api/auth/me/route.js:8-55 | a missing or non-`Bearer ` header gives 401; a failed verification gives 401; an unknown id gives 404; any other verified user is served whatever their status |
| MeJs.TokenServesItsUser | app/api/auth/me/route.js:18-47 | a token naming a stored user serves that user's profile until it expires, then gives 401 |
| MeJs.LoginThenMe | app/api/auth/me/route.js:18-47 | after a login, the access token serves the profile for an hour and the refresh token for seven days |
| PgDb.ParseRoleIff | scripts/setup-postgresql.js:50 | the role CHECK admits exactly `admin`, `editor` and `user`, each naming one role |
| PgDb.ParsePageStatusIff | scripts/setup-postgresql.js:87 | the page status CHECK admits exactly `draft`, `published` and `archived` |
| PgDb.UserIdsUnique | scripts/setup-postgresql.js:46 | in a valid store an id names at most one user |
| PgDb.ProjectionsHidePassword | lib/postgresql.js:60-87 | only `SELECT *` carries the password hash; the created, found and updated projections do not |
| PgDb.FindUserByEmail | lib/postgresql.js:67-71 | fails exactly when the store is unreachable or the e-mail holds U+0000; otherwise the result is an active user with that e-mail, or none exactly when no active user has it |
| PgDb.FindUserById | lib/postgresql.js:74-78 | the result is an active user with that id, or none exactly when no active user has it |
| PgDb.CreateUser | lib/postgresql.js:55-64 | the insert fails on U+0000 in any parameter before any length check, then on a name, e-mail or hash with a non-space past its VARCHAR(255) column or a role with one past VARCHAR(50), then on a role the CHECK rejects, or a clipped e-mail held by a user of any status; otherwise it appends an active user with the clipped values and a role defaulting to `user`, returns the row without its hash, and keeps the invariants |
| PgDb.Clip | scripts/setup-postgresql.js:47-49 | a value stored in a VARCHAR(n) column has at most n characters and is a prefix of the value; it is the value itself exactly when that has at most n characters |
| PgDb.AppendUserKeepsValid | scripts/setup-postgresql.js:46-49 | a user with the next id, an unheld e-mail and values within their columns keeps the store valid |
| PgDb.UserEditKeepsValid | scripts/setup-postgresql.js:46-49 | rewriting user rows in place, with distinct e-mails and values within their columns, keeps the store valid |
| PgDb.UpdateRows | lib/postgresql.js:84-86 | every active row with the id gets the new name, e-mail, role and time; every other row is kept |
| PgDb.UpdateUser | lib/postgresql.js:81-91 | U+0000 in a parameter fails; the update touches only active rows with the id; no match changes nothing; when a row matches, a name or e-mail with a non-space past VARCHAR(255) or a role with one past VARCHAR(50) is exactly the too-long failure, and a bad role or a duplicate clipped e-mail fails; otherwise the clipped values are stored |
| PgDb.UpdateTouchesOnlyProfile | lib/postgresql.js:81-91 | an updated row keeps its id, hash, status, avatar, `last_login` and creation time |
| PgDb.MarkDeleted | lib/postgresql.js:119-128 | rows with the id get status `deleted` and a new time; the others are kept |
| PgDb.DeleteUser | lib/postgresql.js:119-128 | the soft delete keeps every row and returns the id exactly when a row had it |
| PgDb.DeletedUserIsInvisible | lib/postgresql.js:119-128 | after the soft delete neither lookup finds the user, yet a new account with the e-mail fails on UNIQUE |
| PgDb.NoActiveHolderAfterDelete | lib/postgresql.js:119-128 | after the soft delete no active row has the user's id or e-mail |
| PgDb.Window | lib/postgresql.js:101-103 | `LIMIT`/`OFFSET` fail on a negative value or one beyond `bigint`; otherwise they give the rows from the offset on, at most the limit of them |
| PgDb.PageCount | lib/postgresql.js:114 | `Math.ceil(total / limit)` is the least page count covering the total; a zero limit gives `null` |
| PgDb.RowOnItsPage | lib/postgresql.js:94-116 | with a limit and a position within `bigint`, every row appears on page `k / limit + 1` at position `k % limit`, and that page is within `totalPages` |
| PgDb.PagesPastTheLastAreEmpty | lib/postgresql.js:94-116 | pages beyond `totalPages`, at offsets within `bigint`, are empty |
| PgDb.TimeOrdersArePreorders | lib/postgresql.js:100 | newest-first and most-recently-updated-first are total preorders |
| PgDb.ActiveUsersNewestFirst | lib/postgresql.js:96-101 | the listing is a permutation of the active users, newest first |
| PgDb.ActiveListingContents | lib/postgresql.js:96-101 | a user is listed exactly when stored and active |
| PgDb.GetAllUsers | lib/postgresql.js:94-116 | fails exactly when the limit or the offset `(page-1)*limit` is negative or beyond `bigint`; otherwise the page is that window of the active users newest first, without hashes; the total counts active users only; `totalPages` is the ceiling |
| PgDb.EarlierPageEarlierRow | lib/postgresql.js:95 | when row `j` of a later page exists, every earlier page is full and its rows stand earlier in the ordered result |
| PgDb.ListingPagesAreOrdered | lib/postgresql.js:94-116 | for any position within the active total, a row of an earlier page is at least as new as a row of a later one |
| PgDb.JoinedPageRow | lib/postgresql.js:149-152 | a listed page row is the page's columns plus `author_name` and `template_name` |
| PgDb.JoinFindsAuthor | lib/postgresql.js:151 | in a store that keeps its foreign keys every listed page has its author's name |
| PgDb.PagesRecentFirst | lib/postgresql.js:153 | the pages are reordered, most recently updated first |
| PgDb.LatestPageFirst | lib/postgresql.js:153 | a page updated later than all others heads the ordering |
| PgDb.GetAllPages | lib/postgresql.js:146-168 | fails exactly when the limit or the offset is negative or beyond `bigint`; otherwise the page is the window at offset `(page-1)*limit` of all pages, most recent first, with their joined names; the total counts all pages; `totalPages` is the ceiling |
| PgDb.CreatePage | lib/postgresql.js:134-143 | U+0000 in a text parameter is exactly the encoding failure; a title with a non-space past VARCHAR(255) or a status with one past VARCHAR(50) is exactly the too-long failure, ahead of the CHECK; a bad status or a missing template or author fails; otherwise it appends one page with the clipped title and returns it whole |
| PgDb.LongStatusIsTooLong | scripts/setup-postgresql.js:87 | a status of 51 letters, which the CHECK would also refuse, fails the page insert as too long |
| PgDb.AppendPageKeepsValid | scripts/setup-postgresql.js:80-87 | a page with the next id, a title within its column and existing references keeps the store valid |
| PgDb.CategoryThenNameIsPreorder | lib/postgresql.js:210 | ordering by category, then name, is a total preorder |
| PgDb.GetAllTemplates | lib/postgresql.js:207-214 | the catalogue is a permutation of the templates, ordered by category and then name |
| PgDb.AppendTemplateKeepsValid | scripts/setup-postgresql.js:62-66 | a template with the next id, its name and category within their columns, keeps the store valid |
| PgDb.CreateTemplate | lib/postgresql.js:224-233 | the insert fails exactly when the store is unreachable, a text parameter holds U+0000, the JSONB reading refuses the tags, or the name or category has a non-space past VARCHAR(255) or VARCHAR(100); the last is a length error exactly when the parameters bind; otherwise it appends one active template with the clipped name and category and the tags as JSONB read them |
| LoginTs.WithoutPassword | app/api/auth/login/route.ts:78 | the reply's user is the row without `password_hash`, every other column unchanged |
| LoginTs.Validate | app/api/auth/login/route.ts:11-25 | a request passes exactly when both fields are present and the e-mail has the shape |
| LoginTs.Login | app/api/auth/login/route.ts:8-94 | malformed requests give 400 before any lookup; no 403 exists; an e-mail holding U+0000 gives 500; 401 "Invalid credentials" exactly for no active holder or a wrong password; success issues the access token (userId, email, role) and the refresh token under its own secret, and applies the self-update |
| LoginTs.NulEmailCausesServerError | app/api/auth/login/route.ts:28 | a well-formed request whose e-mail holds U+0000 gets 500 and changes nothing |
| LoginTs.InactiveUserLooksUnknown | app/api/auth/login/route.ts:28-42 | a user who is not active gets "Invalid credentials" even with the right password, so the "not active" branch is never taken |
| LoginTs.RefreshTokenIsNotAnAccessToken | app/api/auth/login/route.ts:54-69 | with distinct secrets the refresh token never verifies as an access token |
| LoginTs.SelfUpdateOnlyTouchesUpdatedAt | app/api/auth/login/route.ts:72-75 | the post-login update succeeds and changes only that user's `updated_at`; `last_login` stays as it was |
| LoginTs.ValidStoreLoginSucceeds | app/api/auth/login/route.ts:28-85 | in a valid store an active user with the right password always signs in, and only their `updated_at` changes |
| LoginTs.ValidStoreLoginIssues | app/api/auth/login/route.ts:54-85 | that sign-in hands out the user's access token and leaves ids increasing |
| LoginTs.ActiveHolderFound | app/api/auth/login/route.ts:28-34 | in a valid store the active holder of the address is found |
| RegisterTs.Validate | app/api/auth/register/route.ts:11-40 | a request passes exactly when all four fields are present, the e-mail has the shape, the password has at least 6 characters and the confirmation matches |
| RegisterTs.Register | app/api/auth/register/route.ts:8-95 | validation failures give 400; an active holder of a bindable e-mail gives 409; success needs the e-mail free among all users, no U+0000 in the name, e-mail or hash, and no non-space past VARCHAR(255) in any of them, and appends an active `user` with the clipped name and both tokens, replying 201 |
| RegisterTs.LengthCheckedBeforeConfirmation | app/api/auth/register/route.ts:28-40 | a short password is reported before a mismatched confirmation |
| RegisterTs.InactiveHolderCausesServerError | app/api/auth/register/route.ts:43-61 | an e-mail held only by a non-active user gives 500, not 409, and stores nothing |
| RegisterTs.LongNameCausesServerError | app/api/auth/register/route.ts:56-94 | a valid request whose name has a non-space character past VARCHAR(255) gets 500 and stores nothing |
| RegisterTs.PaddedNameIsClipped | app/api/auth/register/route.ts:56-94 | a name longer than VARCHAR(255) only by trailing spaces is accepted with 201 and stored clipped to 255 characters |
| RegisterTs.NulEmailCausesServerError | app/api/auth/register/route.ts:43 | a valid request whose e-mail holds U+0000 gets 500 at the duplicate lookup and stores nothing |
| RegisterTs.EmailFitsWhole | app/api/auth/register/route.ts:19-25 | an address that passes the e-mail test has no space, so it fits VARCHAR(255) exactly when it has at most 255 characters, and then it is stored unclipped |
| RegisterTs.RegisteredUserCanLogIn | app/api/auth/register/route.ts:56-61 | a freshly registered user can sign in at once with the chosen password |
| MeTs.Me | app/api/auth/me/route.ts:5-53 | authentication refusals pass through as 401; an unreachable store gives 500; 404 exactly when no active user has the id; "Account is not active" is never given; success is the active user's profile |
| MeTs.InactiveUserNotFound | app/api/auth/me/route.ts:20-33 | an authenticated user who is not active is told "User not found" |
| MeTs.DeletedUserTokenIsUseless | app/api/auth/me/route.ts:20-26 | after a soft delete a still-live token gives 404 |
| MeTs.ActiveUserServed | app/api/auth/me/route.ts:20-37 | an authenticated active user gets their own profile |
| MeTs.LoginThenMe | app/api/auth/me/route.ts:7-37 | an active user with the right password signs in, and the access token of the sign-in serves the caller's profile, as the sign-in left it, for its whole lifetime |
| MeTs.IssuedTokenServesUser | app/api/auth/me/route.ts:7-37 | an issued access token of an active user serves that user's profile until it expires |
| CmsAccess.Caller | app/api/cms/pages/route.ts:8-27 | token failures give 401; an unreachable store gives 500; 401 "Unauthorized" exactly when no active user has the id; otherwise the active stored user the token names |
| CmsAccess.CallerIsTheTokenOwner | app/api/cms/templates/route.ts:8-27 | in a valid store the gate admits exactly the active owner of the token's id |
| CmsAccess.WriteRightsAreNested | app/api/cms/pages/route.ts:81 | the page route admits admins and editors and the template route (app/api/cms/templates/route.ts:84) admins only, so every template writer may write pages, an editor is exactly a page writer who may not write templates, and a member may write neither |
| CmsPages.List | app/api/cms/pages/route.ts:6-54 | the access gate's refusals pass through; a parameter that is not a number gives 500; otherwise the reply is the store's listing for the parsed page and limit, which fails with 500 beyond `bigint` |
| CmsPages.DefaultsListFirstTen | app/api/cms/pages/route.ts:30-35 | without parameters the first ten pages are listed, with the total of all pages |
| CmsPages.DefaultParams | app/api/cms/pages/route.ts:31-32 | absent parameters read as page 1 and limit 10 |
| CmsPages.ListedWith | app/api/cms/pages/route.ts:31-37 | once both parameters read as numbers the reply is the store's listing, or 500 when the query fails |
| CmsPages.ZeroLimitListsNothing | app/api/cms/pages/route.ts:31-37 | `limit=0` lists nothing and has `totalPages` `null` |
| CmsPages.PageParam | app/api/cms/pages/route.ts:31 | a rendered page number reads back as itself |
| CmsPages.PageZeroFails | app/api/cms/pages/route.ts:31-52 | `page=0` gives a negative offset and a 500 |
| CmsPages.HugeLimitFails | app/api/cms/pages/route.ts:31-52 | a `limit` beyond `bigint` reads as a number and then gives 500 |
| CmsPages.TemplateToStore | app/api/cms/pages/route.ts:102 | `template_id || null`: absent or zero becomes NULL, any other id is kept |
| CmsPages.StatusToStore | app/api/cms/pages/route.ts:88 | an absent status becomes `draft`, `null` stays NULL, a string is passed on |
| CmsPages.Create | app/api/cms/pages/route.ts:57-127 | the gate's refusals pass through; a non-admin, non-editor gets 403 before the body is read; a missing title or content gives 400; success, which needs no U+0000 in the text, no non-space past VARCHAR(255) in the title and none past VARCHAR(50) in the status, appends one page with the clipped title, authored by the caller, and replies 201 |
| CmsPages.NewPageListedFirst | app/api/cms/pages/route.ts:99-110 | a page created later than every stored page heads the first page of the listing |
| CmsPages.MembersCannotCreate | app/api/cms/pages/route.ts:81-86 | a member is refused with 403 and nothing changes |
| CmsPages.LongTitleCausesServerError | app/api/cms/pages/route.ts:99-126 | a title with a non-space character past VARCHAR(255) passes the handler's checks and gets 500, storing nothing |
| CmsPages.NulTextCausesServerError | app/api/cms/pages/route.ts:99-126 | a title or content holding U+0000 passes the handler's checks and gets 500, storing nothing |
| CmsTemplates.ShownTags | app/api/cms/templates/route.ts:33-36 | string tags go through `JSON.parse`; any other value is passed on |
| CmsTemplates.ShowAll | app/api/cms/templates/route.ts:33-36 | the mapping succeeds exactly when every template's tags can be shown, row by row |
| CmsTemplates.List | app/api/cms/templates/route.ts:6-57 | the gate's refusals pass through; the reply succeeds exactly when every stored template's tags can be shown, listing them by category and name |
| CmsTemplates.Nullable | app/api/cms/templates/route.ts:91-99 | an absent or `null` optional column is bound as NULL, a string as itself |
| CmsTemplates.Create | app/api/cms/templates/route.ts:60-143 | a non-admin gets 403; missing name, category or content give 400; a complete body is stored exactly when its text binds, the JSONB reading takes its tags (defaulting to `[]`) and the name and category fit their columns, and then with clipped values and the tags as JSONB read them; the reply is 201 only when the stored tags can be shown |
| CmsTemplates.StringTagsStoredThenFail | app/api/cms/templates/route.ts:110-126 | tags sent as an unparsable JSON string are stored, and the reply is 500 |
| CmsTemplates.AbsentTagsAreEmptyArray | app/api/cms/templates/route.ts:98 | without tags the template is created with the empty array |
| CmsTemplates.LongCategoryCausesServerError | app/api/cms/templates/route.ts:110-142 | a category with a non-space character past VARCHAR(100) gets 500 and stores nothing |
| CmsTemplates.RefusedTagsCauseServerError | app/api/cms/templates/route.ts:110-142 | tags the JSONB column refuses give 500 and store nothing |
| CmsTemplates.BadTagsBreakTheCatalogue | app/api/cms/templates/route.ts:30-36 | once such a template is stored, every later listing fails |
| CmsTemplates.CreatedTemplateIsListed | app/api/cms/templates/route.ts:30-40 | a template created with showable tags appears in the catalogue as the creation reply showed it |
| BulkAction.ParseAction | app/api/admin/users/bulk-action/route.js:17-23 | exactly the five whitelisted names are actions |
| BulkAction.TargetsAreValidStatuses | app/api/admin/users/bulk-action/route.js:29-62 | no action sets `pending`; every target passes the status whitelist; approve and activate, and reject and deactivate, share a status under different messages |
| BulkAction.StatusRow | app/api/admin/users/bulk-action/route.js:74-77 | the returned rows have exactly the seven selected columns |
| BulkAction.Rows | app/api/admin/users/bulk-action/route.js:74-77 | one projected row per user, in order |
| BulkAction.Apply | app/api/admin/users/bulk-action/route.js:5-93 | a missing action or empty id list gives 400, an unlisted action gives 400, the status check never refuses; a list with more ids than SQLite's variable limit allows gives 500; success sets the mapped status on exactly the listed users and counts them |
| BulkAction.RepeatIsStable | app/api/admin/users/bulk-action/route.js:68-83 | repeating an action leaves the same statuses and reports the same count |
| BulkAction.CountSameIds | app/api/admin/users/bulk-action/route.js:68-82 | changing columns other than the id changes no count by id |
| BulkAction.BannedUserCannotLogIn | app/api/admin/users/bulk-action/route.js:38-41 | a user banned in bulk is refused with the ban message at login, even with the right password |
| BulkAction.BanSetsBanned | app/api/admin/users/bulk-action/route.js:38-41 | `ban` sets status `banned` on the listed users |
| BulkAction.AppliesTarget | app/api/admin/users/bulk-action/route.js:29-71 | a whitelisted action on a non-empty list sets its status when the list is within the variable limit, and changes nothing otherwise |
| BulkAction.IdRow | app/api/admin/users/bulk-action/route.js:112-115 | the rows reported as deleted have exactly id and email |
| BulkAction.Remove | app/api/admin/users/bulk-action/route.js:96-144 | an empty or absent list gives 400; a list beyond SQLite's variable limit gives 500; no listed user gives 404 with nothing changed; otherwise exactly the listed users and all their sessions are removed and the others kept |
| BulkAction.UnknownIdsDeleteNothing | app/api/admin/users/bulk-action/route.js:108-122 | ids no user carries change nothing, and give 404 within the variable limit and 500 beyond it |
| UserManagement.OrderIsPreorder | app/components/UserManagement.tsx:191-200 | the ascending and descending comparators are total preorders |
| UserManagement.Visible | app/components/UserManagement.tsx:184-200 | the list is a permutation of the rows passing the search and status filter, ordered by the column in the chosen direction |
| UserManagement.VisibleMembership | app/components/UserManagement.tsx:184-190 | a row is listed exactly when it is stored and passes the filter |
| UserManagement.EverythingShownByDefault | app/components/UserManagement.tsx:184-190 | an empty search under `all` lists every user |
| UserManagement.Toggle | app/components/UserManagement.tsx:167-173 | a selected id is removed, every copy of it; an unselected one is appended; no other id changes |
| UserManagement.ToggleTwice | app/components/UserManagement.tsx:167-173 | toggling the same id twice restores who is selected |
| UserManagement.ToggleAll | app/components/UserManagement.tsx:175-181 | a selection as long as the list is cleared, whoever it holds; otherwise exactly the listed ids are selected |
| UserManagement.SelectAllThenClear | app/components/UserManagement.tsx:175-181 | "select all" ticks every row's checkbox (line 410) and the header's (line 392), and a second click clears the selection |
| UserManagement.CountersWithinTotal | app/components/UserManagement.tsx:239-283 | the pending, active and banned counters add up to at most the total |
| UserManagement.CountsOfDisjoint | app/components/UserManagement.tsx:239-283 | counters of three distinct statuses add up to at most the total |
| UserManagement.BulkRequest | app/components/UserManagement.tsx:53-68 | a request is sent exactly when something is selected and confirmed, carrying the action and the selection |
| UserManagement.DeleteRequest | app/components/UserManagement.tsx:85-100 | a delete is sent exactly when something is selected and confirmed |
| UserManagement.ButtonsSendValidRequests | app/components/UserManagement.tsx:53-68 | the approve and ban buttons' requests pass the handler's validation, and succeed exactly when the selection is within SQLite's variable limit |
| TemplateGallery.Filtered | app/components/TemplateGallery.tsx:83-89 | a template is shown exactly when its category matches, or is `All`, and the term is in its name, description or a tag; the result keeps catalogue order |
| TemplateGallery.InitialViewShowsAll | app/components/TemplateGallery.tsx:15-89 | `All` with an empty term shows the whole catalogue in order |
| TemplateGallery.CategoriesMatchCatalogue | app/components/TemplateGallery.tsx:15-72 | every template's category has a button, and every button but `All` names some template's category |
| PageBuilder.TemplateContent | app/components/PageBuilder.tsx:45-86 | the default page is returned exactly for ids without starter content; the blog starter embeds the date |
| PageBuilder.LandingDiffers | app/components/PageBuilder.tsx:47-59 | the landing starter is not the default page |
| PageBuilder.PortfolioDiffers | app/components/PageBuilder.tsx:72-82 | the portfolio starter is not the default page |
| PageBuilder.BlogDiffers | app/components/PageBuilder.tsx:60-71 | the blog starter is not the default page, whatever the date |
| PageBuilder.SelectTemplate | app/components/PageBuilder.tsx:35-43 | choosing a template loads its content and its name as the title and keeps the current page |
| PageBuilder.GalleryTemplatesWithoutStarter | app/components/PageBuilder.tsx:45-86 | of the gallery's templates exactly `landing-2`, `business-1` and `restaurant-1` load the default page |
| PageBuilder.Upsert | app/components/PageBuilder.tsx:107-116 | an entry with the id is replaced in place, otherwise the page is appended; other entries are unchanged |
| PageBuilder.UpsertKeepsIdsDistinct | app/components/PageBuilder.tsx:107-116 | saving keeps the stored ids distinct |
| PageBuilder.UpsertIdempotent | app/components/PageBuilder.tsx:107-116 | upserting the same page twice equals upserting it once |
| PageBuilder.PageId | app/components/PageBuilder.tsx:95 | the page id is never empty |
| PageBuilder.Save | app/components/PageBuilder.tsx:88-118 | a blank title changes nothing; otherwise the page is a draft with the editor's fields and keeps its id and creation date, and the list is upserted |
| PageBuilder.SaveGrowsByAtMostOne | app/components/PageBuilder.tsx:107-116 | a save grows the list by at most one page |
| PageBuilder.Publish | app/components/PageBuilder.tsx:120-138 | no current page changes nothing; otherwise the page is marked published and the list changes only at the entry with its id, if any |
| PageBuilder.SaveThenPublish | app/components/PageBuilder.tsx:88-138 | publishing right after a save publishes the stored copy and keeps the list's length |
| PageBuilder.SaveUnpublishes | app/components/PageBuilder.tsx:94-102 | saving a published page makes it a draft again, in the editor and the list |
| PageBuilder.SaveTwiceStoresOnce | app/components/PageBuilder.tsx:107-116 | saving twice stores the page once |
| RegisterForm.ComplexOnOneLine | app/components/RegisterForm.tsx:36 | on one line the complexity pattern asks for a lower-case letter, an upper-case letter and a digit |
| RegisterForm.SplitByLineBreakIsWeak | app/components/RegisterForm.tsx:36 | the three characters split by a line break do not match |
| RegisterForm.NameError | app/components/RegisterForm.tsx:29-30 | no error exactly when the trimmed name has at least 2 characters; "required" exactly when it is blank |
| RegisterForm.EmailError | app/components/RegisterForm.tsx:31-33 | no error exactly when the e-mail has the shape; "required" exactly when it is empty |
| RegisterForm.PasswordError | app/components/RegisterForm.tsx:34-36 | no error exactly when the password has 6 or more characters and matches the pattern; empty and short are reported first |
| RegisterForm.ConfirmError | app/components/RegisterForm.tsx:37-38 | no error exactly when the confirmation is non-empty and equals the password |
| RegisterForm.Validate | app/components/RegisterForm.tsx:27-41 | each field gets the error of its own check |
| RegisterForm.ValidIff | app/components/RegisterForm.tsx:27-41 | the form is clean exactly when every field meets its rule |
| RegisterForm.Submit | app/components/RegisterForm.tsx:43-52 | the data is handed on exactly when the form is clean |
| RegisterForm.SubmittedFormPassesJsServer | app/page.tsx:45-54 | whatever the form submits passes the `.js` server's validation |
| RegisterForm.TsServerRefusesEveryForm | app/page.tsx:49-54 | the page posts no `confirmPassword`, so the `.ts` server answers every sign-up with 400 "All fields are required" and stores nothing |
| RegisterForm.PaddedNameTooShort | app/components/RegisterForm.tsx:29-30 | a one-letter name padded with blanks is too short |
| RegisterForm.LowerCasePasswordIsWeak | app/components/RegisterForm.tsx:36 | six lower-case letters are too weak |
| RegisterForm.JsServerAcceptsWhatFormRejects | app/api/auth/register/route.js:10-32 | a request the `.js` server accepts can be one the form rejects |
| AuthService.Login | app/services/authService.ts:24-52 | storage is written only after an OK reply with a JSON body; a failure throws the server's error or the fixed message and leaves storage as it was |
| AuthService.Logout | app/services/authService.ts:85-91 | both session keys are removed and every other key is kept |
| AuthService.CurrentUser | app/services/authService.ts:94-104 | a missing, empty or unparsable entry gives `null`; otherwise the parsed value |
| AuthService.IsAuthenticated | app/services/authService.ts:112-116 | authenticated exactly when a non-empty token and a truthy parsed user are stored |
| AuthService.RefreshToken | app/services/authService.ts:129-160 | without a token both keys are cleared and it throws; otherwise the stored token becomes the prefix plus the clock in decimal |
| AuthService.ValidateToken | app/services/authService.ts:164-185 | true exactly when a non-empty token is stored |
| AuthService.LoginAuthenticates | app/services/authService.ts:36-42 | after a successful login with a token and a user the session is authenticated as that user |
| AuthService.MissingTokenStillAuthenticates | app/services/authService.ts:41 | an OK reply without a token stores `undefined` and still authenticates |
| AuthService.LogoutUnauthenticates | app/services/authService.ts:85-116 | after logout nobody is authenticated and no token is valid |
| AuthService.RefreshKeepsSession | app/services/authService.ts:129-160 | a refresh keeps an authenticated session authenticated, as the same user |
| AuthService.FailedLoginKeepsSession | app/services/authService.ts:34-38 | a failed login leaves the session as it was |

## Left out

- bcrypt and jsonwebtoken are parameters, not implementations. Token
  lifetimes given as strings (`'7d'`) enter as seconds, and `jsonwebtoken`'s
  clock tolerance is not modelled.
- SQL execution, the connection pool, opening and closing the file database,
  and logging are not modelled. The store is a set of sequences, and a store
  that cannot be reached is a flag.
- `getPageById`, `updatePage`, `deletePage` and `getTemplateById` in
  lib/postgresql.js are not modelled: no handler of the model calls them.
- The admin listing and statistics routes, the dashboard, the login form, the
  3-D background and the editor wrapper are not part of this model.
- `fetch`, `alert`, `confirm`, `window.location` and the OAuth redirect stubs
  of authService.ts are not modelled. A reply or a confirmation enters as a
  parameter.
- Strings are sequences of code points, not UTF-16 code units. String
  comparison for sorting and `length` therefore differ from JavaScript on
  characters outside the Basic Multilingual Plane.
- Common.Lower: folds ASCII letters only, because the full Unicode case
  mapping of `toLowerCase` is library data.
- JsNumber.Magnitude: is unbounded, because `parseInt` losing precision past
  2^53 is floating-point behaviour.
- Dates are natural-number clock readings. The JSON round trip of stored
  editor pages, which turns dates into strings, is not modelled.
- The thumbnail and preview URLs of the gallery templates and the gallery's
  selection state are not modelled.
- UserManagement.Visible: states order and permutation but not stability.
  JavaScript's `sort` is stable, and the model's insertion sort is too, but
  no contract says so.
- A `template_id` or an id in `userIds` that is not a number is not modelled.
  Request ids are integers.
- Common.Field: a body property is absent, `null` or a string. JSON numbers,
  booleans, arrays and objects are not modelled, so a handler fed, say, a
  numeric password (which reaches `bcrypt` and gives 500) is outside the model.
- PageBuilder.TemplateContent: looks a template id up among the starter
  contents only. Inherited object keys such as `constructor` or `toString`,
  which `templates[templateId] || ...` would also find, are not modelled.
- CmsPages.List: a `page` so long that `parseInt` gives `Infinity`, together
  with `limit=0`, makes JavaScript compute a NaN offset and fail. The model's
  offset is then 0, because `Magnitude` is unbounded.
- PgDb.GetAllTemplates: orders by code point. `ORDER BY category, name`
  uses the database's collation, which the setup script leaves to the
  server's locale, so letters of different case or accents may sort
  differently there.
- PgDb.GetAllUsers: lists users with equal `created_at` in store order.
  PostgreSQL leaves the order of such ties open, so the pages of its listing
  may differ, or repeat and skip such rows.
- PgDb.GetAllPages: lists pages with equal `updated_at` in store order.
  PostgreSQL leaves the order of such ties open, as above.
- LoginJs.Login: the session expiry is the clock plus 7 × 86400 seconds.
  `setDate(getDate() + 7)` works in local calendar days, so across a
  daylight-saving change the source's expiry is an hour earlier or later.
- Races between concurrent requests are not modelled. Every handler runs
  atomically on the store.
