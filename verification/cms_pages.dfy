/** `GET` and `POST /api/cms/pages` (app/api/cms/pages/route.ts): the
    paginated page listing for any active user, and page creation for
    administrators and editors. */
module CmsPages {
  import opened Common
  import opened Tokens
  import PgDb
  import TsAuth
  import CmsAccess
  import JsNumber

  const MsgRequired := "Title and content are required"
  const MsgCreated := "Page created successfully"
  const MsgServer := "Internal server error"

  /** `parseInt(param || fallback)`: an absent or empty parameter takes the
      fallback text. */
  function NumberParam(param: Option<string>, fallback: string): Option<int> {
    JsNumber.ParseInt(OrElse(param, fallback))
  }

  /** The listing handler; `page` and `limit` are the query parameters. */
  function List(db: PgDb.Db, header: Option<string>, page: Option<string>, limit: Option<string>,
                env: Env, codec: Codec, now: nat): (r: Reply<PgDb.Listing>)
    ensures CmsAccess.Caller(db, header, env, codec, now).Refused? ==>
              r == Refused(CmsAccess.Caller(db, header, env, codec, now).code,
                           CmsAccess.Caller(db, header, env, codec, now).error)
    // Parameters that are not numbers reach the query as NaN, which fails.
    ensures CmsAccess.Caller(db, header, env, codec, now).Done? ==>
              (NumberParam(page, "1").None? || NumberParam(limit, "10").None? ==> r == Refused(500, MsgServer))
    ensures r.Done? <==>
              && CmsAccess.Caller(db, header, env, codec, now).Done?
              && NumberParam(page, "1").Some? && NumberParam(limit, "10").Some?
              && PgDb.GetAllPages(db, NumberParam(page, "1").value, NumberParam(limit, "10").value).Ok?
    ensures r.Done? ==>
              r == Done(200, PgDb.GetAllPages(db, NumberParam(page, "1").value, NumberParam(limit, "10").value).value)
  {
    match CmsAccess.Caller(db, header, env, codec, now)
    case Refused(code, error) => Refused(code, error)
    case Done(_, _) =>
      var p := NumberParam(page, "1");
      var l := NumberParam(limit, "10");
      if p.None? || l.None? then Refused(500, MsgServer)
      else
        match PgDb.GetAllPages(db, p.value, l.value)
        case Err(_) => Refused(500, MsgServer)
        case Ok(listing) => Done(200, listing)
  }

  /** Without parameters the first ten pages are listed. */
  lemma DefaultsListFirstTen(db: PgDb.Db, header: Option<string>, env: Env, codec: Codec, now: nat)
    requires CmsAccess.Caller(db, header, env, codec, now).Done?
    ensures var r := List(db, header, None, None, env, codec, now);
            && r.Done? && r.body.page == 1 && r.body.limit == 10
            && r.body.total == |db.pages|
            && |r.body.rows| == PgDb.Min(10, |db.pages|)
  {
    DefaultParams();
    ListedWith(db, header, None, None, 1, 10, env, codec, now);
  }

  /** Absent parameters read as page 1 and limit 10. */
  lemma DefaultParams()
    ensures NumberParam(None, "1") == Some(1) && NumberParam(None, "10") == Some(10)
  {
    assert OrElse(None, "1") == "1" && OrElse(None, "10") == "10";
    JsNumber.DefaultLiterals();
  }

  /** Once both parameters read as numbers, the reply is the store's
      listing for them. */
  lemma ListedWith(db: PgDb.Db, header: Option<string>, page: Option<string>, limit: Option<string>,
                   p: int, l: int, env: Env, codec: Codec, now: nat)
    requires CmsAccess.Caller(db, header, env, codec, now).Done?
    requires NumberParam(page, "1") == Some(p) && NumberParam(limit, "10") == Some(l)
    ensures db.online
    ensures PgDb.GetAllPages(db, p, l).Ok? ==> List(db, header, page, limit, env, codec, now) == Done(200, PgDb.GetAllPages(db, p, l).value)
    ensures PgDb.GetAllPages(db, p, l).Err? ==> List(db, header, page, limit, env, codec, now) == Refused(500, MsgServer)
  {
  }

  /** `limit=0` is a number, so it is not replaced by the default: the
      listing is empty and its page count is `null` (Infinity or NaN). */
  lemma ZeroLimitListsNothing(db: PgDb.Db, header: Option<string>, page: nat, env: Env, codec: Codec, now: nat)
    requires CmsAccess.Caller(db, header, env, codec, now).Done?
    ensures var r := List(db, header, Some(DecimalString(page)), Some("0"), env, codec, now);
            r.Done? && r.body.rows == [] && r.body.totalPages.None?
  {
    PageParam(page);
    assert NumberParam(Some("0"), "10") == Some(0) by {
      assert OrElse(Some("0"), "10") == "0";
      JsNumber.DefaultLiterals();
    }
    ListedWith(db, header, Some(DecimalString(page)), Some("0"), page, 0, env, codec, now);
    assert (page - 1) * 0 == 0;
  }

  /** A rendered page number reads back as itself. */
  lemma PageParam(page: nat)
    ensures NumberParam(Some(DecimalString(page)), "1") == Some(page)
  {
    assert DecimalString(page) + "" == DecimalString(page);
    assert OrElse(Some(DecimalString(page)), "1") == DecimalString(page);
    JsNumber.DecimalReadsBack(page, "");
  }

  /** A limit beyond `bigint` reads as a number but the database refuses
      it: 500. */
  lemma HugeLimitFails(db: PgDb.Db, header: Option<string>, limit: nat, env: Env, codec: Codec, now: nat)
    requires CmsAccess.Caller(db, header, env, codec, now).Done?
    requires limit > PgDb.BigintMax
    ensures List(db, header, None, Some(DecimalString(limit)), env, codec, now) == Refused(500, MsgServer)
  {
    DefaultParams();
    assert NumberParam(Some(DecimalString(limit)), "10") == Some(limit) by {
      assert OrElse(Some(DecimalString(limit)), "10") == DecimalString(limit) by {
        DecimalRoundTrip(limit);
      }
      assert DecimalString(limit) + "" == DecimalString(limit);
      JsNumber.DecimalReadsBack(limit, "");
    }
    ListedWith(db, header, None, Some(DecimalString(limit)), 1, limit, env, codec, now);
    assert !PgDb.CountArgument(limit);
  }

  /** Page zero, or a negative page, yields a negative offset, which the
      database rejects. */
  lemma PageZeroFails(db: PgDb.Db, header: Option<string>, env: Env, codec: Codec, now: nat)
    requires CmsAccess.Caller(db, header, env, codec, now).Done?
    ensures List(db, header, Some("0"), None, env, codec, now) == Refused(500, MsgServer)
  {
    assert NumberParam(Some("0"), "1") == Some(0) by {
      assert OrElse(Some("0"), "1") == "0";
      JsNumber.DefaultLiterals();
    }
    DefaultParams();
    ListedWith(db, header, Some("0"), None, 0, 10, env, codec, now);
  }

  // ---------------------------------------------------------------------
  // POST
  // ---------------------------------------------------------------------

  /** The JSON body. `templateId` is `None` when absent or `null`. */
  datatype PageBody = PageBody(title: Field, content: Field, templateId: Option<int>, status: Field)

  /** The success payload. */
  datatype Created = Created(message: string, page: Row)

  /** `template_id || null`: zero counts as no template. */
  function TemplateToStore(id: Option<int>): (r: Option<int>)
    ensures r.None? <==> id.None? || id.value == 0
    ensures r.Some? ==> r == id
  {
    if id.Some? && id.value != 0 then id else None
  }

  /** `status = 'draft'` in the destructuring: the default replaces only an
      absent status; an explicit `null` is stored as NULL. */
  function StatusToStore(f: Field): (r: Option<string>)
    ensures f.Missing? ==> r == Some(PgDb.PageStatusName(PgDb.Draft))
    ensures f.Null? ==> r.None?
    ensures f.Text? ==> r == Some(f.s)
  {
    match f
    case Missing => Some("draft")
    case Null => None
    case Text(s) => Some(s)
  }

  /** The creation handler; `body` is `None` when it is not JSON. */
  function Create(db: PgDb.Db, header: Option<string>, body: Option<PageBody>, env: Env, codec: Codec,
                  now: nat): (r: (Reply<Created>, PgDb.Db))
    ensures !r.0.Done? ==> r.1 == db
    ensures CmsAccess.Caller(db, header, env, codec, now).Refused? ==>
              r.0 == Refused(CmsAccess.Caller(db, header, env, codec, now).code,
                             CmsAccess.Caller(db, header, env, codec, now).error)
    // The role is checked before the body is read.
    ensures r.0 == Refused(403, CmsAccess.MsgForbidden) <==>
              && CmsAccess.Caller(db, header, env, codec, now).Done?
              && !CmsAccess.MayWritePages(CmsAccess.Caller(db, header, env, codec, now).body)
    ensures r.0 == Refused(400, MsgRequired) <==>
              && CmsAccess.Caller(db, header, env, codec, now).Done?
              && CmsAccess.MayWritePages(CmsAccess.Caller(db, header, env, codec, now).body)
              && body.Some? && !(Present(body.value.title) && Present(body.value.content))
    ensures r.0.Done? <==>
              && CmsAccess.Caller(db, header, env, codec, now).Done?
              && CmsAccess.MayWritePages(CmsAccess.Caller(db, header, env, codec, now).body)
              && body.Some? && Present(body.value.title) && Present(body.value.content)
              && var st := StatusToStore(body.value.status);
                 var tid := TemplateToStore(body.value.templateId);
                 && PgDb.PageAccepted(body.value.title.s, body.value.content.s, st)
                 && (st.None? || PgDb.ParsePageStatus(st.value).Some?)
                 && (tid.None? || PgDb.HasTemplate(db, tid.value))
    // The page is appended with the caller as its author, its title
    // clipped to the column, and returned.
    ensures r.0.Done? ==>
              var author := CmsAccess.Caller(db, header, env, codec, now).body;
              var tid := TemplateToStore(body.value.templateId);
              var st := StatusToStore(body.value.status);
              var p := PgDb.Page(db.nextPageId, PgDb.Clip(body.value.title.s, PgDb.VarcharLimit), body.value.content.s,
                                 if tid.Some? then Some(tid.value as nat) else None, author.id,
                                 if st.Some? then PgDb.ParsePageStatus(st.value) else None, now, now);
              && r.1 == db.(pages := db.pages + [p], nextPageId := db.nextPageId + 1)
              && r.0 == Done(201, Created(MsgCreated, PgDb.PageRow(p)))
    ensures r.0.Done? && PgDb.Valid(db) ==> PgDb.Valid(r.1)
  {
    match CmsAccess.Caller(db, header, env, codec, now)
    case Refused(code, error) => (Refused(code, error), db)
    case Done(_, user) =>
      if !CmsAccess.MayWritePages(user) then (Refused(403, CmsAccess.MsgForbidden), db)
      else if body.None? then (Refused(500, MsgServer), db)
      else if !Present(body.value.title) || !Present(body.value.content) then (Refused(400, MsgRequired), db)
      else
        assert PgDb.HasUser(db, user.id) by {
          var k :| 0 <= k < |db.users| && db.users[k] == user;
        }
        match PgDb.CreatePage(db, body.value.title.s, body.value.content.s, TemplateToStore(body.value.templateId),
                              user.id, StatusToStore(body.value.status), now)
        case Err(_) => (Refused(500, MsgServer), db)
        case Ok((db', row)) => (Done(201, Created(MsgCreated, row)), db')
  }

  /** A page created at a later time than every stored page heads the first
      page of the listing. */
  lemma NewPageListedFirst(db: PgDb.Db, header: Option<string>, body: PageBody, env: Env, codec: Codec,
                           now: nat, limit: int)
    requires Create(db, header, Some(body), env, codec, now).0.Done?
    requires forall p | p in db.pages :: p.updatedAt < now
    requires 0 < limit <= PgDb.BigintMax
    ensures var db' := Create(db, header, Some(body), env, codec, now).1;
            var listing := PgDb.GetAllPages(db', 1, limit);
            && listing.Ok? && |listing.value.rows| > 0
            && listing.value.rows[0] == PgDb.JoinedPageRow(db', db'.pages[|db.pages|])
  {
    var db' := Create(db, header, Some(body), env, codec, now).1;
    var p := db'.pages[|db.pages|];
    assert db'.pages == db.pages + [p];
    assert p.updatedAt == now;
    PgDb.LatestPageFirst(db', p);
  }

  /** A title with a character that is not a space past its `VARCHAR(255)`
      column's length passes the handler's checks and fails the insert: 500,
      and nothing is stored. */
  lemma LongTitleCausesServerError(db: PgDb.Db, header: Option<string>, body: PageBody, env: Env,
                                   codec: Codec, now: nat)
    requires CmsAccess.Caller(db, header, env, codec, now).Done?
    requires CmsAccess.Caller(db, header, env, codec, now).body.role == PgDb.Editor
    requires Present(body.title) && Present(body.content)
    requires exists k | PgDb.VarcharLimit <= k < |body.title.s| :: body.title.s[k] != ' '
    ensures Create(db, header, Some(body), env, codec, now) == (Refused(500, MsgServer), db)
  {
  }

  /** A title or content holding U+0000 cannot be bound: 500, and nothing
      is stored. */
  lemma NulTextCausesServerError(db: PgDb.Db, header: Option<string>, body: PageBody, env: Env,
                                 codec: Codec, now: nat)
    requires CmsAccess.Caller(db, header, env, codec, now).Done?
    requires CmsAccess.Caller(db, header, env, codec, now).body.role == PgDb.Editor
    requires Present(body.title) && Present(body.content)
    requires !PgDb.Bindable(body.title.s) || !PgDb.Bindable(body.content.s)
    ensures Create(db, header, Some(body), env, codec, now) == (Refused(500, MsgServer), db)
  {
  }

  /** A member is turned away before the body is even read. */
  lemma MembersCannotCreate(db: PgDb.Db, header: Option<string>, body: Option<PageBody>, env: Env,
                            codec: Codec, now: nat)
    requires CmsAccess.Caller(db, header, env, codec, now).Done?
    requires CmsAccess.Caller(db, header, env, codec, now).body.role == PgDb.Member
    ensures Create(db, header, body, env, codec, now) == (Refused(403, CmsAccess.MsgForbidden), db)
  {
  }
}
