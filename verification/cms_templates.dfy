/** `GET` and `POST /api/cms/templates` (app/api/cms/templates/route.ts):
    the template catalogue for any active user, and template creation for
    administrators. `tags` is a JSONB column: the driver hands it back
    already parsed, and the handlers parse it again only when that parsed
    value is a string. The tags are not read back unchanged: `jsonb` stands
    for what the column makes of them. */
module CmsTemplates {
  import opened Common
  import opened Tokens
  import opened Sorting
  import PgDb
  import CmsAccess

  const MsgRequired := "Name, category, and content are required"
  const MsgCreated := "Template created successfully"
  const MsgServer := "Internal server error"

  /** The tags as sent to the client: a JSON string value goes through
      `JSON.parse` (`parse`, `None` when it throws); any other value is
      passed on. */
  function ShownTags(tags: Value, parse: string -> Option<Value>): (r: Option<Value>)
    ensures !tags.Str? ==> r == Some(tags)
    ensures tags.Str? ==> r == parse(tags.s)
  {
    if tags.Str? then parse(tags.s) else Some(tags)
  }

  predicate Shows(t: PgDb.Template, parse: string -> Option<Value>) {
    ShownTags(t.tags, parse).Some?
  }

  function ShownRow(t: PgDb.Template, parse: string -> Option<Value>): Row
    requires Shows(t, parse)
  {
    PgDb.TemplateRow(t)["tags" := ShownTags(t.tags, parse).value]
  }

  /** `templates.map(...)`: one throwing `JSON.parse` fails the whole map. */
  function ShowAll(ts: seq<PgDb.Template>, parse: string -> Option<Value>): (r: Option<seq<Row>>)
    ensures r.Some? <==> forall t | t in ts :: Shows(t, parse)
    ensures r.Some? ==> |r.value| == |ts| && forall k | 0 <= k < |ts| :: r.value[k] == ShownRow(ts[k], parse)
  {
    if ts == [] then Some([])
    else if !Shows(ts[0], parse) then None
    else
      match ShowAll(ts[1..], parse)
      case None =>
        assert exists t | t in ts[1..] :: !Shows(t, parse);
        None
      case Some(rest) =>
        assert forall t | t in ts :: t == ts[0] || t in ts[1..];
        Some([ShownRow(ts[0], parse)] + rest)
  }

  /** The catalogue handler. */
  function List(db: PgDb.Db, header: Option<string>, env: Env, codec: Codec, now: nat,
                parse: string -> Option<Value>): (r: Reply<seq<Row>>)
    ensures CmsAccess.Caller(db, header, env, codec, now).Refused? ==>
              r == Refused(CmsAccess.Caller(db, header, env, codec, now).code,
                           CmsAccess.Caller(db, header, env, codec, now).error)
    // A single stored string tag that does not parse fails every listing.
    ensures r.Done? <==>
              CmsAccess.Caller(db, header, env, codec, now).Done? && forall t | t in db.templates :: Shows(t, parse)
    ensures r.Done? ==>
              && r.code == 200 && |r.body| == |db.templates|
              && var sorted := PgDb.GetAllTemplates(db).value;
                 forall k | 0 <= k < |sorted| :: Shows(sorted[k], parse) && r.body[k] == ShownRow(sorted[k], parse)
  {
    match CmsAccess.Caller(db, header, env, codec, now)
    case Refused(code, error) => Refused(code, error)
    case Done(_, _) =>
      match PgDb.GetAllTemplates(db)
      case Err(_) => Refused(500, MsgServer)
      case Ok(sorted) =>
        PermutationSameMembers(sorted, db.templates);
        match ShowAll(sorted, parse)
        case None => Refused(500, MsgServer)
        case Some(rows) => Done(200, rows)
  }

  // ---------------------------------------------------------------------
  // POST
  // ---------------------------------------------------------------------

  /** The JSON body; `tags` is `None` when absent. */
  datatype TemplateBody = TemplateBody(name: Field, description: Field, category: Field, thumbnail: Field,
                                       previewUrl: Field, content: Field, tags: Option<Value>)

  datatype Created = Created(message: string, template: Row)

  /** An optional text column: an absent or `null` field is bound as NULL. */
  function Nullable(f: Field): (r: Option<string>)
    ensures r.Some? <==> f.Text?
    ensures f.Text? ==> r.value == f.s
  {
    if f.Text? then Some(f.s) else None
  }

  /** `tags = []`: the empty array when the field is absent. */
  function TagsToStore(tags: Option<Value>): Value {
    if tags.Some? then tags.value else Json("[]")
  }

  predicate Complete(b: TemplateBody) {
    Present(b.name) && Present(b.category) && Present(b.content)
  }

  /** What `createTemplate` needs of a complete body; `jsonb` is the
      column's reading of the tags, as in PgDb.CreateTemplate. */
  predicate Accepted(b: TemplateBody, jsonb: Value -> Option<Value>)
    requires Complete(b)
  {
    PgDb.TemplateAccepted(b.name.s, Nullable(b.description), b.category.s, Nullable(b.thumbnail),
                          Nullable(b.previewUrl), b.content.s, TagsToStore(b.tags), jsonb)
  }

  /** The template `createTemplate` stores for a body: name and category
      clipped to their columns, and the tags as the `jsonb` column reads
      them back. */
  function NewTemplate(db: PgDb.Db, b: TemplateBody, now: nat, jsonb: Value -> Option<Value>): PgDb.Template
    requires Complete(b) && jsonb(TagsToStore(b.tags)).Some?
  {
    PgDb.Template(db.nextTemplateId, PgDb.Clip(b.name.s, PgDb.VarcharLimit), Nullable(b.description),
                  PgDb.Clip(b.category.s, PgDb.CategoryLimit), Nullable(b.thumbnail), Nullable(b.previewUrl),
                  b.content.s, jsonb(TagsToStore(b.tags)).value, true, now, now)
  }

  /** The creation handler; `body` is `None` when it is not JSON. */
  function Create(db: PgDb.Db, header: Option<string>, body: Option<TemplateBody>, env: Env, codec: Codec,
                  now: nat, parse: string -> Option<Value>, jsonb: Value -> Option<Value>)
    : (r: (Reply<Created>, PgDb.Db))
    ensures CmsAccess.Caller(db, header, env, codec, now).Refused? ==>
              r == (Refused(CmsAccess.Caller(db, header, env, codec, now).code,
                            CmsAccess.Caller(db, header, env, codec, now).error), db)
    ensures r.0 == Refused(403, CmsAccess.MsgForbidden) <==>
              && CmsAccess.Caller(db, header, env, codec, now).Done?
              && !CmsAccess.MayWriteTemplates(CmsAccess.Caller(db, header, env, codec, now).body)
    ensures r.0 == Refused(400, MsgRequired) <==>
              && CmsAccess.Caller(db, header, env, codec, now).Done?
              && CmsAccess.MayWriteTemplates(CmsAccess.Caller(db, header, env, codec, now).body)
              && body.Some? && !Complete(body.value)
    // The row is stored whenever the request is well formed and the store
    // takes its values ...
    ensures r.1 != db <==>
              && CmsAccess.Caller(db, header, env, codec, now).Done?
              && CmsAccess.MayWriteTemplates(CmsAccess.Caller(db, header, env, codec, now).body)
              && body.Some? && Complete(body.value) && Accepted(body.value, jsonb)
    ensures r.1 != db ==>
              body.Some? && Complete(body.value) && Accepted(body.value, jsonb) &&
              r.1 == db.(templates := db.templates + [NewTemplate(db, body.value, now, jsonb)],
                         nextTemplateId := db.nextTemplateId + 1)
    // ... but the reply is a success only when its tags can be shown.
    ensures r.0.Done? <==> r.1 != db && body.Some? && Complete(body.value) && Accepted(body.value, jsonb)
                           && Shows(NewTemplate(db, body.value, now, jsonb), parse)
    ensures r.0.Done? ==>
              r.0 == Done(201, Created(MsgCreated, ShownRow(NewTemplate(db, body.value, now, jsonb), parse)))
    ensures PgDb.Valid(db) ==> PgDb.Valid(r.1)
  {
    match CmsAccess.Caller(db, header, env, codec, now)
    case Refused(code, error) => (Refused(code, error), db)
    case Done(_, user) =>
      if !CmsAccess.MayWriteTemplates(user) then (Refused(403, CmsAccess.MsgForbidden), db)
      else if body.None? then (Refused(500, MsgServer), db)
      else if !Complete(body.value) then (Refused(400, MsgRequired), db)
      else
        var b := body.value;
        match PgDb.CreateTemplate(db, b.name.s, Nullable(b.description), b.category.s, Nullable(b.thumbnail),
                                  Nullable(b.previewUrl), b.content.s, TagsToStore(b.tags), jsonb, now)
        case Err(_) => (Refused(500, MsgServer), db)
        case Ok((db', t)) =>
          assert |db'.templates| != |db.templates|;
          if !Shows(t, parse) then (Refused(500, MsgServer), db')
          else (Done(201, Created(MsgCreated, ShownRow(t, parse))), db')
  }

  /** Tags sent as a JSON string that is not itself JSON are stored, and
      then the reply is a server error: the template exists although the
      client was told the request failed. */
  lemma StringTagsStoredThenFail(db: PgDb.Db, header: Option<string>, b: TemplateBody, env: Env, codec: Codec,
                                 now: nat, parse: string -> Option<Value>, jsonb: Value -> Option<Value>,
                                 s: string)
    requires CmsAccess.Caller(db, header, env, codec, now).Done?
    requires CmsAccess.Caller(db, header, env, codec, now).body.role == PgDb.Admin
    requires Complete(b) && Accepted(b, jsonb)
    // The column keeps a JSON string as that string.
    requires b.tags == Some(Str(s)) && jsonb(Str(s)) == Some(Str(s)) && parse(s).None?
    ensures var (reply, db') := Create(db, header, Some(b), env, codec, now, parse, jsonb);
            && reply == Refused(500, MsgServer)
            && |db'.templates| == |db.templates| + 1
  {
  }

  /** Without tags, the template is created with the empty array, whatever
      `JSON.parse` would do. */
  lemma AbsentTagsAreEmptyArray(db: PgDb.Db, header: Option<string>, b: TemplateBody, env: Env, codec: Codec,
                                now: nat, parse: string -> Option<Value>, jsonb: Value -> Option<Value>)
    requires CmsAccess.Caller(db, header, env, codec, now).Done?
    requires CmsAccess.Caller(db, header, env, codec, now).body.role == PgDb.Admin
    requires Complete(b) && b.tags.None? && Accepted(b, jsonb)
    // The column reads the empty array back as the empty array.
    requires jsonb(Json("[]")) == Some(Json("[]"))
    ensures var reply := Create(db, header, Some(b), env, codec, now, parse, jsonb).0;
            reply.Done? && reply.body.template["tags"] == Json("[]")
  {
  }

  /** A category with a character that is not a space past its
      `VARCHAR(100)` column's length passes the handler's checks and fails
      the insert: 500, and nothing is stored. */
  lemma LongCategoryCausesServerError(db: PgDb.Db, header: Option<string>, b: TemplateBody, env: Env,
                                      codec: Codec, now: nat, parse: string -> Option<Value>,
                                      jsonb: Value -> Option<Value>)
    requires CmsAccess.Caller(db, header, env, codec, now).Done?
    requires CmsAccess.Caller(db, header, env, codec, now).body.role == PgDb.Admin
    requires Complete(b) && exists k | PgDb.CategoryLimit <= k < |b.category.s| :: b.category.s[k] != ' '
    ensures Create(db, header, Some(b), env, codec, now, parse, jsonb) == (Refused(500, MsgServer), db)
  {
  }

  /** Tags the `jsonb` column refuses (a string holding U+0000 becomes a
      `\u0000` escape) fail the insert: 500, and nothing is stored. */
  lemma RefusedTagsCauseServerError(db: PgDb.Db, header: Option<string>, b: TemplateBody, env: Env,
                                    codec: Codec, now: nat, parse: string -> Option<Value>,
                                    jsonb: Value -> Option<Value>)
    requires CmsAccess.Caller(db, header, env, codec, now).Done?
    requires CmsAccess.Caller(db, header, env, codec, now).body.role == PgDb.Admin
    requires Complete(b) && jsonb(TagsToStore(b.tags)).None?
    ensures Create(db, header, Some(b), env, codec, now, parse, jsonb) == (Refused(500, MsgServer), db)
  {
  }

  /** Once a template whose tags do not show is stored, every later
      listing fails. */
  lemma BadTagsBreakTheCatalogue(db: PgDb.Db, header: Option<string>, b: TemplateBody, env: Env, codec: Codec,
                                 now: nat, later: nat, parse: string -> Option<Value>, jsonb: Value -> Option<Value>)
    requires Create(db, header, Some(b), env, codec, now, parse, jsonb).1 != db
    requires Complete(b) && jsonb(TagsToStore(b.tags)).Some? && !Shows(NewTemplate(db, b, now, jsonb), parse)
    ensures List(Create(db, header, Some(b), env, codec, now, parse, jsonb).1, header, env, codec, later, parse)
            .Refused?
  {
    var db' := Create(db, header, Some(b), env, codec, now, parse, jsonb).1;
    assert NewTemplate(db, b, now, jsonb) in db'.templates;
  }

  /** A template created with showable tags appears in the catalogue
      exactly as the creation reply showed it. */
  lemma CreatedTemplateIsListed(db: PgDb.Db, header: Option<string>, b: TemplateBody, env: Env, codec: Codec,
                                now: nat, later: nat, parse: string -> Option<Value>, jsonb: Value -> Option<Value>)
    requires Create(db, header, Some(b), env, codec, now, parse, jsonb).0.Done?
    requires List(Create(db, header, Some(b), env, codec, now, parse, jsonb).1, header, env, codec, later, parse).Done?
    ensures var (reply, db') := Create(db, header, Some(b), env, codec, now, parse, jsonb);
            reply.body.template in List(db', header, env, codec, later, parse).body
  {
    var (reply, db') := Create(db, header, Some(b), env, codec, now, parse, jsonb);
    assert Complete(b);
    var t := NewTemplate(db, b, now, jsonb);
    var sorted := PgDb.GetAllTemplates(db').value;
    assert t in db'.templates;
    assert t in multiset(db'.templates);
    var k :| 0 <= k < |sorted| && sorted[k] == t;
    assert List(db', header, env, codec, later, parse).body[k] == ShownRow(t, parse);
  }
}
