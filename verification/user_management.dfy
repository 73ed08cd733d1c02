/** The pure logic of the administrators' user table
    (app/components/UserManagement.tsx): search and status filter, sort by
    a chosen column, the selection toggles, the per-status counters, and
    the guard in front of the bulk requests. */
module UserManagement {
  import opened Common
  import opened Sorting
  import BulkAction
  import LiteDb

  /** A row of `/api/admin/users` as the component holds it. */
  datatype User = User(id: int, email: string, name: string, avatar: string, status: string, createdAt: string)

  /** The sort columns the menu offers; all three hold strings. */
  datatype SortField = CreatedAt | Name | Email
  datatype SortOrder = Asc | Desc

  function Key(u: User, f: SortField): string {
    match f
    case CreatedAt => u.createdAt
    case Name => u.name
    case Email => u.email
  }

  /** The comparator: `<` on the column, reversed for descending order. */
  function Order(f: SortField, o: SortOrder): (User, User) -> bool {
    if o == Asc then (a: User, b: User) => StrLe(Key(a, f), Key(b, f))
    else (a: User, b: User) => StrLe(Key(b, f), Key(a, f))
  }

  lemma OrderIsPreorder(f: SortField, o: SortOrder)
    ensures TotalPreorder(Order(f, o))
  {
    var le := Order(f, o);
    forall a: User, b: User ensures le(a, b) || le(b, a) {
      StrLeTotal(Key(a, f), Key(b, f));
    }
    forall a: User, b: User, c: User | le(a, b) && le(b, c) ensures le(a, c) {
      if o == Asc {
        StrLeTrans(Key(a, f), Key(b, f), Key(c, f));
      } else {
        StrLeTrans(Key(c, f), Key(b, f), Key(a, f));
      }
    }
  }

  /** The row filter: the lower-cased term in the lower-cased name or
      e-mail, and the status filter `all` or equal to the status. */
  predicate Shown(u: User, term: string, statusFilter: string) {
    && (Contains(Lower(u.name), Lower(term)) || Contains(Lower(u.email), Lower(term)))
    && (statusFilter == "all" || u.status == statusFilter)
  }

  /** `filteredUsers`. */
  function Visible(users: seq<User>, term: string, statusFilter: string, f: SortField, o: SortOrder)
    : (r: seq<User>)
    ensures multiset(r) == multiset(Filter(users, (u: User) => Shown(u, term, statusFilter)))
    ensures multiset(r) <= multiset(users)
    ensures forall i, j | 0 <= i < j < |r| ::
              if o == Asc then StrLe(Key(r[i], f), Key(r[j], f)) else StrLe(Key(r[j], f), Key(r[i], f))
  {
    OrderIsPreorder(f, o);
    var r := SortBy(Filter(users, (u: User) => Shown(u, term, statusFilter)), Order(f, o));
    assert SortedBy(r, Order(f, o));
    r
  }

  /** A row is listed exactly when it passes the filter. */
  lemma VisibleMembership(users: seq<User>, term: string, statusFilter: string, f: SortField, o: SortOrder)
    ensures forall u :: u in Visible(users, term, statusFilter, f, o) <==> u in users && Shown(u, term, statusFilter)
  {
    PermutationSameMembers(Visible(users, term, statusFilter, f, o),
                           Filter(users, (u: User) => Shown(u, term, statusFilter)));
  }

  /** An empty search under `all` lists every user. */
  lemma EverythingShownByDefault(users: seq<User>, f: SortField, o: SortOrder)
    ensures multiset(Visible(users, "", "all", f, o)) == multiset(users)
  {
    forall u | u in users ensures Shown(u, "", "all") {
      assert Lower("") <= Lower(u.name)[0..];
    }
    FilterAll(users, (u: User) => Shown(u, "", "all"));
  }

  // ---------------------------------------------------------------------
  // Selection
  // ---------------------------------------------------------------------

  /** `toggleUserSelection`: removes every copy of a selected id, appends an
      unselected one. */
  function Toggle(selected: seq<int>, id: int): (r: seq<int>)
    ensures id in r <==> id !in selected
    ensures forall x | x != id :: x in r <==> x in selected
    ensures id !in selected ==> |r| == |selected| + 1
  {
    if id in selected then Filter(selected, (x: int) => x != id) else selected + [id]
  }

  /** Toggling the same id twice restores who is selected. */
  lemma ToggleTwice(selected: seq<int>, id: int)
    ensures forall x :: x in Toggle(Toggle(selected, id), id) <==> x in selected
  {
  }

  /** `toggleSelectAll`: clears the selection when it is as long as the
      list, and otherwise selects exactly the listed ids. */
  function ToggleAll(selected: seq<int>, visible: seq<User>): (r: seq<int>)
    ensures |selected| == |visible| ==> r == []
    ensures |selected| != |visible| ==> |r| == |visible| && forall k | 0 <= k < |visible| :: r[k] == visible[k].id
  {
    if |selected| == |visible| then [] else seq(|visible|, k requires 0 <= k < |visible| => visible[k].id)
  }

  /** The header checkbox: ticked when the selection is as long as the
      non-empty list. */
  predicate HeaderChecked(selected: seq<int>, visible: seq<User>) {
    |selected| == |visible| && |visible| > 0
  }

  /** "Select all" ticks every row's checkbox and, on a non-empty list, the
      header's; a second click clears the selection again. */
  lemma SelectAllThenClear(selected: seq<int>, visible: seq<User>)
    requires |selected| != |visible|
    ensures var r := ToggleAll(selected, visible);
            && (forall u | u in visible :: u.id in r)
            && (|visible| > 0 ==> HeaderChecked(r, visible))
            && ToggleAll(r, visible) == []
  {
    var r := ToggleAll(selected, visible);
    forall u | u in visible ensures u.id in r {
      var k :| 0 <= k < |visible| && visible[k] == u;
      assert r[k] == u.id;
    }
  }

  // ---------------------------------------------------------------------
  // Counters and bulk requests
  // ---------------------------------------------------------------------

  function StatusCount(users: seq<User>, status: string): nat {
    Count(users, (u: User) => u.status == status)
  }

  /** The pending, active and banned counters never exceed the total. */
  lemma CountersWithinTotal(users: seq<User>)
    ensures StatusCount(users, "pending") + StatusCount(users, "active") + StatusCount(users, "banned") <= |users|
  {
    CountsOfDisjoint(users, "pending", "active", "banned");
  }

  lemma {:induction false} CountsOfDisjoint(users: seq<User>, a: string, b: string, c: string)
    requires a != b && b != c && a != c
    ensures StatusCount(users, a) + StatusCount(users, b) + StatusCount(users, c) <= |users|
    decreases |users|
  {
    if users != [] {
      CountsOfDisjoint(users[1..], a, b, c);
      assert users == [users[0]] + users[1..];
    }
  }

  /** `handleBulkAction(action)`: the request body, or `None` when nothing
      is sent, because nothing is selected or the dialog was dismissed. */
  function BulkRequest(selected: seq<int>, action: string, confirmed: bool): (r: Option<BulkAction.Request>)
    ensures r.Some? <==> selected != [] && confirmed
    ensures r.Some? ==> r.value == BulkAction.Request(Text(action), Some(selected), Missing)
  {
    if |selected| == 0 || !confirmed then None
    else Some(BulkAction.Request(Text(action), Some(selected), Missing))
  }

  /** `handleDeleteUsers`. */
  function DeleteRequest(selected: seq<int>, confirmed: bool): (r: Option<BulkAction.DeleteRequest>)
    ensures r.Some? <==> selected != [] && confirmed
    ensures r.Some? ==> r.value == BulkAction.DeleteRequest(Some(selected))
  {
    if |selected| == 0 || !confirmed then None else Some(BulkAction.DeleteRequest(Some(selected)))
  }

  /** The two buttons' requests always pass the handler's validation, and
      succeed exactly when SQLite can bind the status and every id. */
  lemma ButtonsSendValidRequests(db: LiteDb.Db, selected: seq<int>, now: nat, maxVars: nat)
    requires selected != []
    ensures BulkAction.Apply(db, BulkRequest(selected, "approve", true), now, maxVars).0.Done? <==> |selected| < maxVars
    ensures BulkAction.Apply(db, BulkRequest(selected, "ban", true), now, maxVars).0.Done? <==> |selected| < maxVars
  {
    BulkAction.BanParses();
    assert BulkAction.ParseAction("approve") == Some(BulkAction.Approve);
  }
}
