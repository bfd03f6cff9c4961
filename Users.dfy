/** The user table of the mock server and its handlers: lookup, listing,
    create, full update, partial update and delete. */
module Users {
  import opened Messages
  import opened Names
  import opened Decimal
  import opened Pagination

  /** A stored user record. `email` holds whatever JSON value the client sent. */
  datatype User = User(id: int, email: Json, firstName: string, lastName: string, avatar: string)

  /** The body of a create response: the submitted name and job, the new id as
      a string and the creation timestamp. */
  datatype Created = Created(name: Json, job: Json, id: string, createdAt: string)

  /** The body of a full-update response. */
  datatype Updated = Updated(name: Json, job: Json, updatedAt: string)

  /** The id the first created user gets. */
  const FirstFreeId: nat := 13

  function AvatarUrl(id: nat): string
  {
    "https://reqres.in/img/faces/" + NatToString(id) + "-image.jpg"
  }

  function DefaultEmail(id: nat): string
  {
    "user" + NatToString(id) + "@example.com"
  }

  /** Different ids get different default emails. */
  lemma DefaultEmailInjective(m: nat, n: nat)
    requires DefaultEmail(m) == DefaultEmail(n)
    ensures m == n
  {
    var e := DefaultEmail(m);
    assert e[4..|e| - 12] == NatToString(m);
    assert e[4..|e| - 12] == NatToString(n);
    NatToStringInjective(m, n);
  }

  /** Different ids get different avatar URLs. */
  lemma AvatarUrlInjective(m: nat, n: nat)
    requires AvatarUrl(m) == AvatarUrl(n)
    ensures m == n
  {
    var a := AvatarUrl(m);
    assert a[28..|a| - 10] == NatToString(m);
    assert a[28..|a| - 10] == NatToString(n);
    NatToStringInjective(m, n);
  }

  /** The record create_user stores under `id`: the submitted email, or the
      default one for that id when the body has none; the derived names; the
      avatar URL of that id. */
  function NewUser(id: nat, body: Body, parts: NameParts): (u: User)
    ensures u.id == id && u.avatar == AvatarUrl(id)
    ensures "email" in body ==> u.email == body["email"]
    ensures "email" !in body ==> u.email == JStr(DefaultEmail(id))
    ensures u.firstName == parts.first && u.lastName == parts.last
  {
    User(id, FieldOr(body, "email", JStr(DefaultEmail(id))), parts.first, parts.last, AvatarUrl(id))
  }

  const SeedLastNames: seq<string> :=
    ["One", "Two", "Three", "Four", "Five", "Six",
     "Seven", "Eight", "Nine", "Ten", "Eleven", "Twelve"]

  /** Seed user i: email user<i>@gmail.com, first name User<i>. */
  function SeedUser(i: nat): User
    requires 1 <= i <= |SeedLastNames|
  {
    User(i, JStr("user" + NatToString(i) + "@gmail.com"), "User" + NatToString(i),
         SeedLastNames[i - 1], AvatarUrl(i))
  }

  /** The `USERS` dictionary the server starts with. */
  function SeedTable(): map<int, User>
  {
    map i | 1 <= i <= |SeedLastNames| :: SeedUser(i)
  }

  /** The seed table satisfies the table invariant. */
  lemma SeedInvariant()
    ensures TableInvariant(SeedTable(), SeedOrder, FirstFreeId)
  {
    assert forall i :: 0 <= i < |SeedOrder| ==> SeedOrder[i] == i + 1;
    assert forall k :: k in SeedTable() ==> SeedOrder[k - 1] == k && SeedTable()[k].id == k;
  }

  /** Its iteration order. */
  const SeedOrder: seq<int> := [1, 2, 3, 4, 5, 6, 7, 8, 9, 10, 11, 12]

  predicate Ascending(s: seq<int>)
  {
    forall i, j :: 0 <= i < j < |s| ==> s[i] < s[j]
  }

  /** The ids of a list of records, in order. */
  function Ids(us: seq<User>): seq<int>
  {
    seq(|us|, i requires 0 <= i < |us| => us[i].id)
  }

  /** The records stored under `keys`, in the order of `keys`. */
  function ValuesOf(m: map<int, User>, keys: seq<int>): (vs: seq<User>)
    requires forall i :: 0 <= i < |keys| ==> keys[i] in m
    ensures |vs| == |keys|
    ensures forall i :: 0 <= i < |keys| ==> vs[i] == m[keys[i]]
  {
    seq(|keys|, i requires 0 <= i < |keys| => m[keys[i]])
  }

  /** The iteration order of a dictionary after `del d[x]`. */
  function Remove(s: seq<int>, x: int): (r: seq<int>)
    ensures forall y :: y in r <==> y in s && y != x
    ensures x !in s ==> r == s
    ensures Ascending(s) ==> Ascending(r)
  {
    if s == [] then []
    else if s[0] == x then Remove(s[1..], x)
    else
      var rest := Remove(s[1..], x);
      ConsKeepsAscending(s, rest);
      [s[0]] + rest
  }

  /** Keeping the head of an ascending list in front of an ascending selection of
      its tail gives an ascending list. */
  lemma ConsKeepsAscending(s: seq<int>, rest: seq<int>)
    requires s != []
    requires forall y :: y in rest ==> y in s[1..]
    requires Ascending(s[1..]) ==> Ascending(rest)
    ensures Ascending(s) ==> Ascending([s[0]] + rest)
  {
    if Ascending(s) {
      assert Ascending(s[1..]) by {
        forall i, j | 0 <= i < j < |s[1..]| ensures s[1..][i] < s[1..][j] {
          assert s[1..][i] == s[i + 1] && s[1..][j] == s[j + 1];
        }
      }
      forall j | 0 <= j < |rest| ensures s[0] < rest[j] {
        assert rest[j] in rest && rest[j] in s[1..];
        var k :| 0 <= k < |s[1..]| && s[1..][k] == rest[j];
        assert s[k + 1] == rest[j];
      }
      var r := [s[0]] + rest;
      forall i, j | 0 <= i < j < |r| ensures r[i] < r[j] {
        if i == 0 {
          assert r[j] == rest[j - 1];
        } else {
          assert r[i] == rest[i - 1] && r[j] == rest[j - 1];
        }
      }
    }
  }

  /** Storing a record under a fresh key and appending the key adds the record at
      the end of the listing. */
  lemma ValuesOfAppend(m: map<int, User>, keys: seq<int>, k: int, u: User)
    requires forall i :: 0 <= i < |keys| ==> keys[i] in m
    requires k !in m
    ensures ValuesOf(m[k := u], keys + [k]) == ValuesOf(m, keys) + [u]
  {
    var after, before := ValuesOf(m[k := u], keys + [k]), ValuesOf(m, keys);
    forall i | 0 <= i < |keys| ensures after[i] == before[i] {
      assert (keys + [k])[i] == keys[i] && keys[i] != k;
    }
    assert after[|keys|] == u;
  }

  /** An ascending sequence has no repeated element, so it has as many distinct
      elements as it is long. */
  lemma {:induction false} AscendingCard(s: seq<int>)
    requires Ascending(s)
    ensures |set x | x in s| == |s|
  {
    if s != [] {
      AscendingCard(s[1..]);
      assert (set x | x in s) == {s[0]} + (set x | x in s[1..]);
      assert s[0] !in s[1..];
    }
  }

  /** Keys are listed once each, in ascending order (ids are handed out in
      increasing order and never reused); each record carries its key as id;
      every key is below the counter. */
  ghost predicate TableInvariant(users: map<int, User>, order: seq<int>, nextId: int)
  {
    && Ascending(order)
    && (forall i :: 0 <= i < |order| ==> order[i] in users)
    && (forall k :: k in users ==> k in order)
    && (forall k :: k in users ==> users[k].id == k && k < nextId)
  }

  /** The table holds as many users as its order lists keys. */
  lemma TableSize(users: map<int, User>, order: seq<int>, nextId: int)
    requires TableInvariant(users, order, nextId)
    ensures |users| == |order|
  {
    AscendingCard(order);
    assert (set x | x in order) == users.Keys by {
      forall k | k in users.Keys ensures k in (set x | x in order) {}
    }
  }

  /** Every record on a page of the listing is the one stored under its id. */
  lemma ListedAreStored(users: map<int, User>, order: seq<int>, nextId: int, page: int)
    requires TableInvariant(users, order, nextId)
    ensures var data := Paginate(ValuesOf(users, order), page, PerPage).data;
      forall i :: 0 <= i < |data| ==> data[i].id in users && users[data[i].id] == data[i]
  {
    var vs := ValuesOf(users, order);
    var data := Paginate(vs, page, PerPage).data;
    assert forall u :: u in data ==> u in vs;
    forall i | 0 <= i < |data| ensures data[i].id in users && users[data[i].id] == data[i] {
      assert data[i] in vs;
    }
  }

  /** Storing a record under the counter, appending its key and advancing the
      counter keeps the invariant. */
  lemma InsertKeepsInvariant(users: map<int, User>, order: seq<int>, nextId: int, u: User)
    requires TableInvariant(users, order, nextId)
    requires u.id == nextId
    ensures nextId !in users
    ensures TableInvariant(users[nextId := u], order + [nextId], nextId + 1)
  {
    var order' := order + [nextId];
    forall i, j | 0 <= i < j < |order'| ensures order'[i] < order'[j] {
      assert order'[i] == order[i] && order[i] in users;
    }
  }

  /** Changing the names of a stored record keeps the invariant. */
  lemma RenameKeepsInvariant(users: map<int, User>, order: seq<int>, nextId: int, id: int, first: string, last: string)
    requires TableInvariant(users, order, nextId)
    requires id in users
    ensures TableInvariant(users[id := users[id].(firstName := first, lastName := last)], order, nextId)
  {
  }

  /** Deleting a key from the table and from the order keeps the invariant. */
  lemma RemoveKeepsInvariant(users: map<int, User>, order: seq<int>, nextId: int, id: int)
    requires TableInvariant(users, order, nextId)
    ensures TableInvariant(users - {id}, Remove(order, id), nextId)
  {
    var order' := Remove(order, id);
    forall i | 0 <= i < |order'| ensures order'[i] in users - {id} {
      assert order'[i] in order';
    }
  }

  /** `PATCH /api/users/<id>`: echoes the submitted fields with `updatedAt` set to
      the timestamp; it reads and writes no stored record. */
  function PatchUser(id: int, body: Body, now: string): (r: Response<Body>)
    ensures r.Ok?
    ensures r.body.Keys == body.Keys + {"updatedAt"}
    ensures r.body["updatedAt"] == JStr(now)
    ensures forall k :: k in body && k != "updatedAt" ==> r.body[k] == body[k]
  {
    Ok(body["updatedAt" := JStr(now)])
  }

  /** The `USERS` dictionary and the `next_user_id` counter. `order` is the
      dictionary's iteration (insertion) order. */
  class UserStore {
    var users: map<int, User>
    var order: seq<int>
    var nextId: nat

    /** The table invariant, see TableInvariant. */
    ghost predicate Valid()
      reads this
    {
      TableInvariant(users, order, nextId)
    }

    /** `list(USERS.values())`. */
    function Values(): (vs: seq<User>)
      reads this
      requires Valid()
      ensures |vs| == |order| == |users|
      ensures forall i :: 0 <= i < |vs| ==> vs[i] == users[order[i]] && vs[i].id == order[i]
    {
      TableSize(users, order, nextId);
      ValuesOf(users, order)
    }

    /** The twelve seed users under ids 1..12, and the counter at 13. */
    constructor ()
      ensures Valid()
      ensures users == SeedTable() && order == SeedOrder && nextId == FirstFreeId
    {
      users := SeedTable();
      order := SeedOrder;
      nextId := FirstFreeId;
      new;
      SeedInvariant();
    }

    /** `GET /api/users/<id>`: the stored record, or not-found. */
    function GetUser(id: int): (r: Response<User>)
      reads this
      requires Valid()
      ensures r.Ok? <==> id in users
      ensures r.Ok? ==> r.body == users[id] && r.body.id == id
      ensures !r.Ok? ==> r == NotFound
    {
      if id in users then Ok(users[id]) else NotFound
    }

    /** `GET /api/users?page=<page>`: one page of the records in insertion order;
        `total` is the number of stored users and every listed record is stored
        under its own id. */
    function ListUsers(page: int): (r: Page<User>)
      reads this
      requires Valid()
      ensures r.page == page && r.perPage == PerPage
      ensures r.total == |users|
      ensures r == Paginate(Values(), page, PerPage)
      ensures forall i :: 0 <= i < |r.data| ==> r.data[i].id in users && users[r.data[i].id] == r.data[i]
    {
      TableSize(users, order, nextId);
      ListedAreStored(users, order, nextId, page);
      Paginate(Values(), page, PerPage)
    }

    /** `POST /api/users`. When the name cannot be split, Python raises before
        anything is stored. Otherwise the record is stored under the counter's
        value, which is not yet a key, the counter advances by one, the response
        echoes name and job with the new id as a decimal string, and the new
        record appears last in the listing. */
    method Create(body: Body, now: string) returns (r: Response<Created>)
      requires Valid()
      modifies this
      ensures Valid()
      ensures SplitName(body).None? ==>
        r == ServerError && users == old(users) && order == old(order) && nextId == old(nextId)
      ensures SplitName(body).Some? ==>
        var id := old(nextId);
        var u := NewUser(id, body, SplitName(body).value);
        && r == Ok(Created(Field(body, "name"), Field(body, "job"), NatToString(id), now))
        && id !in old(users)
        && users == old(users)[id := u]
        && order == old(order) + [id]
        && nextId == id + 1
        && GetUser(id) == Ok(u)
        && Values() == old(Values()) + [u]
    {
      var parts := SplitName(body);
      if parts.None? {
        return ServerError;
      }
      var id := nextId;
      var u := NewUser(id, body, parts.value);
      InsertKeepsInvariant(users, order, nextId, u);
      ValuesOfAppend(users, order, id, u);
      users := users[id := u];
      order := order + [id];
      nextId := nextId + 1;
      r := Ok(Created(Field(body, "name"), Field(body, "job"), NatToString(id), now));
    }

    /** `PUT /api/users/<id>`. A missing id is not an error: the table is left
        alone and the response echoes name and job. For a stored id the names are
        re-derived (Python raises when the name cannot be split) and only
        `first_name` and `last_name` of that record change. */
    method Update(id: int, body: Body, now: string) returns (r: Response<Updated>)
      requires Valid()
      modifies this
      ensures Valid()
      ensures order == old(order) && nextId == old(nextId)
      ensures id !in old(users) ==>
        r == Ok(Updated(Field(body, "name"), Field(body, "job"), now)) && users == old(users)
      ensures id in old(users) && SplitName(body).None? ==>
        r == ServerError && users == old(users)
      ensures id in old(users) && SplitName(body).Some? ==>
        var p := SplitName(body).value;
        && r == Ok(Updated(Field(body, "name"), Field(body, "job"), now))
        && users == old(users)[id := old(users)[id].(firstName := p.first, lastName := p.last)]
    {
      var response := Updated(Field(body, "name"), Field(body, "job"), now);
      if id in users {
        var parts := SplitName(body);
        if parts.None? {
          return ServerError;
        }
        RenameKeepsInvariant(users, order, nextId, id, parts.value.first, parts.value.last);
        users := users[id := users[id].(firstName := parts.value.first, lastName := parts.value.last)];
      }
      r := Ok(response);
    }

    /** `DELETE /api/users/<id>`: always succeeds with an empty body; removes the
        key if present. Deleting a missing id changes nothing, so a second delete
        is a no-op, and the id is not found afterwards. */
    method Delete(id: int) returns (r: Response<()>)
      requires Valid()
      modifies this
      ensures Valid()
      ensures r == Ok(())
      ensures users == old(users) - {id} && order == Remove(old(order), id) && nextId == old(nextId)
      ensures id !in old(users) ==> users == old(users) && order == old(order)
      ensures GetUser(id) == NotFound
    {
      RemoveKeepsInvariant(users, order, nextId, id);
      users := users - {id};
      order := Remove(order, id);
      r := Ok(());
    }
  }

  /** Walking the listing pages 1..total_pages visits every stored user once, in
      ascending id order, so no id repeats across pages. */
  lemma ListingVisitsEachUserOnce(store: UserStore)
    requires store.Valid()
    ensures var vs := store.Values();
      && PagesUpTo(vs, PerPage, TotalPages(|vs|, PerPage)) == vs
      && Ids(vs) == store.order
      && Ascending(Ids(vs))
  {
    var vs := store.Values();
    PagesCoverItems(vs, PerPage);
    forall i | 0 <= i < |vs| ensures Ids(vs)[i] == store.order[i] {
      assert vs[i] == store.users[store.order[i]];
    }
    assert Ids(vs) == store.order;
  }

  /** The not-found request of the test suite: the seeded table has no id 999. */
  method SeededTableLacks999()
  {
    var store := new UserStore();
    assert 999 !in SeedTable();
    assert store.GetUser(999) == NotFound;
  }

  /** A create, fetch and delete sequence on one new user, for any name that
      splits: the created user is fetched under the returned id with the names
      the rule derives from the submitted name (for "Adam Majcher" that is "Adam"
      and "Majcher", by SplitNameAdamMajcher), and after a delete it is not found. */
  method CreateFetchDelete(store: UserStore, body: Body, now: string)
    requires store.Valid() && SplitName(body).Some?
    modifies store
  {
    var id := store.nextId;
    var created := store.Create(body, now);
    assert created.Ok? && created.body.id == NatToString(id);
    var fetched := store.GetUser(id);
    assert fetched.Ok? && fetched.body.firstName == SplitName(body).value.first
                       && fetched.body.lastName == SplitName(body).value.last;
    var deleted := store.Delete(id);
    assert deleted == Ok(()) && store.GetUser(id) == NotFound;
  }
}
