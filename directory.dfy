/**
 * The user directory: every registered user, kept as one serialized array in
 * browser storage and read and rewritten whole. Lookups are linear scans that
 * stop at the first match; replacing an entry is not an upsert.
 */
module Directory {
  import opened Wrappers

  datatype Provider = EmailProvider | GoogleProvider

  /**
   * A user record. Timestamps are the instants (milliseconds since the epoch)
   * whose ISO renderings the record stores.
   */
  datatype User = User(
    id: string,
    email: string,
    name: string,
    avatar: Option<string>,
    createdAt: int,
    lastLogin: int,
    isVerified: bool,
    provider: Option<Provider>)

  /**
   * One slot of browser storage as the code reads it: nothing there (missing
   * or the empty string, both falsy), text that fails to decode, or a value.
   */
  datatype Stored<T> = Absent | Corrupt | Present(value: T)

  /** `getUsersDatabase`: a missing or undecodable directory reads as no users. */
  function LoadUsers(db: Stored<seq<User>>): (users: seq<User>)
    ensures db.Present? ==> users == db.value
    ensures !db.Present? ==> users == []
  {
    if db.Present? then db.value else []
  }

  /** The two fields the directory is searched by. */
  datatype Key = ById | ByEmail

  function KeyOf(u: User, key: Key): string {
    match key
    case ById => u.id
    case ByEmail => u.email
  }

  /** `find` / `findIndex`: the position of the first entry whose `key` field is `v`. */
  function Find(users: seq<User>, key: Key, v: string): (r: Option<nat>)
    ensures r.Some? ==> r.value < |users| && KeyOf(users[r.value], key) == v
    ensures r.Some? ==> forall j :: 0 <= j < r.value ==> KeyOf(users[j], key) != v
    ensures r.None? <==> forall j :: 0 <= j < |users| ==> KeyOf(users[j], key) != v
  {
    if users == [] then None
    else if KeyOf(users[0], key) == v then Some(0)
    else match Find(users[1..], key, v)
      case None => None
      case Some(i) => Some(i + 1)
  }

  /**
   * The array `updateUserInDatabase` writes back: the first entry with `u`'s id
   * replaced by `u`. `None` when no entry has that id (nothing is written then).
   */
  function ReplaceFirst(users: seq<User>, u: User): (r: Option<seq<User>>)
    ensures r.None? <==> forall j :: 0 <= j < |users| ==> users[j].id != u.id
    ensures r.Some? ==> |r.value| == |users|
    ensures r.Some? ==> exists i ::
              && 0 <= i < |users| && users[i].id == u.id
              && (forall j :: 0 <= j < i ==> users[j].id != u.id)
              && r.value == users[i := u]
  {
    match Find(users, ById, u.id)
    case None => None
    case Some(i) => Some(users[i := u])
  }

  /** `users.filter(u => u.id !== id)`. */
  function RemoveId(users: seq<User>, id: string): (r: seq<User>)
    ensures |r| <= |users|
    ensures forall k :: 0 <= k < |r| ==> r[k].id != id
    ensures forall u :: u in r <==> u in users && u.id != id
  {
    if users == [] then []
    else (if users[0].id == id then [] else [users[0]]) + RemoveId(users[1..], id)
  }

  /** Filtering keeps the survivors in their original order: it distributes over concatenation. */
  lemma {:induction false} RemoveIdAppend(a: seq<User>, b: seq<User>, id: string)
    ensures RemoveId(a + b, id) == RemoveId(a, id) + RemoveId(b, id)
  {
    if a == [] {
      assert a + b == b;
    } else {
      var head := if a[0].id == id then [] else [a[0]];
      assert (a + b)[1..] == a[1..] + b;
      calc {
        RemoveId(a + b, id);
        head + RemoveId(a[1..] + b, id);
        { RemoveIdAppend(a[1..], b, id); }
        head + (RemoveId(a[1..], id) + RemoveId(b, id));
        head + RemoveId(a[1..], id) + RemoveId(b, id);
        RemoveId(a, id) + RemoveId(b, id);
      }
    }
  }

  /** Removing an id nobody has leaves the directory as it was. */
  lemma {:induction false} RemoveAbsentId(users: seq<User>, id: string)
    requires forall k :: 0 <= k < |users| ==> users[k].id != id
    ensures RemoveId(users, id) == users
  {
    if users != [] {
      RemoveAbsentId(users[1..], id);
    }
  }

  /** Removing an id held by exactly one entry shortens the directory by one. */
  lemma {:induction false} RemoveUniqueId(users: seq<User>, i: nat)
    requires i < |users|
    requires forall k :: 0 <= k < |users| && k != i ==> users[k].id != users[i].id
    ensures RemoveId(users, users[i].id) == users[..i] + users[i + 1..]
  {
    var id := users[i].id;
    var pre, post := users[..i], users[i + 1..];
    assert users == pre + ([users[i]] + post);
    RemoveIdAppend(pre, [users[i]] + post, id);
    assert ([users[i]] + post)[1..] == post;
    assert RemoveId([users[i]] + post, id) == RemoveId(post, id);
    assert forall k :: 0 <= k < |pre| ==> pre[k].id != id by {
      forall k | 0 <= k < |pre| ensures pre[k].id != id { assert pre[k] == users[k]; }
    }
    assert forall k :: 0 <= k < |post| ==> post[k].id != id by {
      forall k | 0 <= k < |post| ensures post[k].id != id { assert post[k] == users[i + 1 + k]; }
    }
    RemoveAbsentId(pre, id);
    RemoveAbsentId(post, id);
  }

  ghost predicate IdsUnique(users: seq<User>) {
    forall i, j :: 0 <= i < j < |users| ==> users[i].id != users[j].id
  }

  ghost predicate EmailsUnique(users: seq<User>) {
    forall i, j :: 0 <= i < j < |users| ==> users[i].email != users[j].email
  }

  /** Appending a user whose e-mail nobody has keeps e-mails unique (the sign-up check). */
  lemma AppendKeepsEmailsUnique(users: seq<User>, u: User)
    requires EmailsUnique(users)
    requires Find(users, ByEmail, u.email).None?
    ensures EmailsUnique(users + [u])
  {
  }

  /** Appending a user whose id nobody has keeps ids unique. */
  lemma AppendKeepsIdsUnique(users: seq<User>, u: User)
    requires IdsUnique(users)
    requires Find(users, ById, u.id).None?
    ensures IdsUnique(users + [u])
  {
  }

  /** With unique ids, replacing by id touches exactly the entry that has the id. */
  lemma ReplaceUniqueId(users: seq<User>, k: nat, u: User)
    requires IdsUnique(users)
    requires k < |users| && users[k].id == u.id
    ensures ReplaceFirst(users, u) == Some(users[k := u])
  {
    var i := Find(users, ById, u.id).value;
    assert i == k;
  }

  /** Replacing an entry by one with the same id and e-mail keeps both kinds of uniqueness. */
  lemma ReplaceKeepsUnique(users: seq<User>, u: User)
    requires IdsUnique(users) && EmailsUnique(users)
    requires ReplaceFirst(users, u).Some?
    requires users[Find(users, ById, u.id).value].email == u.email
    ensures IdsUnique(ReplaceFirst(users, u).value) && EmailsUnique(ReplaceFirst(users, u).value)
  {
    var i := Find(users, ById, u.id).value;
    var r := ReplaceFirst(users, u).value;
    assert r == users[i := u];
    forall a, b | 0 <= a < b < |r| ensures r[a].id != r[b].id && r[a].email != r[b].email {
      if a == i { assert r[a].id == users[i].id && r[a].email == users[i].email; }
      if b == i { assert r[b].id == users[i].id && r[b].email == users[i].email; }
    }
  }

  /** Filtering keeps both kinds of uniqueness. */
  lemma {:induction false} RemoveKeepsUnique(users: seq<User>, id: string)
    requires IdsUnique(users) && EmailsUnique(users)
    ensures IdsUnique(RemoveId(users, id)) && EmailsUnique(RemoveId(users, id))
  {
    if users != [] {
      RemoveKeepsUnique(users[1..], id);
      var rest := RemoveId(users[1..], id);
      forall k | 0 <= k < |rest|
        ensures rest[k].id != users[0].id && rest[k].email != users[0].email
      {
        assert rest[k] in rest;
        var j :| 0 <= j < |users[1..]| && users[1..][j] == rest[k];
        assert users[j + 1] == rest[k];
      }
    }
  }

  /** After an append of a user whose key nobody had, the lookup finds the new last entry. */
  lemma {:induction false} FindAfterAppend(users: seq<User>, u: User, key: Key)
    requires Find(users, key, KeyOf(u, key)).None?
    ensures Find(users + [u], key, KeyOf(u, key)) == Some(|users|)
  {
    if users != [] {
      assert (users + [u])[1..] == users[1..] + [u];
      FindAfterAppend(users[1..], u, key);
    }
  }

  /** After a replacement by id, the lookup by that id finds the replacing record. */
  lemma FindAfterReplace(users: seq<User>, u: User)
    requires ReplaceFirst(users, u).Some?
    ensures var r := ReplaceFirst(users, u).value;
      && Find(r, ById, u.id) == Find(users, ById, u.id)
      && r[Find(users, ById, u.id).value] == u
  {
    var i := Find(users, ById, u.id).value;
    var r := ReplaceFirst(users, u).value;
    assert r == users[i := u];
    assert r[i].id == u.id;
  }
}
