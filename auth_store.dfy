/** The in-memory user store of server/replit_integrations/auth/storage.ts
    (`MemoryAuthStorage`): a JavaScript `Map` from user id to user record, which the store
    updates in place with `set` and `delete`. */
module AuthStore {
  import opened Wrappers
  import opened Seqs

  /** A user record. `null` fields are None; times are milliseconds since the epoch. */
  datatype User = User(
    id: string,
    email: string,
    passwordHash: Option<string>,
    firstName: Option<string>,
    lastName: Option<string>,
    profileImageUrl: Option<string>,
    createdAt: int,
    updatedAt: int)

  /** What `createUser`/`upsertUser` are given: every field may be missing or null (None). */
  datatype UserData = UserData(
    id: Option<string>,
    email: Option<string>,
    passwordHash: Option<string>,
    firstName: Option<string>,
    lastName: Option<string>,
    profileImageUrl: Option<string>,
    createdAt: Option<int>,
    updatedAt: Option<int>)

  // ---------------------------------------------------------------------------------------------
  // The Map, as its entries in insertion order (every entry's key is its user's id)

  /** No two entries share an id. */
  ghost predicate DistinctIds(es: seq<User>)
    decreases |es|
  {
    es != [] ==> (forall u :: u in es[1..] ==> u.id != es[0].id) && DistinctIds(es[1..])
  }

  /** `map.get(id)`. */
  function Lookup(es: seq<User>, id: string): (r: Option<User>)
    ensures r.Some? ==> r.value in es && r.value.id == id
    ensures r.None? <==> forall u :: u in es ==> u.id != id
  {
    if es == [] then None
    else if es[0].id == id then Some(es[0])
    else Lookup(es[1..], id)
  }

  /** `map.set(u.id, u)`: an existing entry is replaced where it stands, a new one goes last. */
  function Put(es: seq<User>, u: User): (r: seq<User>)
    ensures Lookup(es, u.id).None? ==> r == es + [u]
    ensures Lookup(es, u.id).Some? ==>
      |r| == |es| && forall i :: 0 <= i < |es| && es[i].id != u.id ==> r[i] == es[i]
  {
    if es == [] then [u]
    else if es[0].id == u.id then [u] + es[1..]
    else [es[0]] + Put(es[1..], u)
  }

  function OtherThan(id: string): User -> bool {
    (u: User) => u.id != id
  }

  /** `map.delete(id)`: the other entries stay, in order. */
  function Remove(es: seq<User>, id: string): (r: seq<User>)
    ensures Lookup(r, id).None?
    ensures forall u :: u in r <==> u in es && u.id != id
  {
    Filter(es, OtherThan(id))
  }

  /** After `set`, `get` finds the new record under its id and the old answer under every other. */
  lemma {:induction false} PutLookup(es: seq<User>, u: User, id: string)
    ensures Lookup(Put(es, u), id) == if id == u.id then Some(u) else Lookup(es, id)
  {
    if es != [] && es[0].id != u.id {
      PutLookup(es[1..], u, id);
      assert Put(es, u)[1..] == Put(es[1..], u);
    } else if es != [] {
      assert Put(es, u)[1..] == es[1..];
    }
  }

  /** `set` never creates a second entry for an id. */
  lemma {:induction false} PutDistinct(es: seq<User>, u: User)
    requires DistinctIds(es)
    ensures DistinctIds(Put(es, u))
    ensures forall v :: v in Put(es, u) ==> v == u || v in es
  {
    if es != [] {
      if es[0].id == u.id {
        assert Put(es, u)[1..] == es[1..];
      } else {
        PutDistinct(es[1..], u);
        assert Put(es, u)[1..] == Put(es[1..], u);
      }
    }
  }

  /** After `delete`, `get` finds nothing under that id and the old answer under every other. */
  lemma {:induction false} RemoveLookup(es: seq<User>, id: string, other: string)
    ensures Lookup(Remove(es, id), other) == if other == id then None else Lookup(es, other)
  {
    if es != [] {
      RemoveLookup(es[1..], id, other);
      if es[0].id != id {
        assert Remove(es, id)[1..] == Remove(es[1..], id);
      }
    }
  }

  lemma {:induction false} RemoveDistinct(es: seq<User>, id: string)
    requires DistinctIds(es)
    ensures DistinctIds(Remove(es, id))
  {
    if es != [] {
      RemoveDistinct(es[1..], id);
      if es[0].id != id {
        assert Remove(es, id)[1..] == Remove(es[1..], id);
      }
    }
  }

  // ---------------------------------------------------------------------------------------------
  // The records the store builds

  /** The record of `createUser`: absent fields default to "" (email), null, or the current time. */
  function NewUser(data: UserData, id: string, now: int): (r: User)
    ensures r.id == id && r.email == data.email.GetOr("")
    ensures data.createdAt.None? && data.updatedAt.None? ==> r.createdAt == now == r.updatedAt
  {
    User(id, data.email.GetOr(""), data.passwordHash, data.firstName, data.lastName,
         data.profileImageUrl, data.createdAt.GetOr(now), data.updatedAt.GetOr(now))
  }

  /** The record of `upsertUser`: each field is the given value, else the stored one, else the
      default; the creation time of a stored record always wins, and the update time is now. */
  function Upserted(data: UserData, id: string, existing: Option<User>, now: int): (r: User)
    ensures r.id == id && r.updatedAt == now
    ensures existing.None? ==> r == NewUser(data, id, now).(updatedAt := now)
    ensures existing.Some? ==> r.createdAt == existing.value.createdAt
  {
    match existing
    case None =>
      User(id, data.email.GetOr(""), data.passwordHash, data.firstName, data.lastName,
           data.profileImageUrl, data.createdAt.GetOr(now), now)
    case Some(e) =>
      User(id, data.email.GetOr(e.email), data.passwordHash.OrElse(e.passwordHash),
           data.firstName.OrElse(e.firstName), data.lastName.OrElse(e.lastName),
           data.profileImageUrl.OrElse(e.profileImageUrl), e.createdAt, now)
  }

  /** The data that names only an id. */
  function IdOnly(id: string): UserData {
    UserData(Some(id), None, None, None, None, None, None, None)
  }

  /** A user's own record, as data: every field given. */
  function AsData(u: User): UserData {
    UserData(Some(u.id), Some(u.email), u.passwordHash, u.firstName, u.lastName,
             u.profileImageUrl, Some(u.createdAt), Some(u.updatedAt))
  }

  /** Upserting a new id builds what `createUser` would, except that the update time is now. */
  lemma UpsertFreshIsCreate(data: UserData, id: string, now: int)
    ensures Upserted(data, id, None, now) == NewUser(data, id, now).(updatedAt := now)
  {
  }

  /** Upserting a stored record with nothing but its id, or with its own fields, only touches
      its update time. */
  lemma UpsertTouches(e: User, now: int)
    ensures Upserted(IdOnly(e.id), e.id, Some(e), now) == e.(updatedAt := now)
    ensures Upserted(AsData(e), e.id, Some(e), now) == e.(updatedAt := now)
  {
  }

  /** A given creation time never overrides a stored one. */
  lemma UpsertKeepsCreation(data: UserData, e: User, now: int)
    ensures Upserted(data, e.id, Some(e), now).createdAt == e.createdAt
  {
  }

  /** Upserting the same data twice at the same time gives the record of the first upsert. */
  lemma UpsertIdempotent(data: UserData, id: string, existing: Option<User>, now: int)
    ensures Upserted(data, id, Some(Upserted(data, id, existing, now)), now)
         == Upserted(data, id, existing, now)
  {
  }

  function HasEmail(email: string): User -> bool {
    (u: User) => u.email == email
  }

  // ---------------------------------------------------------------------------------------------
  // The store

  class MemoryAuthStorage {
    /** The entries of the `users` Map, in insertion order. */
    var users: seq<User>

    ghost predicate Valid()
      reads this
    {
      DistinctIds(users)
    }

    constructor ()
      ensures Valid() && users == []
    {
      users := [];
    }

    /** `getUser(id)`: the record stored under `id`, if any. */
    function GetUser(id: string): (r: Option<User>)
      reads this
      ensures r.Some? ==> r.value in users && r.value.id == id
      ensures r.None? <==> forall u :: u in users ==> u.id != id
    {
      Lookup(users, id)
    }

    /** `getUserByEmail(email)`: the first record, in insertion order, with that email. */
    function GetUserByEmail(email: string): (r: Option<User>)
      reads this
      ensures r.Some? ==> exists i :: 0 <= i < |users| && users[i] == r.value && r.value.email == email
                            && forall j :: 0 <= j < i ==> users[j].email != email
      ensures r.None? <==> forall u :: u in users ==> u.email != email
    {
      match FindIndex(users, HasEmail(email))
      case None => None
      case Some(i) => Some(users[i])
    }

    /** `createUser(data)`; `freshId` stands for `crypto.randomUUID()`, asked for only when no id
        is given, and `now` for the clock. The record replaces any stored under the same id. */
    method CreateUser(data: UserData, freshId: string, now: int) returns (user: User)
      requires Valid()
      modifies this
      ensures Valid()
      ensures user == NewUser(data, data.id.GetOr(freshId), now)
      ensures users == Put(old(users), user)
      ensures GetUser(user.id) == Some(user)
      ensures forall id :: id != user.id ==> GetUser(id) == old(GetUser(id))
    {
      user := NewUser(data, data.id.GetOr(freshId), now);
      PutDistinct(users, user);
      forall id ensures Lookup(Put(users, user), id) == if id == user.id then Some(user) else Lookup(users, id) {
        PutLookup(users, user, id);
      }
      users := Put(users, user);
    }

    /** `upsertUser(data)`: merges the data into the record stored under its id (or a fresh id). */
    method UpsertUser(data: UserData, freshId: string, now: int) returns (user: User)
      requires Valid()
      modifies this
      ensures Valid()
      ensures var id := data.id.GetOr(freshId);
        user == Upserted(data, id, old(GetUser(id)), now)
      ensures users == Put(old(users), user)
      ensures GetUser(user.id) == Some(user)
      ensures forall id :: id != user.id ==> GetUser(id) == old(GetUser(id))
    {
      var id := data.id.GetOr(freshId);
      var existing := Lookup(users, id);
      user := Upserted(data, id, existing, now);
      PutDistinct(users, user);
      forall id ensures Lookup(Put(users, user), id) == if id == user.id then Some(user) else Lookup(users, id) {
        PutLookup(users, user, id);
      }
      users := Put(users, user);
    }

    /** `deleteUser(id)`: forgets the record under `id`; the others stay, in order. */
    method DeleteUser(id: string)
      requires Valid()
      modifies this
      ensures Valid()
      ensures users == Remove(old(users), id)
      ensures GetUser(id).None?
      ensures forall other :: other != id ==> GetUser(other) == old(GetUser(other))
    {
      RemoveDistinct(users, id);
      forall other ensures Lookup(Remove(users, id), other) == if other == id then None else Lookup(users, other) {
        RemoveLookup(users, id, other);
      }
      users := Remove(users, id);
    }
  }
}
