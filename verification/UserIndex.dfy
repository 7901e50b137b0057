/** The in-memory user store: the users, the indexes by email and by login provider, and the API
    keys, with soft deletion (backend/internal/store/memory.go). */
module UserIndex {
  import opened Bytes

  datatype User = User(email: string, name: string, passwordHash: string, deletedAt: Option<int>)

  datatype ApiKey = ApiKey(user: string, revokedAt: Option<int>)

  datatype Db = Db(users: map<string, User>, byEmail: map<string, string>, byProvSub: map<string, string>,
                   keys: map<string, ApiKey>)

  datatype Error = NotFound | AlreadyExists

  datatype Result<+T> = Ok(value: T) | Err(error: Error)

  function ProviderKey(provider: string, subject: string): string {
    provider + ":" + subject
  }

  lemma FirstColon(p: string, s: string)
    requires ':' !in p
    ensures var key := ProviderKey(p, s);
            |p| < |key| && key[|p|] == ':' && forall i | 0 <= i < |p| :: key[i] != ':'
    ensures var key := ProviderKey(p, s); key[..|p|] == p && key[|p| + 1..] == s
  {
  }

  /** Provider names have no colon, so the joined text tells every pair apart. */
  lemma ProviderKeysDiffer(p: string, s: string, q: string, t: string)
    requires ':' !in p && ':' !in q && ProviderKey(p, s) == ProviderKey(q, t)
    ensures p == q && s == t
  {
    FirstColon(p, s);
    FirstColon(q, t);
  }

  predicate IsLive(db: Db, id: string) {
    id in db.users && db.users[id].deletedAt.None?
  }

  // ----- The operations on values -----

  function Created(db: Db, id: string, u: User): Db {
    db.(users := db.users[id := u], byEmail := db.byEmail[u.email := id])
  }

  function Linked(db: Db, id: string, key: string): Db {
    db.(byProvSub := db.byProvSub[key := id])
  }

  function Erased(id: string, now: int): User {
    User("__deleted__:" + id, "", "", Some(now))
  }

  function Unlinked(links: map<string, string>, id: string): map<string, string> {
    map k | k in links && links[k] != id :: links[k]
  }

  function Revoked(keys: map<string, ApiKey>, id: string, now: int): map<string, ApiKey> {
    map k | k in keys ::
      if keys[k].user == id && keys[k].revokedAt.None? then keys[k].(revokedAt := Some(now)) else keys[k]
  }

  function Deleted(db: Db, id: string, now: int): Db
    requires id in db.users
  {
    Db(db.users[id := Erased(id, now)], db.byEmail - {db.users[id].email}, Unlinked(db.byProvSub, id),
       Revoked(db.keys, id, now))
  }

  /** No lookup through an index finds a missing row. */
  predicate Resolves(db: Db) {
    && (forall e | e in db.byEmail :: db.byEmail[e] in db.users)
    && (forall k | k in db.byProvSub :: db.byProvSub[k] in db.users)
  }

  // ----- The store -----

  class MemoryStore {
    var users: map<string, User>
    var byEmail: map<string, string>
    var byProvSub: map<string, string>
    var keys: map<string, ApiKey>

    function View(): Db
      reads this
    {
      Db(users, byEmail, byProvSub, keys)
    }

    method CreateUser(id: string, u: User) returns (r: Result<()>)
      modifies this`users, this`byEmail
      ensures r == if u.email in old(byEmail) then Err(AlreadyExists) else Ok(())
      ensures View() == if r.Ok? then Created(old(View()), id, u) else old(View())
      ensures users == if r.Ok? then old(users)[id := u] else old(users)
      ensures byEmail == if r.Ok? then old(byEmail)[u.email := id] else old(byEmail)
    {
      if u.email in byEmail {
        return Err(AlreadyExists);
      }
      users := users[id := u];
      byEmail := byEmail[u.email := id];
      return Ok(());
    }

    method GetUserByID(id: string) returns (r: Result<User>)
      ensures r == if IsLive(View(), id) then Ok(users[id]) else Err(NotFound)
    {
      if id !in users || users[id].deletedAt.Some? {
        return Err(NotFound);
      }
      return Ok(users[id]);
    }

    method GetUserByEmail(email: string) returns (r: Result<User>)
      requires Resolves(View())
      ensures r == if email in byEmail && IsLive(View(), byEmail[email]) then Ok(users[byEmail[email]])
                   else Err(NotFound)
    {
      if email !in byEmail {
        return Err(NotFound);
      }
      var u := users[byEmail[email]];
      return if u.deletedAt.Some? then Err(NotFound) else Ok(u);
    }

    method GetUserByProvider(provider: string, subject: string) returns (r: Result<User>)
      requires Resolves(View())
      ensures var key := ProviderKey(provider, subject);
              r == if key in byProvSub && IsLive(View(), byProvSub[key]) then Ok(users[byProvSub[key]])
                   else Err(NotFound)
    {
      var key := ProviderKey(provider, subject);
      if key !in byProvSub {
        return Err(NotFound);
      }
      var u := users[byProvSub[key]];
      return if u.deletedAt.Some? then Err(NotFound) else Ok(u);
    }

    method LinkProvider(id: string, provider: string, subject: string) returns (r: Result<()>)
      modifies this`byProvSub
      ensures var key := ProviderKey(provider, subject);
              r == (if id !in users then Err(NotFound)
                    else if key in old(byProvSub) && old(byProvSub)[key] != id then Err(AlreadyExists) else Ok(()))
              && View() == (if r.Ok? then Linked(old(View()), id, key) else old(View()))
              && byProvSub == if r.Ok? then old(byProvSub)[provider + ":" + subject := id] else old(byProvSub)
    {
      if id !in users {
        return Err(NotFound);
      }
      var key := ProviderKey(provider, subject);
      if key in byProvSub {
        if byProvSub[key] == id {
          assert byProvSub[key := id] == byProvSub;
          return Ok(());
        }
        return Err(AlreadyExists);
      }
      byProvSub := byProvSub[key := id];
      return Ok(());
    }

    method UpdateUser(id: string, mutate: User -> User) returns (r: Result<User>)
      modifies this`users
      ensures r == if IsLive(old(View()), id) then Ok(mutate(old(users)[id])) else Err(NotFound)
      ensures users == if r.Ok? then old(users)[id := r.value] else old(users)
    {
      if id !in users || users[id].deletedAt.Some? {
        return Err(NotFound);
      }
      var u := mutate(users[id]);
      users := users[id := u];
      return Ok(u);
    }

    method SoftDeleteUser(id: string, now: int) returns (r: Result<()>)
      modifies this
      ensures r == if id in old(users) then Ok(()) else Err(NotFound)
      ensures View() == if IsLive(old(View()), id) then Deleted(old(View()), id, now) else old(View())
      ensures r.Ok? && old(users)[id].deletedAt.None? ==>
                && users == old(users)[id := User("__deleted__:" + id, "", "", Some(now))]
                && byEmail == old(byEmail) - {old(users)[id].email}
                && (forall k :: k in byProvSub <==> k in old(byProvSub) && old(byProvSub)[k] != id)
                && (forall k | k in byProvSub :: byProvSub[k] == old(byProvSub)[k])
                && keys.Keys == old(keys).Keys
                && forall k | k in keys ::
                     if old(keys)[k].user == id && old(keys)[k].revokedAt.None?
                     then keys[k] == ApiKey(id, Some(now)) else keys[k] == old(keys)[k]
    {
      if id !in users {
        return Err(NotFound);
      }
      if users[id].deletedAt.Some? {
        return Ok(());
      }
      byEmail := byEmail - {users[id].email};

      ghost var links := byProvSub;
      var left := byProvSub.Keys;
      while left != {}
        invariant left <= links.Keys && users == old(users) && keys == old(keys)
        invariant byEmail == old(byEmail) - {users[id].email}
        invariant byProvSub == map k | k in links && (k in left || links[k] != id) :: links[k]
        decreases left
      {
        var k :| k in left;
        if byProvSub[k] == id {
          byProvSub := byProvSub - {k};
        }
        left := left - {k};
      }

      assert byProvSub == Unlinked(links, id);

      ghost var before := keys;
      left := keys.Keys;
      while left != {}
        invariant left <= before.Keys && keys.Keys == before.Keys && users == old(users)
        invariant byEmail == old(byEmail) - {users[id].email} && byProvSub == Unlinked(links, id)
        invariant forall k | k in before :: keys[k] == if k in left then before[k] else Revoked(before, id, now)[k]
        decreases left
      {
        var k :| k in left;
        if keys[k].user == id && keys[k].revokedAt.None? {
          keys := keys[k := keys[k].(revokedAt := Some(now))];
        }
        left := left - {k};
      }
      assert keys == Revoked(before, id, now);

      users := users[id := Erased(id, now)];
      return Ok(());
    }

    method CreateAPIKey(id: string, user: string)
      modifies this`keys
      ensures keys == old(keys)[id := ApiKey(user, None)]
    {
      keys := keys[id := ApiKey(user, None)];
    }

    method RevokeAPIKey(user: string, id: string, now: int) returns (r: Result<()>)
      modifies this`keys
      ensures r == if id in old(keys) && old(keys)[id].user == user then Ok(()) else Err(NotFound)
      ensures keys == if r.Ok? then old(keys)[id := ApiKey(user, Some(now))] else old(keys)
    {
      if id !in keys || keys[id].user != user {
        return Err(NotFound);
      }
      keys := keys[id := keys[id].(revokedAt := Some(now))];
      return Ok(());
    }
  }

  // ----- Runs -----

  /** The calls, each with new ids where it creates something. `Update` keeps the email and the
      deletion stamp; a refused call changes nothing and is no event. */
  datatype Event =
    | Create(id: string, u: User)
    | Link(id: string, key: string)
    | Update(id: string, name: string, passwordHash: string)
    | Delete(id: string, now: int)
    | CreateKey(id: string, user: string)
    | RevokeKey(id: string, now: int)

  predicate Enabled(db: Db, e: Event) {
    match e
    case Create(id, u) => id !in db.users && u.email !in db.byEmail && u.deletedAt.None?
    case Link(id, key) => id in db.users && (key in db.byProvSub ==> db.byProvSub[key] == id)
    case Update(id, _, _) => IsLive(db, id)
    case Delete(id, _) => IsLive(db, id)
    case CreateKey(id, _) => id !in db.keys
    case RevokeKey(id, _) => id in db.keys
  }

  function Step(db: Db, e: Event): Db
    requires Enabled(db, e)
  {
    match e
    case Create(id, u) => Created(db, id, u)
    case Link(id, key) => Linked(db, id, key)
    case Update(id, name, hash) => db.(users := db.users[id := db.users[id].(name := name, passwordHash := hash)])
    case Delete(id, now) => Deleted(db, id, now)
    case CreateKey(id, user) => db.(keys := db.keys[id := ApiKey(user, None)])
    case RevokeKey(id, now) => db.(keys := db.keys[id := db.keys[id].(revokedAt := Some(now))])
  }

  predicate IsRun(db: Db, es: seq<Event>)
    decreases |es|
  {
    es != [] ==> Enabled(db, es[0]) && IsRun(Step(db, es[0]), es[1..])
  }

  function Run(db: Db, es: seq<Event>): Db
    requires IsRun(db, es)
    decreases |es|
  {
    if es == [] then db else Run(Step(db, es[0]), es[1..])
  }

  const EMPTY := Db(map[], map[], map[], map[])

  /** The email index is exactly the live users by their email; links go to stored users. */
  ghost predicate Inv(db: Db) {
    && (forall e | e in db.byEmail :: IsLive(db, db.byEmail[e]) && db.users[db.byEmail[e]].email == e)
    && (forall id | IsLive(db, id) :: db.users[id].email in db.byEmail && db.byEmail[db.users[id].email] == id)
    && Resolves(db)
  }

  lemma StepKeepsInv(db: Db, e: Event)
    requires Inv(db) && Enabled(db, e)
    ensures Inv(Step(db, e))
  {
  }

  lemma {:induction false} RunKeepsInv(db: Db, es: seq<Event>)
    requires Inv(db) && IsRun(db, es)
    ensures Inv(Run(db, es))
    decreases |es|
  {
    if es != [] {
      StepKeepsInv(db, es[0]);
      RunKeepsInv(Step(db, es[0]), es[1..]);
    }
  }

  /** The main result: after any run, an email belongs to at most one live user, and looking it up
      finds that user and no other. */
  lemma EmailsAreABijection(es: seq<Event>, email: string, id: string)
    requires IsRun(EMPTY, es)
    ensures var db := Run(EMPTY, es);
            IsLive(db, id) && db.users[id].email == email <==> email in db.byEmail && db.byEmail[email] == id
  {
    RunKeepsInv(EMPTY, es);
  }

  lemma LinksResolve(es: seq<Event>, key: string)
    requires IsRun(EMPTY, es) && key in Run(EMPTY, es).byProvSub
    ensures Run(EMPTY, es).byProvSub[key] in Run(EMPTY, es).users
  {
    RunKeepsInv(EMPTY, es);
  }

  // ----- Deletion -----

  lemma DeletionFrees(db: Db, id: string, now: int)
    requires Inv(db) && IsLive(db, id)
    ensures var t := Deleted(db, id, now); var email := db.users[id].email;
            email !in t.byEmail && (forall e | e != email :: e in t.byEmail <==> e in db.byEmail)
            && (forall k | k in t.byProvSub :: t.byProvSub[k] != id)
            && (forall k | k in db.byProvSub && db.byProvSub[k] != id ::
                  k in t.byProvSub && t.byProvSub[k] == db.byProvSub[k])
            && (forall k | k in db.keys && db.keys[k].user == id :: k in t.keys && t.keys[k].revokedAt.Some?)
            && (forall k | k in db.keys && db.keys[k].user != id :: k in t.keys && t.keys[k] == db.keys[k])
            && (forall other | other !in db.users :: Enabled(t, Create(other, User(email, "", "", None))))
  {
  }

  /** A deleted user stays deleted, and the keys it had stay revoked. */
  lemma {:induction false} DeletionIsForGood(db: Db, es: seq<Event>, id: string)
    requires Inv(db) && IsRun(db, es) && id in db.users && db.users[id].deletedAt.Some?
    ensures var t := Run(db, es);
            id in t.users && t.users[id] == db.users[id] && (forall e | e in t.byEmail :: t.byEmail[e] != id)
            && forall k | k in db.keys && db.keys[k].revokedAt.Some? :: k in t.keys && t.keys[k].revokedAt.Some?
    decreases |es|
  {
    if es != [] {
      StepKeepsInv(db, es[0]);
      DeletionIsForGood(Step(db, es[0]), es[1..], id);
    }
  }

  /** A revoked key is never live again. */
  lemma {:induction false} RevokedKeyStays(db: Db, es: seq<Event>, id: string)
    requires Inv(db) && IsRun(db, es) && id in db.keys && db.keys[id].revokedAt.Some?
    ensures var t := Run(db, es); id in t.keys && t.keys[id].revokedAt.Some?
    decreases |es|
  {
    if es != [] {
      StepKeepsInv(db, es[0]);
      RevokedKeyStays(Step(db, es[0]), es[1..], id);
    }
  }

  lemma RevokedForGood(db: Db, id: string, now: int, es: seq<Event>)
    requires Inv(db) && id in db.keys && IsRun(db, [RevokeKey(id, now)] + es)
    ensures var t := Run(db, [RevokeKey(id, now)] + es); id in t.keys && t.keys[id].revokedAt.Some?
  {
    StepKeepsInv(db, RevokeKey(id, now));
    assert ([RevokeKey(id, now)] + es)[1..] == es;
    RevokedKeyStays(Step(db, RevokeKey(id, now)), es, id);
  }

  // ----- Links to deleted users -----

  ghost predicate LinksAreLive(db: Db) {
    forall k | k in db.byProvSub :: IsLive(db, db.byProvSub[k])
  }

  /** Linking does not look at the deletion stamp, and that is the only way a link of a deleted user
      comes about. */
  lemma LinksStayLiveIff(db: Db, e: Event)
    requires Inv(db) && LinksAreLive(db) && Enabled(db, e)
    ensures LinksAreLive(Step(db, e)) <==> (e.Link? ==> IsLive(db, e.id))
  {
    if e.Link? {
      assert Step(db, e).byProvSub[e.key] == e.id;
    }
  }

  /** Such a link is never released: no later call removes it or gives it to another user. */
  lemma {:induction false} DeadLinkStays(db: Db, es: seq<Event>, key: string)
    requires Inv(db) && IsRun(db, es) && key in db.byProvSub && !IsLive(db, db.byProvSub[key])
    ensures var t := Run(db, es);
            key in t.byProvSub && t.byProvSub[key] == db.byProvSub[key] && !IsLive(t, t.byProvSub[key])
    decreases |es|
  {
    if es != [] {
      StepKeepsInv(db, es[0]);
      DeadLinkStays(Step(db, es[0]), es[1..], key);
    }
  }

  lemma Then(db: Db, e: Event, es: seq<Event>)
    requires Enabled(db, e) && IsRun(Step(db, e), es)
    ensures IsRun(db, [e] + es) && Run(db, [e] + es) == Run(Step(db, e), es)
  {
    assert ([e] + es)[1..] == es;
  }

  /** And one does come about: sign up, delete, link. */
  lemma DeletedThenLinked(id: string, u: User, now: int, key: string)
    requires u.deletedAt.None?
    ensures var es := [Create(id, u), Delete(id, now), Link(id, key)];
            IsRun(EMPTY, es) && var db := Run(EMPTY, es);
            key in db.byProvSub && db.byProvSub[key] == id && !IsLive(db, id) && u.email !in db.byEmail
  {
    var db1 := Step(EMPTY, Create(id, u));
    var db2 := Step(db1, Delete(id, now));
    Then(db2, Link(id, key), []);
    Then(db1, Delete(id, now), [Link(id, key)] + []);
    Then(EMPTY, Create(id, u), [Delete(id, now)] + ([Link(id, key)] + []));
    assert [Create(id, u)] + ([Delete(id, now)] + ([Link(id, key)] + [])) == [Create(id, u), Delete(id, now), Link(id, key)];
  }
}
