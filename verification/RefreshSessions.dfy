/** The session handlers over the token store (backend/internal/api/auth_session.go). A handler
    first reads a row by its hash and acts on that snapshot later, so other requests can run in
    between. Every store call is one atomic step. */
module RefreshSessions {
  import opened Bytes
  import opened RefreshTokens

  /** What a request has read and not yet acted upon. */
  datatype Pending = Refreshing(id: Id, row: Row) | LoggingOut(user: string)

  datatype Response = TokenReused | TokenExpired | UserGone | InternalError | Rotated(child: Id)

  /** The second half of handleRefresh: what it answers and what it leaves in the store. */
  ghost function FinishRefresh(s: Store, seen: Id, row: Row, now: int, userExists: bool, child: Id, hash: string,
                               expiresAt: int): (Store, Response) {
    if row.revokedAt.Some? then
      (s.(refresh := RevokeSet(s.refresh, Family(s.refresh, seen), now)), TokenReused)
    else if now > row.expiresAt then (s, TokenExpired)
    else if !userExists then (s, UserGone)
    else (Rotate(s, seen, child, Issue(row.user, hash, expiresAt), now),
          if Live(s.refresh, seen) then Rotated(child) else InternalError)
  }

  /** The handler from its snapshot on, against the store as it is by then. */
  method HandleRefresh(store: MemoryStore, seen: Id, row: Row, now: int, userExists: bool, child: Id, hash: string,
                       expiresAt: int)
    returns (r: Response)
    requires WellLinked(store.refresh) && child !in store.refresh
    modifies store
    ensures (store.View(), r) == old(FinishRefresh(store.View(), seen, row, now, userExists, child, hash, expiresAt))
    ensures r == TokenReused <==> row.revokedAt.Some?
    ensures r == TokenExpired <==> row.revokedAt.None? && row.expiresAt < now
    ensures r == UserGone <==> row.revokedAt.None? && now <= row.expiresAt && !userExists
    ensures r == Rotated(child) <==> row.revokedAt.None? && now <= row.expiresAt && userExists
                                     && seen in old(store.refresh) && old(store.refresh)[seen].revokedAt.None?
    ensures r != TokenReused && r != Rotated(child) ==>
              store.refresh == old(store.refresh) && store.refreshHash == old(store.refreshHash)
    ensures r == TokenReused ==> store.refresh.Keys == old(store.refresh).Keys
    ensures r == TokenReused ==> forall id | id in store.refresh ::
              if old(store.refresh)[id].revokedAt.None? && exists p :: Leads(old(store.refresh), p, seen, id)
              then store.refresh[id] == old(store.refresh)[id].(revokedAt := Some(now))
              else store.refresh[id] == old(store.refresh)[id]
  {
    forall id | id in store.refresh {
      RevokedFamilyRows(store.refresh, seen, now, id);
    }
    hide RevokeSet, Family, Leads, WellLinked;
    if row.revokedAt.Some? {
      store.RevokeRefreshTokenFamily(seen, now);
      return TokenReused;
    }
    if now > row.expiresAt {
      return TokenExpired;
    }
    if !userExists {
      return UserGone;
    }
    var ok := store.RotateRefreshToken(seen, Issue(row.user, hash, expiresAt), child, now);
    r := if ok then Rotated(child) else InternalError;
  }

  // ----- All interleavings -----

  datatype System = System(store: Store, pending: map<nat, Pending>)

  datatype Event =
    | Login(id: Id, issue: Issue)
    | ReadForRefresh(request: nat, hash: string)
    | ActOnRefresh(request: nat, now: int, userExists: bool, child: Id, hash: string, expiresAt: int)
    | ReadForLogout(request: nat, hash: string)
    | ActOnLogout(request: nat, now: int)
    | RevokeUser(user: string, now: int)
    | Abandon(request: nat)

  /** Identifiers and hashes of new tokens are fresh. */
  ghost predicate Enabled(s: System, e: Event) {
    match e
    case Login(id, issue) => id !in s.store.refresh && issue.hash !in s.store.refreshHash
    case ReadForRefresh(request, hash) => request !in s.pending
    case ActOnRefresh(request, _, _, child, hash, _) =>
      request in s.pending && s.pending[request].Refreshing?
      && child !in s.store.refresh && hash !in s.store.refreshHash
    case ReadForLogout(request, _) => request !in s.pending
    case ActOnLogout(request, _) => request in s.pending && s.pending[request].LoggingOut?
    case RevokeUser(_, _) => true
    case Abandon(request) => request in s.pending
  }

  ghost predicate HashesResolve(s: Store) {
    forall h | h in s.refreshHash :: s.refreshHash[h] in s.refresh
  }

  ghost function Step(s: System, e: Event): System
    requires Enabled(s, e)
  {
    match e
    case Login(id, issue) => s.(store := Insert(s.store, id, issue))
    case ReadForRefresh(request, hash) =>
      if hash in s.store.refreshHash && s.store.refreshHash[hash] in s.store.refresh then
        var id := s.store.refreshHash[hash];
        s.(pending := s.pending[request := Refreshing(id, s.store.refresh[id])])
      else s
    case ActOnRefresh(request, now, userExists, child, hash, expiresAt) =>
      var p := s.pending[request];
      System(FinishRefresh(s.store, p.id, p.row, now, userExists, child, hash, expiresAt).0, s.pending - {request})
    case ReadForLogout(request, hash) =>
      if hash in s.store.refreshHash && s.store.refreshHash[hash] in s.store.refresh then
        s.(pending := s.pending[request := LoggingOut(s.store.refresh[s.store.refreshHash[hash]].user)])
      else s
    case ActOnLogout(request, now) =>
      System(RevokeUserTokens(s.store, s.pending[request].user, now), s.pending - {request})
    case RevokeUser(user, now) => s.(store := RevokeUserTokens(s.store, user, now))
    case Abandon(request) => s.(pending := s.pending - {request})
  }

  function RevokeUserTokens(s: Store, user: string, now: int): Store {
    s.(refresh := RevokeSet(s.refresh, ByUser(s.refresh, user), now))
  }

  /** Kept by every step: links in order, one owner along every link, and snapshots that can only be
      out of date in having missed a revocation. */
  ghost predicate Inv(s: System) {
    && WellLinked(s.store.refresh)
    && HashesResolve(s.store)
    && OwnersAgree(s.store.refresh)
    && (forall r | r in s.pending && s.pending[r].Refreshing? :: Snapshot(s.store.refresh, s.pending[r]))
  }

  ghost predicate OwnersAgree(t: Table) {
    forall a, b | a in t && b in t && t[a].replacedBy == Some(b) :: t[a].user == t[b].user
  }

  ghost predicate Snapshot(t: Table, p: Pending)
    requires p.Refreshing?
  {
    p.id in t && t[p.id].user == p.row.user && (p.row.revokedAt.Some? ==> t[p.id].revokedAt.Some?)
  }

  lemma StepEvolves(s: System, e: Event)
    requires Inv(s) && Enabled(s, e)
    ensures Evolves(s.store.refresh, Step(s, e).store.refresh)
  {
    hide Inv, Family;
  }

  lemma StepKeepsLinks(s: System, e: Event)
    requires Inv(s) && Enabled(s, e)
    ensures WellLinked(Step(s, e).store.refresh) && HashesResolve(Step(s, e).store)
  {
    hide WellLinked;
    match e {
      case Login(id, issue) => InsertKeepsLinks(s.store, id, issue);
      case ActOnRefresh(request, now, _, child, hash, expiresAt) =>
        var p := s.pending[request];
        RevokeKeepsLinks(s.store.refresh, Family(s.store.refresh, p.id), now);
        RotateKeepsLinks(s.store, p.id, child, Issue(p.row.user, hash, expiresAt), now);
      case ActOnLogout(request, now) =>
        RevokeKeepsLinks(s.store.refresh, ByUser(s.store.refresh, s.pending[request].user), now);
      case RevokeUser(user, now) =>
        RevokeKeepsLinks(s.store.refresh, ByUser(s.store.refresh, user), now);
      case _ =>
    }
  }

  lemma StepKeepsOwners(s: System, e: Event)
    requires Inv(s) && Enabled(s, e)
    ensures OwnersAgree(Step(s, e).store.refresh)
  {
    hide Acyclic;
    hide Family;
    var t, u := s.store.refresh, Step(s, e).store.refresh;
    if e.ActOnRefresh? {
      var p := s.pending[e.request];
      forall a, b | a in u && b in u && u[a].replacedBy == Some(b)
        ensures u[a].user == u[b].user
      {
        if a in t && t[a].replacedBy == u[a].replacedBy {
          assert b in t;
        }
      }
    }
  }

  lemma StepKeepsSnapshots(s: System, e: Event)
    requires Inv(s) && Enabled(s, e)
    ensures forall r | r in Step(s, e).pending && Step(s, e).pending[r].Refreshing? ::
              Snapshot(Step(s, e).store.refresh, Step(s, e).pending[r])
  {
    StepEvolves(s, e);
    hide WellLinked;
    hide OwnersAgree;
    hide FinishRefresh;
    hide Insert;
    hide RevokeUserTokens;
  }

  lemma StepKeepsInv(s: System, e: Event)
    requires Inv(s) && Enabled(s, e)
    ensures Inv(Step(s, e))
  {
    StepKeepsLinks(s, e);
    StepKeepsOwners(s, e);
    StepKeepsSnapshots(s, e);
    hide Step;
    hide WellLinked;
    hide OwnersAgree;
  }

  /** A run of the server from `s` to `u`. */
  ghost predicate Run(s: System, es: seq<Event>, u: System)
    decreases |es|
  {
    if es == [] then s == u else Enabled(s, es[0]) && Run(Step(s, es[0]), es[1..], u)
  }

  lemma {:induction false} RunKeeps(s: System, es: seq<Event>, u: System)
    requires Inv(s) && Run(s, es, u)
    ensures Inv(u) && Evolves(s.store.refresh, u.store.refresh)
    decreases |es|
  {
    hide Step;
    hide Enabled;
    if es != [] {
      StepKeepsInv(s, es[0]);
      StepEvolves(s, es[0]);
      RunKeeps(Step(s, es[0]), es[1..], u);
    }
  }

  const EMPTY: System := System(Store(map[], map[]), map[])

  lemma EmptyInv()
    ensures Inv(EMPTY)
  {
    assert Ranked(EMPTY.store.refresh, map[]);
  }

  /** In every reachable state the chains are what the design promises. */
  lemma ReachableChains(es: seq<Event>, u: System)
    requires Run(EMPTY, es, u)
    ensures var t := u.store.refresh;
            && Acyclic(t)
            && (forall a, b | a in t && b in t && t[a].replacedBy.Some? && t[a].replacedBy == t[b].replacedBy :: a == b)
            && (forall a | Live(t, a) :: t[a].replacedBy.None?)
            && (forall a, b | a in t && b in Family(t, a) :: t[b].user == t[a].user)
  {
    EmptyInv();
    RunKeeps(EMPTY, es, u);
    var t := u.store.refresh;
    forall a, b | a in t && b in Family(t, a)
      ensures t[b].user == t[a].user
    {
      var p :| Leads(t, p, a, b);
      OneOwner(u, p, |p| - 1);
    }
  }

  lemma {:induction false} OneOwner(s: System, p: seq<Id>, i: nat)
    requires Inv(s) && Chain(s.store.refresh, p) && i < |p|
    ensures s.store.refresh[p[i]].user == s.store.refresh[p[0]].user
  {
    if i > 0 {
      OneOwner(s, p, i - 1);
      Link(s.store.refresh, p, i - 1);
    }
  }

  /** Reuse of a consumed token kills its family, and no later interleaving brings any of it back or
      adds a token to it. */
  lemma RevokedFamilyStaysDead(s: System, e: Event, es: seq<Event>, u: System)
    requires Inv(s) && e.ActOnRefresh? && Enabled(s, e)
    requires s.pending[e.request].row.revokedAt.Some?
    requires Run(Step(s, e), es, u)
    ensures var start := s.pending[e.request].id;
            && Family(u.store.refresh, start) == Family(s.store.refresh, start)
            && Dead(u.store.refresh, start)
  {
    var start := s.pending[e.request].id;
    var dead := Step(s, e);
    RevokedFamilyIsDead(s.store.refresh, start, e.now);
    StepKeepsInv(s, e);
    RunKeeps(dead, es, u);
    DeadFamilyIsFrozen(dead.store.refresh, u.store.refresh, start);
  }

  /** A token is rotated at most once in any run: after one success every later attempt on it leaves
      the store alone, and its successor never changes. */
  lemma RotatedOnce(s: System, e: Event, es: seq<Event>, u: System, f: Event)
    requires Inv(s) && e.ActOnRefresh? && Enabled(s, e)
    requires var p := s.pending[e.request];
             FinishRefresh(s.store, p.id, p.row, e.now, e.userExists, e.child, e.hash, e.expiresAt).1.Rotated?
    requires Run(Step(s, e), es, u)
    requires f.ActOnRefresh? && Enabled(u, f) && u.pending[f.request].id == s.pending[e.request].id
    ensures var p, q := s.pending[e.request], u.pending[f.request];
            && p.id in u.store.refresh && u.store.refresh[p.id].replacedBy == Some(e.child)
            && !FinishRefresh(u.store, q.id, q.row, f.now, f.userExists, f.child, f.hash, f.expiresAt).1.Rotated?
  {
    StepKeepsInv(s, e);
    RunKeeps(Step(s, e), es, u);
  }

  /** Signing out reaches every token the user holds at that moment, and none of those comes back. */
  lemma LogoutIsPermanent(s: System, e: Event, es: seq<Event>, u: System, id: Id)
    requires Inv(s) && e.ActOnLogout? && Enabled(s, e) && Run(Step(s, e), es, u)
    requires id in s.store.refresh && s.store.refresh[id].user == s.pending[e.request].user
    ensures !Live(u.store.refresh, id)
  {
    StepKeepsInv(s, e);
    RunKeeps(Step(s, e), es, u);
  }

  // ----- Signing out by the snapshot of a statement -----

  /** The token an event issues to a user: by a login, or by a rotation that succeeds. */
  ghost function IssuedBy(s: System, e: Event, user: string): set<Id>
    requires Enabled(s, e)
  {
    match e
    case Login(id, issue) => if issue.user == user then {id} else {}
    case ActOnRefresh(request, now, userExists, child, hash, expiresAt) =>
      var p := s.pending[request];
      if p.row.user == user && FinishRefresh(s.store, p.id, p.row, now, userExists, child, hash, expiresAt).1.Rotated?
      then {child} else {}
    case _ => {}
  }

  ghost function IssuedIn(s: System, es: seq<Event>, user: string, u: System): set<Id>
    requires Run(s, es, u)
    decreases |es|
  {
    if es == [] then {} else IssuedBy(s, es[0], user) + IssuedIn(Step(s, es[0]), es[1..], user, u)
  }

  lemma StepIssues(s: System, e: Event, user: string)
    requires Inv(s) && Enabled(s, e)
    ensures ByUser(Step(s, e).store.refresh, user) == ByUser(s.store.refresh, user) + IssuedBy(s, e, user)
    ensures IssuedBy(s, e, user) !! s.store.refresh.Keys && s.store.refresh.Keys <= Step(s, e).store.refresh.Keys
  {
    hide WellLinked, OwnersAgree, Family;
  }

  /** A user's tokens are those it had and those issued since, which are new. */
  lemma {:induction false} RunIssues(s: System, es: seq<Event>, user: string, u: System)
    requires Inv(s) && Run(s, es, u)
    ensures ByUser(u.store.refresh, user) == ByUser(s.store.refresh, user) + IssuedIn(s, es, user, u)
    ensures IssuedIn(s, es, user, u) !! s.store.refresh.Keys
    decreases |es|
  {
    hide Inv, Step, IssuedBy, ByUser;
    if es != [] {
      StepIssues(s, es[0], user);
      StepKeepsInv(s, es[0]);
      RunIssues(Step(s, es[0]), es[1..], user, u);
    }
  }

  ghost function LiveOf(t: Table, user: string): set<Id> {
    set id | id in t && t[id].user == user && Live(t, id)
  }

  /** The statement that signs a user out picks its rows from its snapshot, taken in state `s`, and
      updates them in state `u`. What it leaves alive is exactly what was issued in between and is
      still live by then. */
  lemma LogoutSpares(s: System, es: seq<Event>, u: System, user: string, now: int)
    requires Inv(s) && Run(s, es, u)
    ensures LiveOf(RevokeSet(u.store.refresh, LiveOf(s.store.refresh, user), now), user)
         == set id | id in IssuedIn(s, es, user, u) && Live(u.store.refresh, id)
  {
    hide IssuedIn;
    RunKeeps(s, es, u);
    hide Inv, Run;
    RunIssues(s, es, user, u);
    var t, r, after := s.store.refresh, u.store.refresh, RevokeSet(u.store.refresh, LiveOf(s.store.refresh, user), now);
    forall id
      ensures id in LiveOf(after, user) <==> id in IssuedIn(s, es, user, u) && Live(r, id)
    {
      assert id in ByUser(r, user) <==> id in ByUser(t, user) || id in IssuedIn(s, es, user, u);
    }
  }

  /** So a rotation that commits in between keeps the user signed in. */
  lemma RotationOutlivesLogout(s: System, e: Event, now: int)
    requires Inv(s) && e.ActOnRefresh? && Enabled(s, e)
    requires var p := s.pending[e.request];
             FinishRefresh(s.store, p.id, p.row, e.now, e.userExists, e.child, e.hash, e.expiresAt).1.Rotated?
    ensures var user := s.pending[e.request].row.user;
            LiveOf(RevokeSet(Step(s, e).store.refresh, LiveOf(s.store.refresh, user), now), user) == {e.child}
  {
    var user, u := s.pending[e.request].row.user, Step(s, e);
    LogoutSpares(s, [e], u, user, now);
    hide Inv, LiveOf;
    assert IssuedIn(s, [e], user, u) == {e.child};
    assert Live(u.store.refresh, e.child);
  }

  // ----- When a refresh rotates -----

  /** Acting on a refresh adds the child, in the place of the token that was read, if and only if the
      snapshot was not revoked, its expiry is not past, the user exists and the token is still live; and
      unless the snapshot was revoked, that is all it can do. */
  lemma RotatesIff(s: System, e: Event)
    requires e.ActOnRefresh? && Enabled(s, e)
    ensures var p, t, u := s.pending[e.request], s.store.refresh, Step(s, e).store.refresh;
            var rotates := p.row.revokedAt.None? && e.now <= p.row.expiresAt && e.userExists
                           && p.id in t && t[p.id].revokedAt.None?;
            && (e.child in u <==> rotates)
            && (rotates ==> u == t[e.child := Row(p.row.user, e.expiresAt, None, None)]
                                 [p.id := t[p.id].(revokedAt := Some(e.now), replacedBy := Some(e.child))])
            && (!rotates && p.row.revokedAt.None? ==> Step(s, e).store == s.store)
            && (p.row.revokedAt.Some? ==> Step(s, e).store.refreshHash == s.store.refreshHash && u.Keys == t.Keys)
  {
    hide Family;
  }

  /** Snapshots show the expiry the token has. */
  ghost predicate ReadsAgree(s: System) {
    forall r | r in s.pending && s.pending[r].Refreshing? ::
      s.pending[r].id in s.store.refresh && s.pending[r].row.expiresAt == s.store.refresh[s.pending[r].id].expiresAt
  }

  lemma StepKeepsExpiry(s: System, e: Event)
    requires ReadsAgree(s) && HashesResolve(s.store) && Enabled(s, e)
    ensures ReadsAgree(Step(s, e)) && HashesResolve(Step(s, e).store)
    ensures forall id | id in s.store.refresh ::
              id in Step(s, e).store.refresh && Step(s, e).store.refresh[id].expiresAt == s.store.refresh[id].expiresAt
  {
    hide Family;
  }

  lemma {:induction false} RunReadsAgree(s: System, es: seq<Event>, u: System)
    requires ReadsAgree(s) && HashesResolve(s.store) && Run(s, es, u)
    ensures ReadsAgree(u) && HashesResolve(u.store)
    decreases |es|
  {
    hide Step, Enabled, ReadsAgree;
    if es != [] {
      StepKeepsExpiry(s, es[0]);
      RunReadsAgree(Step(s, es[0]), es[1..], u);
    }
  }

  /** In every run, a token gets its successor only from a refresh that read this token, while it was
      live, for an existing user, and no later than its expiry. */
  lemma SuccessorOnlyBeforeExpiry(es: seq<Event>, s: System, e: Event, id: Id)
    requires Run(EMPTY, es, s) && Enabled(s, e) && id in s.store.refresh
    requires id !in Step(s, e).store.refresh
             || Step(s, e).store.refresh[id].replacedBy != s.store.refresh[id].replacedBy
    ensures e.ActOnRefresh? && s.pending[e.request].id == id && e.userExists
            && s.store.refresh[id].revokedAt.None? && e.now <= s.store.refresh[id].expiresAt
  {
    RunReadsAgree(EMPTY, es, s);
    hide Family, Run;
    if e.ActOnRefresh? {
      RotatesIff(s, e);
    }
  }

  /** So a token that has none when its time is up never gets one. */
  lemma {:induction false} ExpiredIsNeverRotated(past: seq<Event>, s: System, es: seq<Event>, u: System, id: Id)
    requires Run(EMPTY, past, s) && Run(s, es, u)
    requires id in s.store.refresh && s.store.refresh[id].replacedBy.None?
    requires forall e | e in es && e.ActOnRefresh? :: s.store.refresh[id].expiresAt < e.now
    ensures id in u.store.refresh && u.store.refresh[id].replacedBy.None?
    decreases |es|
  {
    hide Step, Enabled;
    if es != [] {
      var t := Step(s, es[0]);
      assert es[0] in es;
      RunReadsAgree(EMPTY, past, s);
      StepKeepsExpiry(s, es[0]);
      if t.store.refresh[id].replacedBy != s.store.refresh[id].replacedBy {
        SuccessorOnlyBeforeExpiry(past, s, es[0], id);
      }
      RunExtends(EMPTY, past, s, es[0]);
      ExpiredIsNeverRotated(past + [es[0]], t, es[1..], u, id);
    }
  }

  lemma {:induction false} RunExtends(s: System, es: seq<Event>, t: System, e: Event)
    requires Run(s, es, t) && Enabled(t, e)
    ensures Run(s, es + [e], Step(t, e))
    decreases |es|
  {
    hide Step, Enabled;
    if es == [] {
      assert [e][1..] == [];
    } else {
      RunExtends(Step(s, es[0]), es[1..], t, e);
      assert (es + [e])[1..] == es[1..] + [e];
    }
  }
}
