/** Refresh tokens: single-use rotation, revocation by user and by family
    (backend/internal/store/memory.go), the SQL form of the family walk
    (backend/internal/store/auth_pg.go) and the handlers that interleave over them
    (backend/internal/api/auth_session.go). */
module RefreshTokens {
  import opened Bytes

  type Id = string

  datatype Row = Row(user: string, expiresAt: int, revokedAt: Option<int>, replacedBy: Option<Id>)

  datatype Issue = Issue(user: string, hash: string, expiresAt: int)

  type Table = map<Id, Row>

  datatype Store = Store(refresh: Table, refreshHash: map<string, Id>)

  // ----- Chains of replacements -----

  /** A path along the replaced_by links, inside the table. */
  ghost predicate Chain(t: Table, p: seq<Id>) {
    && p != []
    && (forall i | 0 <= i < |p| :: p[i] in t)
    && (forall i | 0 <= i < |p| - 1 :: t[p[i]].replacedBy == Some(p[i + 1]))
  }

  ghost predicate Leads(t: Table, p: seq<Id>, from: Id, to: Id) {
    Chain(t, p) && p[0] == from && p[|p| - 1] == to
  }

  /** A token and everything issued in its place. */
  ghost function Family(t: Table, start: Id): set<Id> {
    set id | id in t && exists p :: Leads(t, p, start, id)
  }

  /** Every link climbs. */
  ghost predicate Ranked(t: Table, rank: map<Id, nat>) {
    && t.Keys <= rank.Keys
    && forall a, b | a in t && b in t && t[a].replacedBy == Some(b) :: rank[a] < rank[b]
  }

  ghost predicate Acyclic(t: Table) {
    exists rank :: Ranked(t, rank)
  }

  /** What every table built by create, rotate and revoke looks like. */
  ghost predicate WellLinked(t: Table) {
    && Acyclic(t)
    && (forall a | a in t && t[a].replacedBy.Some? :: t[a].replacedBy.value in t && t[a].revokedAt.Some?)
    && (forall a, b | a in t && b in t && t[a].replacedBy.Some? && t[a].replacedBy == t[b].replacedBy :: a == b)
  }

  // ----- What the operations do to the table -----

  function Insert(s: Store, id: Id, issue: Issue): Store {
    Store(s.refresh[id := Row(issue.user, issue.expiresAt, None, None)], s.refreshHash[issue.hash := id])
  }

  predicate Live(t: Table, id: Id) {
    id in t && t[id].revokedAt.None?
  }

  /** The parent is consumed by the child, if it is still live. */
  function Rotate(s: Store, parent: Id, id: Id, issue: Issue, now: int): Store {
    if !Live(s.refresh, parent) then s
    else
      var inserted := Insert(s, id, issue);
      inserted.(refresh := inserted.refresh[parent := s.refresh[parent].(revokedAt := Some(now), replacedBy := Some(id))])
  }

  function RevokeRow(r: Row, now: int): Row {
    if r.revokedAt.None? then r.(revokedAt := Some(now)) else r
  }

  function RevokeSet(t: Table, ids: set<Id>, now: int): Table {
    map id | id in t :: if id in ids then RevokeRow(t[id], now) else t[id]
  }

  function ByUser(t: Table, user: string): set<Id> {
    set id | id in t && t[id].user == user
  }

  class MemoryStore {
    var refresh: Table
    var refreshHash: map<string, Id>

    function View(): Store
      reads this
    {
      Store(refresh, refreshHash)
    }

    method CreateRefreshToken(issue: Issue, id: Id)
      requires id !in refresh
      modifies this
      ensures View() == Insert(old(View()), id, issue)
      ensures refresh == old(refresh)[id := Row(issue.user, issue.expiresAt, None, None)]
      ensures refreshHash == old(refreshHash)[issue.hash := id]
    {
      refresh := refresh[id := Row(issue.user, issue.expiresAt, None, None)];
      refreshHash := refreshHash[issue.hash := id];
    }

    method RotateRefreshToken(parentId: Id, issue: Issue, id: Id, now: int) returns (ok: bool)
      requires id !in refresh
      modifies this
      ensures ok == Live(old(refresh), parentId)
      ensures View() == Rotate(old(View()), parentId, id, issue, now)
      ensures ok <==> parentId in old(refresh) && old(refresh)[parentId].revokedAt.None?
      ensures !ok ==> refresh == old(refresh) && refreshHash == old(refreshHash)
      ensures ok ==> refreshHash == old(refreshHash)[issue.hash := id]
                     && refresh == old(refresh)[id := Row(issue.user, issue.expiresAt, None, None)]
                                               [parentId := old(refresh)[parentId].(revokedAt := Some(now),
                                                                                    replacedBy := Some(id))]
    {
      if parentId !in refresh || refresh[parentId].revokedAt.Some? {
        return false;
      }
      refresh := refresh[id := Row(issue.user, issue.expiresAt, None, None)];
      refreshHash := refreshHash[issue.hash := id];
      refresh := refresh[parentId := refresh[parentId].(revokedAt := Some(now), replacedBy := Some(id))];
      return true;
    }

    method GetRefreshTokenByHash(hash: string) returns (r: Option<(Id, Row)>)
      requires forall h | h in refreshHash :: refreshHash[h] in refresh
      ensures r == if hash in refreshHash then Some((refreshHash[hash], refresh[refreshHash[hash]])) else None
    {
      if hash !in refreshHash {
        return None;
      }
      var id := refreshHash[hash];
      return Some((id, refresh[id]));
    }

    method RevokeRefreshTokensByUser(user: string, now: int)
      modifies this`refresh
      ensures refresh == RevokeSet(old(refresh), ByUser(old(refresh), user), now)
      ensures refresh.Keys == old(refresh).Keys
      ensures forall id | id in refresh ::
                if old(refresh)[id].user == user && old(refresh)[id].revokedAt.None?
                then refresh[id] == old(refresh)[id].(revokedAt := Some(now))
                else refresh[id] == old(refresh)[id]
    {
      var pending := refresh.Keys;
      while pending != {}
        invariant pending <= refresh.Keys
        invariant refresh == RevokeSet(old(refresh), ByUser(old(refresh), user) - pending, now)
        decreases pending
      {
        var id :| id in pending;
        if refresh[id].user == user && refresh[id].revokedAt.None? {
          refresh := refresh[id := refresh[id].(revokedAt := Some(now))];
        }
        pending := pending - {id};
      }
    }

    /** The walk is an unbounded loop in the source. It ends because the links are acyclic, and what
        it has revoked by then is the whole family. */
    method RevokeRefreshTokenFamily(startId: Id, now: int)
      requires WellLinked(refresh)
      modifies this`refresh
      ensures refresh == RevokeSet(old(refresh), Family(old(refresh), startId), now)
    {
      ghost var rank :| Ranked(refresh, rank);
      ghost var t, path: seq<Id> := refresh, [];
      hide Family;
      hide Leads;
      hide Ranked;
      hide RevokeSet;
      var id := startId;
      NothingRevoked(t, now);
      while true
        invariant Reached(t, path, startId, id)
        invariant refresh == RevokeSet(t, Elements(path), now)
        decreases t.Keys - Elements(path)
      {
        RevokeKeeps(t, Elements(path), now);
        if id !in refresh {
          FamilyIsPath(t, startId, path);
          return;
        }
        NewOnPath(t, rank, path, startId, id);
        RevokeOne(t, Elements(path), id, now);
        path := path + [id];
        if refresh[id].revokedAt.None? {
          refresh := refresh[id := refresh[id].(revokedAt := Some(now))];
        }
        if refresh[id].replacedBy.None? {
          FamilyIsPath(t, startId, path);
          return;
        }
        id := refresh[id].replacedBy.value;
      }
    }
  }

  /** Row by row: a live row of the family is stamped, and every other row stays as it was. */
  lemma RevokedFamilyRows(t: Table, start: Id, now: int, id: Id)
    requires id in t
    ensures var r := RevokeSet(t, Family(t, start), now);
            r.Keys == t.Keys
            && r[id] == if t[id].revokedAt.None? && exists p :: Leads(t, p, start, id)
                        then t[id].(revokedAt := Some(now)) else t[id]
  {
    hide Leads;
  }

  ghost function Elements(p: seq<Id>): set<Id> {
    set x | x in p
  }

  lemma NothingRevoked(t: Table, now: int)
    ensures RevokeSet(t, Elements([]), now) == t
  {
  }

  lemma RevokeKeeps(t: Table, ids: set<Id>, now: int)
    ensures var u := RevokeSet(t, ids, now);
            u.Keys == t.Keys && forall id | id in t :: u[id].replacedBy == t[id].replacedBy
  {
  }

  lemma RevokeOne(t: Table, ids: set<Id>, id: Id, now: int)
    requires id in t && id !in ids
    ensures RevokeSet(t, ids + {id}, now) == RevokeSet(t, ids, now)[id := RevokeRow(t[id], now)]
    ensures RevokeSet(t, ids, now)[id] == t[id]
  {
  }

  /** The walk from `start` has followed `path` and stands at `id`, not yet looked up. */
  ghost predicate Reached(t: Table, path: seq<Id>, start: Id, id: Id) {
    if path == [] then id == start
    else Leads(t, path, start, path[|path| - 1]) && t[path[|path| - 1]].replacedBy == Some(id)
  }

  // ----- The walk visits exactly the family -----

  lemma {:induction false} RanksGrow(t: Table, rank: map<Id, nat>, p: seq<Id>, i: nat, j: nat)
    requires Ranked(t, rank) && Chain(t, p) && i < j < |p|
    ensures rank[p[i]] < rank[p[j]]
  {
    assert rank[p[j - 1]] < rank[p[j]];
    if i < j - 1 {
      RanksGrow(t, rank, p, i, j - 1);
    }
  }

  /** The next token is new, because ranks grow along the path. */
  lemma NewOnPath(t: Table, rank: map<Id, nat>, path: seq<Id>, start: Id, id: Id)
    requires Ranked(t, rank) && Reached(t, path, start, id) && id in t
    ensures id !in path && Leads(t, path + [id], start, id)
    ensures Elements(path + [id]) == Elements(path) + {id}
  {
    var longer := path + [id];
    assert Chain(t, longer);
    forall i | 0 <= i < |path|
      ensures path[i] != id
    {
      RanksGrow(t, rank, longer, i, |path|);
    }
  }

  lemma {:induction false} ChainsAgree(t: Table, p: seq<Id>, q: seq<Id>, i: nat)
    requires Chain(t, p) && Chain(t, q) && p[0] == q[0] && i < |p| && i < |q|
    ensures p[i] == q[i]
  {
    if i > 0 {
      ChainsAgree(t, p, q, i - 1);
      assert t[p[i - 1]].replacedBy == Some(p[i]) && t[q[i - 1]].replacedBy == Some(q[i]);
    }
  }

  lemma Link(t: Table, p: seq<Id>, i: nat)
    requires Chain(t, p) && i + 1 < |p|
    ensures t[p[i]].replacedBy == Some(p[i + 1]) && p[i + 1] in t
  {
  }

  ghost predicate Exhausted(t: Table, path: seq<Id>) {
    path != [] ==> path[|path| - 1] in t
                   && (t[path[|path| - 1]].replacedBy.Some? ==> t[path[|path| - 1]].replacedBy.value !in t)
  }

  lemma NoLongerChain(t: Table, p: seq<Id>, path: seq<Id>)
    requires Chain(t, p) && Chain(t, path) && p[0] == path[0] && Exhausted(t, path)
    ensures |p| <= |path|
  {
    if |path| < |p| {
      Link(t, p, |path| - 1);
      ChainsAgree(t, p, path, |path| - 1);
    }
  }

  /** A path that cannot be extended inside the table holds the whole family of its start. */
  lemma FamilyIsPath(t: Table, start: Id, path: seq<Id>)
    requires path == [] ==> start !in t
    requires path != [] ==> Leads(t, path, start, path[|path| - 1])
    requires Exhausted(t, path)
    ensures Family(t, start) == Elements(path)
  {
    forall id | id in Family(t, start)
      ensures id in path
    {
      var p :| Leads(t, p, start, id);
      assert path != [];
      NoLongerChain(t, p, path);
      ChainsAgree(t, p, path, |p| - 1);
    }
    forall id | id in path
      ensures id in Family(t, start)
    {
      var i :| 0 <= i < |path| && path[i] == id;
      assert Leads(t, path[..i + 1], start, id);
    }
  }

  // ----- The recursive query computes the same set -----

  /** The working table of the recursive query after n rounds. */
  ghost function Working(t: Table, start: Id, n: nat): set<Id> {
    if n == 0 then if start in t then {start} else {}
    else set id | id in t && exists c | c in Working(t, start, n - 1) :: t[c].replacedBy == Some(id)
  }

  /** All rows the query collects. */
  ghost function CteChain(t: Table, start: Id): set<Id> {
    set id | id in t && exists n: nat :: id in Working(t, start, n)
  }

  lemma {:induction false} WorkingIsDepth(t: Table, start: Id, n: nat, id: Id)
    ensures id in Working(t, start, n) <==> exists p :: Leads(t, p, start, id) && |p| == n + 1
  {
    if n == 0 {
      if id in Working(t, start, 0) {
        assert Leads(t, [id], start, id);
      }
    } else {
      if id in Working(t, start, n) {
        var c :| c in Working(t, start, n - 1) && t[c].replacedBy == Some(id);
        WorkingIsDepth(t, start, n - 1, c);
        var p :| Leads(t, p, start, c) && |p| == n;
        assert Leads(t, p + [id], start, id);
      }
      if p :| Leads(t, p, start, id) && |p| == n + 1 {
        var c := p[n - 1];
        assert Leads(t, p[..n], start, c);
        WorkingIsDepth(t, start, n - 1, c);
        Link(t, p, n - 1);
      }
    }
  }

  lemma {:induction false} ChainSize(t: Table, rank: map<Id, nat>, p: seq<Id>)
    requires Ranked(t, rank) && Chain(t, p)
    ensures |Elements(p)| == |p| <= |t.Keys|
  {
    var n := |p| - 1;
    var q := p[..n];
    if n == 0 {
      assert Elements(p) == {p[0]};
    } else {
      ChainSize(t, rank, q);
      forall i | 0 <= i < n
        ensures p[i] != p[n]
      {
        RanksGrow(t, rank, p, i, n);
      }
      assert p == q + [p[n]];
      assert Elements(p) == Elements(q) + {p[n]} && p[n] !in Elements(q);
    }
    Subset(Elements(p), t.Keys);
  }

  lemma Subset(a: set<Id>, b: set<Id>)
    requires a <= b
    ensures |a| <= |b|
  {
    assert b == a + (b - a);
  }

  /** The query terminates, and the rows it updates are the ones the loop walks over. */
  lemma CteComputesFamily(t: Table, start: Id)
    requires WellLinked(t)
    ensures Working(t, start, |t.Keys|) == {}
    ensures CteChain(t, start) == Family(t, start)
  {
    var rank :| Ranked(t, rank);
    forall id | id in Working(t, start, |t.Keys|)
      ensures false
    {
      WorkingIsDepth(t, start, |t.Keys|, id);
      var p :| Leads(t, p, start, id) && |p| == |t.Keys| + 1;
      ChainSize(t, rank, p);
    }
    forall id | id in CteChain(t, start)
      ensures id in Family(t, start)
    {
      var n: nat :| id in Working(t, start, n);
      WorkingIsDepth(t, start, n, id);
    }
    forall id | id in Family(t, start)
      ensures id in CteChain(t, start)
    {
      var p :| Leads(t, p, start, id);
      WorkingIsDepth(t, start, |p| - 1, id);
    }
  }

  // ----- Every operation keeps the links in order -----

  lemma InsertKeepsLinks(s: Store, id: Id, issue: Issue)
    requires WellLinked(s.refresh) && id !in s.refresh
    ensures WellLinked(Insert(s, id, issue).refresh)
  {
    var rank :| Ranked(s.refresh, rank);
    assert Ranked(Insert(s, id, issue).refresh, rank[id := 0]);
  }

  lemma RotateKeepsLinks(s: Store, parent: Id, id: Id, issue: Issue, now: int)
    requires WellLinked(s.refresh) && id !in s.refresh
    ensures WellLinked(Rotate(s, parent, id, issue, now).refresh)
  {
    if Live(s.refresh, parent) {
      var rank :| Ranked(s.refresh, rank);
      assert Ranked(Rotate(s, parent, id, issue, now).refresh, rank[id := rank[parent] + 1]);
    }
  }

  lemma RevokeKeepsLinks(t: Table, ids: set<Id>, now: int)
    requires WellLinked(t)
    ensures WellLinked(RevokeSet(t, ids, now))
  {
    var rank :| Ranked(t, rank);
    assert Ranked(RevokeSet(t, ids, now), rank);
  }

  // ----- A dead family stays dead -----

  /** How a table may change: tokens are kept, owners never change, and a consumed or revoked token
      never becomes live or gains or loses its successor. */
  ghost predicate Evolves(t: Table, u: Table) {
    forall a | a in t ::
      && a in u && u[a].user == t[a].user
      && (t[a].revokedAt.Some? ==> u[a].revokedAt == t[a].revokedAt && u[a].replacedBy == t[a].replacedBy)
  }

  ghost predicate Dead(t: Table, start: Id) {
    start in t && forall id | id in Family(t, start) :: !Live(t, id)
  }

  lemma {:induction false} ChainBack(t: Table, u: Table, start: Id, p: seq<Id>, n: nat)
    requires WellLinked(t) && Evolves(t, u) && Dead(t, start)
    requires Chain(u, p) && p[0] == start && n < |p|
    ensures Leads(t, p[..n + 1], start, p[n])
  {
    if n == 0 {
      assert p[..1] == [start];
    } else {
      ChainBack(t, u, start, p, n - 1);
      assert p[n - 1] in Family(t, start);
      assert t[p[n - 1]].replacedBy == u[p[n - 1]].replacedBy == Some(p[n]);
      assert p[..n + 1] == p[..n] + [p[n]];
    }
  }

  /** Nothing can be added to a family without a live token, so it stays the same and dead. */
  lemma DeadFamilyIsFrozen(t: Table, u: Table, start: Id)
    requires WellLinked(t) && Evolves(t, u) && Dead(t, start)
    ensures Family(u, start) == Family(t, start) && Dead(u, start)
  {
    forall id | id in Family(u, start)
      ensures id in Family(t, start)
    {
      var p :| Leads(u, p, start, id);
      ChainBack(t, u, start, p, |p| - 1);
      assert p[..|p|] == p;
    }
    forall id | id in Family(t, start)
      ensures id in Family(u, start)
    {
      var p :| Leads(t, p, start, id);
      assert Leads(u, p, start, id);
    }
  }

  lemma RevokingKeepsFamilies(t: Table, ids: set<Id>, now: int, start: Id)
    ensures Family(RevokeSet(t, ids, now), start) == Family(t, start)
  {
    var u := RevokeSet(t, ids, now);
    forall p
      ensures Chain(t, p) <==> Chain(u, p)
    {
    }
    forall id
      ensures id in Family(t, start) <==> id in Family(u, start)
    {
      if p :| Leads(t, p, start, id) {
        assert Leads(u, p, start, id);
      }
      if p :| Leads(u, p, start, id) {
        assert Leads(t, p, start, id);
      }
    }
  }

  lemma RevokedFamilyIsDead(t: Table, start: Id, now: int)
    requires WellLinked(t) && start in t
    ensures var u := RevokeSet(t, Family(t, start), now);
            Evolves(t, u) && Family(u, start) == Family(t, start) && Dead(u, start)
  {
    RevokingKeepsFamilies(t, Family(t, start), now, start);
  }

  // ----- Revoking the family a snapshot showed -----

  /** Every token's chain ends in a token that has not been replaced. */
  lemma {:induction false} ChainHasTail(t: Table, rank: map<Id, nat>, path: seq<Id>) returns (longer: seq<Id>)
    requires WellLinked(t) && Ranked(t, rank) && Chain(t, path)
    ensures Chain(t, longer) && longer[0] == path[0] && t[longer[|longer| - 1]].replacedBy.None?
    decreases |t.Keys| - |path|
  {
    ChainSize(t, rank, path);
    var last := path[|path| - 1];
    if t[last].replacedBy.None? {
      longer := path;
    } else {
      var next := t[last].replacedBy.value;
      ChainSize(t, rank, path + [next]);
      longer := ChainHasTail(t, rank, path + [next]);
    }
  }

  lemma FamilyHasTail(t: Table, start: Id) returns (path: seq<Id>)
    requires WellLinked(t) && start in t
    ensures path != [] && Leads(t, path, start, path[|path| - 1]) && t[path[|path| - 1]].replacedBy.None?
  {
    var rank :| Ranked(t, rank);
    path := ChainHasTail(t, rank, [start]);
  }

  /** Links are never taken back, so a chain of the snapshot is still a chain later. */
  lemma ChainStays(t: Table, u: Table, path: seq<Id>)
    requires WellLinked(t) && Evolves(t, u) && Chain(t, path)
    ensures Chain(u, path)
  {
    forall i | 0 <= i < |path| - 1
      ensures u[path[i]].replacedBy == Some(path[i + 1])
    {
      Link(t, path, i);
    }
  }

  /** Past `path` the family goes on with what its last token was replaced by. */
  lemma FamilyGoesOn(u: Table, start: Id, path: seq<Id>, next: Id)
    requires path != [] && Leads(u, path, start, path[|path| - 1])
    requires u[path[|path| - 1]].replacedBy == Some(next) && next in u
    ensures Family(u, start) == Elements(path) + Family(u, next)
  {
    var n := |path|;
    forall id | id in Family(u, start)
      ensures id in Elements(path) + Family(u, next)
    {
      var p :| Leads(u, p, start, id);
      if |p| <= n {
        ChainsAgree(u, p, path, |p| - 1);
      } else {
        ChainsAgree(u, p, path, n - 1);
        Link(u, p, n - 1);
        assert Leads(u, p[n..], next, id);
      }
    }
    forall id | id in Elements(path) + Family(u, next)
      ensures id in Family(u, start)
    {
      if id in path {
        var i :| 0 <= i < n && path[i] == id;
        assert Leads(u, path[..i + 1], start, id);
      } else {
        var p :| Leads(u, p, next, id);
        var q := path + p;
        forall i | 0 <= i < |q| - 1
          ensures u[q[i]].replacedBy == Some(q[i + 1])
        {
          if i < n - 1 {
            Link(u, path, i);
          } else if i >= n {
            Link(u, p, i - n);
          }
        }
        assert Leads(u, q, start, id);
      }
    }
  }

  /** The query collects the chain from the snapshot its statement starts with, and updates the rows
      as they are by then. That leaves the family dead exactly when the token that ended the chain in
      the snapshot was not rotated in between, or all that was issued in its place is dead already. */
  lemma SnapshotRevocationIff(t: Table, u: Table, start: Id, path: seq<Id>, now: int)
    requires WellLinked(t) && WellLinked(u) && Evolves(t, u)
    requires path != [] && Leads(t, path, start, path[|path| - 1]) && t[path[|path| - 1]].replacedBy.None?
    ensures var tail := path[|path| - 1];
            Dead(RevokeSet(u, CteChain(t, start), now), start)
            <==> u[tail].replacedBy.None? || Dead(u, u[tail].replacedBy.value)
  {
    var chain, tail := CteChain(t, start), path[|path| - 1];
    CteComputesFamily(t, start);
    FamilyIsPath(t, start, path);
    ChainStays(t, u, path);
    RevokingKeepsFamilies(u, chain, now, start);
    hide CteChain;
    if u[tail].replacedBy.None? {
      FamilyIsPath(u, start, path);
      hide Family;
    } else {
      FamilyGoesOn(u, start, path, u[tail].replacedBy.value);
      hide Family;
      forall id | id in path
        ensures u[id].revokedAt.Some?
      {
        var i :| 0 <= i < |path| && path[i] == id;
        if i < |path| - 1 {
          Link(u, path, i);
        }
      }
      FamilyIsStored(u, u[tail].replacedBy.value);
    }
  }

  lemma FamilyIsStored(t: Table, start: Id)
    ensures Family(t, start) <= t.Keys
  {
  }

  /** A rotation that commits in between is what breaks it: the new child is live and in the family. */
  lemma RotationOutrunsSnapshot(s: Store, start: Id, parent: Id, id: Id, issue: Issue, now: int, later: int)
    requires WellLinked(s.refresh) && id !in s.refresh
    requires parent in Family(s.refresh, start) && Live(s.refresh, parent)
    ensures var u := RevokeSet(Rotate(s, parent, id, issue, now).refresh, CteChain(s.refresh, start), later);
            id in Family(u, start) && Live(u, id)
  {
    var t, r := s.refresh, Rotate(s, parent, id, issue, now).refresh;
    CteComputesFamily(t, start);
    var p :| Leads(t, p, start, parent);
    assert Chain(r, p + [id]) by {
      forall i | 0 <= i < |p| - 1
        ensures r[p[i]].replacedBy == Some(p[i + 1])
      {
        assert t[p[i]].replacedBy == Some(p[i + 1]);
      }
    }
    assert Leads(r, p + [id], start, id);
    RevokingKeepsFamilies(r, CteChain(t, start), later, start);
  }
}
