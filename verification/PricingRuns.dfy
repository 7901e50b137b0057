/** Every run of the pricing tables: admins create and cancel changes, the clock advances, and any
    number of workers list the due rows and then apply them one transaction at a time, crashing
    anywhere. After every run the live value of a plan column or route is the `newValue` of the
    applied change that is latest in (effectiveAt, id). */
module PricingRuns {
  import opened Bytes
  import opened Pricing

  /** What is still to be applied of the list each worker read. */
  datatype System = System(db: Db, now: int, workers: map<nat, seq<Item>>)

  datatype Event =
    | Create(c: Draft, asOf: int)
    | Cancel(id: nat)
    | Tick(now: int)
    | List(w: nat, q: seq<Item>)
    | ApplyNext(w: nat)
    | Crash(w: nat)
    | Lose(w: nat)

  /** `asOf` is the clock reading the notice period was checked against; the row may be committed
      any time less than thirty days later. `Lose` is a transaction that fails for a reason of its
      own, such as a dropped connection: nothing is written and the worker moves on. */
  ghost predicate Enabled(s: System, e: Event) {
    match e
    case Create(c, asOf) => Refusal(c, asOf).None? && asOf <= s.now < asOf + MIN_NOTICE
    case Cancel(_) => true
    case Tick(now) => s.now <= now
    case List(_, q) => IsDueList(s.db, s.now, q)
    case ApplyNext(w) => w in s.workers && s.workers[w] != []
    case Crash(w) => w in s.workers
    case Lose(w) => w in s.workers && s.workers[w] != []
  }

  ghost function Step(s: System, e: Event): System
    requires Enabled(s, e)
  {
    match e
    case Create(c, _) => s.(db := Inserted(s.db, c))
    case Cancel(id) => s.(db := Cancelled(s.db, id, s.now))
    case Tick(now) => s.(now := now)
    case List(w, q) => s.(workers := s.workers[w := q])
    case ApplyNext(w) =>
      s.(db := ApplyOne(s.db, s.workers[w][0], s.now).0, workers := s.workers[w := s.workers[w][1..]])
    case Crash(w) => s.(workers := s.workers - {w})
    case Lose(w) => s.(workers := s.workers[w := s.workers[w][1..]])
  }

  ghost predicate IsRun(s: System, es: seq<Event>)
    decreases |es|
  {
    es != [] ==> Enabled(s, es[0]) && IsRun(Step(s, es[0]), es[1..])
  }

  ghost function Run(s: System, es: seq<Event>): System
    requires IsRun(s, es)
    decreases |es|
  {
    if es == [] then s else Run(Step(s, es[0]), es[1..])
  }

  // ----- What holds in every state -----

  predicate IsApplied(db: Db, id: nat) {
    id in db.rows && db.rows[id].appliedAt.Some?
  }

  predicate Ready(db: Db, id: nat) {
    id in db.rows && IsPending(db.rows[id]) && Appliable(db.rows[id].key, db.rows[id].newValue, db.plans)
  }

  predicate SameKey(db: Db, a: nat, b: nat)
    requires a in db.rows && b in db.rows
  {
    db.rows[a].key == db.rows[b].key
  }

  /** The applied change of its key with the greatest (effectiveAt, id). */
  ghost predicate Latest(db: Db, a: nat) {
    IsApplied(db, a)
    && forall b | IsApplied(db, b) && SameKey(db, a, b) && b != a :: Before(db, b, a)
  }

  ghost predicate LiveIsLatest(db: Db) {
    forall a | Latest(db, a) :: db.rows[a].key in db.live && db.live[db.rows[a].key] == db.rows[a].newValue
  }

  function Value(live: map<Key, int>, key: Key): Option<int> {
    if key in live then Some(live[key]) else None
  }

  /** A value no applied change is about is still what it was at the start. */
  ghost predicate LiveUntouched(db: Db, initial: map<Key, int>) {
    forall key: Key ::
      (exists a :: IsApplied(db, a) && db.rows[a].key == key)
      || Value(db.live, key) == Value(initial, key)
  }

  ghost predicate OneTerminal(db: Db) {
    forall id | id in db.rows :: db.rows[id].appliedAt.None? || db.rows[id].cancelledAt.None?
  }

  ghost predicate AppliedWereDue(db: Db, now: int) {
    && (forall id | id in db.rows :: id < db.nextId)
    && (forall id | IsApplied(db, id) :: db.rows[id].effectiveAt <= now)
  }

  /** No change that can still be applied is earlier than an applied change of the same key. */
  ghost predicate NoneOvertaken(db: Db) {
    forall p, a | Ready(db, p) && IsApplied(db, a) && SameKey(db, p, a) :: Before(db, a, p)
  }

  /** The same for a worker's list: whatever could still be applied before an item of it, and is of
      the item's key, is ahead of the item in the list. */
  ghost predicate ListInOrder(db: Db, q: seq<Item>, now: int) {
    && (forall k | 0 <= k < |q| :: Matches(db, q[k]) && db.rows[q[k].id].effectiveAt <= now)
    && (forall p, k | 0 <= k < |q| && Ready(db, p) && db.rows[p].key == q[k].key && Before(db, p, q[k].id) ::
          Listed(q[..k], p))
  }

  ghost predicate ListsInOrder(s: System) {
    forall w | w in s.workers :: ListInOrder(s.db, s.workers[w], s.now)
  }

  ghost predicate Inv(s: System, initial: map<Key, int>) {
    && OneTerminal(s.db) && AppliedWereDue(s.db, s.now) && NoneOvertaken(s.db) && ListsInOrder(s)
    && LiveIsLatest(s.db) && LiveUntouched(s.db, initial)
  }

  // ----- One step -----

  predicate SameChange(r: Row, t: Row) {
    r.key == t.key && r.newValue == t.newValue && r.effectiveAt == t.effectiveAt
  }

  /** `t` has every change `db` has, and what became ready in between is not due yet. */
  ghost predicate Extends(db: Db, t: Db, now: int) {
    && t.plans == db.plans
    && (forall id | id in db.rows :: id in t.rows && SameChange(db.rows[id], t.rows[id]))
    && (forall p | Ready(t, p) :: Ready(db, p) || now < t.rows[p].effectiveAt)
  }

  lemma ListStays(db: Db, t: Db, q: seq<Item>, now: int)
    requires ListInOrder(db, q, now) && Extends(db, t, now)
    ensures ListInOrder(t, q, now)
  {
    hide Appliable, IsPending;
    forall p, k | 0 <= k < |q| && Ready(t, p) && t.rows[p].key == q[k].key && Before(t, p, q[k].id)
      ensures Listed(q[..k], p)
    {
      assert Ready(db, p);
    }
  }

  lemma ListsStay(s: System, t: System)
    requires ListsInOrder(s) && Extends(s.db, t.db, s.now) && t.workers == s.workers && t.now == s.now
    ensures ListsInOrder(t)
  {
    hide ListInOrder, Extends;
    forall w | w in t.workers
      ensures ListInOrder(t.db, t.workers[w], t.now)
    {
      assert ListInOrder(s.db, s.workers[w], s.now);
      ListStays(s.db, t.db, s.workers[w], s.now);
    }
  }

  ghost predicate SameApplied(db: Db, t: Db) {
    t.live == db.live && forall a :: IsApplied(t, a) <==> IsApplied(db, a)
  }

  lemma OrderStays(db: Db, t: Db, now: int)
    requires NoneOvertaken(db) && AppliedWereDue(db, now) && Extends(db, t, now) && SameApplied(db, t)
    ensures NoneOvertaken(t)
  {
    hide Appliable, IsPending;
    forall p, a | Ready(t, p) && IsApplied(t, a) && SameKey(t, p, a)
      ensures Before(t, a, p)
    {
      assert IsApplied(db, a);
      if Ready(db, p) {
        assert SameKey(db, p, a);
      }
    }
  }

  lemma LiveStays(db: Db, t: Db, now: int, initial: map<Key, int>)
    requires LiveIsLatest(db) && LiveUntouched(db, initial) && Extends(db, t, now) && SameApplied(db, t)
    ensures LiveIsLatest(t) && LiveUntouched(t, initial)
  {
    hide Appliable, IsPending;
    forall a | Latest(t, a)
      ensures Latest(db, a)
    {
      forall b | IsApplied(db, b) && SameKey(db, a, b) && b != a
        ensures Before(db, b, a)
      {
        assert IsApplied(t, b) && SameKey(t, a, b);
      }
    }
    forall key: Key | !exists a :: IsApplied(t, a) && t.rows[a].key == key
      ensures Value(t.live, key) == Value(initial, key)
    {
      assert !exists a :: IsApplied(db, a) && db.rows[a].key == key;
    }
  }

  lemma CreateKeepsInv(s: System, c: Draft, asOf: int, initial: map<Key, int>)
    requires Inv(s, initial) && Enabled(s, Create(c, asOf))
    ensures Inv(Step(s, Create(c, asOf)), initial)
  {
    hide LiveIsLatest, LiveUntouched, ListsInOrder, NoneOvertaken;
    var t := Step(s, Create(c, asOf));
    assert s.db.nextId !in s.db.rows;
    assert Extends(s.db, t.db, s.now) && SameApplied(s.db, t.db);
    ListsStay(s, t);
    OrderStays(s.db, t.db, s.now);
    LiveStays(s.db, t.db, s.now, initial);
  }

  lemma CancelKeepsInv(s: System, id: nat, initial: map<Key, int>)
    requires Inv(s, initial)
    ensures Inv(Step(s, Cancel(id)), initial)
  {
    hide LiveIsLatest, LiveUntouched, ListsInOrder, NoneOvertaken;
    var t := Step(s, Cancel(id));
    assert Extends(s.db, t.db, s.now) && SameApplied(s.db, t.db);
    ListsStay(s, t);
    OrderStays(s.db, t.db, s.now);
    LiveStays(s.db, t.db, s.now, initial);
  }

  lemma DueListInOrder(db: Db, q: seq<Item>, now: int)
    requires IsDueList(db, now, q)
    ensures ListInOrder(db, q, now)
  {
    forall p, k | 0 <= k < |q| && Ready(db, p) && db.rows[p].key == q[k].key && Before(db, p, q[k].id)
      ensures Listed(q[..k], p)
    {
      assert IsDue(db, p, now);
      var j :| 0 <= j < |q| && q[j].id == p;
      assert j < k;
      assert q[..k][j].id == p;
    }
  }

  lemma ApplyExtends(db: Db, item: Item, now: int)
    ensures Extends(db, ApplyOne(db, item, now).0, now)
  {
  }

  /** Once applied, the head of a list is behind nothing in the rest of it. */
  lemma PopKeepsOrder(db: Db, q: seq<Item>, now: int)
    requires q != [] && ListInOrder(db, q, now) && !Ready(db, q[0].id)
    ensures ListInOrder(db, q[1..], now)
  {
    var rest := q[1..];
    forall p, k | 0 <= k < |rest| && Ready(db, p) && db.rows[p].key == rest[k].key && Before(db, p, rest[k].id)
      ensures Listed(rest[..k], p)
    {
      assert q[k + 1] == rest[k];
      assert Listed(q[..k + 1], p);
      var j :| 0 <= j < |q[..k + 1]| && q[..k + 1][j].id == p;
      assert rest[..k][j - 1].id == p;
    }
  }

  /** The head of a list in order is applied after every applied change of its key. */
  lemma HeadIsLatest(db: Db, q: seq<Item>, now: int)
    requires q != [] && ListInOrder(db, q, now) && NoneOvertaken(db)
    ensures var (after, r) := ApplyOne(db, q[0], now); r.Ok? ==> NoneOvertaken(after) && Latest(after, q[0].id)
  {
    var h := q[0].id;
    var (after, r) := ApplyOne(db, q[0], now);
    if r.Ok? {
      assert Ready(db, h) && IsApplied(after, h);
      forall p, a | Ready(after, p) && IsApplied(after, a) && SameKey(after, p, a)
        ensures Before(after, a, p)
      {
        assert Ready(db, p) && p != h;
        if a == h {
          assert !Listed(q[..0], p);
          assert !Before(db, p, h);
        } else {
          assert IsApplied(db, a) && SameKey(db, p, a);
        }
      }
      forall b | IsApplied(after, b) && SameKey(after, h, b) && b != h
        ensures Before(after, b, h)
      {
        assert IsApplied(db, b) && SameKey(db, h, b);
      }
    }
  }

  /** Of the other keys, applying a change leaves the applied changes and the live value alone. */
  lemma ApplyIsLocal(db: Db, item: Item, now: int, a: nat)
    requires Matches(db, item) && ApplyOne(db, item, now).1.Ok?
    requires var after := ApplyOne(db, item, now).0; Latest(after, a) && after.rows[a].key != item.key
    ensures Latest(db, a) && db.rows[a].key == ApplyOne(db, item, now).0.rows[a].key
  {
    var after := ApplyOne(db, item, now).0;
    forall b | IsApplied(db, b) && SameKey(db, a, b) && b != a
      ensures Before(db, b, a)
    {
      assert IsApplied(after, b) && SameKey(after, a, b);
    }
  }

  lemma LatestIsUnique(db: Db, a: nat, b: nat)
    requires Latest(db, a) && Latest(db, b) && SameKey(db, a, b)
    ensures a == b
  {
  }

  lemma ApplyKeepsLive(db: Db, item: Item, now: int)
    requires Matches(db, item) && LiveIsLatest(db)
    requires var (after, r) := ApplyOne(db, item, now); r.Ok? ==> Latest(after, item.id)
    ensures LiveIsLatest(ApplyOne(db, item, now).0)
  {
    var (after, r) := ApplyOne(db, item, now);
    if r.Ok? {
      forall a | Latest(after, a)
        ensures after.rows[a].key in after.live && after.live[after.rows[a].key] == after.rows[a].newValue
      {
        if after.rows[a].key == item.key {
          LatestIsUnique(after, a, item.id);
        } else {
          ApplyIsLocal(db, item, now, a);
        }
      }
    }
  }

  lemma ApplyKeepsUntouched(db: Db, item: Item, now: int, initial: map<Key, int>)
    requires Matches(db, item) && LiveUntouched(db, initial)
    ensures LiveUntouched(ApplyOne(db, item, now).0, initial)
  {
    var (after, r) := ApplyOne(db, item, now);
    forall key: Key | !exists a :: IsApplied(after, a) && after.rows[a].key == key
      ensures Value(after.live, key) == Value(initial, key)
    {
      if r.Ok? {
        assert IsApplied(after, item.id);
      }
      forall a | IsApplied(db, a)
        ensures db.rows[a].key != key
      {
        assert IsApplied(after, a);
      }
    }
  }

  lemma ApplyKeepsInv(s: System, w: nat, initial: map<Key, int>)
    requires Inv(s, initial) && Enabled(s, ApplyNext(w))
    ensures Inv(Step(s, ApplyNext(w)), initial)
  {
    hide Latest, LiveIsLatest, LiveUntouched;
    var q := s.workers[w];
    var t := Step(s, ApplyNext(w));
    assert ListInOrder(s.db, q, s.now);
    HeadIsLatest(s.db, q, s.now);
    ApplyKeepsLive(s.db, q[0], s.now);
    ApplyKeepsUntouched(s.db, q[0], s.now, initial);
    ApplyExtends(s.db, q[0], s.now);
    forall w' | w' in t.workers
      ensures ListInOrder(t.db, t.workers[w'], t.now)
    {
      ListStays(s.db, t.db, s.workers[w'], s.now);
      if w' == w {
        PopKeepsOrder(t.db, q, t.now);
      }
    }
  }

  lemma StepKeepsInv(s: System, e: Event, initial: map<Key, int>)
    requires Inv(s, initial) && Enabled(s, e) && !e.Lose?
    ensures Inv(Step(s, e), initial)
  {
    match e
    case Create(c, asOf) => CreateKeepsInv(s, c, asOf, initial);
    case Cancel(id) => CancelKeepsInv(s, id, initial);
    case Tick(now) =>
      assert forall w | w in s.workers :: ListInOrder(s.db, s.workers[w], s.now);
    case List(w, q) => DueListInOrder(s.db, q, s.now);
    case ApplyNext(w) => ApplyKeepsInv(s, w, initial);
    case Crash(w) =>
  }

  // ----- Every run -----

  /** No pricing change has been recorded yet; plans and live values are whatever they are. */
  predicate Fresh(s: System) {
    s.db.rows == map[] && s.workers == map[]
  }

  lemma {:induction false} RunKeepsInv(s: System, es: seq<Event>, initial: map<Key, int>)
    requires Inv(s, initial) && IsRun(s, es) && forall e | e in es :: !e.Lose?
    ensures Inv(Run(s, es), initial)
    decreases |es|
  {
    if es != [] {
      assert es[0] in es;
      StepKeepsInv(s, es[0], initial);
      RunKeepsInv(Step(s, es[0]), es[1..], initial);
    }
  }

  /** The main result. */
  lemma LiveValuesFollowTheSchedule(s: System, es: seq<Event>)
    requires Fresh(s) && IsRun(s, es) && forall e | e in es :: !e.Lose?
    ensures LiveIsLatest(Run(s, es).db) && LiveUntouched(Run(s, es).db, s.db.live)
    ensures OneTerminal(Run(s, es).db)
    ensures forall id | IsApplied(Run(s, es).db, id) :: Run(s, es).db.rows[id].effectiveAt <= Run(s, es).now
  {
    RunKeepsInv(s, es, s.db.live);
  }

  lemma {:induction false} Topmost(db: Db, ids: set<nat>) returns (top: nat)
    requires ids != {} && ids <= db.rows.Keys
    ensures top in ids && forall b | b in ids && b != top :: Before(db, b, top)
    decreases ids
  {
    top :| top in ids;
    if ids != {top} {
      var rest := Topmost(db, ids - {top});
      var other := top;
      if Before(db, top, rest) {
        top := rest;
      }
      forall b | b in ids && b != top
        ensures Before(db, b, top)
      {
        assert b == other || b == rest || Before(db, b, rest);
      }
    }
  }

  /** A key with an applied change has a latest one, so LiveIsLatest fixes its live value. */
  lemma AppliedKeyHasLatest(db: Db, a: nat) returns (top: nat)
    requires IsApplied(db, a)
    ensures Latest(db, top) && SameKey(db, a, top)
  {
    var ids := set id | id in db.rows && IsApplied(db, id) && SameKey(db, a, id);
    assert a in ids;
    top := Topmost(db, ids);
  }

  // ----- When order is lost -----

  /** Applying a change keeps the live values right exactly when it is later than every applied
      change of its key, or happens to carry the latest one's value. */
  lemma KeepsLiveIffInOrder(db: Db, item: Item, now: int)
    requires Matches(db, item) && LiveIsLatest(db) && ApplyOne(db, item, now).1.Ok?
    ensures LiveIsLatest(ApplyOne(db, item, now).0) <==>
            (forall b | IsApplied(db, b) && db.rows[b].key == item.key :: Before(db, b, item.id))
            || exists top :: Latest(db, top) && db.rows[top].key == item.key && db.rows[top].newValue == item.newValue
  {
    var after := ApplyOne(db, item, now).0;
    if forall b | IsApplied(db, b) && db.rows[b].key == item.key :: Before(db, b, item.id) {
      assert Latest(after, item.id);
      ApplyKeepsLive(db, item, now);
    } else {
      var b :| IsApplied(db, b) && db.rows[b].key == item.key && !Before(db, b, item.id);
      var top := AppliedKeyHasLatest(db, b);
      LatestSurvives(db, item, now, top);
      forall a | Latest(after, a) && a != top
        ensures after.rows[a].key in after.live && after.live[after.rows[a].key] == after.rows[a].newValue
      {
        if after.rows[a].key == item.key {
          LatestIsUnique(after, a, top);
        } else {
          ApplyIsLocal(db, item, now, a);
        }
      }
      forall other | Latest(db, other) && db.rows[other].key == item.key
        ensures other == top
      {
        LatestIsUnique(db, other, top);
      }
    }
  }

  lemma LatestSurvives(db: Db, item: Item, now: int, top: nat)
    requires Matches(db, item) && ApplyOne(db, item, now).1.Ok? && Latest(db, top) && db.rows[top].key == item.key
    requires exists b :: IsApplied(db, b) && db.rows[b].key == item.key && !Before(db, b, item.id)
    ensures Latest(ApplyOne(db, item, now).0, top) && top != item.id
  {
    var b :| IsApplied(db, b) && db.rows[b].key == item.key && !Before(db, b, item.id);
    assert b == top || Before(db, b, top);
    assert Before(db, item.id, top);
    var after := ApplyOne(db, item, now).0;
    forall c | IsApplied(after, c) && SameKey(after, top, c) && c != top
      ensures Before(after, c, top)
    {
      assert c == item.id || (IsApplied(db, c) && SameKey(db, top, c));
    }
  }

  lemma Then(s: System, e: Event, es: seq<Event>)
    requires Enabled(s, e) && IsRun(Step(s, e), es)
    ensures IsRun(s, [e] + es) && Run(s, [e] + es) == Run(Step(s, e), es)
  {
    assert ([e] + es)[1..] == es;
  }

  const FIRST := Draft(RouteCost, "route", 5, Some(MIN_NOTICE), "admin")
  const SECOND := Draft(RouteCost, "route", 7, Some(MIN_NOTICE + 1), "admin")
  const FIRST_ITEM := Item(0, Key(RouteCost, "route"), 5)
  const SECOND_ITEM := Item(1, Key(RouteCost, "route"), 7)

  const FIRST_ROW := Row(FIRST_ITEM.key, None, 5, MIN_NOTICE, None, None)
  const SECOND_ROW := Row(SECOND_ITEM.key, None, 7, MIN_NOTICE + 1, None, None)
  const LATER := MIN_NOTICE + 1

  lemma TwoDue(s0: System) returns (s3: System, es: seq<Event>)
    requires s0 == System(Db(map[], 0, map[], {}), 0, map[])
    ensures IsRun(s0, es) && Run(s0, es) == s3 && forall e | e in es :: !e.Lose?
    ensures s3 == System(Db(map[0 := FIRST_ROW, 1 := SECOND_ROW], 2, map[], {}), LATER, map[])
  {
    assert !Blank("route") by {
      var c := "route"[0];
      assert c == 'r' && c in "route" && !IsSpace(c);
    }
    var s1 := Step(s0, Create(FIRST, 0));
    var s2 := Step(s1, Create(SECOND, 0));
    s3 := Step(s2, Tick(LATER));
    Then(s2, Tick(LATER), []);
    Then(s1, Create(SECOND, 0), [Tick(LATER)]);
    es := [Create(SECOND, 0)] + [Tick(LATER)];
    Then(s0, Create(FIRST, 0), es);
    es := [Create(FIRST, 0)] + es;
  }

  lemma SecondAlone(s3: System) returns (s6: System, es: seq<Event>)
    requires s3 == System(Db(map[0 := FIRST_ROW, 1 := SECOND_ROW], 2, map[], {}), LATER, map[])
    ensures IsRun(s3, es) && Run(s3, es) == s6
    ensures s6.now == LATER && s6.db.rows == map[0 := FIRST_ROW, 1 := SECOND_ROW.(appliedAt := Some(LATER))]
  {
    var both := [FIRST_ITEM, SECOND_ITEM];
    assert both[0].id == 0 && both[1].id == 1;
    var s4 := Step(s3, List(0, both));
    var s5 := Step(s4, Lose(0));
    s6 := Step(s5, ApplyNext(0));
    Then(s5, ApplyNext(0), []);
    Then(s4, Lose(0), [ApplyNext(0)]);
    es := [Lose(0)] + [ApplyNext(0)];
    Then(s3, List(0, both), es);
    es := [List(0, both)] + es;
  }

  lemma FirstOverSecond(s6: System) returns (s8: System, es: seq<Event>)
    requires s6.now == LATER && s6.db.rows == map[0 := FIRST_ROW, 1 := SECOND_ROW.(appliedAt := Some(LATER))]
    ensures IsRun(s6, es) && Run(s6, es) == s8 && !LiveIsLatest(s8.db)
  {
    var one := [FIRST_ITEM];
    assert one[0].id == 0;
    var s7 := Step(s6, List(0, one));
    s8 := Step(s7, ApplyNext(0));
    assert Latest(s8.db, 1);
    Then(s7, ApplyNext(0), []);
    Then(s6, List(0, one), [ApplyNext(0)]);
    es := [List(0, one)] + [ApplyNext(0)];
  }

  lemma {:induction false} RunsCompose(s: System, es: seq<Event>, fs: seq<Event>)
    requires IsRun(s, es) && IsRun(Run(s, es), fs)
    ensures IsRun(s, es + fs) && Run(s, es + fs) == Run(Run(s, es), fs)
    decreases |es|
  {
    if es == [] {
      assert es + fs == fs;
    } else {
      RunsCompose(Step(s, es[0]), es[1..], fs);
      assert (es + fs)[1..] == es[1..] + fs;
    }
  }

  /** A lost transaction is enough to lose the order: the first of two due changes fails, the second
      is applied, and the next tick applies the first over it. */
  lemma LostTransactionReorders()
    ensures exists s, es :: Fresh(s) && IsRun(s, es) && !LiveIsLatest(Run(s, es).db)
  {
    hide LiveIsLatest;
    var s0 := System(Db(map[], 0, map[], {}), 0, map[]);
    var s3, es3 := TwoDue(s0);
    var s6, es6 := SecondAlone(s3);
    var s8, es8 := FirstOverSecond(s6);
    RunsCompose(s0, es3, es6);
    RunsCompose(s0, es3 + es6, es8);
    assert Fresh(s0);
  }

  // ----- One tick of the worker, start to end -----

  ghost function Applies(w: nat, n: nat): seq<Event> {
    seq(n, _ => ApplyNext(w))
  }

  /** The loop of one tick is a run of the machine: list, then apply each item in turn. */
  lemma {:induction false} TickIsRun(s: System, w: nat, q: seq<Item>, n: nat)
    requires w in s.workers && s.workers[w] == q && n <= |q|
    ensures IsRun(s, Applies(w, n))
    ensures Run(s, Applies(w, n)) == s.(db := ApplyAll(s.db, q[..n], s.now), workers := s.workers[w := q[n..]])
  {
    if n == 0 {
      assert s.workers[w := q[0..]] == s.workers;
    } else {
      TickIsRun(s, w, q, n - 1);
      var t := Run(s, Applies(w, n - 1));
      Then(t, ApplyNext(w), []);
      RunsCompose(s, Applies(w, n - 1), [ApplyNext(w)] + []);
      assert Applies(w, n - 1) + ([ApplyNext(w)] + []) == Applies(w, n);
      assert q[..n][..n - 1] == q[..n - 1];
      assert q[n - 1..][1..] == q[n..];
      assert t.workers[w := q[n..]] == s.workers[w := q[n..]];
    }
  }

  lemma {:induction false} SettledStays(db: Db, q: seq<Item>, now: int, id: nat)
    requires !Ready(db, id)
    ensures !Ready(ApplyAll(db, q, now), id)
  {
    if q != [] {
      SettledStays(db, q[..|q| - 1], now, id);
    }
  }

  lemma {:induction false} ItemsAreSettled(db: Db, q: seq<Item>, now: int, k: nat)
    requires k < |q| && forall j | 0 <= j < |q| :: Matches(db, q[j])
    ensures !Ready(ApplyAll(db, q, now), q[k].id) && forall j | 0 <= j < |q| :: Matches(ApplyAll(db, q, now), q[j])
  {
    var rest := q[..|q| - 1];
    if k < |q| - 1 {
      ItemsAreSettled(db, rest, now, k);
    } else {
      StillMatches(db, rest, now, q[k]);
    }
    forall j | 0 <= j < |q|
      ensures Matches(ApplyAll(db, q, now), q[j])
    {
      StillMatches(db, q, now, q[j]);
    }
  }

  lemma {:induction false} StillMatches(db: Db, q: seq<Item>, now: int, item: Item)
    requires Matches(db, item)
    ensures Matches(ApplyAll(db, q, now), item) && ApplyAll(db, q, now).plans == db.plans
  {
    if q != [] {
      StillMatches(db, q[..|q| - 1], now, item);
    }
  }

  lemma Emptied(workers: map<nat, seq<Item>>, w: nat, q: seq<Item>)
    ensures workers[w := q][w := q[|q|..]] == workers[w := []]
  {
    assert q[|q|..] == [];
  }

  /** An undisturbed tick keeps every invariant and leaves nothing due that could be applied. */
  lemma TickSettles(s: System, w: nat, q: seq<Item>, initial: map<Key, int>)
    requires Inv(s, initial) && IsDueList(s.db, s.now, q)
    ensures Inv(s.(db := ApplyAll(s.db, q, s.now), workers := s.workers[w := []]), initial)
    ensures var after := ApplyAll(s.db, q, s.now);
            forall id | Ready(after, id) :: !IsDue(s.db, id, s.now)
  {
    hide Inv, Matches, Sorted;
    var t := Step(s, List(w, q));
    StepKeepsInv(s, List(w, q), initial);
    TickIsRun(t, w, q, |q|);
    RunKeepsInv(t, Applies(w, |q|), initial);
    assert q[..|q|] == q;
    Emptied(s.workers, w, q);
    forall id | IsDue(s.db, id, s.now)
      ensures !Ready(ApplyAll(s.db, q, s.now), id)
    {
      assert Listed(q, id);
      var k :| 0 <= k < |q| && q[k].id == id;
      ItemsAreSettled(s.db, q, s.now, k);
    }
  }

  // ----- Changes that can never be applied -----

  /** What every run keeps, lost transactions included: an applied change was one its column takes, and
      what workers remember of a row is what the row says. */
  ghost predicate RowsHold(s: System) {
    && (forall id | id in s.db.rows :: id < s.db.nextId)
    && (forall id | IsApplied(s.db, id) :: Appliable(s.db.rows[id].key, s.db.rows[id].newValue, s.db.plans))
    && (forall w, k | w in s.workers && 0 <= k < |s.workers[w]| :: Matches(s.db, s.workers[w][k]))
  }

  /** A change is never rewritten. */
  predicate KeepsRow(db: Db, t: Db, id: nat)
    requires id in db.rows
  {
    id in t.rows && SameChange(db.rows[id], t.rows[id]) && t.plans == db.plans
  }

  lemma StepKeepsRows(s: System, e: Event)
    requires RowsHold(s) && Enabled(s, e)
    ensures RowsHold(Step(s, e)) && forall id | id in s.db.rows :: KeepsRow(s.db, Step(s, e).db, id)
  {
    hide Appliable, IsPending, Sorted;
    var t := Step(s, e);
    if e.ApplyNext? {
      var q := s.workers[e.w];
      assert Matches(s.db, q[0]);
      ApplyKeepsRows(s.db, q[0], s.now);
      hide ApplyOne;
      assert forall k | 0 <= k < |q[1..]| :: q[1..][k] == q[k + 1];
    }
    forall w, k | w in t.workers && 0 <= k < |t.workers[w]|
      ensures Matches(t.db, t.workers[w][k])
    {
      if (e.ApplyNext? || e.Lose?) && w == e.w {
        assert t.workers[w][k] == s.workers[w][k + 1];
      }
    }
  }

  lemma ApplyKeepsRows(db: Db, item: Item, now: int)
    requires Matches(db, item)
    ensures var t := ApplyOne(db, item, now).0;
            t.nextId == db.nextId && t.plans == db.plans && t.rows.Keys == db.rows.Keys
            && (forall id | id in db.rows :: SameChange(db.rows[id], t.rows[id]))
            && forall id | IsApplied(t, id) ::
                 IsApplied(db, id) || Appliable(t.rows[id].key, t.rows[id].newValue, t.plans)
  {
  }

  lemma {:induction false} RunKeepsRows(s: System, es: seq<Event>, id: nat)
    requires RowsHold(s) && IsRun(s, es) && id in s.db.rows
    ensures RowsHold(Run(s, es)) && KeepsRow(s.db, Run(s, es).db, id)
    decreases |es|
  {
    hide Step, Enabled, RowsHold;
    if es != [] {
      StepKeepsRows(s, es[0]);
      RunKeepsRows(Step(s, es[0]), es[1..], id);
    }
  }

  /** Whether the change an accepted draft records can be applied: its column takes the value, and a
      plan column's plan exists. Creation checks neither. */
  predicate CanEverApply(c: Draft, plans: set<string>) {
    Fits(c.changeType, c.newValue) && (c.changeType != RouteCost ==> c.target in plans)
  }

  lemma AcceptedIsReadyIff(db: Db, c: Draft, now: int)
    requires Refusal(c, now).None?
    ensures Ready(Inserted(db, c), db.nextId) <==> CanEverApply(c, db.plans)
  {
  }

  /** Accepted and refused for ever: in no run, with any workers and any failures, is a change applied
      whose value its column rejects or whose plan is missing. */
  lemma AcceptedButNeverApplied(s: System, c: Draft, asOf: int, es: seq<Event>)
    requires RowsHold(s) && Enabled(s, Create(c, asOf)) && IsRun(Step(s, Create(c, asOf)), es)
    requires !CanEverApply(c, s.db.plans)
    ensures !IsApplied(Run(Step(s, Create(c, asOf)), es).db, s.db.nextId)
  {
    var t := Step(s, Create(c, asOf));
    StepKeepsRows(s, Create(c, asOf));
    RunKeepsRows(t, es, s.db.nextId);
  }

  /** A route cost of zero is one of those. */
  lemma ZeroRouteCostIsAccepted(target: string, admin: string, effectiveAt: int, now: int, plans: set<string>)
    requires !Blank(target) && admin != "" && now + MIN_NOTICE <= effectiveAt
    ensures var c := Draft(RouteCost, target, 0, Some(effectiveAt), admin);
            Refusal(c, now).None? && !CanEverApply(c, plans)
  {
  }

  /** And only those: an undisturbed tick applies a due change if and only if it can be applied. */
  lemma DueIsAppliedIff(s: System, w: nat, q: seq<Item>, initial: map<Key, int>, id: nat)
    requires Inv(s, initial) && RowsHold(s) && IsDueList(s.db, s.now, q) && IsDue(s.db, id, s.now)
    ensures var after := ApplyAll(s.db, q, s.now);
            IsApplied(after, id) <==> Appliable(s.db.rows[id].key, s.db.rows[id].newValue, s.db.plans)
  {
    hide Inv;
    TickSettles(s, w, q, initial);
    hide IsDueList;
    AllKeepsRow(s.db, q, s.now, id);
  }

  lemma {:induction false} AllKeepsRow(db: Db, q: seq<Item>, now: int, id: nat)
    requires id in db.rows && IsPending(db.rows[id]) && forall k | 0 <= k < |q| :: Matches(db, q[k])
    ensures var after := ApplyAll(db, q, now);
            KeepsRow(db, after, id) && after.rows[id].cancelledAt.None?
            && (IsApplied(after, id) ==> Appliable(db.rows[id].key, db.rows[id].newValue, db.plans))
  {
    if q != [] {
      var n := |q| - 1;
      AllKeepsRow(db, q[..n], now, id);
      StillMatches(db, q[..n], now, q[n]);
    }
  }

  // ----- Cancelled changes -----

  /** Whatever the step writes to the live values is the value of a row other than `id`, which it
      applies. */
  ghost predicate WrittenByOthers(db: Db, t: Db, id: nat) {
    t.live == db.live
    || exists other :: other != id && other in db.rows && other in t.rows
                       && db.rows[other].appliedAt.None? && t.rows[other].appliedAt.Some?
                       && t.live == db.live[db.rows[other].key := db.rows[other].newValue]
  }

  ghost predicate NeverWrites(s: System, es: seq<Event>, id: nat)
    requires IsRun(s, es)
    decreases |es|
  {
    es != [] ==> WrittenByOthers(s.db, Step(s, es[0]).db, id) && NeverWrites(Step(s, es[0]), es[1..], id)
  }

  /** Cancelling stamps exactly a row that is neither applied nor cancelled. */
  lemma CancelStamps(s: System, id: nat)
    ensures var t := Step(s, Cancel(id));
            var pending := id in s.db.rows && s.db.rows[id].appliedAt.None? && s.db.rows[id].cancelledAt.None?;
            t.now == s.now && t.workers == s.workers && t.db.live == s.db.live && t.db.nextId == s.db.nextId
            && t.db.plans == s.db.plans
            && t.db.rows == if pending then s.db.rows[id := s.db.rows[id].(cancelledAt := Some(s.now))] else s.db.rows
  {
  }

  lemma CancelledStepStays(s: System, e: Event, id: nat)
    requires RowsHold(s) && Enabled(s, e)
    requires id in s.db.rows && s.db.rows[id].appliedAt.None? && s.db.rows[id].cancelledAt.Some?
    ensures id in Step(s, e).db.rows && Step(s, e).db.rows[id] == s.db.rows[id]
    ensures WrittenByOthers(s.db, Step(s, e).db, id)
  {
    hide Appliable, Sorted;
    var t := Step(s, e);
    if e.ApplyNext? && t.db.live != s.db.live {
      var item := s.workers[e.w][0];
      assert Matches(s.db, item);
      assert item.id != id && t.db.rows[item.id].appliedAt.Some?;
    }
  }

  lemma {:induction false} CancelledStays(s: System, es: seq<Event>, id: nat)
    requires RowsHold(s) && IsRun(s, es)
    requires id in s.db.rows && s.db.rows[id].appliedAt.None? && s.db.rows[id].cancelledAt.Some?
    ensures id in Run(s, es).db.rows && Run(s, es).db.rows[id] == s.db.rows[id] && NeverWrites(s, es, id)
    decreases |es|
  {
    hide Step, Enabled, RowsHold, WrittenByOthers;
    if es != [] {
      StepKeepsRows(s, es[0]);
      CancelledStepStays(s, es[0], id);
      CancelledStays(Step(s, es[0]), es[1..], id);
    }
  }

  /** In every run, a change cancelled while it is pending is never applied: its row keeps the stamp and
      stays unapplied, and no later write of a live value is on its account. */
  lemma CancelledIsNeverApplied(s: System, past: seq<Event>, id: nat, es: seq<Event>)
    requires Fresh(s) && IsRun(s, past)
    requires var u := Run(s, past);
             id in u.db.rows && u.db.rows[id].appliedAt.None? && u.db.rows[id].cancelledAt.None?
             && IsRun(Step(u, Cancel(id)), es)
    ensures var u := Run(s, past); var t := Step(u, Cancel(id));
            id in Run(t, es).db.rows && Run(t, es).db.rows[id] == u.db.rows[id].(cancelledAt := Some(u.now))
            && NeverWrites(t, es, id)
  {
    var u := Run(s, past);
    FreshRunHolds(s, past);
    StepKeepsRows(u, Cancel(id));
    CancelStamps(u, id);
    CancelledStays(Step(u, Cancel(id)), es, id);
  }

  lemma FreshRunHolds(s: System, es: seq<Event>)
    requires Fresh(s) && IsRun(s, es)
    ensures RowsHold(Run(s, es))
  {
    RunHolds(s, es);
  }

  lemma {:induction false} RunHolds(s: System, es: seq<Event>)
    requires RowsHold(s) && IsRun(s, es)
    ensures RowsHold(Run(s, es))
    decreases |es|
  {
    hide Step, Enabled, RowsHold;
    if es != [] {
      StepKeepsRows(s, es[0]);
      RunHolds(Step(s, es[0]), es[1..]);
    }
  }
}
