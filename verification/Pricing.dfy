/** Scheduled pricing changes: creation and cancellation (backend/internal/store/admin_economy.go)
    and the transactions that apply due changes (backend/internal/store/notifications.go).

    Times are nanoseconds. A transaction is one atomic step; `now()` of the database and of the
    process are one clock. */
module Pricing {
  import opened Bytes

  const MIN_NOTICE: int := 30 * 24 * 3600 * 1_000_000_000

  datatype ChangeType =
    | RouteCost | PlanPrice | PlanAnnualPrice | PlanTokens | PlanReadRps | PlanTxRps | PlanOverage
    | UnknownType(name: string)

  /** The live value a change is about: a column of a plan, or the cost of a route. */
  datatype Key = Key(changeType: ChangeType, target: string)

  datatype Row = Row(key: Key, oldValue: Option<int>, newValue: int, effectiveAt: int,
                     appliedAt: Option<int>, cancelledAt: Option<int>)

  /** The tables involved. `plans` holds the codes of the existing plans. */
  datatype Db = Db(rows: map<nat, Row>, nextId: nat, live: map<Key, int>, plans: set<string>)

  datatype Error = UnknownChangeType | TargetRequired | CreatorRequired | NegativeValue | EffectiveAtRequired
                 | NoticeTooShort | NotFound | Busy | ColumnRejects | PlanNotFound | AlreadyTerminal

  datatype Result<+T> = Ok(value: T) | Err(error: Error)

  predicate IsPending(r: Row) {
    r.appliedAt.None? && r.cancelledAt.None?
  }

  /** What the column takes: a route cost is a positive int, `monthly_tokens` a bigint, every other
      column an int. New rows are never negative. */
  predicate Fits(changeType: ChangeType, value: int) {
    match changeType
    case RouteCost => 0 < value < 0x8000_0000
    case PlanTokens => 0 <= value < 0x8000_0000_0000_0000
    case _ => 0 <= value < 0x8000_0000
  }

  /** Whether the transaction can write this value: the column takes it and the row is there. */
  predicate Appliable(key: Key, value: int, plans: set<string>) {
    !key.changeType.UnknownType? && Fits(key.changeType, value)
    && (key.changeType != RouteCost ==> key.target in plans)
  }

  // ----- Creating and cancelling -----

  datatype Draft = Draft(changeType: ChangeType, target: string, newValue: int, effectiveAt: Option<int>,
                           createdBy: string)

  /** Unicode white space, as strings.TrimSpace understands it. */
  predicate IsSpace(c: char) {
    var u := c as int;
    9 <= u <= 13 || u == 32 || u == 0x85 || u == 0xA0 || u == 0x1680 || 0x2000 <= u <= 0x200A
    || u == 0x2028 || u == 0x2029 || u == 0x202F || u == 0x205F || u == 0x3000
  }

  predicate Blank(s: string) {
    forall c | c in s :: IsSpace(c)
  }

  function Refusal(c: Draft, now: int): Option<Error> {
    if c.changeType.UnknownType? then Some(UnknownChangeType)
    else if Blank(c.target) then Some(TargetRequired)
    else if c.createdBy == "" then Some(CreatorRequired)
    else if c.newValue < 0 then Some(NegativeValue)
    else if c.effectiveAt.None? then Some(EffectiveAtRequired)
    else if c.effectiveAt.value < now + MIN_NOTICE then Some(NoticeTooShort)
    else None
  }

  function Inserted(db: Db, c: Draft): Db
    requires c.effectiveAt.Some?
  {
    var key := Key(c.changeType, c.target);
    var prior := if key in db.live then Some(db.live[key]) else None;
    db.(rows := db.rows[db.nextId := Row(key, prior, c.newValue, c.effectiveAt.value, None, None)],
        nextId := db.nextId + 1)
  }

  function Cancelled(db: Db, id: nat, now: int): Db {
    if id in db.rows && IsPending(db.rows[id]) then
      db.(rows := db.rows[id := db.rows[id].(cancelledAt := Some(now))])
    else db
  }

  // ----- Listing and applying -----

  /** What the worker remembers of a due row. */
  datatype Item = Item(id: nat, key: Key, newValue: int)

  predicate Before(db: Db, a: nat, b: nat)
    requires a in db.rows && b in db.rows
  {
    db.rows[a].effectiveAt < db.rows[b].effectiveAt
    || (db.rows[a].effectiveAt == db.rows[b].effectiveAt && a < b)
  }

  predicate IsDue(db: Db, id: nat, now: int) {
    id in db.rows && IsPending(db.rows[id]) && db.rows[id].effectiveAt <= now
  }

  ghost predicate Matches(db: Db, item: Item) {
    item.id in db.rows && db.rows[item.id].key == item.key && db.rows[item.id].newValue == item.newValue
  }

  ghost predicate Listed(q: seq<Item>, id: nat) {
    exists k :: 0 <= k < |q| && q[k].id == id
  }

  ghost predicate Sorted(db: Db, q: seq<Item>)
    requires forall k | 0 <= k < |q| :: q[k].id in db.rows
  {
    forall i, j | 0 <= i < j < |q| :: Before(db, q[i].id, q[j].id)
  }

  /** The answer to the query for due rows, ordered by effective date and identifier. */
  ghost predicate IsDueList(db: Db, now: int, q: seq<Item>) {
    && (forall k | 0 <= k < |q| :: Matches(db, q[k]) && IsDue(db, q[k].id, now))
    && Sorted(db, q)
    && (forall id | IsDue(db, id, now) :: Listed(q, id))
  }

  /** One transaction: write the live value and stamp the row, or change nothing at all. */
  function ApplyOne(db: Db, item: Item, now: int): (Db, Result<()>) {
    if item.key.changeType.UnknownType? then (db, Err(UnknownChangeType))
    else if !Fits(item.key.changeType, item.newValue) then (db, Err(ColumnRejects))
    else if !Appliable(item.key, item.newValue, db.plans) then (db, Err(PlanNotFound))
    else if item.id !in db.rows || !IsPending(db.rows[item.id]) then (db, Err(AlreadyTerminal))
    else
      (db.(live := db.live[item.key := item.newValue],
           rows := db.rows[item.id := db.rows[item.id].(appliedAt := Some(now))]), Ok(()))
  }

  function ApplyAll(db: Db, q: seq<Item>, now: int): Db {
    if q == [] then db else ApplyOne(ApplyAll(db, q[..|q| - 1], now), q[|q| - 1], now).0
  }

  class PricingStore {
    var rows: map<nat, Row>
    var nextId: nat
    var live: map<Key, int>
    const plans: set<string>

    function View(): Db
      reads this
    {
      Db(rows, nextId, live, plans)
    }

    method CreatePricingChange(c: Draft, now: int) returns (r: Result<nat>)
      modifies this
      ensures r == if Refusal(c, now).Some? then Err(Refusal(c, now).value) else Ok(old(nextId))
      ensures View() == if r.Ok? then Inserted(old(View()), c) else old(View())
      ensures r.Ok? <==> !c.changeType.UnknownType? && !Blank(c.target) && c.createdBy != "" && c.newValue >= 0
                         && c.effectiveAt.Some? && c.effectiveAt.value >= now + 30 * 24 * 3600 * 1_000_000_000
      ensures r.Ok? ==> var key := Key(c.changeType, c.target);
                        r.value == old(nextId) && nextId == old(nextId) + 1 && live == old(live)
                        && rows == old(rows)[r.value := Row(key, if key in live then Some(live[key]) else None,
                                                            c.newValue, c.effectiveAt.value, None, None)]
    {
      if c.changeType.UnknownType? {
        return Err(UnknownChangeType);
      }
      if Blank(c.target) {
        return Err(TargetRequired);
      }
      if c.createdBy == "" {
        return Err(CreatorRequired);
      }
      if c.newValue < 0 {
        return Err(NegativeValue);
      }
      if c.effectiveAt.None? {
        return Err(EffectiveAtRequired);
      }
      if c.effectiveAt.value < now + MIN_NOTICE {
        return Err(NoticeTooShort);
      }
      var key := Key(c.changeType, c.target);
      var oldVal := if key in live then Some(live[key]) else None;
      rows := rows[nextId := Row(key, oldVal, c.newValue, c.effectiveAt.value, None, None)];
      r := Ok(nextId);
      nextId := nextId + 1;
    }

    method CancelPricingChange(id: nat, now: int) returns (r: Result<()>)
      modifies this`rows
      ensures View() == Cancelled(old(View()), id, now)
      ensures r == if id !in old(rows) then Err(NotFound)
                   else if old(rows)[id].appliedAt.None? && old(rows)[id].cancelledAt.None? then Ok(()) else Err(Busy)
      ensures rows == if r.Ok? then old(rows)[id := old(rows)[id].(cancelledAt := Some(now))] else old(rows)
    {
      if id in rows && IsPending(rows[id]) {
        rows := rows[id := rows[id].(cancelledAt := Some(now))];
        return Ok(());
      }
      r := if id !in rows then Err(NotFound) else Err(Busy);
    }

    /** The transaction: the live table is written first and rolled back when the row turns out to
        be applied or cancelled already. */
    method ApplyOnePricingChange(item: Item, now: int) returns (r: Result<()>)
      modifies this`rows, this`live
      ensures (View(), r) == ApplyOne(old(View()), item, now)
      ensures r.Ok? <==> Appliable(item.key, item.newValue, plans) && item.id in old(rows)
                         && old(rows)[item.id].appliedAt.None? && old(rows)[item.id].cancelledAt.None?
      ensures live == if r.Ok? then old(live)[item.key := item.newValue] else old(live)
      ensures rows == if r.Ok? then old(rows)[item.id := old(rows)[item.id].(appliedAt := Some(now))] else old(rows)
    {
      var begin := live;
      match item.key.changeType {
        case RouteCost =>
          if !Fits(RouteCost, item.newValue) {
            return Err(ColumnRejects);
          }
          live := live[item.key := item.newValue];
        case UnknownType(_) =>
          return Err(UnknownChangeType);
        case _ =>
          if !Fits(item.key.changeType, item.newValue) {
            return Err(ColumnRejects);
          }
          if item.key.target !in plans {
            return Err(PlanNotFound);
          }
          live := live[item.key := item.newValue];
      }
      if item.id !in rows || !IsPending(rows[item.id]) {
        live := begin;
        return Err(AlreadyTerminal);
      }
      rows := rows[item.id := rows[item.id].(appliedAt := Some(now))];
      return Ok(());
    }

    /** The query for due rows, answered by repeatedly taking the earliest one left. */
    method ListDue(now: int) returns (q: seq<Item>)
      ensures IsDueList(View(), now, q)
      ensures forall k | 0 <= k < |q| ::
                q[k].id in rows && q[k] == Item(q[k].id, rows[q[k].id].key, rows[q[k].id].newValue)
      ensures forall id | id in rows ::
                rows[id].appliedAt.None? && rows[id].cancelledAt.None? && rows[id].effectiveAt <= now <==> Listed(q, id)
      ensures forall j, k | 0 <= j < k < |q| ::
                var a, b := rows[q[j].id].effectiveAt, rows[q[k].id].effectiveAt;
                a < b || (a == b && q[j].id < q[k].id)
    {
      q := [];
      var left := set id | id in rows && IsDue(View(), id, now);
      while left != {}
        invariant left <= rows.Keys && forall id | id in left :: IsDue(View(), id, now)
        invariant forall k | 0 <= k < |q| :: Matches(View(), q[k]) && IsDue(View(), q[k].id, now)
        invariant Sorted(View(), q)
        invariant forall id | IsDue(View(), id, now) :: id in left || Listed(q, id)
        invariant forall k, id | 0 <= k < |q| && id in left :: Before(View(), q[k].id, id)
        decreases left
      {
        var first := Earliest(left);
        var longer := q + [Item(first, rows[first].key, rows[first].newValue)];
        assert forall id | Listed(q, id) :: Listed(longer, id) by {
          forall id | Listed(q, id)
            ensures Listed(longer, id)
          {
            var k :| 0 <= k < |q| && q[k].id == id;
            assert longer[k].id == id;
          }
        }
        assert longer[|q|].id == first;
        left := left - {first};
        q := longer;
      }
    }

    method Earliest(ids: set<nat>) returns (first: nat)
      requires ids != {} && ids <= rows.Keys
      ensures first in ids && forall id | id in ids && id != first :: Before(View(), first, id)
    {
      first :| first in ids;
      ghost var seen := {first};
      var left := ids - {first};
      while left != {}
        invariant seen + left == ids && first in seen
        invariant forall id | id in seen && id != first :: Before(View(), first, id)
        decreases left
      {
        var id :| id in left;
        if Before(View(), id, first) {
          first := id;
        }
        seen, left := seen + {id}, left - {id};
      }
    }

    method ApplyPendingPricingChanges(now: int) returns (q: seq<Item>)
      modifies this`rows, this`live
      ensures IsDueList(old(View()), now, q)
      ensures View() == ApplyAll(old(View()), q, now)
    {
      q := ListDue(now);
      for k := 0 to |q|
        invariant View() == ApplyAll(old(View()), q[..k], now)
      {
        assert q[..k + 1][..k] == q[..k];
        var _ := ApplyOnePricingChange(q[k], now);
      }
      assert q[..|q|] == q;
    }
  }
}
