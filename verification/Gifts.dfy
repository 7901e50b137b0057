/** Gift cards and subscriptions: redeeming (backend/internal/store/customer.go), assigning a plan
    (billing_pg.go) and refunding (admin_economy.go).

    Each operation is one transaction and one step here. A card's row id and its redeem token are
    one identifier. Besides the tables the state keeps a log of what was granted to which
    subscription; it is history and nothing reads it but the properties. */
module Gifts {
  import opened Bytes

  const REFUND_WINDOW: int := 7 * 24 * 3600 * 1_000_000_000

  datatype Plan = Plan(monthly: nat, sortOrder: int, active: bool)

  datatype Sub = Sub(user: string, plan: string, active: bool, limit: nat, cap: nat)

  datatype Card = Card(plan: string, months: nat, paid: bool, createdAt: int, expiresAt: int,
                       redeemedBy: Option<string>, refunded: bool)

  datatype Action = Created | Extended | Upgraded

  /** One plan or card given to a subscription, at the prices of that moment. */
  datatype Grant = Grant(sub: nat, card: Option<string>, action: Action, monthly: nat, months: nat, sortOrder: int)

  datatype Db = Db(plans: map<string, Plan>, subs: map<nat, Sub>, nextSub: nat, cards: map<string, Card>,
                   log: seq<Grant>)

  datatype Error = NotFound | AlreadyUsed | AlreadyRefunded | Expired | NotEligible | PlanUnreadable

  datatype Result<+T> = Ok(value: T) | Err(error: Error)

  datatype Redemption = Redemption(sub: nat, action: Action, addedTokens: nat, addedDays: nat)

  predicate IsActiveOf(subs: map<nat, Sub>, id: nat, user: string) {
    id in subs && subs[id].user == user && subs[id].active
  }

  ghost predicate OneActive(subs: map<nat, Sub>) {
    forall a, b, user | IsActiveOf(subs, a, user) && IsActiveOf(subs, b, user) :: a == b
  }

  ghost function ActiveOf(subs: map<nat, Sub>, user: string): (r: Option<nat>)
    ensures r.None? ==> forall id :: !IsActiveOf(subs, id, user)
    ensures r.Some? ==> IsActiveOf(subs, r.value, user)
  {
    if exists id :: IsActiveOf(subs, id, user) then
      var id :| IsActiveOf(subs, id, user);
      Some(id)
    else None
  }

  // ----- The three operations on values -----

  function WithCancelled(subs: map<nat, Sub>, user: string): map<nat, Sub> {
    map id | id in subs :: if subs[id].user == user then subs[id].(active := false) else subs[id]
  }

  function OpenSub(db: Db, user: string, code: string, card: Option<string>, months: nat): Db
    requires code in db.plans
  {
    var p := db.plans[code];
    db.(subs := db.subs[db.nextSub := Sub(user, code, true, p.monthly, 2 * p.monthly)],
        nextSub := db.nextSub + 1,
        log := db.log + [Grant(db.nextSub, card, Created, p.monthly, months, p.sortOrder)])
  }

  function Assign(db: Db, user: string, code: string): (Db, Result<nat>) {
    if code !in db.plans || !db.plans[code].active then (db, Err(NotFound))
    else (OpenSub(db.(subs := WithCancelled(db.subs, user)), user, code, None, 1), Ok(db.nextSub))
  }

  predicate Redeemable(db: Db, token: string, user: string, now: int) {
    token != "" && user != "" && token in db.cards && db.cards[token].redeemedBy.None?
    && !db.cards[token].refunded && now < db.cards[token].expiresAt
    && db.cards[token].plan in db.plans && db.plans[db.cards[token].plan].active
  }

  function WhyNot(db: Db, token: string, user: string, now: int): Error
    requires !Redeemable(db, token, user, now)
  {
    if token == "" || user == "" || token !in db.cards then NotFound
    else if db.cards[token].redeemedBy.Some? then AlreadyUsed
    else if db.cards[token].refunded then AlreadyRefunded
    else if db.cards[token].expiresAt <= now then Expired
    else NotFound
  }

  function Absorb(db: Db, id: nat, token: string, card: Card): (r: (Db, Action))
    requires id in db.subs && db.subs[id].plan in db.plans && card.plan in db.plans
  {
    var s, p := db.subs[id], db.plans[card.plan];
    var raises := db.plans[s.plan].sortOrder < p.sortOrder;
    var action := if raises then Upgraded else Extended;
    var grown := if raises then s.(plan := card.plan, cap := s.cap + 2 * p.monthly) else s;
    (db.(subs := db.subs[id := grown.(limit := s.limit + p.monthly * card.months)],
         log := db.log + [Grant(id, Some(token), action, p.monthly, card.months, p.sortOrder)]), action)
  }

  ghost function Apply(db: Db, token: string, user: string, now: int): (Db, Result<Redemption>) {
    if !Redeemable(db, token, user, now) then (db, Err(WhyNot(db, token, user, now)))
    else
      var card := db.cards[token];
      var added, days := db.plans[card.plan].monthly * card.months, 30 * card.months;
      var current := ActiveOf(db.subs, user);
      if current.Some? && db.subs[current.value].plan !in db.plans then (db, Err(PlanUnreadable)) else
      var (granted, id, action) :=
        if current.None? then (OpenSub(db, user, card.plan, Some(token), card.months), db.nextSub, Created)
        else var (d, a) := Absorb(db, current.value, token, card); (d, current.value, a);
      (granted.(cards := db.cards[token := card.(redeemedBy := Some(user))]), Ok(Redemption(id, action, added, days)))
  }

  function Refund(db: Db, token: string, now: int): (Db, Result<()>) {
    if token == "" || token !in db.cards then (db, Err(NotFound))
    else if db.cards[token].redeemedBy.Some? then (db, Err(AlreadyUsed))
    else if db.cards[token].refunded then (db, Err(AlreadyRefunded))
    else if !db.cards[token].paid || now - db.cards[token].createdAt > REFUND_WINDOW then (db, Err(NotEligible))
    else (db.(cards := db.cards[token := db.cards[token].(refunded := true)]), Ok(()))
  }

  // ----- The store -----

  class GiftStore {
    var plans: map<string, Plan>
    var subs: map<nat, Sub>
    var nextSub: nat
    var cards: map<string, Card>
    ghost var log: seq<Grant>

    ghost function View(): Db
      reads this
    {
      Db(plans, subs, nextSub, cards, log)
    }

    method FindActive(user: string) returns (r: Option<nat>)
      requires OneActive(subs)
      ensures r == ActiveOf(subs, user)
    {
      var left := subs.Keys;
      while left != {}
        invariant forall id | IsActiveOf(subs, id, user) :: id in left
        decreases left
      {
        var id :| id in left;
        if IsActiveOf(subs, id, user) {
          return Some(id);
        }
        left := left - {id};
      }
      return None;
    }

    method AssignPlan(user: string, code: string) returns (r: Result<nat>)
      modifies this
      ensures (View(), r) == Assign(old(View()), user, code)
      ensures r.Ok? <==> code in plans && plans[code].active
      ensures r.Err? ==> r.error == NotFound && View() == old(View())
      ensures plans == old(plans) && cards == old(cards)
      ensures r.Ok? ==> r.value == old(nextSub) && nextSub == old(nextSub) + 1
                        && subs.Keys == old(subs).Keys + {r.value}
                        && subs[r.value] == Sub(user, code, true, plans[code].monthly, 2 * plans[code].monthly)
      ensures r.Ok? ==> forall id | id in old(subs) && id != r.value ::
                if old(subs)[id].user == user then subs[id] == old(subs)[id].(active := false)
                else subs[id] == old(subs)[id]
    {
      if code !in plans || !plans[code].active {
        return Err(NotFound);
      }
      var p := plans[code];
      subs := WithCancelled(subs, user);
      subs := subs[nextSub := Sub(user, code, true, p.monthly, p.monthly * 2)];
      log := log + [Grant(nextSub, None, Created, p.monthly, 1, p.sortOrder)];
      r := Ok(nextSub);
      nextSub := nextSub + 1;
    }

    method ApplyGiftCard(token: string, user: string, now: int) returns (r: Result<Redemption>)
      requires OneActive(subs)
      modifies this
      ensures (View(), r) == Apply(old(View()), token, user, now)
      ensures plans == old(plans)
      ensures r.Err? ==> View() == old(View())
      ensures token == "" || user == "" || token !in old(cards) ==> r == Err(NotFound)
      ensures token != "" && user != "" && token in old(cards) ==>
                var gift := old(cards)[token];
                if gift.redeemedBy.Some? then r == Err(AlreadyUsed)
                else if gift.refunded then r == Err(AlreadyRefunded)
                else if gift.expiresAt <= now then r == Err(Expired)
                else if gift.plan !in plans || !plans[gift.plan].active then r == Err(NotFound)
                else r.Ok? || (r.error == PlanUnreadable && exists id :: IsActiveOf(subs, id, user)
                                                                         && subs[id].plan !in plans)
      ensures r.Ok? ==> token in old(cards) && old(cards)[token].plan in plans
                        && cards == old(cards)[token := old(cards)[token].(redeemedBy := Some(user))]
      ensures r.Ok? ==>
                var gift, p, id := old(cards)[token], plans[old(cards)[token].plan], r.value.sub;
                && r.value.addedTokens == p.monthly * gift.months && r.value.addedDays == gift.months * 30
                && id in subs && subs.Keys == old(subs).Keys + {id}
                && (forall k | k in old(subs) && k != id :: subs[k] == old(subs)[k])
                && match r.value.action
                   case Created =>
                     (forall k :: !IsActiveOf(old(subs), k, user)) && id == old(nextSub) && nextSub == id + 1
                     && subs[id] == Sub(user, gift.plan, true, p.monthly, 2 * p.monthly)
                   case Extended =>
                     IsActiveOf(old(subs), id, user) && nextSub == old(nextSub) && old(subs)[id].plan in plans
                     && p.sortOrder <= plans[old(subs)[id].plan].sortOrder
                     && subs[id] == old(subs)[id].(limit := old(subs)[id].limit + p.monthly * gift.months)
                   case Upgraded =>
                     IsActiveOf(old(subs), id, user) && nextSub == old(nextSub) && old(subs)[id].plan in plans
                     && p.sortOrder > plans[old(subs)[id].plan].sortOrder
                     && subs[id] == Sub(user, gift.plan, true, old(subs)[id].limit + p.monthly * gift.months,
                                        old(subs)[id].cap + 2 * p.monthly)
    {
      if token == "" || user == "" {
        return Err(NotFound);
      }
      if token !in cards {
        return Err(NotFound);
      }
      var gift := cards[token];
      if gift.redeemedBy.Some? {
        return Err(AlreadyUsed);
      }
      if gift.refunded {
        return Err(AlreadyRefunded);
      }
      if !(now < gift.expiresAt) {
        return Err(Expired);
      }
      if gift.plan !in plans || !plans[gift.plan].active {
        return Err(NotFound);
      }
      var p := plans[gift.plan];
      var addedTokens, addedDays := p.monthly * gift.months, gift.months * 30;
      var found := FindActive(user);
      var id, action := nextSub, Created;
      if found.None? {
        subs := subs[id := Sub(user, gift.plan, true, p.monthly, p.monthly * 2)];
        nextSub := nextSub + 1;
      } else {
        id := found.value;
        var current := subs[id];
        if current.plan !in plans {
          return Err(PlanUnreadable);
        }
        var newLimit := current.limit + addedTokens;
        if p.sortOrder > plans[current.plan].sortOrder {
          action := Upgraded;
          var newCap := current.cap + p.monthly * 2;
          subs := subs[id := current.(plan := gift.plan, limit := newLimit, cap := newCap)];
        } else {
          action := Extended;
          subs := subs[id := current.(limit := newLimit)];
        }
      }
      log := log + [Grant(id, Some(token), action, p.monthly, gift.months, p.sortOrder)];
      cards := cards[token := gift.(redeemedBy := Some(user))];
      r := Ok(Redemption(id, action, addedTokens, addedDays));
    }

    method RefundGiftCard(token: string, now: int) returns (r: Result<()>)
      modifies this`cards
      ensures (View(), r) == Refund(old(View()), token, now)
      ensures token == "" || token !in old(cards) ==> r == Err(NotFound)
      ensures token != "" && token in old(cards) ==>
                var gift := old(cards)[token];
                if gift.redeemedBy.Some? then r == Err(AlreadyUsed)
                else if gift.refunded then r == Err(AlreadyRefunded)
                else if gift.paid && now <= gift.createdAt + 604_800_000_000_000 then r == Ok(())
                else r == Err(NotEligible)
      ensures cards == if r.Ok? then old(cards)[token := old(cards)[token].(refunded := true)] else old(cards)
    {
      if token == "" || token !in cards {
        return Err(NotFound);
      }
      var g := cards[token];
      if g.redeemedBy.Some? {
        return Err(AlreadyUsed);
      }
      if g.refunded {
        return Err(AlreadyRefunded);
      }
      if !g.paid {
        return Err(NotEligible);
      }
      if now - g.createdAt > REFUND_WINDOW {
        return Err(NotEligible);
      }
      cards := cards[token := g.(refunded := true)];
      return Ok(());
    }
  }
}
