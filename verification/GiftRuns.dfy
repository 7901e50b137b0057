/** Every serialised run of plan assignments, redemptions and refunds, with cards being issued, plans
    repriced and switched on and off, and time passing in between. What a subscription holds is then
    what its opening plan and the cards it absorbed gave it, and no card is ever given twice. */
module GiftRuns {
  import opened Bytes
  import opened Gifts

  datatype System = System(db: Db, now: int)

  datatype Event =
    | Assign(user: string, code: string)
    | Redeem(token: string, user: string)
    | TakeBack(token: string)
    | Issue(token: string, card: Card)
    | Reprice(code: string, monthly: nat)
    | Resort(code: string, sortOrder: int)
    | Switch(code: string, active: bool)
    | Pass(now: int)

  /** Redeem tokens are unique, and a card is issued unused for an existing plan. */
  predicate Enabled(s: System, e: Event) {
    match e
    case Issue(token, card) =>
      token !in s.db.cards && card.plan in s.db.plans && card.redeemedBy.None? && !card.refunded
    case Reprice(code, _) => code in s.db.plans
    case Resort(code, _) => code in s.db.plans
    case Switch(code, _) => code in s.db.plans
    case Pass(now) => s.now <= now
    case _ => true
  }

  ghost function Step(s: System, e: Event): System
    requires Enabled(s, e)
  {
    match e
    case Assign(user, code) => s.(db := Gifts.Assign(s.db, user, code).0)
    case Redeem(token, user) => s.(db := Apply(s.db, token, user, s.now).0)
    case TakeBack(token) => s.(db := Refund(s.db, token, s.now).0)
    case Issue(token, card) => s.(db := s.db.(cards := s.db.cards[token := card]))
    case Reprice(code, monthly) =>
      s.(db := s.db.(plans := s.db.plans[code := s.db.plans[code].(monthly := monthly)]))
    case Resort(code, sortOrder) =>
      s.(db := s.db.(plans := s.db.plans[code := s.db.plans[code].(sortOrder := sortOrder)]))
    case Switch(code, active) =>
      s.(db := s.db.(plans := s.db.plans[code := s.db.plans[code].(active := active)]))
    case Pass(now) => s.(now := now)
  }

  ghost predicate IsRun(s: System, es: seq<Event>)
    decreases |es|
  {
    es != [] ==> Enabled(s, es[0]) && IsRun(Step(s, es[0]), es[1..])
  }

  ghost function Run(s: System, es: seq<Event>): System
    requires IsRun(s, es)
    decreases |es|
  {
    if es == [] then s else Run(Step(s, es[0]), es[1..])
  }

  // ----- What the log adds up to -----

  /** The tokens of the cards a subscription absorbed after it was opened. */
  function Gifted(log: seq<Grant>, id: nat): nat {
    if log == [] then 0
    else
      var g := log[|log| - 1];
      Gifted(log[..|log| - 1], id) + if g.sub == id && g.action != Created then g.monthly * g.months else 0
  }

  /** The overage allowance of the cards that raised its tier. */
  function Raised(log: seq<Grant>, id: nat): nat {
    if log == [] then 0
    else
      var g := log[|log| - 1];
      Raised(log[..|log| - 1], id) + if g.sub == id && g.action == Upgraded then 2 * g.monthly else 0
  }

  function Uses(log: seq<Grant>, token: string): nat {
    if log == [] then 0
    else Uses(log[..|log| - 1], token) + if log[|log| - 1].card == Some(token) then 1 else 0
  }

  /** Grant `k` opened the subscription, and every other grant to it is later and opened nothing. */
  ghost predicate IsOpening(log: seq<Grant>, id: nat, k: nat) {
    k < |log| && log[k].sub == id && log[k].action == Created
    && forall j | 0 <= j < |log| && log[j].sub == id && j != k :: k < j && log[j].action != Created
  }

  ghost predicate IsTop(log: seq<Grant>, id: nat, tier: int) {
    (forall j | 0 <= j < |log| && log[j].sub == id :: log[j].sortOrder <= tier)
    && exists j :: 0 <= j < |log| && log[j].sub == id && log[j].sortOrder == tier
  }

  /** An upgrade is a card of a higher tier than everything the subscription had before. */
  ghost predicate UpgradesRaise(log: seq<Grant>) {
    forall k | 0 <= k < |log| && log[k].action != Created ::
      log[k].action == Upgraded
      <==> forall j | 0 <= j < k && log[j].sub == log[k].sub :: log[j].sortOrder < log[k].sortOrder
  }

  /** What a subscription holds, in terms of what it was given. */
  ghost predicate Accounted(db: Db, id: nat)
    requires id in db.subs
  {
    exists k: nat :: IsOpening(db.log, id, k)
                     && db.subs[id].limit == db.log[k].monthly + Gifted(db.log, id)
                     && db.subs[id].cap == 2 * db.log[k].monthly + Raised(db.log, id)
  }

  predicate IsUsed(db: Db, token: string) {
    token in db.cards && db.cards[token].redeemedBy.Some?
  }

  ghost predicate Sound(db: Db) {
    && (forall id | id in db.subs :: id < db.nextSub && db.subs[id].plan in db.plans)
    && OneActive(db.subs)
  }

  /** Every card is in the log once if it was redeemed and not at all otherwise. */
  ghost predicate CardsCountOnce(db: Db) {
    && (forall token :: Uses(db.log, token) == if IsUsed(db, token) then 1 else 0)
    && (forall token | IsUsed(db, token) :: !db.cards[token].refunded)
  }

  ghost predicate AllAccounted(db: Db) {
    && (forall id | id in db.subs :: Accounted(db, id))
    && (forall k | 0 <= k < |db.log| :: db.log[k].sub in db.subs)
  }

  /** Every subscription is on the tier of the highest thing it was given. */
  ghost predicate Tiered(db: Db) {
    && (forall id | id in db.subs ::
          db.subs[id].plan in db.plans && IsTop(db.log, id, db.plans[db.subs[id].plan].sortOrder))
    && (forall k | 0 <= k < |db.log| :: db.log[k].sub in db.subs)
    && UpgradesRaise(db.log)
  }

  ghost predicate Inv(db: Db) {
    Sound(db) && AllAccounted(db) && CardsCountOnce(db)
  }

  // ----- One step -----

  lemma GrantElsewhere(log: seq<Grant>, g: Grant, id: nat, k: nat)
    requires g.sub != id && IsOpening(log, id, k)
    ensures IsOpening(log + [g], id, k)
    ensures Gifted(log + [g], id) == Gifted(log, id) && Raised(log + [g], id) == Raised(log, id)
  {
    assert (log + [g])[..|log|] == log;
  }

  lemma UngrantedHasNone(log: seq<Grant>, id: nat)
    requires forall k | 0 <= k < |log| :: log[k].sub != id
    ensures Gifted(log, id) == 0 && Raised(log, id) == 0
  {
  }

  lemma OthersStayAccounted(db: Db, t: Db, g: Grant, id: nat)
    requires id in db.subs && id in t.subs
    requires Accounted(db, id) && t.log == db.log + [g] && g.sub != id
    requires t.subs[id] == db.subs[id].(active := t.subs[id].active)
    ensures Accounted(t, id)
  {
    var k: nat :| IsOpening(db.log, id, k) && db.subs[id].limit == db.log[k].monthly + Gifted(db.log, id)
                  && db.subs[id].cap == 2 * db.log[k].monthly + Raised(db.log, id);
    GrantElsewhere(db.log, g, id, k);
  }

  lemma OpenedIsAccounted(db: Db, user: string, code: string, card: Option<string>, months: nat)
    requires code in db.plans && forall k | 0 <= k < |db.log| :: db.log[k].sub != db.nextSub
    ensures Accounted(OpenSub(db, user, code, card, months), db.nextSub)
  {
    var t := OpenSub(db, user, code, card, months);
    var n := |db.log|;
    UngrantedHasNone(db.log, db.nextSub);
    assert t.log[..n] == db.log;
    assert IsOpening(t.log, db.nextSub, n);
    assert t.log[n].sub == db.nextSub;
  }

  lemma OpenKeepsAccounts(db: Db, user: string, code: string, card: Option<string>, months: nat)
    requires AllAccounted(db) && code in db.plans && forall id | id in db.subs :: id < db.nextSub
    ensures AllAccounted(OpenSub(db, user, code, card, months))
  {
    hide Accounted;
    var t := OpenSub(db, user, code, card, months);
    assert forall k | 0 <= k < |db.log| :: t.log[k] == db.log[k];
    OpenedIsAccounted(db, user, code, card, months);
    forall id | id in db.subs
      ensures Accounted(t, id)
    {
      OthersStayAccounted(db, t, t.log[|db.log|], id);
    }
  }

  lemma AbsorbedIsAccounted(db: Db, id: nat, token: string, card: Card)
    requires id in db.subs && db.subs[id].plan in db.plans && Accounted(db, id) && card.plan in db.plans
    ensures Accounted(Absorb(db, id, token, card).0, id)
  {
    var t := Absorb(db, id, token, card).0;
    var k: nat :| IsOpening(db.log, id, k) && db.subs[id].limit == db.log[k].monthly + Gifted(db.log, id)
                  && db.subs[id].cap == 2 * db.log[k].monthly + Raised(db.log, id);
    assert t.log[..|db.log|] == db.log;
    assert IsOpening(t.log, id, k);
  }

  lemma AbsorbKeepsAccounts(db: Db, id: nat, token: string, card: Card)
    requires AllAccounted(db) && id in db.subs && db.subs[id].plan in db.plans && card.plan in db.plans
    ensures AllAccounted(Absorb(db, id, token, card).0)
  {
    hide Accounted;
    var t := Absorb(db, id, token, card).0;
    AbsorbedIsAccounted(db, id, token, card);
    forall other | other in db.subs && other != id
      ensures Accounted(t, other)
    {
      OthersStayAccounted(db, t, t.log[|db.log|], other);
    }
  }

  lemma UsesAfter(log: seq<Grant>, g: Grant, token: string)
    ensures Uses(log + [g], token) == Uses(log, token) + if g.card == Some(token) then 1 else 0
  {
    assert (log + [g])[..|log|] == log;
  }

  lemma UseOnce(db: Db, t: Db, g: Grant, token: string, user: string)
    requires CardsCountOnce(db) && t.log == db.log + [g] && g.card == Some(token)
    requires token in db.cards && !IsUsed(db, token) && !db.cards[token].refunded
    requires t.cards == db.cards[token := db.cards[token].(redeemedBy := Some(user))]
    ensures CardsCountOnce(t)
  {
    forall other: string
      ensures Uses(t.log, other) == if IsUsed(t, other) then 1 else 0
    {
      UsesAfter(db.log, g, other);
      assert IsUsed(t, other) <==> other == token || IsUsed(db, other);
    }
  }

  lemma CancelKeepsAccounts(db: Db, user: string)
    requires AllAccounted(db)
    ensures AllAccounted(db.(subs := WithCancelled(db.subs, user)))
  {
    var cancelled := db.(subs := WithCancelled(db.subs, user));
    forall id | id in db.subs
      ensures Accounted(cancelled, id)
    {
      assert Accounted(db, id);
    }
  }

  /** Opening a subscription for a user who has no active one. */
  lemma OpenKeepsSound(db: Db, user: string, code: string, card: Option<string>, months: nat)
    requires Sound(db) && code in db.plans && forall id :: !IsActiveOf(db.subs, id, user)
    ensures Sound(OpenSub(db, user, code, card, months))
  {
    var t := OpenSub(db, user, code, card, months);
    forall a, b, u | IsActiveOf(t.subs, a, u) && IsActiveOf(t.subs, b, u)
      ensures a == b
    {
      assert a == db.nextSub || IsActiveOf(db.subs, a, u);
      assert b == db.nextSub || IsActiveOf(db.subs, b, u);
    }
  }

  lemma CancelKeepsSound(db: Db, user: string)
    requires Sound(db)
    ensures Sound(db.(subs := WithCancelled(db.subs, user)))
    ensures forall id :: !IsActiveOf(WithCancelled(db.subs, user), id, user)
  {
    var t := WithCancelled(db.subs, user);
    assert forall a, u :: IsActiveOf(t, a, u) ==> IsActiveOf(db.subs, a, u);
  }

  lemma AbsorbKeepsSound(db: Db, id: nat, token: string, card: Card)
    requires Sound(db) && id in db.subs && card.plan in db.plans
    ensures Sound(Absorb(db, id, token, card).0)
  {
    var t := Absorb(db, id, token, card).0;
    assert forall a, u :: IsActiveOf(t.subs, a, u) ==> IsActiveOf(db.subs, a, u);
  }

  lemma AssignKeepsInv(db: Db, user: string, code: string)
    requires Inv(db)
    ensures Inv(Gifts.Assign(db, user, code).0)
  {
    hide AllAccounted;
    if code in db.plans && db.plans[code].active {
      var cancelled := db.(subs := WithCancelled(db.subs, user));
      CancelKeepsAccounts(db, user);
      CancelKeepsSound(db, user);
      OpenKeepsSound(cancelled, user, code, None, 1);
      OpenKeepsAccounts(cancelled, user, code, None, 1);
      NoCardUsed(db, OpenSub(cancelled, user, code, None, 1));
    }
  }

  lemma NoCardUsed(db: Db, t: Db)
    requires CardsCountOnce(db) && t.cards == db.cards
    requires |t.log| == |db.log| + 1 && t.log == db.log + [t.log[|db.log|]] && t.log[|db.log|].card.None?
    ensures CardsCountOnce(t)
  {
    forall token: string
      ensures Uses(t.log, token) == Uses(db.log, token) && (IsUsed(t, token) <==> IsUsed(db, token))
    {
      UsesAfter(db.log, t.log[|db.log|], token);
    }
  }

  lemma ApplyKeepsInv(db: Db, token: string, user: string, now: int)
    requires Inv(db)
    ensures Inv(Apply(db, token, user, now).0)
  {
    hide CardsCountOnce, AllAccounted;
    if Redeemable(db, token, user, now) {
      var card, current := db.cards[token], ActiveOf(db.subs, user);
      var t := Apply(db, token, user, now).0;
      var granted := if current.None? then OpenSub(db, user, card.plan, Some(token), card.months)
                     else Absorb(db, current.value, token, card).0;
      if current.None? {
        OpenKeepsAccounts(db, user, card.plan, Some(token), card.months);
        OpenKeepsSound(db, user, card.plan, Some(token), card.months);
      } else {
        AbsorbKeepsAccounts(db, current.value, token, card);
        AbsorbKeepsSound(db, current.value, token, card);
      }
      AccountsIgnoreCards(granted, t);
      UseOnce(db, t, t.log[|db.log|], token, user);
    }
  }

  lemma AccountsIgnoreCards(db: Db, t: Db)
    requires AllAccounted(db) && t == db.(cards := t.cards)
    ensures AllAccounted(t)
  {
    forall id | id in t.subs
      ensures Accounted(t, id)
    {
      assert Accounted(db, id);
    }
  }

  lemma PlansMayChange(db: Db, t: Db)
    requires Inv(db) && t == db.(plans := t.plans) && t.plans.Keys == db.plans.Keys
    ensures Inv(t)
  {
    forall id | id in t.subs
      ensures Accounted(t, id)
    {
      assert Accounted(db, id);
    }
    assert forall token :: IsUsed(t, token) <==> IsUsed(db, token);
  }

  lemma CardsMayChange(db: Db, t: Db)
    requires Inv(db) && t == db.(cards := t.cards)
    requires forall token :: IsUsed(t, token) <==> IsUsed(db, token)
    requires forall token | IsUsed(t, token) :: !t.cards[token].refunded
    ensures Inv(t)
  {
    AccountsIgnoreCards(db, t);
  }

  lemma StepKeepsInv(s: System, e: Event)
    requires Inv(s.db) && Enabled(s, e)
    ensures Inv(Step(s, e).db)
  {
    hide AllAccounted, CardsCountOnce;
    var t := Step(s, e).db;
    match e
    case Assign(user, code) => AssignKeepsInv(s.db, user, code);
    case Redeem(token, user) => ApplyKeepsInv(s.db, token, user, s.now);
    case TakeBack(token) =>
      UsedAreNotRefunded(s.db);
      CardsMayChange(s.db, t);
    case Issue(token, card) =>
      UsedAreNotRefunded(s.db);
      CardsMayChange(s.db, t);
    case Reprice(code, monthly) => PlansMayChange(s.db, t);
    case Resort(code, sortOrder) => PlansMayChange(s.db, t);
    case Switch(code, active) => PlansMayChange(s.db, t);
    case Pass(now) =>
  }

  lemma UsedAreNotRefunded(db: Db)
    requires CardsCountOnce(db)
    ensures forall token | IsUsed(db, token) :: !db.cards[token].refunded
  {
  }

  // ----- Tiers -----

  lemma TopElsewhere(log: seq<Grant>, g: Grant, id: nat, tier: int)
    requires g.sub != id && IsTop(log, id, tier)
    ensures IsTop(log + [g], id, tier)
  {
    var j :| 0 <= j < |log| && log[j].sub == id && log[j].sortOrder == tier;
    assert (log + [g])[j] == log[j];
  }

  lemma OpenedIsTop(log: seq<Grant>, g: Grant)
    requires forall k | 0 <= k < |log| :: log[k].sub != g.sub
    ensures IsTop(log + [g], g.sub, g.sortOrder)
  {
    assert (log + [g])[|log|] == g;
  }

  lemma OpeningRaisesNothing(log: seq<Grant>, g: Grant)
    requires UpgradesRaise(log) && g.action == Created
    ensures UpgradesRaise(log + [g])
  {
    assert forall k | 0 <= k < |log| :: (log + [g])[k] == log[k];
  }

  lemma OpenKeepsTiers(db: Db, user: string, code: string, card: Option<string>, months: nat)
    requires Tiered(db) && code in db.plans && forall id | id in db.subs :: id < db.nextSub
    ensures Tiered(OpenSub(db, user, code, card, months))
  {
    hide IsTop, UpgradesRaise;
    var t := OpenSub(db, user, code, card, months);
    var g := t.log[|db.log|];
    assert forall k | 0 <= k < |db.log| :: t.log[k] == db.log[k];
    OpenedIsTop(db.log, g);
    OpeningRaisesNothing(db.log, g);
    forall id | id in db.subs
      ensures IsTop(t.log, id, t.plans[t.subs[id].plan].sortOrder)
    {
      TopElsewhere(db.log, g, id, db.plans[db.subs[id].plan].sortOrder);
    }
  }

  lemma AbsorbedIsTop(db: Db, id: nat, token: string, card: Card)
    requires id in db.subs && db.subs[id].plan in db.plans && card.plan in db.plans
    requires IsTop(db.log, id, db.plans[db.subs[id].plan].sortOrder)
    ensures var t := Absorb(db, id, token, card).0; IsTop(t.log, id, t.plans[t.subs[id].plan].sortOrder)
  {
    var t := Absorb(db, id, token, card).0;
    var n, tier := |db.log|, db.plans[db.subs[id].plan].sortOrder;
    var j :| 0 <= j < n && db.log[j].sub == id && db.log[j].sortOrder == tier;
    assert t.log[j] == db.log[j] && t.log[n].sub == id;
  }

  lemma AbsorbRaises(db: Db, id: nat, token: string, card: Card)
    requires id in db.subs && db.subs[id].plan in db.plans && card.plan in db.plans
    requires IsTop(db.log, id, db.plans[db.subs[id].plan].sortOrder) && UpgradesRaise(db.log)
    ensures UpgradesRaise(Absorb(db, id, token, card).0.log)
  {
    var t := Absorb(db, id, token, card).0;
    var n, tier := |db.log|, db.plans[db.subs[id].plan].sortOrder;
    assert forall k | 0 <= k < n :: t.log[k] == db.log[k];
    var j :| 0 <= j < n && db.log[j].sub == id && db.log[j].sortOrder == tier;
    assert t.log[j].sub == t.log[n].sub;
  }

  lemma AbsorbKeepsTiers(db: Db, id: nat, token: string, card: Card)
    requires Tiered(db) && id in db.subs && card.plan in db.plans
    ensures Tiered(Absorb(db, id, token, card).0)
  {
    hide IsTop, UpgradesRaise;
    var t := Absorb(db, id, token, card).0;
    AbsorbedIsTop(db, id, token, card);
    AbsorbRaises(db, id, token, card);
    assert forall k | 0 <= k < |db.log| :: t.log[k] == db.log[k];
    forall other | other in db.subs && other != id
      ensures IsTop(t.log, other, t.plans[t.subs[other].plan].sortOrder)
    {
      TopElsewhere(db.log, t.log[|db.log|], other, db.plans[db.subs[other].plan].sortOrder);
    }
  }

  lemma StepKeepsTiers(s: System, e: Event)
    requires Sound(s.db) && Tiered(s.db) && Enabled(s, e) && !e.Resort?
    ensures Tiered(Step(s, e).db)
  {
    hide IsTop, UpgradesRaise;
    match e
    case Assign(user, code) =>
      if code in s.db.plans && s.db.plans[code].active {
        OpenKeepsTiers(s.db.(subs := WithCancelled(s.db.subs, user)), user, code, None, 1);
      }
    case Redeem(token, user) =>
      if Redeemable(s.db, token, user, s.now) {
        var card, current := s.db.cards[token], ActiveOf(s.db.subs, user);
        if current.None? {
          OpenKeepsTiers(s.db, user, card.plan, Some(token), card.months);
        } else {
          AbsorbKeepsTiers(s.db, current.value, token, card);
        }
      }
    case _ =>
  }

  /** Editing a plan's sort order keeps every subscription on its highest tier exactly when it changes
      nothing or no subscription, active or not, is on the plan. */
  lemma ResortKeepsTiersIff(s: System, code: string, sortOrder: int)
    requires Tiered(s.db) && Enabled(s, Resort(code, sortOrder))
    ensures Tiered(Step(s, Resort(code, sortOrder)).db)
            <==> s.db.plans[code].sortOrder == sortOrder || forall id | id in s.db.subs :: s.db.subs[id].plan != code
  {
    hide UpgradesRaise;
    var t := Step(s, Resort(code, sortOrder)).db;
    if s.db.plans[code].sortOrder == sortOrder {
      assert t.plans == s.db.plans;
    } else if id :| id in s.db.subs && s.db.subs[id].plan == code {
      TopIsUnique(s.db.log, id, s.db.plans[code].sortOrder, sortOrder);
    }
  }

  lemma TopIsUnique(log: seq<Grant>, id: nat, a: int, b: int)
    requires IsTop(log, id, a)
    ensures IsTop(log, id, b) ==> a == b
  {
  }

  // ----- Every run -----

  /** Before anything was sold or given: plans exist, and maybe unused cards. */
  predicate Fresh(db: Db) {
    db.subs == map[] && db.log == [] && forall t | t in db.cards :: db.cards[t].redeemedBy.None?
  }

  lemma {:induction false} RunKeepsInv(s: System, es: seq<Event>)
    requires Inv(s.db) && IsRun(s, es)
    ensures Inv(Run(s, es).db)
    ensures Tiered(s.db) && (forall e | e in es :: !e.Resort?) ==> Tiered(Run(s, es).db)
    decreases |es|
  {
    hide Inv, Tiered, Sound, Step, Enabled;
    if es != [] {
      StepKeepsInv(s, es[0]);
      if Tiered(s.db) && forall e | e in es :: !e.Resort? {
        assert es[0] in es;
        InvIsSound(s.db);
        StepKeepsTiers(s, es[0]);
      }
      RunKeepsInv(Step(s, es[0]), es[1..]);
    }
  }

  lemma InvIsSound(db: Db)
    requires Inv(db)
    ensures Sound(db)
  {
  }

  lemma FreshHolds(db: Db)
    requires Fresh(db)
    ensures Inv(db) && Tiered(db)
  {
  }

  lemma AddsUp(db: Db, id: nat)
    requires Inv(db) && id in db.subs
    ensures db.subs[id].plan in db.plans
    ensures exists k: nat :: IsOpening(db.log, id, k)
                             && db.subs[id].limit == db.log[k].monthly + Gifted(db.log, id)
                             && db.subs[id].cap == 2 * db.log[k].monthly + Raised(db.log, id)
    ensures Tiered(db) ==> IsTop(db.log, id, db.plans[db.subs[id].plan].sortOrder)
  {
    assert Accounted(db, id);
  }

  /** The main result, for every subscription there is after any run. Its tier is compared by sort
      order, which an admin may edit; it is the highest the subscription was given as long as none is. */
  lemma SubscriptionsAddUp(s: System, es: seq<Event>, db: Db, id: nat)
    requires Fresh(s.db) && IsRun(s, es) && db == Run(s, es).db && id in db.subs
    ensures db.subs[id].plan in db.plans
    ensures exists k: nat :: IsOpening(db.log, id, k)
                             && db.subs[id].limit == db.log[k].monthly + Gifted(db.log, id)
                             && db.subs[id].cap == 2 * db.log[k].monthly + Raised(db.log, id)
    ensures (forall e | e in es :: !e.Resort?) ==> IsTop(db.log, id, db.plans[db.subs[id].plan].sortOrder)
  {
    hide *;
    FreshHolds(s.db);
    RunKeepsInv(s, es);
    AddsUp(db, id);
  }

  lemma AtMostOneActive(s: System, es: seq<Event>, a: nat, b: nat, user: string)
    requires Fresh(s.db) && IsRun(s, es)
    requires IsActiveOf(Run(s, es).db.subs, a, user) && IsActiveOf(Run(s, es).db.subs, b, user)
    ensures a == b
  {
    RunKeepsInv(s, es);
  }

  lemma CardsAreGivenOnce(s: System, es: seq<Event>, token: string)
    requires Fresh(s.db) && IsRun(s, es)
    ensures var db := Run(s, es).db;
            Uses(db.log, token) <= 1 && (Uses(db.log, token) == 1 <==> IsUsed(db, token))
            && (token in db.cards && db.cards[token].refunded ==> Uses(db.log, token) == 0)
  {
    RunKeepsInv(s, es);
  }

  /** Once refunded or redeemed, a card can never be redeemed again. */
  lemma {:induction false} SpentStaysSpent(s: System, es: seq<Event>, token: string)
    requires IsRun(s, es) && token in s.db.cards
    requires s.db.cards[token].refunded || s.db.cards[token].redeemedBy.Some?
    ensures var (c, end) := (s.db.cards[token], Run(s, es).db);
            token in end.cards && end.cards[token].refunded == c.refunded && end.cards[token].redeemedBy == c.redeemedBy
    decreases |es|
  {
    if es != [] {
      SpentStaysSpent(Step(s, es[0]), es[1..], token);
    }
  }

  // ----- What the response says -----

  /** The response announces monthly * months tokens. A card that opens a subscription adds one
      month's allowance whatever its length, so the announcement is right exactly when the user has an
      active subscription, or the card lasts one month, or its plan carries no tokens. */
  lemma AnnouncedTokensAreAddedIff(db: Db, token: string, user: string, now: int)
    requires Sound(db) && Redeemable(db, token, user, now)
    ensures var (t, r) := Apply(db, token, user, now);
            var before := if r.value.sub in db.subs then db.subs[r.value.sub].limit else 0;
            r.Ok? && r.value.sub in t.subs
            && (t.subs[r.value.sub].limit == before + r.value.addedTokens
                <==> ActiveOf(db.subs, user).Some? || db.cards[token].months == 1
                     || db.plans[db.cards[token].plan].monthly == 0)
  {
    var m, n := db.plans[db.cards[token].plan].monthly, db.cards[token].months;
    OneMonthIff(m, n);
  }

  lemma OneMonthIff(m: nat, n: nat)
    ensures m == m * n <==> n == 1 || m == 0
  {
    if m != 0 && n != 1 {
      if n > 1 {
        assert m * n == m + m * (n - 1);
        assert m * (n - 1) > 0;
      }
    }
  }
}
