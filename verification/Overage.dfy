/** Reporting overage to Stripe: the projection and the advance of the stored counter
    (backend/internal/store/billing.go, billing_pg.go) and one tick of the worker
    (backend/internal/notifications/overage_worker.go).

    Stripe is the set of idempotency keys it has acknowledged: it bills the tokens of a key the
    first time it sees it and drops the key ever after. */
module Overage {
  import opened Bytes

  /** `reportable`: active, overage enabled, and with a Stripe subscription. */
  datatype Sub = Sub(used: nat, reported: nat, reportable: bool, customer: string)

  datatype Target = Target(id: string, customer: string, used: nat, reported: nat)

  /** The idempotency key. Its text joins the three by colons, and a subscription id has none. */
  datatype Key = Key(sub: string, base: nat, delta: nat)

  /** `advanced` is history: the keys whose tokens were added to `reported`. */
  datatype Books = Books(subs: map<string, Sub>, acked: set<Key>, advanced: set<Key>)

  datatype Reply = Refused | AckLost | Acked

  /** What Stripe answers, and whether the update of the counter then goes through. */
  datatype Outcome = Outcome(reply: Reply, stored: bool)

  datatype Verdict = Skipped | Failed | Reported

  datatype Error = NotFound | Database

  function PendingDelta(t: Target): (delta: nat)
    ensures t.used <= t.reported ==> delta == 0
    ensures t.reported <= t.used ==> t.reported + delta == t.used
  {
    var d := t.used - t.reported;
    if d < 0 then 0 else d
  }

  predicate IsDue(subs: map<string, Sub>, id: string) {
    id in subs && subs[id].reportable && subs[id].reported < subs[id].used
  }

  function Snapshot(id: string, s: Sub): Target {
    Target(id, s.customer, s.used, s.reported)
  }

  ghost predicate Listed(q: seq<Target>, id: string) {
    exists k :: 0 <= k < |q| && q[k].id == id
  }

  /** The answer of the query: each due subscription once, in any order. */
  ghost predicate IsTargetList(subs: map<string, Sub>, q: seq<Target>) {
    && (forall k | 0 <= k < |q| :: IsDue(subs, q[k].id) && q[k] == Snapshot(q[k].id, subs[q[k].id]))
    && (forall j, k | 0 <= j < k < |q| :: q[j].id != q[k].id)
    && (forall id | IsDue(subs, id) :: Listed(q, id))
  }

  function KeyOf(t: Target): Key {
    Key(t.id, t.reported, PendingDelta(t))
  }

  predicate IsSent(t: Target) {
    PendingDelta(t) > 0 && t.customer != ""
  }

  function Advance(subs: map<string, Sub>, id: string, delta: nat): map<string, Sub>
    requires id in subs
  {
    subs[id := subs[id].(reported := subs[id].reported + delta)]
  }

  /** One turn of the worker's loop. */
  function Handle(b: Books, t: Target, o: Outcome): (Books, Verdict) {
    if !IsSent(t) then (b, Skipped)
    else if o.reply == Refused then (b, Failed)
    else
      var told := b.(acked := b.acked + {KeyOf(t)});
      if o.reply == AckLost || !o.stored || t.id !in b.subs then (told, Failed)
      else (told.(subs := Advance(b.subs, t.id, PendingDelta(t)), advanced := b.advanced + {KeyOf(t)}), Reported)
  }

  function HandleAll(b: Books, q: seq<Target>, outcomes: seq<Outcome>): Books
    requires |q| == |outcomes|
  {
    if q == [] then b
    else Handle(HandleAll(b, q[..|q| - 1], outcomes[..|q| - 1]), q[|q| - 1], outcomes[|q| - 1]).0
  }

  function Count(b: Books, q: seq<Target>, outcomes: seq<Outcome>, v: Verdict): nat
    requires |q| == |outcomes|
  {
    if q == [] then 0
    else
      var n := |q| - 1;
      Count(b, q[..n], outcomes[..n], v)
      + if Handle(HandleAll(b, q[..n], outcomes[..n]), q[n], outcomes[n]).1 == v then 1 else 0
  }

  // ----- What a pass does -----

  /** Some of the due subscriptions, each at most once. */
  ghost predicate AreTargets(subs: map<string, Sub>, q: seq<Target>) {
    && (forall k | 0 <= k < |q| :: IsDue(subs, q[k].id) && q[k] == Snapshot(q[k].id, subs[q[k].id]))
    && (forall j, k | 0 <= j < k < |q| :: q[j].id != q[k].id)
  }

  /** Stripe was told, and the counter was moved. */
  predicate IsRecorded(t: Target, o: Outcome) {
    t.customer != "" && o.reply == Acked && o.stored
  }

  /** One turn of the loop, on a target that is still current. */
  lemma HandleMeans(b: Books, t: Target, o: Outcome)
    requires IsDue(b.subs, t.id) && t == Snapshot(t.id, b.subs[t.id])
    ensures var (after, v) := Handle(b, t, o); var key := Key(t.id, t.reported, t.used - t.reported);
            && after.subs == (if IsRecorded(t, o) then b.subs[t.id := b.subs[t.id].(reported := t.used)] else b.subs)
            && after.acked == (if t.customer != "" && o.reply != Refused then b.acked + {key} else b.acked)
            && after.advanced == (if IsRecorded(t, o) then b.advanced + {key} else b.advanced)
            && v == if t.customer == "" then Skipped else if IsRecorded(t, o) then Reported else Failed
  {
  }

  lemma TargetsBefore(subs: map<string, Sub>, q: seq<Target>)
    requires AreTargets(subs, q) && q != []
    ensures AreTargets(subs, q[..|q| - 1]) && !Listed(q[..|q| - 1], q[|q| - 1].id)
    ensures forall id :: Listed(q, id) <==> Listed(q[..|q| - 1], id) || id == q[|q| - 1].id
  {
    var n := |q| - 1;
    forall id
      ensures Listed(q, id) <==> Listed(q[..n], id) || id == q[n].id
    {
      if Listed(q, id) {
        var k :| 0 <= k < |q| && q[k].id == id;
        assert k < n ==> q[..n][k].id == id;
      }
      if Listed(q[..n], id) {
        var k :| 0 <= k < n && q[..n][k].id == id;
        assert q[k].id == id;
      }
      assert q[n].id == q[n].id;
    }
  }

  ghost predicate ReachesUsage(b: Books, t: Books, q: seq<Target>, outcomes: seq<Outcome>)
    requires |q| == |outcomes|
  {
    && t.subs.Keys == b.subs.Keys
    && (forall k | 0 <= k < |q| && q[k].id in b.subs ::
          t.subs[q[k].id] == if IsRecorded(q[k], outcomes[k]) then b.subs[q[k].id].(reported := b.subs[q[k].id].used)
                             else b.subs[q[k].id])
    && (forall id | id in b.subs && !Listed(q, id) :: t.subs[id] == b.subs[id])
  }

  /** Subscription by subscription: the counter moves up to the usage exactly when the report was
      acknowledged and the update went through, and every other subscription stays as it was. */
  lemma {:induction false} PassOnSubs(b: Books, q: seq<Target>, outcomes: seq<Outcome>)
    requires |q| == |outcomes| && AreTargets(b.subs, q)
    ensures ReachesUsage(b, HandleAll(b, q, outcomes), q, outcomes)
  {
    hide Listed;
    if q != [] {
      var n := |q| - 1;
      TargetsBefore(b.subs, q);
      PassOnSubs(b, q[..n], outcomes[..n]);
      var m, t := HandleAll(b, q[..n], outcomes[..n]), HandleAll(b, q, outcomes);
      HandleMeans(m, q[n], outcomes[n]);
      assert t == Handle(m, q[n], outcomes[n]).0;
      hide Handle, HandleAll;
      ReachesFurther(b, m, t, q, outcomes);
    }
  }

  lemma ReachesFurther(b: Books, m: Books, t: Books, q: seq<Target>, outcomes: seq<Outcome>)
    requires |q| == |outcomes| && AreTargets(b.subs, q) && q != []
    requires ReachesUsage(b, m, q[..|q| - 1], outcomes[..|q| - 1])
    requires var last, o := q[|q| - 1], outcomes[|q| - 1];
             t.subs == if IsRecorded(last, o) then m.subs[last.id := m.subs[last.id].(reported := last.used)] else m.subs
    ensures ReachesUsage(b, t, q, outcomes)
  {
    var n := |q| - 1;
    TargetsBefore(b.subs, q);
    assert q[n].id in b.subs && q[n].used == b.subs[q[n].id].used && m.subs[q[n].id] == b.subs[q[n].id];
    assert forall k | 0 <= k < n :: q[k].id != q[n].id && q[..n][k] == q[k];
    hide AreTargets, Listed, IsRecorded;
  }

  /** The state in which the last target is handled still shows it as it was listed. */
  lemma LastIsCurrent(b: Books, q: seq<Target>, outcomes: seq<Outcome>)
    requires |q| == |outcomes| && AreTargets(b.subs, q) && q != []
    ensures var m, t := HandleAll(b, q[..|q| - 1], outcomes[..|q| - 1]), q[|q| - 1];
            IsDue(m.subs, t.id) && t == Snapshot(t.id, m.subs[t.id])
  {
    TargetsBefore(b.subs, q);
    PassOnSubs(b, q[..|q| - 1], outcomes[..|q| - 1]);
    hide Listed, HandleAll;
  }

  predicate Teaches(t: Target, o: Outcome, key: Key) {
    t.customer != "" && o.reply != Refused && key.sub == t.id && key.base == t.reported
    && key.delta == t.used - t.reported
  }

  predicate Records(t: Target, o: Outcome, key: Key) {
    IsRecorded(t, o) && key.sub == t.id && key.base == t.reported && key.delta == t.used - t.reported
  }

  ghost predicate TaughtSometime(q: seq<Target>, outcomes: seq<Outcome>, key: Key)
    requires |q| == |outcomes|
  {
    exists k :: 0 <= k < |q| && Teaches(q[k], outcomes[k], key)
  }

  ghost predicate RecordedSometime(q: seq<Target>, outcomes: seq<Outcome>, key: Key)
    requires |q| == |outcomes|
  {
    exists k :: 0 <= k < |q| && Records(q[k], outcomes[k], key)
  }

  lemma SometimeBefore(q: seq<Target>, outcomes: seq<Outcome>, key: Key)
    requires |q| == |outcomes| && q != []
    ensures var n := |q| - 1;
            && (TaughtSometime(q, outcomes, key)
                <==> TaughtSometime(q[..n], outcomes[..n], key) || Teaches(q[n], outcomes[n], key))
            && (RecordedSometime(q, outcomes, key)
                <==> RecordedSometime(q[..n], outcomes[..n], key) || Records(q[n], outcomes[n], key))
  {
    hide Teaches, Records;
    var n := |q| - 1;
    if k :| 0 <= k < n && Teaches(q[..n][k], outcomes[..n][k], key) {
      assert Teaches(q[k], outcomes[k], key);
    }
    if k :| 0 <= k < n && Records(q[..n][k], outcomes[..n][k], key) {
      assert Records(q[k], outcomes[k], key);
    }
    if k :| 0 <= k < n && Teaches(q[k], outcomes[k], key) {
      assert Teaches(q[..n][k], outcomes[..n][k], key);
    }
    if k :| 0 <= k < n && Records(q[k], outcomes[k], key) {
      assert Records(q[..n][k], outcomes[..n][k], key);
    }
  }

  /** Key by key: Stripe learns the difference of every due subscription with a customer unless it
      refused, and no other key; recorded are exactly those that moved a counter. */
  lemma {:induction false} PassOnKeys(b: Books, q: seq<Target>, outcomes: seq<Outcome>, key: Key)
    requires |q| == |outcomes| && AreTargets(b.subs, q)
    ensures key in HandleAll(b, q, outcomes).acked <==> key in b.acked || TaughtSometime(q, outcomes, key)
    ensures key in HandleAll(b, q, outcomes).advanced <==> key in b.advanced || RecordedSometime(q, outcomes, key)
  {
    if q != [] {
      var n := |q| - 1;
      TargetsBefore(b.subs, q);
      PassOnKeys(b, q[..n], outcomes[..n], key);
      LastIsCurrent(b, q, outcomes);
      HandleMeans(HandleAll(b, q[..n], outcomes[..n]), q[n], outcomes[n]);
      SometimeBefore(q, outcomes, key);
      assert HandleAll(b, q, outcomes) == Handle(HandleAll(b, q[..n], outcomes[..n]), q[n], outcomes[n]).0;
      hide Handle, HandleAll, TaughtSometime, RecordedSometime, AreTargets;
    }
  }

  ghost function Recorded(q: seq<Target>, outcomes: seq<Outcome>): set<nat>
    requires |q| == |outcomes|
  {
    set k: nat | k < |q| && IsRecorded(q[k], outcomes[k])
  }

  ghost function Unrecorded(q: seq<Target>, outcomes: seq<Outcome>): set<nat>
    requires |q| == |outcomes|
  {
    set k: nat | k < |q| && q[k].customer != "" && !IsRecorded(q[k], outcomes[k])
  }

  lemma OneMoreRecorded(q: seq<Target>, outcomes: seq<Outcome>)
    requires |q| == |outcomes| && q != []
    ensures var n := |q| - 1;
            |Recorded(q, outcomes)|
            == |Recorded(q[..n], outcomes[..n])| + if IsRecorded(q[n], outcomes[n]) then 1 else 0
  {
    hide IsRecorded;
    var n := |q| - 1;
    var r := Recorded(q[..n], outcomes[..n]);
    assert Recorded(q, outcomes) == if IsRecorded(q[n], outcomes[n]) then r + {n} else r;
  }

  lemma OneMoreUnrecorded(q: seq<Target>, outcomes: seq<Outcome>)
    requires |q| == |outcomes| && q != []
    ensures var n := |q| - 1;
            |Unrecorded(q, outcomes)|
            == |Unrecorded(q[..n], outcomes[..n])|
               + if q[n].customer != "" && !IsRecorded(q[n], outcomes[n]) then 1 else 0
  {
    hide IsRecorded;
    var n := |q| - 1;
    var r := Unrecorded(q[..n], outcomes[..n]);
    assert Unrecorded(q, outcomes) == if q[n].customer != "" && !IsRecorded(q[n], outcomes[n]) then r + {n} else r;
  }

  /** The two numbers the worker logs count the subscriptions with a customer that were recorded, and
      those that were not. */
  lemma {:induction false} PassCounts(b: Books, q: seq<Target>, outcomes: seq<Outcome>)
    requires |q| == |outcomes| && AreTargets(b.subs, q)
    ensures Count(b, q, outcomes, Reported) == |Recorded(q, outcomes)|
    ensures Count(b, q, outcomes, Failed) == |Unrecorded(q, outcomes)|
  {
    if q != [] {
      var n := |q| - 1;
      TargetsBefore(b.subs, q);
      PassCounts(b, q[..n], outcomes[..n]);
      LastIsCurrent(b, q, outcomes);
      HandleMeans(HandleAll(b, q[..n], outcomes[..n]), q[n], outcomes[n]);
      OneMoreRecorded(q, outcomes);
      OneMoreUnrecorded(q, outcomes);
      hide Handle, HandleAll, Recorded, Unrecorded, AreTargets, Snapshot, IsDue;
    }
  }

  class Billing {
    var subs: map<string, Sub>
    var acked: set<Key>
    ghost var advanced: set<Key>

    ghost function View(): Books
      reads this
    {
      Books(subs, acked, advanced)
    }

    method ListSubscriptionsForOverageReport() returns (q: seq<Target>)
      ensures IsTargetList(subs, q)
    {
      q := [];
      var left := set id | id in subs && IsDue(subs, id);
      while left != {}
        invariant forall id | id in left :: IsDue(subs, id) && forall k | 0 <= k < |q| :: q[k].id != id
        invariant forall k | 0 <= k < |q| :: IsDue(subs, q[k].id) && q[k] == Snapshot(q[k].id, subs[q[k].id])
        invariant forall j, k | 0 <= j < k < |q| :: q[j].id != q[k].id
        invariant forall id | IsDue(subs, id) :: id in left || Listed(q, id)
        decreases left
      {
        var id :| id in left;
        var longer := q + [Snapshot(id, subs[id])];
        forall other | Listed(q, other)
          ensures Listed(longer, other)
        {
          var k :| 0 <= k < |q| && q[k].id == other;
          assert longer[k].id == other;
        }
        assert longer[|q|].id == id;
        q, left := longer, left - {id};
      }
    }

    /** Sends one meter event; `ok` is what the worker gets to see. */
    method ReportOverage(customer: string, delta: nat, key: Key, reply: Reply) returns (ok: bool)
      modifies this`acked
      ensures acked == if customer == "" || delta == 0 || reply == Refused then old(acked) else old(acked) + {key}
      ensures ok == (customer != "" && (delta == 0 || reply == Acked))
    {
      if customer == "" {
        return false;
      }
      if delta == 0 {
        return true;
      }
      if reply != Refused {
        acked := acked + {key};
      }
      ok := reply == Acked;
    }

    method AdvanceOverageReported(id: string, delta: nat, works: bool) returns (e: Option<Error>)
      modifies this`subs
      ensures e == if delta == 0 then None else if !works then Some(Database)
                   else if id !in old(subs) then Some(NotFound) else None
      ensures subs == if delta > 0 && e.None? then Advance(old(subs), id, delta) else old(subs)
    {
      if delta == 0 {
        return None;
      }
      if !works {
        return Some(Database);
      }
      if id !in subs {
        return Some(NotFound);
      }
      subs := Advance(subs, id, delta);
      return None;
    }

    method Tick(outcomes: nat -> Outcome) returns (q: seq<Target>, reported: nat, failed: nat)
      modifies this
      ensures IsTargetList(old(subs), q)
      ensures var os := seq(|q|, k requires 0 <= k => outcomes(k));
              View() == HandleAll(old(View()), q, os)
              && reported == Count(old(View()), q, os, Reported) && failed == Count(old(View()), q, os, Failed)
    {
      q := ListSubscriptionsForOverageReport();
      reported, failed := 0, 0;
      ghost var os := seq(|q|, k requires 0 <= k => outcomes(k));
      ghost var start := View();
      for k := 0 to |q|
        invariant View() == HandleAll(start, q[..k], os[..k])
        invariant reported == Count(start, q[..k], os[..k], Reported)
        invariant failed == Count(start, q[..k], os[..k], Failed)
      {
        assert q[..k + 1][..k] == q[..k] && os[..k + 1][..k] == os[..k];
        var t, o := q[k], outcomes(k);
        var delta := PendingDelta(t);
        if delta <= 0 {
          continue;
        }
        if t.customer == "" {
          continue;
        }
        var key := Key(t.id, t.reported, delta);
        var ok := ReportOverage(t.customer, delta, key, o.reply);
        if !ok {
          failed := failed + 1;
          continue;
        }
        var e := AdvanceOverageReported(t.id, delta, o.stored);
        if e.Some? {
          failed := failed + 1;
          continue;
        }
        advanced := advanced + {key};
        reported := reported + 1;
      }
      assert q[..|q|] == q && os[..|q|] == os;
    }
  }
}
