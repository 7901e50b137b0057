/** Every run of the overage accounts with one reporting worker: usage moves, settings change, the
    worker lists, reports and advances, and fails or crashes anywhere.

    After every run the tokens Stripe billed are the tokens recorded as reported plus the tokens of
    the keys it acknowledged that were never recorded. What those keys come to, and when a tick
    clears them, is stated exactly. */
module OverageRuns {
  import opened Bytes
  import opened Overage

  /** `queue` is what the worker has listed and not handled yet. */
  datatype System = System(b: Books, queue: seq<Target>)

  datatype Event =
    | Open(id: string)
    | SetUsed(id: string, used: nat)
    | Configure(id: string, reportable: bool, customer: string)
    | List(q: seq<Target>)
    | Report(o: Outcome)
    | Crash

  ghost predicate Enabled(s: System, e: Event) {
    match e
    case Open(id) => id !in s.b.subs
    case SetUsed(id, _) => id in s.b.subs
    case Configure(id, _, _) => id in s.b.subs
    case List(q) => s.queue == [] && IsTargetList(s.b.subs, q)
    case Report(_) => s.queue != []
    case Crash => true
  }

  ghost function Step(s: System, e: Event): System
    requires Enabled(s, e)
  {
    match e
    case Open(id) => s.(b := s.b.(subs := s.b.subs[id := Sub(0, 0, false, "")]))
    case SetUsed(id, used) => s.(b := s.b.(subs := s.b.subs[id := s.b.subs[id].(used := used)]))
    case Configure(id, reportable, customer) =>
      s.(b := s.b.(subs := s.b.subs[id := s.b.subs[id].(reportable := reportable, customer := customer)]))
    case List(q) => s.(queue := q)
    case Report(o) => System(Handle(s.b, s.queue[0], o).0, s.queue[1..])
    case Crash => s.(queue := [])
  }

  ghost predicate IsRun(s: System, es: seq<Event>)
    decreases |es|
  {
    es != [] ==> Enabled(s, es[0]) && IsRun(Step(s, es[0]), es[1..])
  }

  ghost function Run(s: System, es: seq<Event>): System
    requires IsRun(s, es)
    decreases |es|
  {
    if es == [] then s else Run(Step(s, es[0]), es[1..])
  }

  const EMPTY := System(Books(map[], {}, {}), [])

  // ----- Sums of keys -----

  ghost function Total(keys: set<Key>): nat
    decreases keys
  {
    if keys == {} then 0 else
      var k :| k in keys;
      k.delta + Total(keys - {k})
  }

  lemma {:induction false} TotalWithout(keys: set<Key>, k: Key)
    requires k in keys
    ensures Total(keys) == k.delta + Total(keys - {k})
    decreases keys
  {
    var first :| first in keys && Total(keys) == first.delta + Total(keys - {first});
    if first != k {
      TotalWithout(keys - {first}, k);
      TotalWithout(keys - {k}, first);
      assert keys - {first} - {k} == keys - {k} - {first};
    }
  }

  lemma {:induction false} TotalOfUnion(a: set<Key>, c: set<Key>)
    requires a !! c
    ensures Total(a + c) == Total(a) + Total(c)
    decreases a
  {
    if a == {} {
      assert a + c == c;
    } else {
      var k :| k in a;
      TotalWithout(a, k);
      TotalWithout(a + c, k);
      assert a + c - {k} == (a - {k}) + c;
      TotalOfUnion(a - {k}, c);
    }
  }

  ghost function Of(keys: set<Key>, id: string): set<Key> {
    set k | k in keys && k.sub == id
  }

  ghost function Billed(b: Books, id: string): nat {
    Total(Of(b.acked, id))
  }

  /** Acknowledged and never recorded. */
  ghost function Orphans(b: Books, id: string): set<Key> {
    Of(b.acked - b.advanced, id)
  }

  // ----- The accounting -----

  ghost predicate KeysAreSound(b: Books) {
    && b.advanced <= b.acked
    && (forall k | k in b.acked :: k.sub in b.subs && k.delta > 0 && k.base <= b.subs[k.sub].reported)
    && (forall k | k in b.advanced :: k.base + k.delta <= b.subs[k.sub].reported)
  }

  ghost predicate RecordedIsAdvanced(b: Books) {
    forall id | id in b.subs :: b.subs[id].reported == Total(Of(b.advanced, id))
  }

  ghost predicate QueueIsCurrent(s: System) {
    && (forall k | 0 <= k < |s.queue| ::
          s.queue[k].id in s.b.subs && s.queue[k].reported == s.b.subs[s.queue[k].id].reported)
    && (forall j, k | 0 <= j < k < |s.queue| :: s.queue[j].id != s.queue[k].id)
  }

  ghost predicate Inv(s: System) {
    KeysAreSound(s.b) && RecordedIsAdvanced(s.b) && QueueIsCurrent(s)
  }

  lemma HandleKeepsTotals(b: Books, t: Target, o: Outcome)
    requires KeysAreSound(b) && RecordedIsAdvanced(b)
    requires t.id in b.subs && t.reported == b.subs[t.id].reported
    ensures RecordedIsAdvanced(Handle(b, t, o).0)
  {
    var (after, v) := Handle(b, t, o);
    forall id | id in after.subs
      ensures after.subs[id].reported == Total(Of(after.advanced, id))
    {
      if v == Reported && id == t.id {
        assert KeyOf(t) !in b.advanced;
        TotalWithout(Of(after.advanced, id), KeyOf(t));
        assert Of(after.advanced, id) - {KeyOf(t)} == Of(b.advanced, id);
      } else {
        assert Of(after.advanced, id) == Of(b.advanced, id);
      }
    }
  }

  lemma HandleKeepsKeys(b: Books, t: Target, o: Outcome)
    requires KeysAreSound(b) && t.id in b.subs && t.reported == b.subs[t.id].reported
    ensures KeysAreSound(Handle(b, t, o).0)
  {
  }

  lemma HandleKeepsQueue(s: System, o: Outcome)
    requires QueueIsCurrent(s) && s.queue != []
    ensures QueueIsCurrent(Step(s, Report(o)))
  {
    var rest := s.queue[1..];
    assert forall k | 0 <= k < |rest| :: rest[k] == s.queue[k + 1] && rest[k].id != s.queue[0].id;
  }

  lemma NothingOf(b: Books, id: string)
    requires KeysAreSound(b) && id !in b.subs
    ensures Total(Of(b.advanced, id)) == 0
  {
    assert Of(b.advanced, id) == {};
  }

  lemma StepKeepsInv(s: System, e: Event)
    requires Inv(s) && Enabled(s, e)
    ensures Inv(Step(s, e))
  {
    hide Handle, Total, Of;
    match e
    case Open(id) => NothingOf(s.b, id);
    case SetUsed(_, _) =>
    case Configure(_, _, _) =>
    case List(q) =>
    case Report(o) =>
      HandleKeepsTotals(s.b, s.queue[0], o);
      HandleKeepsKeys(s.b, s.queue[0], o);
      HandleKeepsQueue(s, o);
    case Crash =>
  }

  lemma {:induction false} RunKeepsInv(s: System, es: seq<Event>)
    requires Inv(s) && IsRun(s, es)
    ensures Inv(Run(s, es))
    decreases |es|
  {
    if es != [] {
      StepKeepsInv(s, es[0]);
      RunKeepsInv(Step(s, es[0]), es[1..]);
    }
  }

  lemma BilledSplits(s: System, id: string)
    requires Inv(s) && id in s.b.subs
    ensures Billed(s.b, id) == s.b.subs[id].reported + Total(Orphans(s.b, id))
  {
    TotalOfUnion(Of(s.b.advanced, id), Orphans(s.b, id));
    assert Of(s.b.acked, id) == Of(s.b.advanced, id) + Orphans(s.b, id);
  }

  /** The main result: it asks nothing of how usage moves. */
  lemma BilledIsReportedPlusOrphans(es: seq<Event>, id: string)
    requires IsRun(EMPTY, es) && id in Run(EMPTY, es).b.subs
    ensures Billed(Run(EMPTY, es).b, id)
            == Run(EMPTY, es).b.subs[id].reported + Total(Orphans(Run(EMPTY, es).b, id))
  {
    RunKeepsInv(EMPTY, es);
    BilledSplits(Run(EMPTY, es), id);
  }

  // ----- A counter that only grows -----

  ghost predicate Grows(s: System, e: Event)
    requires Enabled(s, e)
  {
    e.SetUsed? ==> s.b.subs[e.id].used <= e.used
  }

  /** Everything reported, listed or acknowledged was used. */
  ghost predicate Covered(s: System) {
    && (forall id | id in s.b.subs :: s.b.subs[id].reported <= s.b.subs[id].used)
    && (forall k | 0 <= k < |s.queue| :: s.queue[k].id in s.b.subs && s.queue[k].used <= s.b.subs[s.queue[k].id].used)
    && (forall k | k in s.b.acked :: k.sub in s.b.subs && k.base + k.delta <= s.b.subs[k.sub].used)
  }

  lemma StepKeepsCovered(s: System, e: Event)
    requires Inv(s) && Covered(s) && Enabled(s, e) && Grows(s, e)
    ensures Covered(Step(s, e))
  {
    hide Total;
  }

  ghost predicate AllGrow(s: System, es: seq<Event>)
    requires IsRun(s, es)
    decreases |es|
  {
    es != [] ==> Grows(s, es[0]) && AllGrow(Step(s, es[0]), es[1..])
  }

  lemma {:induction false} RunKeepsCovered(s: System, es: seq<Event>)
    requires Inv(s) && Covered(s) && IsRun(s, es) && AllGrow(s, es)
    ensures Covered(Run(s, es))
    decreases |es|
  {
    if es != [] {
      StepKeepsInv(s, es[0]);
      StepKeepsCovered(s, es[0]);
      RunKeepsCovered(Step(s, es[0]), es[1..]);
    }
  }

  lemma ReportedWithinUsed(es: seq<Event>, id: string)
    requires IsRun(EMPTY, es) && AllGrow(EMPTY, es) && id in Run(EMPTY, es).b.subs
    ensures Run(EMPTY, es).b.subs[id].reported <= Run(EMPTY, es).b.subs[id].used
  {
    RunKeepsCovered(EMPTY, es);
  }

  // ----- A counter that waits for the retry -----

  /** The only tokens billed and not recorded are the ones a retry would send under the same key. */
  ghost predicate RetryIsKnown(b: Books, id: string)
    requires id in b.subs
  {
    var s := b.subs[id];
    forall k | k in Orphans(b, id) :: k.base == s.reported && k.base + k.delta == s.used
  }

  ghost predicate RetriesAreKnown(s: System) {
    && (forall id | id in s.b.subs :: RetryIsKnown(s.b, id))
    && (forall k | 0 <= k < |s.queue| && s.queue[k].id in s.b.subs && Orphans(s.b, s.queue[k].id) != {} ::
          s.queue[k].used == s.b.subs[s.queue[k].id].used)
  }

  predicate IsOrphaned(s: System, o: Outcome)
    requires s.queue != []
  {
    IsSent(s.queue[0]) && o.reply != Refused && Handle(s.b, s.queue[0], o).1 == Failed
  }

  /** The counter does not move while a key of its subscription is acknowledged and unrecorded, and
      has not moved since the listing when a key becomes so. */
  ghost predicate Waits(s: System, e: Event)
    requires Enabled(s, e)
  {
    match e
    case SetUsed(id, used) => Orphans(s.b, id) == {} || used == s.b.subs[id].used
    case Report(o) =>
      IsOrphaned(s, o) && s.queue[0].id in s.b.subs ==> s.queue[0].used == s.b.subs[s.queue[0].id].used
    case _ => true
  }

  lemma OrphansAfter(b: Books, t: Target, o: Outcome, id: string)
    requires KeysAreSound(b) && t.id in b.subs && t.reported == b.subs[t.id].reported
    ensures var (after, v) := Handle(b, t, o);
            Orphans(after, id) == if id != t.id || !IsSent(t) || o.reply == Refused then Orphans(b, id)
                                  else if v == Reported then Orphans(b, id) - {KeyOf(t)}
                                  else Orphans(b, id) + {KeyOf(t)}
  {
    assert KeyOf(t) in b.advanced ==> PendingDelta(t) == 0;
  }

  lemma HandleKnownIffWaits(b: Books, t: Target, o: Outcome)
    requires KeysAreSound(b) && t.id in b.subs && t.reported == b.subs[t.id].reported && RetryIsKnown(b, t.id)
    requires Orphans(b, t.id) != {} ==> t.used == b.subs[t.id].used
    ensures var (after, v) := Handle(b, t, o);
            RetryIsKnown(after, t.id)
            <==> (IsSent(t) && o.reply != Refused && v == Failed ==> t.used == b.subs[t.id].used)
  {
    var (after, v) := Handle(b, t, o);
    OrphansAfter(b, t, o, t.id);
    if IsSent(t) && o.reply != Refused {
      if v == Failed {
        assert KeyOf(t) in Orphans(after, t.id);
      } else {
        forall k | k in Orphans(b, t.id)
          ensures k == KeyOf(t)
        {
          assert k.sub == t.id;
        }
      }
    }
  }

  lemma ReportKnownIffWaits(s: System, o: Outcome)
    requires Inv(s) && RetriesAreKnown(s) && s.queue != []
    ensures RetriesAreKnown(Step(s, Report(o))) <==> Waits(s, Report(o))
  {
    hide RetryIsKnown, Orphans, RecordedIsAdvanced;
    var t := s.queue[0];
    var after := Handle(s.b, t, o).0;
    HandleKnownIffWaits(s.b, t, o);
    forall id | id in s.b.subs && id != t.id
      ensures RetryIsKnown(after, id) && Orphans(after, id) == Orphans(s.b, id)
    {
      OtherRetriesStay(s.b, t, o, id);
    }
    forall k | 0 <= k < |s.queue| - 1
      ensures s.queue[1..][k].id != t.id
    {
      assert s.queue[1..][k] == s.queue[k + 1];
    }
  }

  lemma OtherRetriesStay(b: Books, t: Target, o: Outcome, id: string)
    requires KeysAreSound(b) && t.id in b.subs && t.reported == b.subs[t.id].reported
    requires id in b.subs && id != t.id && RetryIsKnown(b, id)
    ensures RetryIsKnown(Handle(b, t, o).0, id) && Orphans(Handle(b, t, o).0, id) == Orphans(b, id)
  {
    OrphansAfter(b, t, o, id);
  }

  lemma SetUsedKnownIffWaits(s: System, id: string, used: nat)
    requires Inv(s) && RetriesAreKnown(s) && id in s.b.subs
    ensures RetriesAreKnown(Step(s, SetUsed(id, used))) <==> Waits(s, SetUsed(id, used))
  {
    var t := Step(s, SetUsed(id, used));
    assert forall other :: Orphans(t.b, other) == Orphans(s.b, other);
    if used == s.b.subs[id].used {
      assert t.b.subs == s.b.subs;
    } else if Orphans(s.b, id) != {} {
      var k :| k in Orphans(s.b, id);
      assert !RetryIsKnown(t.b, id);
    } else {
      assert forall other | other in s.b.subs :: RetryIsKnown(s.b, other);
    }
  }

  /** Waiting is exactly what keeps the retries known. */
  lemma KnownIffWaits(s: System, e: Event)
    requires Inv(s) && RetriesAreKnown(s) && Enabled(s, e)
    ensures RetriesAreKnown(Step(s, e)) <==> Waits(s, e)
  {
    var t := Step(s, e);
    match e
    case SetUsed(id, used) => SetUsedKnownIffWaits(s, id, used);
    case Report(o) => ReportKnownIffWaits(s, o);
    case Open(id) =>
      assert Orphans(s.b, id) == {};
      assert forall other :: Orphans(t.b, other) == Orphans(s.b, other);
    case Configure(_, _, _) =>
      assert forall other :: Orphans(t.b, other) == Orphans(s.b, other);
    case List(q) =>
      assert forall other :: Orphans(t.b, other) == Orphans(s.b, other);
    case Crash =>
  }

  ghost predicate AllWait(s: System, es: seq<Event>)
    requires IsRun(s, es)
    decreases |es|
  {
    es != [] ==> Waits(s, es[0]) && AllWait(Step(s, es[0]), es[1..])
  }

  lemma {:induction false} RunKeepsKnown(s: System, es: seq<Event>)
    requires Inv(s) && RetriesAreKnown(s) && IsRun(s, es) && AllWait(s, es)
    ensures RetriesAreKnown(Run(s, es))
    decreases |es|
  {
    if es != [] {
      StepKeepsInv(s, es[0]);
      KnownIffWaits(s, es[0]);
      RunKeepsKnown(Step(s, es[0]), es[1..]);
    }
  }

  lemma KnownOrphanIsOne(b: Books, id: string) returns (k: Key)
    requires id in b.subs && RetryIsKnown(b, id) && Orphans(b, id) != {}
    ensures Orphans(b, id) == {k} && b.subs[id].reported + k.delta == b.subs[id].used
  {
    k :| k in Orphans(b, id);
    forall other | other in Orphans(b, id)
      ensures other == k
    {
      assert other.sub == k.sub;
    }
  }

  /** With a counter that waits, what was billed is what was reported or what was used. */
  lemma BilledIsReportedOrUsed(es: seq<Event>, id: string)
    requires IsRun(EMPTY, es) && AllWait(EMPTY, es) && id in Run(EMPTY, es).b.subs
    ensures var b := Run(EMPTY, es).b; Billed(b, id) == b.subs[id].reported || Billed(b, id) == b.subs[id].used
  {
    RunKeepsInv(EMPTY, es);
    RunKeepsKnown(EMPTY, es);
    var s := Run(EMPTY, es);
    BilledSplits(s, id);
    if Orphans(s.b, id) != {} {
      var k := KnownOrphanIsOne(s.b, id);
      TotalOfOne(k);
    }
  }

  lemma TotalOfOne(k: Key)
    ensures Total({k}) == k.delta
  {
    TotalWithout({k}, k);
    assert {k} - {k} == {};
  }

  // ----- A clean report -----

  /** A listed subscription whose report is acknowledged and recorded: what was reported is what was
      used at the listing, and what was billed exceeds it by exactly the orphans with other keys. */
  lemma CleanReport(s: System)
    requires Inv(s) && s.queue != [] && IsSent(s.queue[0])
    ensures var t := s.queue[0]; var b := Step(s, Report(Outcome(Acked, true))).b;
            b.subs[t.id].reported == t.used
            && Billed(b, t.id) == t.used + Total(Orphans(s.b, t.id) - {KeyOf(t)})
  {
    var o := Outcome(Acked, true);
    var t := s.queue[0];
    StepKeepsInv(s, Report(o));
    BilledSplits(Step(s, Report(o)), t.id);
    OrphansAfter(s.b, t, o, t.id);
  }

  lemma TotalIsZero(keys: set<Key>)
    requires forall k | k in keys :: k.delta > 0
    ensures Total(keys) == 0 <==> keys == {}
  {
    if keys != {} {
      var k :| k in keys;
      TotalWithout(keys, k);
    }
  }

  /** The report bills no token twice exactly when nothing but the key it retries is orphaned. */
  lemma CleanReportIsExactIff(s: System)
    requires Inv(s) && s.queue != [] && IsSent(s.queue[0])
    ensures var t := s.queue[0]; var b := Step(s, Report(Outcome(Acked, true))).b;
            Billed(b, t.id) == b.subs[t.id].reported <==> Orphans(s.b, t.id) <= {KeyOf(t)}
  {
    var t := s.queue[0];
    CleanReport(s);
    TotalIsZero(Orphans(s.b, t.id) - {KeyOf(t)});
  }

  ghost predicate AllClean(outcomes: seq<Outcome>) {
    forall k | 0 <= k < |outcomes| :: outcomes[k] == Outcome(Acked, true)
  }

  ghost function Reports(outcomes: seq<Outcome>): seq<Event> {
    seq(|outcomes|, k requires 0 <= k < |outcomes| => Report(outcomes[k]))
  }

  lemma {:induction false} RunsCompose(s: System, es: seq<Event>, fs: seq<Event>)
    requires IsRun(s, es) && IsRun(Run(s, es), fs)
    ensures IsRun(s, es + fs) && Run(s, es + fs) == Run(Run(s, es), fs)
    decreases |es|
  {
    if es == [] {
      assert es + fs == fs;
    } else {
      RunsCompose(Step(s, es[0]), es[1..], fs);
      assert (es + fs)[1..] == es[1..] + fs;
    }
  }

  /** The worker's loop is a run of the machine. */
  lemma {:induction false} TickIsRun(s: System, outcomes: seq<Outcome>)
    requires |outcomes| <= |s.queue|
    ensures IsRun(s, Reports(outcomes))
    ensures var n := |outcomes|;
            Run(s, Reports(outcomes)) == System(HandleAll(s.b, s.queue[..n], outcomes), s.queue[n..])
    decreases |outcomes|
  {
    var n := |outcomes|;
    if n > 0 {
      var before := outcomes[..n - 1];
      TickIsRun(s, before);
      var e := Report(outcomes[n - 1]);
      assert IsRun(Run(s, Reports(before)), [e]);
      RunsCompose(s, Reports(before), [e]);
      assert Reports(before) + [e] == Reports(outcomes);
      assert s.queue[..n][..n - 1] == s.queue[..n - 1];
    }
  }

  ghost predicate SameAccount(b: Books, t: Books, id: string) {
    id in b.subs && id in t.subs && t.subs[id] == b.subs[id]
    && Of(t.acked, id) == Of(b.acked, id) && Of(t.advanced, id) == Of(b.advanced, id)
  }

  lemma OthersStay(b: Books, t: Target, o: Outcome, id: string)
    requires id in b.subs && id != t.id
    ensures SameAccount(b, Handle(b, t, o).0, id)
  {
  }

  lemma {:induction false} UnlistedStay(b: Books, q: seq<Target>, outcomes: seq<Outcome>, id: string)
    requires |q| == |outcomes| && id in b.subs && forall k | 0 <= k < |q| :: q[k].id != id
    ensures SameAccount(b, HandleAll(b, q, outcomes), id)
  {
    if q != [] {
      var n := |q| - 1;
      UnlistedStay(b, q[..n], outcomes[..n], id);
      OthersStay(HandleAll(b, q[..n], outcomes[..n]), q[n], outcomes[n], id);
    }
  }

  lemma SameAccountSameSums(b: Books, t: Books, id: string)
    requires SameAccount(b, t, id)
    ensures Billed(t, id) == Billed(b, id) && Orphans(t, id) == Orphans(b, id)
    ensures RetryIsKnown(b, id) ==> RetryIsKnown(t, id)
  {
    assert Orphans(t, id) == Of(t.acked, id) - Of(t.advanced, id);
    assert Orphans(b, id) == Of(b.acked, id) - Of(b.advanced, id);
  }

  lemma CleanKnownReport(s: System)
    requires Inv(s) && s.queue != [] && IsSent(s.queue[0]) && RetryIsKnown(s.b, s.queue[0].id)
    requires s.queue[0].used == s.b.subs[s.queue[0].id].used
    ensures var b := Step(s, Report(Outcome(Acked, true))).b; var id := s.queue[0].id;
            id in b.subs && b.subs[id].used == s.b.subs[id].used == b.subs[id].reported == Billed(b, id)
  {
    hide Total;
    CleanReport(s);
    CleanReportIsExactIff(s);
    forall k | k in Orphans(s.b, s.queue[0].id)
      ensures k == KeyOf(s.queue[0])
    {
    }
  }

  lemma CurrentInInv(s: System)
    requires Inv(s)
    ensures QueueIsCurrent(s)
  {
  }

  lemma BeforeLast(b: Books, q: seq<Target>, outcomes: seq<Outcome>)
    requires Inv(System(b, q)) && |q| == |outcomes| > 0
    ensures var before := HandleAll(b, q[..|q| - 1], outcomes[..|q| - 1]); var id := q[|q| - 1].id;
            Inv(System(before, [q[|q| - 1]])) && SameAccount(b, before, id)
            && HandleAll(b, q, outcomes) == Step(System(before, [q[|q| - 1]]), Report(outcomes[|q| - 1])).b
  {
    hide Handle, Inv, Run, IsRun, SameAccount;
    var n := |q| - 1;
    TickIsRun(System(b, q), outcomes[..n]);
    RunKeepsInv(System(b, q), Reports(outcomes[..n]));
    assert q[n..] == [q[n]];
    assert q[n].id in b.subs && forall k | 0 <= k < n :: q[k].id != q[n].id by {
      CurrentInInv(System(b, q));
    }
    UnlistedStay(b, q[..n], outcomes[..n], q[n].id);
  }

  lemma CleanLast(b: Books, q: seq<Target>, outcomes: seq<Outcome>)
    requires Inv(System(b, q)) && RetriesAreKnown(System(b, q)) && |q| == |outcomes| > 0 && AllClean(outcomes)
    requires var t := q[|q| - 1]; t == Snapshot(t.id, b.subs[t.id]) && IsSent(t)
    ensures var after := HandleAll(b, q, outcomes); var id := q[|q| - 1].id;
            id in after.subs && after.subs[id].used == b.subs[id].used == after.subs[id].reported == Billed(after, id)
  {
    hide Handle, HandleAll, Inv, RetryIsKnown, Billed, Orphans;
    var n := |q| - 1;
    BeforeLast(b, q, outcomes);
    var before := System(HandleAll(b, q[..n], outcomes[..n]), [q[n]]);
    SameAccountSameSums(b, before.b, q[n].id);
    CleanKnownReport(before);
  }

  /** Whole ticks: with nothing unknown outstanding, a tick in which every report is acknowledged
      and recorded makes billed, reported and used the same for every subscription it lists with a
      Stripe customer. */
  lemma {:induction false} CleanTick(b: Books, q: seq<Target>, outcomes: seq<Outcome>, k: nat)
    requires Inv(System(b, q)) && RetriesAreKnown(System(b, q)) && |q| == |outcomes| && AllClean(outcomes)
    requires k < |q| && q[k] == Snapshot(q[k].id, b.subs[q[k].id]) && IsSent(q[k])
    ensures var after := HandleAll(b, q, outcomes); var id := q[k].id;
            id in after.subs && after.subs[id].used == b.subs[id].used == after.subs[id].reported == Billed(after, id)
    decreases |q|
  {
    var n := |q| - 1;
    if k == n {
      CleanLast(b, q, outcomes);
    } else {
      CleanTick(b, q[..n], outcomes[..n], k);
      var most := HandleAll(b, q[..n], outcomes[..n]);
      OthersStay(most, q[n], outcomes[n], q[k].id);
      SameAccountSameSums(most, HandleAll(b, q, outcomes), q[k].id);
    }
  }

  // ----- What does not hold -----

  /** An acknowledged report whose advance fails, usage that moves on, and a retry that works. */
  ghost function FailThenMove(id: string, q: seq<Target>, used: nat, q2: seq<Target>): seq<Event> {
    [List(q), Report(Outcome(Acked, false)), Crash, SetUsed(id, used), List(q2), Report(Outcome(Acked, true))]
  }

  lemma FirstIsCurrent(s: System, q: seq<Target>)
    requires Enabled(s, List(q)) && q != [] && s.b.subs[q[0].id].customer != ""
    ensures IsSent(q[0]) && q[0] == Snapshot(q[0].id, s.b.subs[q[0].id])
  {
  }

  lemma FailedTick(s: System, q: seq<Target>)
    requires Inv(s) && Enabled(s, List(q)) && q != [] && s.b.subs[q[0].id].customer != ""
    requires Orphans(s.b, q[0].id) == {}
    ensures var es := [List(q), Report(Outcome(Acked, false)), Crash];
            IsRun(s, es) && Inv(Run(s, es)) && Run(s, es).queue == [] && Run(s, es).b.subs == s.b.subs
            && Orphans(Run(s, es).b, q[0].id) == {KeyOf(q[0])}
  {
    hide KeysAreSound, RecordedIsAdvanced;
    var fail := Report(Outcome(Acked, false));
    var s1 := Step(s, List(q));
    StepKeepsInv(s, List(q));
    FirstIsCurrent(s, q);
    StepKeepsInv(s1, fail);
    OrphansAfter(s.b, q[0], Outcome(Acked, false), q[0].id);
    StepKeepsInv(Step(s1, fail), Crash);
    Then(Step(s1, fail), Crash, []);
    Then(s1, fail, [Crash] + []);
    Then(s, List(q), [fail] + ([Crash] + []));
    assert [List(q)] + ([fail] + ([Crash] + [])) == [List(q), fail, Crash];
  }

  lemma Then(s: System, e: Event, es: seq<Event>)
    requires Enabled(s, e) && IsRun(Step(s, e), es)
    ensures IsRun(s, [e] + es) && Run(s, [e] + es) == Run(Step(s, e), es)
  {
    assert ([e] + es)[1..] == es;
  }

  /** From any state in which all that is outstanding for a subscription is one orphan `k` that a
      retry would not send again, a clean report bills that orphan's tokens a second time. */
  lemma CleanReportAfterMove(s: System, q: seq<Target>, k: Key)
    requires Inv(s) && Enabled(s, List(q)) && q != [] && s.b.subs[q[0].id].customer != ""
    requires Orphans(s.b, q[0].id) == {k} && k != KeyOf(q[0])
    ensures var es := [List(q), Report(Outcome(Acked, true))];
            IsRun(s, es)
            && q[0].id in Run(s, es).b.subs
            && Run(s, es).b.subs[q[0].id].reported == Run(s, es).b.subs[q[0].id].used == s.b.subs[q[0].id].used
            && Billed(Run(s, es).b, q[0].id) == s.b.subs[q[0].id].used + k.delta
  {
    hide Inv;
    var again := Report(Outcome(Acked, true));
    var s1 := Step(s, List(q));
    StepKeepsInv(s, List(q));
    FirstIsCurrent(s, q);
    CleanReport(s1);
    ReportKeepsUsed(s1, Outcome(Acked, true));
    StepKeepsInv(s1, again);
    assert {k} - {KeyOf(q[0])} == {k};
    TotalOfOne(k);
    Then(s1, again, []);
    Then(s, List(q), [again] + []);
    assert [List(q)] + ([again] + []) == [List(q), again];
  }

  /** So the tokens of a report whose advance failed are billed twice when usage moves before the
      retry, whatever they are. */
  lemma MovedCounterIsBilledTwice(s: System, q: seq<Target>, used: nat, q2: seq<Target>)
    requires Inv(s) && Enabled(s, List(q)) && q != [] && s.b.subs[q[0].id].customer != ""
    requires Orphans(s.b, q[0].id) == {} && s.b.subs[q[0].id].used < used
    requires IsTargetList(s.b.subs[q[0].id := s.b.subs[q[0].id].(used := used)], q2) && q2 != [] && q2[0].id == q[0].id
    ensures var es := FailThenMove(q[0].id, q, used, q2); var id := q[0].id;
            IsRun(s, es) && id in Run(s, es).b.subs
            && Run(s, es).b.subs[id].reported == Run(s, es).b.subs[id].used == used
            && Billed(Run(s, es).b, id) == used + (s.b.subs[id].used - s.b.subs[id].reported)
  {
    hide Inv, Billed, Total;
    var id := q[0].id;
    var move := SetUsed(id, used);
    var es1 := [List(q), Report(Outcome(Acked, false)), Crash];
    var es2 := [List(q2), Report(Outcome(Acked, true))];
    FailedTick(s, q);
    FirstIsCurrent(s, q);
    var s1 := Run(s, es1);
    var s2 := Step(s1, move);
    StepKeepsInv(s1, move);
    assert Orphans(s2.b, id) == Orphans(s1.b, id);
    FirstIsCurrent(s2, q2);
    CleanReportAfterMove(s2, q2, KeyOf(q[0]));
    Then(s1, move, es2);
    RunsCompose(s, es1, [move] + es2);
    assert es1 + ([move] + es2) == FailThenMove(id, q, used, q2);
  }

  /** That happens: ten tokens are used and sent, the advance fails, seven more are used, and the retry
      makes it twenty-seven billed for seventeen used. */
  lemma TenAreBilledTwice()
    ensures exists es, id :: IsRun(EMPTY, es) && id in Run(EMPTY, es).b.subs && Run(EMPTY, es).b.subs[id].used == 17
                             && Run(EMPTY, es).b.subs[id].reported == 17 && Billed(Run(EMPTY, es).b, id) == 27
  {
    var id := "a";
    var s, past := TenUsed(id);
    var t, t2 := Target(id, "cus", 10, 0), Target(id, "cus", 17, 0);
    EmptyInv();
    RunKeepsInv(EMPTY, past);
    assert [t][0].id == id && [t2][0].id == id;
    assert Orphans(s.b, id) == {};
    MovedCounterIsBilledTwice(s, [t], 17, [t2]);
    var es := FailThenMove(id, [t], 17, [t2]);
    RunsCompose(EMPTY, past, es);
    assert IsRun(EMPTY, past + es) && id in Run(EMPTY, past + es).b.subs;
  }

  // ----- A counter that is set back -----

  function Max(a: nat, b: nat): nat {
    if a < b then b else a
  }

  /** What was reported never goes down, and goes past `floor` only as far as the counter. */
  ghost predicate BoundedBy(s: System, id: string, floor: nat) {
    && id in s.b.subs && floor <= s.b.subs[id].reported <= Max(floor, s.b.subs[id].used)
    && forall k | 0 <= k < |s.queue| && s.queue[k].id == id :: s.queue[k].used <= s.b.subs[id].used
  }

  lemma StepKeepsBound(s: System, e: Event, id: string, floor: nat)
    requires Inv(s) && BoundedBy(s, id, floor) && Enabled(s, e) && Grows(s, e)
    ensures BoundedBy(Step(s, e), id, floor)
  {
    hide KeysAreSound, RecordedIsAdvanced;
  }

  lemma {:induction false} RunKeepsBound(s: System, es: seq<Event>, id: string, floor: nat)
    requires Inv(s) && BoundedBy(s, id, floor) && IsRun(s, es) && AllGrow(s, es)
    ensures BoundedBy(Run(s, es), id, floor)
    decreases |es|
  {
    if es != [] {
      StepKeepsInv(s, es[0]);
      StepKeepsBound(s, es[0], id, floor);
      RunKeepsBound(Step(s, es[0]), es[1..], id, floor);
    }
  }

  lemma HandleAllSnoc(b: Books, q: seq<Target>, outcomes: seq<Outcome>)
    requires |q| == |outcomes| > 0
    ensures var n := |q| - 1; HandleAll(b, q, outcomes) == Handle(HandleAll(b, q[..n], outcomes[..n]), q[n], outcomes[n]).0
  {
  }

  /** Whatever is orphaned, a tick in which every report is acknowledged and recorded brings what was
      reported up to what was used, for each subscription it lists with a Stripe customer. */
  lemma {:induction false} CleanTickRecords(b: Books, q: seq<Target>, outcomes: seq<Outcome>, k: nat)
    requires Inv(System(b, q)) && |q| == |outcomes| && AllClean(outcomes)
    requires k < |q| && q[k] == Snapshot(q[k].id, b.subs[q[k].id]) && IsSent(q[k])
    ensures var after := HandleAll(b, q, outcomes); var id := q[k].id;
            id in after.subs && after.subs[id].used == b.subs[id].used == after.subs[id].reported
    decreases |q|
  {
    hide Inv, Handle, SameAccount;
    var n := |q| - 1;
    if k == n {
      RecordsLast(b, q, outcomes);
    } else {
      PrefixIsCurrent(b, q, n);
      CleanTickRecords(b, q[..n], outcomes[..n], k);
      HandleAllSnoc(b, q, outcomes);
      HandlesOthers(HandleAll(b, q[..n], outcomes[..n]), q[n], outcomes[n], q[k].id);
    }
  }

  lemma PrefixIsCurrent(b: Books, q: seq<Target>, n: nat)
    requires Inv(System(b, q)) && n < |q|
    ensures Inv(System(b, q[..n])) && forall k | 0 <= k < n :: q[k].id != q[n].id
  {
    hide KeysAreSound, RecordedIsAdvanced;
  }

  lemma HandlesOthers(b: Books, t: Target, o: Outcome, id: string)
    requires id in b.subs && id != t.id
    ensures id in Handle(b, t, o).0.subs && Handle(b, t, o).0.subs[id] == b.subs[id]
  {
  }

  lemma RecordsLast(b: Books, q: seq<Target>, outcomes: seq<Outcome>)
    requires Inv(System(b, q)) && |q| == |outcomes| > 0 && AllClean(outcomes)
    requires var t := q[|q| - 1]; t == Snapshot(t.id, b.subs[t.id]) && IsSent(t)
    ensures var after := HandleAll(b, q, outcomes); var id := q[|q| - 1].id;
            id in after.subs && after.subs[id].used == b.subs[id].used == after.subs[id].reported
  {
    hide Handle, HandleAll, Inv, Billed, Orphans, KeysAreSound, RecordedIsAdvanced;
    var n := |q| - 1;
    BeforeLast(b, q, outcomes);
    var before := System(HandleAll(b, q[..n], outcomes[..n]), [q[n]]);
    CleanReport(before);
    ReportKeepsUsed(before, Outcome(Acked, true));
  }

  lemma ReportKeepsUsed(s: System, o: Outcome)
    requires s.queue != [] && s.queue[0].id in s.b.subs
    ensures var id := s.queue[0].id; var t := Step(s, Report(o));
            id in t.b.subs && t.b.subs[id].used == s.b.subs[id].used
  {
  }

  /** After a clean tick the subscription has recorded the larger of the two. */
  lemma CleanTickReachesMax(s: System, id: string, floor: nat, q: seq<Target>, outcomes: seq<Outcome>)
    requires Inv(s) && BoundedBy(s, id, floor) && Enabled(s, List(q)) && |outcomes| == |q| && AllClean(outcomes)
    requires s.b.subs[id].reportable && s.b.subs[id].customer != ""
    ensures var after := HandleAll(s.b, q, outcomes);
            id in after.subs && after.subs[id].used == s.b.subs[id].used
            && after.subs[id].reported == Max(floor, s.b.subs[id].used)
  {
    hide Inv;
    StepKeepsInv(s, List(q));
    if IsDue(s.b.subs, id) {
      assert Listed(q, id);
      var k :| 0 <= k < |q| && q[k].id == id;
      CleanTickRecords(s.b, q, outcomes, k);
    } else {
      UnlistedStay(s.b, q, outcomes, id);
    }
  }

  ghost predicate IsQueued(s: System, id: string) {
    exists k :: 0 <= k < |s.queue| && s.queue[k].id == id
  }

  /** What is recorded once the listing in progress, if any, is done with the subscription. */
  ghost function Floor(s: System, es: seq<Event>, id: string): nat
    requires IsRun(s, es) && id in s.b.subs
    decreases |es|
  {
    if es == [] || !IsQueued(s, id) then s.b.subs[id].reported else Floor(Step(s, es[0]), es[1..], id)
  }

  /** It is what was recorded already or what the listing had read of the counter. */
  lemma {:induction false} FloorIsEither(s: System, es: seq<Event>, id: string, k: nat)
    requires Inv(s) && IsRun(s, es) && k < |s.queue| && s.queue[k].id == id
    ensures Floor(s, es, id) in {s.b.subs[id].reported, s.queue[k].used}
    decreases |es|
  {
    hide KeysAreSound, RecordedIsAdvanced;
    if es != [] {
      var t := Step(s, es[0]);
      StepKeepsInv(s, es[0]);
      StepKeepsTarget(s, es[0], id, k);
      if es[0].Report? && k > 0 {
        FloorIsEither(t, es[1..], id, k - 1);
      } else if IsQueued(t, id) {
        FloorIsEither(t, es[1..], id, k);
      }
    }
  }

  lemma StepKeepsTarget(s: System, e: Event, id: string, k: nat)
    requires Inv(s) && Enabled(s, e) && k < |s.queue| && s.queue[k].id == id
    ensures id in Step(s, e).b.subs && Step(s, e).b.subs[id].reported in {s.b.subs[id].reported, s.queue[k].used}
    ensures e.Report? || e.Crash? ==> (IsQueued(Step(s, e), id) <==> e.Report? && k > 0)
    ensures e.Report? && k > 0 ==> k - 1 < |Step(s, e).queue| && Step(s, e).queue[k - 1] == s.queue[k]
                                   && Step(s, e).b.subs[id].reported == s.b.subs[id].reported
    ensures !e.Report? && !e.Crash? ==>
              Step(s, e).queue == s.queue && Step(s, e).b.subs[id].reported == s.b.subs[id].reported
  {
    hide KeysAreSound, RecordedIsAdvanced;
    var t := Step(s, e);
    if e.Report? && k > 0 {
      assert t.queue[k - 1] == s.queue[k];
    }
  }

  lemma {:induction false} FloorBounds(s: System, es: seq<Event>, id: string)
    requires Inv(s) && id in s.b.subs && IsRun(s, es) && AllGrow(s, es) && Run(s, es).queue == []
    ensures BoundedBy(Run(s, es), id, Floor(s, es, id))
    decreases |es|
  {
    hide KeysAreSound, RecordedIsAdvanced;
    if es == [] || !IsQueued(s, id) {
      assert BoundedBy(s, id, s.b.subs[id].reported);
      RunKeepsBound(s, es, id, s.b.subs[id].reported);
    } else {
      StepKeepsInv(s, es[0]);
      FloorBounds(Step(s, es[0]), es[1..], id);
    }
  }

  /** The gateway sets the counter to zero at rollover and leaves `reported` alone. Take any reachable
      state, within a tick or between two, roll a subscription over, let anything happen in which
      counters only grow, and end with a clean tick. What was reported is then exactly the larger of
      what was recorded once the tick that the rollover fell into was done with the subscription and
      what was used since the rollover, so every token used since was reported if and only if the one
      or the other is zero. */
  lemma RolloverIsUnderreported(past: seq<Event>, id: string, es: seq<Event>, q: seq<Target>, outcomes: seq<Outcome>)
    requires IsRun(EMPTY, past) && id in Run(EMPTY, past).b.subs
    requires var rolled := Step(Run(EMPTY, past), SetUsed(id, 0));
             IsRun(rolled, es) && AllGrow(rolled, es) && Enabled(Run(rolled, es), List(q))
             && id in Run(rolled, es).b.subs && Run(rolled, es).b.subs[id].reportable
             && Run(rolled, es).b.subs[id].customer != ""
    requires |outcomes| == |q| && AllClean(outcomes)
    ensures var rolled := Step(Run(EMPTY, past), SetUsed(id, 0));
            var end, floor := Run(rolled, es), Floor(rolled, es, id);
            var used, after := end.b.subs[id].used, HandleAll(end.b, q, outcomes);
            id in after.subs && after.subs[id].reported == Max(floor, used)
            && (after.subs[id].reported - floor == used <==> floor == 0 || used == 0)
  {
    hide Inv, HandleAll, AllClean, BoundedBy, IsTargetList, AllGrow, IsRun, Run, Floor;
    EmptyInv();
    RunKeepsInv(EMPTY, past);
    var s := Run(EMPTY, past);
    var rolled := Step(s, SetUsed(id, 0));
    StepKeepsInv(s, SetUsed(id, 0));
    FloorBounds(rolled, es, id);
    RunKeepsInv(rolled, es);
    CleanTickReachesMax(Run(rolled, es), id, Floor(rolled, es, id), q, outcomes);
  }

  lemma EmptyInv()
    ensures Inv(EMPTY)
  {
  }

  /** Such a loss does happen: ten tokens are reported, the counter rolls over, seven are used, and the
      next listing is empty with ten still recorded. */
  lemma RolloverLosesSeven()
    ensures exists past, id ::
              IsRun(EMPTY, past) && Run(EMPTY, past).queue == [] && id in Run(EMPTY, past).b.subs
              && var rolled := Step(Run(EMPTY, past), SetUsed(id, 0)); var es := [SetUsed(id, 7)];
                 IsRun(rolled, es) && AllGrow(rolled, es) && Run(rolled, es).b.subs == map[id := Sub(7, 10, true, "cus")]
                 && Enabled(Run(rolled, es), List([]))
  {
    var id := "a";
    var s, past := TenReported(id);
    var rolled := Step(s, SetUsed(id, 0));
    Then(rolled, SetUsed(id, 7), []);
    assert [SetUsed(id, 7)] + [] == [SetUsed(id, 7)];
    assert AllGrow(rolled, [SetUsed(id, 7)]);
    assert Enabled(Run(rolled, [SetUsed(id, 7)]), List([]));
  }

  lemma TenReported(id: string) returns (s: System, past: seq<Event>)
    ensures IsRun(EMPTY, past) && Run(EMPTY, past) == s
    ensures s.queue == [] && s.b.subs == map[id := Sub(10, 10, true, "cus")]
  {
    var s3, es3 := TenUsed(id);
    var t := Target(id, "cus", 10, 0);
    assert IsTargetList(s3.b.subs, [t]) by {
      assert [t][0].id == id;
    }
    var s4 := Step(s3, List([t]));
    s := Step(s4, Report(Outcome(Acked, true)));
    assert s.b.subs == map[id := Sub(10, 10, true, "cus")];
    Then(s4, Report(Outcome(Acked, true)), []);
    Then(s3, List([t]), [Report(Outcome(Acked, true))] + []);
    past := [List([t])] + ([Report(Outcome(Acked, true))] + []);
    RunsCompose(EMPTY, es3, past);
    past := es3 + past;
  }

  lemma TenUsed(id: string) returns (s: System, es: seq<Event>)
    ensures IsRun(EMPTY, es) && Run(EMPTY, es) == s
    ensures s == System(Books(map[id := Sub(10, 0, true, "cus")], {}, {}), [])
  {
    var s1 := Step(EMPTY, Open(id));
    var s2 := Step(s1, Configure(id, true, "cus"));
    s := Step(s2, SetUsed(id, 10));
    assert s.b.subs == map[id := Sub(10, 0, true, "cus")];
    Then(s2, SetUsed(id, 10), []);
    Then(s1, Configure(id, true, "cus"), [SetUsed(id, 10)] + []);
    es := [Configure(id, true, "cus")] + ([SetUsed(id, 10)] + []);
    Then(EMPTY, Open(id), es);
    es := [Open(id)] + es;
  }
}
