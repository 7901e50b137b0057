/** The Stripe webhook: mark the event as processed, handle it, unmark it if handling failed
    (backend/internal/api/billing.go, backend/internal/store/billing_pg.go).

    Deliveries of one event interleave at those three calls, fail in any of them and may vanish
    between them. Two deliveries never handle an event at the same time and at most one ever
    succeeds; what the scheme cannot do, recover an event whose handler vanished, is stated as
    exactly as what it can. */
module Webhook {
  import opened Bytes

  /** What the insert into stripe_events does: `LostInsert` takes effect and reports an error. */
  datatype MarkReply = Works | Fails | LostInsert

  // ----- One delivery on its own -----

  datatype Outcome = Outcome(mark: MarkReply, handles: bool, unmarks: bool)

  datatype Effect = Effect(marked: set<string>, status: int, handled: bool, succeeded: bool)

  function Deliver(marked: set<string>, id: string, o: Outcome): Effect {
    if id == "" || o.mark == Fails then Effect(marked, 500, false, false)
    else if o.mark == LostInsert then Effect(marked + {id}, 500, false, false)
    else if id in marked then Effect(marked, 200, false, false)
    else if o.handles then Effect(marked + {id}, 200, true, true)
    else Effect(if o.unmarks then marked else marked + {id}, 500, true, false)
  }

  class Server {
    var marked: set<string>

    method MarkStripeEventProcessed(id: string, reply: MarkReply) returns (r: Option<bool>)
      modifies this`marked
      ensures r == if id == "" || reply != Works then None else Some(id !in old(marked))
      ensures marked == if id == "" || reply == Fails then old(marked) else old(marked) + {id}
    {
      if id == "" || reply == Fails {
        return None;
      }
      var first := id !in marked;
      marked := marked + {id};
      r := if reply == Works then Some(first) else None;
    }

    method UnmarkStripeEventProcessed(id: string, works: bool) returns (ok: bool)
      modifies this`marked
      ensures ok == (id == "" || works)
      ensures marked == if id != "" && works then old(marked) - {id} else old(marked)
    {
      if id == "" {
        return true;
      }
      if works {
        marked := marked - {id};
      }
      ok := works;
    }

    /** `handles` is whether the event's handler returns without error. */
    method HandleStripeWebhook(id: string, o: Outcome) returns (status: int, handled: bool, succeeded: bool)
      modifies this`marked
      ensures Effect(marked, status, handled, succeeded) == Deliver(old(marked), id, o)
      ensures handled <==> id != "" && o.mark == Works && id !in old(marked)
      ensures succeeded <==> handled && o.handles
      ensures status == if succeeded || (id != "" && o.mark == Works && id in old(marked)) then 200 else 500
      ensures marked == if id == "" || o.mark == Fails || (handled && !o.handles && o.unmarks) then old(marked)
                        else old(marked) + {id}
    {
      handled, succeeded := false, false;
      var first := MarkStripeEventProcessed(id, o.mark);
      if first.None? {
        status := 500;
        return;
      }
      if !first.value {
        status := 200;
        return;
      }
      handled := true;
      if !o.handles {
        var _ := UnmarkStripeEventProcessed(id, o.unmarks);
        status := 500;
        return;
      }
      succeeded := true;
      status := 200;
    }
  }

  // ----- Interleaved deliveries -----

  /** `Failing` has handled the event without success and has yet to unmark it. */
  datatype Phase = Arrived | Handling | Failing | Answered(status: int)

  datatype Delivery = Delivery(id: string, phase: Phase)

  /** `succeeded` lists the events whose handler returned without error, in order. */
  datatype System = System(marked: set<string>, deliveries: map<nat, Delivery>, succeeded: seq<string>)

  datatype Event =
    | Arrive(d: nat, id: string)
    | Mark(d: nat, reply: MarkReply)
    | Finish(d: nat, ok: bool)
    | Unmark(d: nat, works: bool)
    | Vanish(d: nat)

  predicate Enabled(s: System, e: Event) {
    match e
    case Arrive(d, _) => d !in s.deliveries
    case Mark(d, _) => d in s.deliveries && s.deliveries[d].phase.Arrived?
    case Finish(d, _) => d in s.deliveries && s.deliveries[d].phase.Handling?
    case Unmark(d, _) => d in s.deliveries && s.deliveries[d].phase.Failing?
    case Vanish(d) => d in s.deliveries
  }

  function MoveTo(s: System, d: nat, phase: Phase): System
    requires d in s.deliveries
  {
    s.(deliveries := s.deliveries[d := s.deliveries[d].(phase := phase)])
  }

  function Step(s: System, e: Event): System
    requires Enabled(s, e)
  {
    match e
    case Arrive(d, id) => s.(deliveries := s.deliveries[d := Delivery(id, Arrived)])
    case Mark(d, reply) =>
      var id := s.deliveries[d].id;
      if id == "" || reply == Fails then MoveTo(s, d, Answered(500))
      else
        var t := s.(marked := s.marked + {id});
        MoveTo(t, d, if reply == LostInsert then Answered(500) else if id in s.marked then Answered(200) else Handling)
    case Finish(d, ok) =>
      if ok then MoveTo(s.(succeeded := s.succeeded + [s.deliveries[d].id]), d, Answered(200))
      else MoveTo(s, d, Failing)
    case Unmark(d, works) =>
      MoveTo(if works then s.(marked := s.marked - {s.deliveries[d].id}) else s, d, Answered(500))
    case Vanish(d) => s.(deliveries := s.deliveries - {d})
  }

  predicate IsRun(s: System, es: seq<Event>)
    decreases |es|
  {
    es != [] ==> Enabled(s, es[0]) && IsRun(Step(s, es[0]), es[1..])
  }

  function Run(s: System, es: seq<Event>): System
    requires IsRun(s, es)
    decreases |es|
  {
    if es == [] then s else Run(Step(s, es[0]), es[1..])
  }

  const EMPTY := System({}, map[], [])

  /** The delivery has marked the event and not yet unmarked it or succeeded. */
  predicate Holds(s: System, d: nat, id: string) {
    d in s.deliveries && s.deliveries[d].id == id && (s.deliveries[d].phase.Handling? || s.deliveries[d].phase.Failing?)
  }

  predicate Runs(s: System, d: nat, id: string) {
    Holds(s, d, id) && s.deliveries[d].phase.Handling?
  }

  ghost predicate Busy(s: System, id: string) {
    exists d :: Holds(s, d, id)
  }

  ghost predicate Exclusive(s: System) {
    && (forall d, id | Holds(s, d, id) :: id in s.marked && id !in s.succeeded)
    && (forall d, e, id | Holds(s, d, id) && Holds(s, e, id) :: d == e)
  }

  ghost predicate SucceededOnce(s: System) {
    && (forall id | id in s.succeeded :: id in s.marked)
    && (forall j, k | 0 <= j < k < |s.succeeded| :: s.succeeded[j] != s.succeeded[k])
  }

  ghost predicate Inv(s: System) {
    Exclusive(s) && SucceededOnce(s)
  }

  lemma StepKeepsInv(s: System, e: Event)
    requires Inv(s) && Enabled(s, e)
    ensures Inv(Step(s, e))
  {
    var t := Step(s, e);
    assert forall d, id :: Holds(t, d, id) ==> Holds(s, d, id) || (e.Mark? && d == e.d && id !in s.marked);
    if e.Finish? || e.Unmark? {
      assert Holds(s, e.d, s.deliveries[e.d].id);
    }
  }

  lemma {:induction false} RunKeepsInv(s: System, es: seq<Event>)
    requires Inv(s) && IsRun(s, es)
    ensures Inv(Run(s, es))
    decreases |es|
  {
    if es != [] {
      StepKeepsInv(s, es[0]);
      RunKeepsInv(Step(s, es[0]), es[1..]);
    }
  }

  /** The main results: handlers of one event exclude each other, and an event succeeds once. */
  lemma HandlersExclude(es: seq<Event>, id: string, d: nat, e: nat)
    requires IsRun(EMPTY, es) && Runs(Run(EMPTY, es), d, id) && Runs(Run(EMPTY, es), e, id)
    ensures d == e && id !in Run(EMPTY, es).succeeded
  {
    RunKeepsInv(EMPTY, es);
  }

  lemma SucceedsOnce(es: seq<Event>, j: nat, k: nat)
    requires IsRun(EMPTY, es) && j < k < |Run(EMPTY, es).succeeded|
    ensures Run(EMPTY, es).succeeded[j] != Run(EMPTY, es).succeeded[k]
  {
    RunKeepsInv(EMPTY, es);
  }

  // ----- Whole deliveries -----

  /** The steps of a delivery nothing interferes with. */
  function Alone(d: nat, id: string, marked: set<string>, o: Outcome): seq<Event> {
    [Arrive(d, id), Mark(d, o.mark)]
    + if !Deliver(marked, id, o).handled then []
      else if o.handles then [Finish(d, true)] else [Finish(d, false), Unmark(d, o.unmarks)]
  }

  lemma Then(s: System, e: Event, es: seq<Event>)
    requires Enabled(s, e) && IsRun(Step(s, e), es)
    ensures IsRun(s, [e] + es) && Run(s, [e] + es) == Run(Step(s, e), es)
  {
    assert ([e] + es)[1..] == es;
  }

  /** The handler as written is one way through the machine. */
  lemma AloneIsDeliver(s: System, d: nat, id: string, o: Outcome)
    requires d !in s.deliveries
    ensures IsRun(s, Alone(d, id, s.marked, o))
    ensures var t := Run(s, Alone(d, id, s.marked, o)); var eff := Deliver(s.marked, id, o);
            t.marked == eff.marked && t.deliveries == s.deliveries[d := Delivery(id, Answered(eff.status))]
            && t.succeeded == s.succeeded + if eff.succeeded then [id] else []
  {
    var eff := Deliver(s.marked, id, o);
    var s1 := Step(s, Arrive(d, id));
    var s2 := Step(s1, Mark(d, o.mark));
    var rest := Alone(d, id, s.marked, o)[2..];
    if eff.handled {
      var s3 := Step(s2, Finish(d, o.handles));
      if o.handles {
        Then(s2, Finish(d, true), []);
        assert [Finish(d, true)] + [] == rest;
      } else {
        Then(s3, Unmark(d, o.unmarks), []);
        Then(s2, Finish(d, false), [Unmark(d, o.unmarks)] + []);
        assert [Finish(d, false)] + ([Unmark(d, o.unmarks)] + []) == rest;
      }
    }
    Then(s1, Mark(d, o.mark), rest);
    Then(s, Arrive(d, id), [Mark(d, o.mark)] + rest);
    assert [Arrive(d, id)] + ([Mark(d, o.mark)] + rest) == Alone(d, id, s.marked, o);
  }

  // ----- Events that are lost -----

  /** Marked, never succeeded, and nobody left to handle or unmark it. */
  ghost predicate Stuck(s: System, id: string) {
    id in s.marked && id !in s.succeeded && !Busy(s, id)
  }

  lemma StuckStays(s: System, e: Event, id: string)
    requires Inv(s) && Enabled(s, e) && Stuck(s, id)
    ensures Stuck(Step(s, e), id)
  {
    var t := Step(s, e);
    assert forall d :: Holds(t, d, id) ==> Holds(s, d, id);
    if e.Finish? || e.Unmark? {
      assert Holds(s, e.d, s.deliveries[e.d].id);
    }
  }

  /** A stuck event is lost for good: no delivery ever handles it again. */
  lemma {:induction false} StuckForever(s: System, es: seq<Event>, id: string)
    requires Inv(s) && IsRun(s, es) && Stuck(s, id)
    ensures Stuck(Run(s, es), id) && forall d :: !Runs(Run(s, es), d, id)
    decreases |es|
  {
    if es != [] {
      StepKeepsInv(s, es[0]);
      StuckStays(s, es[0], id);
      StuckForever(Step(s, es[0]), es[1..], id);
    }
  }

  /** The three ways an event that was free or being handled can be left stuck. */
  predicate Strands(s: System, e: Event, id: string)
    requires Enabled(s, e)
  {
    match e
    case Arrive(_, _) => false
    case Mark(d, reply) => s.deliveries[d].id == id && id != "" && reply == LostInsert && id !in s.marked
    case Finish(_, _) => false
    case Unmark(d, works) => s.deliveries[d].id == id && !works
    case Vanish(d) => Holds(s, d, id)
  }

  lemma GetsStuckIff(s: System, e: Event, id: string)
    requires Inv(s) && Enabled(s, e) && !Stuck(s, id)
    ensures Stuck(Step(s, e), id) <==> Strands(s, e, id)
  {
    var t := Step(s, e);
    assert forall d | d != e.d :: Holds(t, d, id) <==> Holds(s, d, id);
    if Holds(s, e.d, id) {
      assert Busy(t, id) <==> Holds(t, e.d, id);
    } else if Busy(s, id) {
      var d :| Holds(s, d, id);
      assert Holds(t, d, id);
    } else if Holds(t, e.d, id) {
      assert Busy(t, id);
    }
  }

  /** One of these happened in the run. */
  ghost predicate StrandedSometime(s: System, es: seq<Event>, id: string)
    requires IsRun(s, es)
    decreases |es|
  {
    es != [] && (Strands(s, es[0], id) || StrandedSometime(Step(s, es[0]), es[1..], id))
  }

  /** So an event ends stuck exactly when it was stuck already or one of them happened on the way. */
  lemma {:induction false} StuckIffStranded(s: System, es: seq<Event>, id: string)
    requires Inv(s) && IsRun(s, es)
    ensures Stuck(Run(s, es), id) <==> Stuck(s, id) || StrandedSometime(s, es, id)
    decreases |es|
  {
    hide Inv, Stuck, Strands;
    if es != [] {
      StepKeepsInv(s, es[0]);
      StuckIffStranded(Step(s, es[0]), es[1..], id);
      if Stuck(s, id) {
        StuckStays(s, es[0], id);
      } else {
        GetsStuckIff(s, es[0], id);
      }
    }
  }

  /** What a mark that works meets: the three ways it does not start the handler exclude each other. */
  lemma MarkedMeans(s: System, id: string)
    requires Inv(s)
    ensures id in s.marked <==> Busy(s, id) || Stuck(s, id) || id in s.succeeded
    ensures id in s.succeeded ==> !Busy(s, id) && !Stuck(s, id)
  {
    if Busy(s, id) {
      var d :| Holds(s, d, id);
    }
  }

  /** In every run, a mark that works starts the handler exactly when no delivery is handling the event,
      nothing has stranded it and it has not succeeded. */
  lemma FreeUnlessMarked(es: seq<Event>, d: nat)
    requires IsRun(EMPTY, es) && Enabled(Run(EMPTY, es), Mark(d, Works))
    requires Run(EMPTY, es).deliveries[d].id != ""
    ensures var s := Run(EMPTY, es); var id := s.deliveries[d].id;
            Runs(Step(s, Mark(d, Works)), d, id)
            <==> !Busy(s, id) && !StrandedSometime(EMPTY, es, id) && id !in s.succeeded
  {
    var s := Run(EMPTY, es);
    RunKeepsInv(EMPTY, es);
    StuckIffStranded(EMPTY, es, s.deliveries[d].id);
    MarkedMeans(s, s.deliveries[d].id);
  }

  /** Whether the next answer tells a delivery that somebody else has already marked the event. */
  predicate IsDuplicate(s: System, d: nat)
    requires Enabled(s, Mark(d, Works))
  {
    Step(s, Mark(d, Works)).deliveries[d].phase == Answered(200)
  }

  /** In every run, a duplicate's 200 is true, the event has been handled, exactly when nobody is
      handling the event and nothing has stranded it. */
  lemma DuplicateIsTruthfulIff(es: seq<Event>, d: nat)
    requires IsRun(EMPTY, es) && Enabled(Run(EMPTY, es), Mark(d, Works)) && IsDuplicate(Run(EMPTY, es), d)
    ensures var s := Run(EMPTY, es); var id := s.deliveries[d].id;
            id in s.succeeded <==> !Busy(s, id) && !StrandedSometime(EMPTY, es, id)
  {
    var s := Run(EMPTY, es);
    RunKeepsInv(EMPTY, es);
    StuckIffStranded(EMPTY, es, s.deliveries[d].id);
    MarkedMeans(s, s.deliveries[d].id);
  }

  /** A 200 does not mean handled: a delivery that arrives while another handles the event is told
      200, and if that other then fails and unmarks, nobody has handled the event. */
  lemma DuplicateIsAnsweredEarly(s: System, d: nat, e: nat, id: string)
    requires Inv(s) && Runs(s, d, id) && id != "" && Enabled(s, Mark(e, Works)) && s.deliveries[e].id == id
    ensures var es := [Mark(e, Works), Finish(d, false), Unmark(d, true)];
            IsRun(s, es) && var t := Run(s, es);
            e in t.deliveries && t.deliveries[e].phase == Answered(200)
            && id !in t.succeeded && id !in t.marked && !Busy(t, id)
  {
    var s1 := Step(s, Mark(e, Works));
    var s2 := Step(s1, Finish(d, false));
    var t := Step(s2, Unmark(d, true));
    Then(s2, Unmark(d, true), []);
    Then(s1, Finish(d, false), [Unmark(d, true)] + []);
    Then(s, Mark(e, Works), [Finish(d, false)] + ([Unmark(d, true)] + []));
    assert [Mark(e, Works)] + ([Finish(d, false)] + ([Unmark(d, true)] + []))
        == [Mark(e, Works), Finish(d, false), Unmark(d, true)];
    assert forall other | Holds(t, other, id) :: Holds(s, other, id);
  }
}
