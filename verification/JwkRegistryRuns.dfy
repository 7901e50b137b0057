/** Every run of the key registry, whoever signs what, and the watcher's activations on top of it:
    what the timelock and the grace period after a revocation guarantee, and that activating by
    triple activates the very key the watcher vetted. */
module JwkRegistryRuns {
  import opened Bytes
  import opened JwkRegistry
  import JwkRotator

  datatype System = System(r: Registry, now: int)

  /** `signed` says whether the signer the instruction asks for signed it. */
  datatype Event =
    | Pass(now: int)
    | ProposeEvent(signed: bool, t: Triple, k: JwkRegistry.Jwk)
    | ActivateEvent(signed: bool, t: Triple, until: int)
    | RevokeEvent(signed: bool, t: Triple)
    | ExpireEvent(t: Triple)
    | BootstrapEvent(signed: bool, t: Triple, k: JwkRegistry.Jwk, until: int)

  predicate Enabled(s: System, e: Event) {
    e.Pass? ==> s.now <= e.now
  }

  function Step(s: System, e: Event): System {
    match e
    case Pass(now) => s.(now := now)
    case ProposeEvent(signed, t, k) => s.(r := Propose(s.r, signed, t, k, s.now).0)
    case ActivateEvent(signed, t, until) => s.(r := Activate(s.r, signed, t, until, s.now).0)
    case RevokeEvent(signed, t) => s.(r := Revoke(s.r, signed, t, s.now).0)
    case ExpireEvent(t) => s.(r := Expire(s.r, t, s.now).0)
    case BootstrapEvent(signed, t, k, until) => s.(r := Bootstrap(s.r, signed, t, k, until, s.now).0)
  }

  predicate IsRun(s: System, es: seq<Event>)
    decreases |es|
  {
    es != [] ==> Enabled(s, es[0]) && IsRun(Step(s, es[0]), es[1..])
  }

  function Run(s: System, es: seq<Event>): System
    requires IsRun(s, es)
    decreases |es|
  {
    if es == [] then s else Run(Step(s, es[0]), es[1..])
  }

  // ----- Invariants -----

  function Used(es: seq<Entry>): nat {
    if es == [] then 0 else Used(es[..|es| - 1]) + if es[|es| - 1].status == Empty then 0 else 1
  }

  ghost predicate TriplesDiffer(es: seq<Entry>) {
    forall i, j | 0 <= i < j < |es| && es[i].status != Empty && es[j].status != Empty :: es[i].triple != es[j].triple
  }

  predicate IsSound(e: Entry, timelock: nat, now: int) {
    e.status != Empty ==>
      && |e.modulus| == 256 && e.modulus[0] >= 128 && e.modulus[255] % 2 == 1
      && e.proposedAt <= now
      && (e.status == Active ==> e.validFrom <= now && e.validFrom < e.validUntil <= e.validFrom + MAX_VALIDITY)
      && (e.status == Active ==> e.validFrom == e.proposedAt || e.proposedAt + timelock <= e.validFrom)
      && (e.status == Revoked ==> e.revokedAt <= now)
  }

  ghost predicate Inv(s: System) {
    && s.r.entryCount == Used(s.r.entries)
    && TriplesDiffer(s.r.entries)
    && forall i | 0 <= i < |s.r.entries| :: IsSound(s.r.entries[i], s.r.timelock, s.now)
  }

  lemma {:induction false} UsedAfter(es: seq<Entry>, i: nat, e: Entry)
    requires i < |es| && e.status != Empty
    ensures Used(es[i := e]) == Used(es) + if es[i].status == Empty then 1 else 0
  {
    var n := |es| - 1;
    if i == n {
      assert es[i := e][..n] == es[..n];
    } else {
      UsedAfter(es[..n], i, e);
      assert es[i := e][..n] == es[..n][i := e];
    }
  }

  lemma {:induction false} NoneUsed(es: seq<Entry>, i: nat)
    requires Used(es) == 0 && i < |es|
    ensures es[i].status == Empty
  {
    if i < |es| - 1 {
      NoneUsed(es[..|es| - 1], i);
    }
  }

  lemma WritableIsFree(es: seq<Entry>, now: int, grace: nat)
    requires Writable(es, now, grace).Ok?
    ensures var i := Writable(es, now, grace).value;
            i < |es| && (es[i].status == Empty || es[i].status == Expired || IsReady(es[i], now, grace))
  {
  }

  /** Writing one sound entry whose triple no other slot has. */
  lemma PutKeepsInv(s: System, i: nat, e: Entry, r: Registry)
    requires Inv(s) && i < MAX_JWKS && e.status != Empty && IsSound(e, s.r.timelock, s.now)
    requires forall j | 0 <= j < MAX_JWKS && j != i && s.r.entries[j].status != Empty ::
               s.r.entries[j].triple != e.triple
    requires r == s.r.(entries := s.r.entries[i := e],
                       entryCount := s.r.entryCount + if s.r.entries[i].status == Empty then 1 else 0)
    ensures Inv(System(r, s.now))
  {
    UsedAfter(s.r.entries, i, e);
  }

  lemma ProposeKeepsInv(s: System, signed: bool, t: Triple, k: JwkRegistry.Jwk)
    requires Inv(s)
    ensures Inv(s.(r := Propose(s.r, signed, t, k, s.now).0))
  {
    hide Used;
    var (r, err) := Propose(s.r, signed, t, k, s.now);
    if err.None? {
      WritableIsFree(s.r.entries, s.now, s.r.graceAfterRevoke);
      hide Writable;
      var i := Writable(s.r.entries, s.now, s.r.graceAfterRevoke).value;
      PutKeepsInv(s, i, r.entries[i], r);
    }
  }

  /** Changing the status of the entry `Find` returns. */
  lemma ChangeKeepsInv(s: System, i: nat, e: Entry)
    requires Inv(s) && i < MAX_JWKS && s.r.entries[i].status != Empty && e.status != Empty
    requires e.triple == s.r.entries[i].triple && IsSound(e, s.r.timelock, s.now)
    ensures Inv(s.(r := s.r.(entries := s.r.entries[i := e])))
  {
    PutKeepsInv(s, i, e, s.r.(entries := s.r.entries[i := e]));
  }

  lemma BootstrapKeepsInv(s: System, signed: bool, t: Triple, k: JwkRegistry.Jwk, until: int)
    requires Inv(s)
    ensures Inv(s.(r := Bootstrap(s.r, signed, t, k, until, s.now).0))
  {
    var (r, err) := Bootstrap(s.r, signed, t, k, until, s.now);
    if err.None? {
      forall i | 0 <= i < |s.r.entries|
        ensures s.r.entries[i].status == Empty
      {
        NoneUsed(s.r.entries, i);
      }
      PutKeepsInv(s, 0, r.entries[0], r);
    }
  }

  lemma StepKeepsInv(s: System, e: Event)
    requires Inv(s) && Enabled(s, e)
    ensures Inv(Step(s, e))
  {
    hide Used, TriplesDiffer;
    match e
    case Pass(_) =>
    case ProposeEvent(signed, t, k) => ProposeKeepsInv(s, signed, t, k);
    case ActivateEvent(signed, t, until) =>
      var (r, err) := Activate(s.r, signed, t, until, s.now);
      if err.None? {
        var i := Find(s.r.entries, t, {Pending}, 0).value;
        ChangeKeepsInv(s, i, r.entries[i]);
      }
    case RevokeEvent(signed, t) =>
      var (r, err) := Revoke(s.r, signed, t, s.now);
      if err.None? {
        var i := Find(s.r.entries, t, {Pending, Active}, 0).value;
        ChangeKeepsInv(s, i, r.entries[i]);
      }
    case ExpireEvent(t) =>
      var (r, err) := Expire(s.r, t, s.now);
      if err.None? {
        var i := Find(s.r.entries, t, {Active}, 0).value;
        ChangeKeepsInv(s, i, r.entries[i]);
      }
    case BootstrapEvent(signed, t, k, until) => BootstrapKeepsInv(s, signed, t, k, until);
  }

  lemma {:induction false} RunKeepsInv(s: System, es: seq<Event>)
    requires Inv(s) && IsRun(s, es)
    ensures Inv(Run(s, es)) && s.now <= Run(s, es).now
    ensures Run(s, es).r.timelock == s.r.timelock && Run(s, es).r.graceAfterRevoke == s.r.graceAfterRevoke
    decreases |es|
  {
    if es != [] {
      StepKeepsInv(s, es[0]);
      RunKeepsInv(Step(s, es[0]), es[1..]);
    }
  }

  predicate IsNew(s: System) {
    s.r.entryCount == 0 && forall i | 0 <= i < MAX_JWKS :: s.r.entries[i].status == Empty
  }

  lemma {:induction false} AllEmpty(es: seq<Entry>)
    requires forall i | 0 <= i < |es| :: es[i].status == Empty
    ensures Used(es) == 0
  {
    if es != [] {
      AllEmpty(es[..|es| - 1]);
    }
  }

  /** In every state a new registry can reach, a triple names at most one entry, the count is right,
      every modulus fits the profile, and every active key either stood out its timelock or is the
      bootstrap key. */
  lemma ReachableIsSound(s: System, es: seq<Event>)
    requires IsNew(s) && IsRun(s, es)
    ensures Inv(Run(s, es))
  {
    AllEmpty(s.r.entries);
    RunKeepsInv(s, es);
  }

  // ----- The timelock -----

  /** What an entry can have become: untouched since, in any case proposed before, or proposed after. */
  predicate IsOld(e: Entry, before: seq<Entry>) {
    exists i :: 0 <= i < |before| && before[i].status != Empty && before[i].triple == e.triple
                && before[i].modulus == e.modulus && before[i].proposedAt == e.proposedAt
  }

  ghost predicate OldOrLater(s: System, before: seq<Entry>, since: int) {
    forall i | 0 <= i < |s.r.entries| && s.r.entries[i].status != Empty ::
      IsOld(s.r.entries[i], before) || s.r.entries[i].proposedAt >= since
  }

  lemma StepKeepsOldOrLater(s: System, e: Event, before: seq<Entry>, since: int)
    requires Inv(s) && OldOrLater(s, before, since) && since <= s.now && Enabled(s, e)
    ensures OldOrLater(Step(s, e), before, since)
  {
    hide Used, TriplesDiffer, IsOld, IsSound, Writable;
    var t := Step(s, e);
    if e.ProposeEvent? && Writable(s.r.entries, s.now, s.r.graceAfterRevoke).Ok? {
      WritableIsFree(s.r.entries, s.now, s.r.graceAfterRevoke);
    }
    forall i | 0 <= i < |t.r.entries| && t.r.entries[i].status != Empty
      ensures IsOld(t.r.entries[i], before) || t.r.entries[i].proposedAt >= since
    {
      var a, b := s.r.entries[i], t.r.entries[i];
      if b.triple == a.triple && b.modulus == a.modulus && b.proposedAt == a.proposedAt && a.status != Empty {
        SameIdentity(a, b, before);
      }
    }
  }

  lemma SameIdentity(a: Entry, b: Entry, before: seq<Entry>)
    requires b.triple == a.triple && b.modulus == a.modulus && b.proposedAt == a.proposedAt
    ensures IsOld(a, before) <==> IsOld(b, before)
  {
  }

  lemma {:induction false} RunKeepsOldOrLater(s: System, es: seq<Event>, before: seq<Entry>, since: int)
    requires Inv(s) && OldOrLater(s, before, since) && since <= s.now && IsRun(s, es)
    ensures OldOrLater(Run(s, es), before, since)
    decreases |es|
  {
    if es != [] {
      StepKeepsInv(s, es[0]);
      StepKeepsOldOrLater(s, es[0], before, since);
      RunKeepsOldOrLater(Step(s, es[0]), es[1..], before, since);
    }
  }

  /** Whoever signs what: a key that is active at the end of a run was already in the registry at its
      start, or was bootstrapped, or at least the timelock lies between start and end. */
  lemma NoActivationBeforeTimelock(s: System, es: seq<Event>, i: nat)
    requires Inv(s) && IsRun(s, es) && i < MAX_JWKS && Run(s, es).r.entries[i].status == Active
    ensures var e := Run(s, es).r.entries[i];
            IsOld(e, s.r.entries) || e.validFrom == e.proposedAt || s.now + s.r.timelock <= Run(s, es).now
  {
    RunKeepsInv(s, es);
    EntriesAreOld(s);
    RunKeepsOldOrLater(s, es, s.r.entries, s.now);
  }

  // ----- A revoked slot -----

  /** A revoked key is out of reach for the grace period: its slot does not change, and its triple can
      be neither proposed nor activated anew. */
  lemma RevokedStepStays(s: System, e: Event, i: nat)
    requires Inv(s) && Enabled(s, e) && i < MAX_JWKS && s.r.entries[i].status == Revoked
    requires s.now < s.r.entries[i].revokedAt + s.r.graceAfterRevoke
    ensures Step(s, e).r.entries[i] == s.r.entries[i]
  {
    hide TriplesDiffer;
    if e.ProposeEvent? && Writable(s.r.entries, s.now, s.r.graceAfterRevoke).Ok? {
      WritableIsFree(s.r.entries, s.now, s.r.graceAfterRevoke);
      hide Writable;
    }
    if e.BootstrapEvent? && s.r.entryCount == 0 {
      NoneUsed(s.r.entries, i);
    }
  }

  lemma {:induction false} RevokedStaysForGrace(s: System, es: seq<Event>, i: nat)
    requires Inv(s) && IsRun(s, es) && i < MAX_JWKS && s.r.entries[i].status == Revoked
    requires Run(s, es).now < s.r.entries[i].revokedAt + s.r.graceAfterRevoke
    ensures Run(s, es).r.entries[i] == s.r.entries[i]
    ensures forall j | 0 <= j < MAX_JWKS && j != i && Run(s, es).r.entries[j].status != Empty ::
              Run(s, es).r.entries[j].triple != s.r.entries[i].triple
    decreases |es|
  {
    RunKeepsInv(s, es);
    if es != [] {
      var t := Step(s, es[0]);
      StepKeepsInv(s, es[0]);
      RunKeepsInv(t, es[1..]);
      RevokedStepStays(s, es[0], i);
      RevokedStaysForGrace(t, es[1..], i);
    }
  }

  // ----- The watcher on top -----

  /** What the watcher reads of a slot. */
  function Read(e: Entry): JwkRotator.Entry
    requires e.status != Empty
  {
    JwkRotator.Entry(match e.status case Pending => JwkRotator.Pending case Active => JwkRotator.Active
                     case Revoked => JwkRotator.Revoked case _ => JwkRotator.Lapsed,
                     e.triple.issuerHash, e.triple.audienceHash, e.triple.kidHash, e.modulus, e.proposedAt)
  }

  /** How long it takes at least to free the slot of a pending key: revoke it and wait out the grace
      after a revocation, or activate it for a second, wait out the other grace and expire it. */
  function Lead(r: Registry): nat {
    if r.graceAfterRevoke < r.grace + 2 then r.graceAfterRevoke else r.grace + 2
  }

  /** What has become of the vetted entry `e` in its slot. */
  predicate InPlace(now: int, e: Entry, vetted: Entry, since: int, grace: nat) {
    && e.status != Empty && e.triple == vetted.triple && e.modulus == vetted.modulus && e.proposedAt == vetted.proposedAt
    && (e.status == Active ==> since < e.validUntil)
    && (e.status == Revoked ==> since <= e.revokedAt)
    && (e.status == Expired ==> since + grace + 2 <= now)
  }

  /** Either the vetted entry is in its slot and nothing else has its triple, or the slot was taken and
      whatever has the triple now was proposed late. */
  ghost predicate Tracks(s: System, i: nat, vetted: Entry, since: int) {
    && i < MAX_JWKS && since <= s.now
    && (InPlace(s.now, s.r.entries[i], vetted, since, s.r.grace)
        || (s.r.entries[i].status != Empty && since + Lead(s.r) <= s.now
            && forall j | 0 <= j < MAX_JWKS && s.r.entries[j].status != Empty && s.r.entries[j].triple == vetted.triple ::
                 since + Lead(s.r) <= s.r.entries[j].proposedAt))
  }

  lemma NotBootstrapped(s: System, i: nat)
    requires Inv(s) && i < MAX_JWKS && s.r.entries[i].status != Empty
    ensures s.r.entryCount != 0
  {
    if s.r.entryCount == 0 {
      NoneUsed(s.r.entries, i);
    }
  }

  lemma ProposeTracks(s: System, signed: bool, t: Triple, k: JwkRegistry.Jwk, i: nat, vetted: Entry, since: int)
    requires Inv(s) && Tracks(s, i, vetted, since)
    ensures Tracks(s.(r := Propose(s.r, signed, t, k, s.now).0), i, vetted, since)
  {
    hide Used, IsSound;
    var (r, err) := Propose(s.r, signed, t, k, s.now);
    if err.None? {
      WritableIsFree(s.r.entries, s.now, s.r.graceAfterRevoke);
      hide Writable;
      var w := Writable(s.r.entries, s.now, s.r.graceAfterRevoke).value;
      if InPlace(s.now, s.r.entries[i], vetted, since, s.r.grace) {
        assert t != vetted.triple;
        if w == i {
          assert since + Lead(s.r) <= s.now;
        } else {
          assert r.entries[i] == s.r.entries[i];
        }
      }
    }
  }

  lemma StepTracks(s: System, e: Event, i: nat, vetted: Entry, since: int)
    requires Inv(s) && Enabled(s, e) && Tracks(s, i, vetted, since)
    ensures Tracks(Step(s, e), i, vetted, since)
  {
    hide Used, TriplesDiffer, Propose;
    NotBootstrapped(s, i);
    if e.ProposeEvent? {
      ProposeTracks(s, e.signed, e.t, e.k, i, vetted, since);
    }
  }

  lemma {:induction false} RunTracks(s: System, es: seq<Event>, i: nat, vetted: Entry, since: int)
    requires Inv(s) && IsRun(s, es) && Tracks(s, i, vetted, since)
    ensures Tracks(Run(s, es), i, vetted, since) && Run(s, es).r.grace == s.r.grace
    decreases |es|
  {
    hide Tracks;
    if es != [] {
      StepKeepsInv(s, es[0]);
      StepTracks(s, es[0], i, vetted, since);
      RunTracks(Step(s, es[0]), es[1..], i, vetted, since);
    }
  }

  /** The activation names a triple, not a slot, and lands later than the read. Whatever happened in
      between, if it lands before the slot can have been freed, the triple proposed again and the
      timelock waited out, then the key it makes active is the one that was vetted, bit for bit. */
  lemma ActivationReachesVettedKey(s: System, i: nat, es: seq<Event>, until: int)
    requires Inv(s) && i < MAX_JWKS && s.r.entries[i].status == Pending && IsRun(s, es)
    requires Run(s, es).now < s.now + Lead(s.r) + s.r.timelock
    requires Activate(Run(s, es).r, true, s.r.entries[i].triple, until, Run(s, es).now).1.None?
    ensures var u := Run(s, es); var t := s.r.entries[i].triple;
            exists j :: 0 <= j < MAX_JWKS && u.r.entries[j].status == Pending
                        && Activate(u.r, true, t, until, u.now).0.entries[j].status == Active
                        && u.r.entries[j].triple == t && u.r.entries[j].modulus == s.r.entries[i].modulus
  {
    hide IsSound, Used, IsRun, Run;
    var u, t := Run(s, es), s.r.entries[i].triple;
    RunKeepsInv(s, es);
    RunTracks(s, es, i, s.r.entries[i], s.now);
    var j := Find(u.r.entries, t, {Pending}, 0).value;
    assert u.r.entries[j].proposedAt + u.r.timelock <= u.now;
    assert u.r.entries[j].modulus == s.r.entries[i].modulus;
  }

  lemma EntriesAreOld(s: System)
    ensures OldOrLater(s, s.r.entries, s.now)
  {
    forall j | 0 <= j < |s.r.entries| && s.r.entries[j].status != Empty
      ensures IsOld(s.r.entries[j], s.r.entries)
    {
    }
  }

  /** The active entry is a key that an enabled provider of its issuer and audience published under its
      key id, an odd 2048-bit modulus. */
  ghost predicate IsPublished(e: Entry, p: JwkRotator.Provider, answer: Option<seq<JwkRotator.Jwk>>, k: JwkRotator.Jwk,
                              sha: bytes -> bytes) {
    && e.status == Active && p.enabled && answer.Some? && k in answer.value && JwkRotator.IsUsable(k)
    && e.triple == Triple(sha(p.issuer), sha(p.audience), sha(k.kid.value))
    && JwkRotator.Value(e.modulus) == JwkRotator.Value(k.n.value)
    && JwkRotator.IsOdd2048(JwkRotator.Value(e.modulus))
  }

  /** The pass that reads slot i in state `s` decides to activate it. */
  ghost predicate Decides(s: System, i: nat, ps: seq<JwkRotator.Provider>, answers: seq<Option<seq<JwkRotator.Jwk>>>,
                          sha: bytes -> bytes) {
    && i < MAX_JWKS && s.r.entries[i].status != Empty && |ps| == |answers|
    && JwkRotator.Activates(Read(s.r.entries[i]), ps, JwkRotator.Gathered(ps, answers, sha), s.now, s.r.timelock, sha)
  }

  /** End to end: a pass reads the registry in state `s` and decides to activate slot `i`. If the
      instruction succeeds within that time, in state `u`, then the key it activates is one that was
      being published during the pass. */
  lemma ActivatedKeysWerePublished(s: System, i: nat, es: seq<Event>, u: System, until: int,
                                   ps: seq<JwkRotator.Provider>, answers: seq<Option<seq<JwkRotator.Jwk>>>,
                                   sha: bytes -> bytes)
    returns (j: nat, p: nat, k: JwkRotator.Jwk)
    requires Inv(s) && Decides(s, i, ps, answers, sha) && IsRun(s, es) && u == Run(s, es)
    requires u.now < s.now + Lead(s.r) + s.r.timelock
    requires Activate(u.r, true, s.r.entries[i].triple, until, u.now).1.None?
    ensures j < MAX_JWKS && u.r.entries[j].status == Pending && p < |ps| == |answers|
    ensures var after := Activate(u.r, true, s.r.entries[i].triple, until, u.now).0;
            after.entries[j].triple == s.r.entries[i].triple && IsPublished(after.entries[j], ps[p], answers[p], k, sha)
  {
    hide JwkRotator.IsOdd2048, JwkRotator.Value, JwkRotator.IsUsable, JwkRotator.Gathered;
    p, k := JwkRotator.ActivatedIsVetted(Read(s.r.entries[i]), ps, answers, s.now, s.r.timelock, sha);
    ActivationReachesVettedKey(s, i, es, until);
    var t := s.r.entries[i].triple;
    j :| 0 <= j < MAX_JWKS && u.r.entries[j].status == Pending
         && Activate(u.r, true, t, until, u.now).0.entries[j].status == Active
         && u.r.entries[j].triple == t && u.r.entries[j].modulus == s.r.entries[i].modulus;
  }

  // ----- That bound is exact -----

  lemma Then(s: System, e: Event, es: seq<Event>)
    requires Enabled(s, e) && IsRun(Step(s, e), es)
    ensures IsRun(s, [e] + es) && Run(s, [e] + es) == Run(Step(s, e), es)
  {
    assert ([e] + es)[1..] == es;
  }

  lemma FindsIt(es: seq<Entry>, i: nat, want: set<Status>)
    requires i < |es| && es[i].status in want && Empty !in want && TriplesDiffer(es)
    ensures Find(es, es[i].triple, want, 0) == Some(i)
  {
  }

  /** Two slots that a proposal may take, in that order, with all others in use. */
  ghost predicate TwoFree(s: System) {
    && (forall j | 2 <= j < MAX_JWKS :: s.r.entries[j].status == Pending)
    && ((IsReady(s.r.entries[0], s.now, s.r.graceAfterRevoke) && IsReady(s.r.entries[1], s.now, s.r.graceAfterRevoke))
        || (s.r.entries[0].status == Expired && s.r.entries[1].status == Expired))
  }

  lemma FirstFree(s: System, t: Triple, k: JwkRegistry.Jwk)
    requires TwoFree(s) && IsProfile(k) && forall j | 0 <= j < MAX_JWKS :: s.r.entries[j].triple != t
    ensures Propose(s.r, true, t, k, s.now)
         == (s.r.(entries := s.r.entries[0 := Entry(Pending, t, k.modulus, s.now, 0, 0, 0)]), None)
  {
    assert Writable(s.r.entries, s.now, s.r.graceAfterRevoke) == Ok(0);
  }

  lemma SecondFree(s: System, t: Triple, k: JwkRegistry.Jwk)
    requires s.r.entries[0].status == Pending && forall j | 2 <= j < MAX_JWKS :: s.r.entries[j].status == Pending
    requires IsReady(s.r.entries[1], s.now, s.r.graceAfterRevoke) || s.r.entries[1].status == Expired
    requires IsProfile(k) && forall j | 0 <= j < MAX_JWKS :: s.r.entries[j].triple != t
    ensures Propose(s.r, true, t, k, s.now)
         == (s.r.(entries := s.r.entries[1 := Entry(Pending, t, k.modulus, s.now, 0, 0, 0)]), None)
  {
    assert Writable(s.r.entries, s.now, s.r.graceAfterRevoke) == Ok(1);
  }

  /** Another triple takes the freed slot, the old one is proposed anew, and the timelock passes. */
  lemma Replaced(s: System, other: Triple, k: JwkRegistry.Jwk, until: int) returns (es: seq<Event>, u: System)
    requires Inv(s) && TwoFree(s) && IsProfile(k) && forall j | 0 <= j < MAX_JWKS :: s.r.entries[j].triple != other
    requires until == s.now + s.r.timelock + 1
    ensures IsRun(s, es) && Run(s, es) == u && u.now == s.now + s.r.timelock
    ensures var t := s.r.entries[0].triple; var (r, err) := Activate(u.r, true, t, until, u.now);
            err.None? && r.entries[1].status == Active && r.entries[1].triple == t && r.entries[1].modulus == k.modulus
            && u.r.entries[1].status == Pending
  {
    hide Used, IsSound, Propose, Writable;
    var t := s.r.entries[0].triple;
    FirstFree(s, other, k);
    var s1 := Step(s, ProposeEvent(true, other, k));
    SecondFree(s1, t, k);
    var s2 := Step(s1, ProposeEvent(true, t, k));
    u := Step(s2, Pass(s.now + s.r.timelock));
    StepKeepsInv(s, ProposeEvent(true, other, k));
    StepKeepsInv(s1, ProposeEvent(true, t, k));
    FindsIt(u.r.entries, 1, {Pending});
    Then(s2, Pass(s.now + s.r.timelock), []);
    Then(s1, ProposeEvent(true, t, k), [Pass(s.now + s.r.timelock)] + []);
    es := [ProposeEvent(true, t, k)] + ([Pass(s.now + s.r.timelock)] + []);
    Then(s, ProposeEvent(true, other, k), es);
    es := [ProposeEvent(true, other, k)] + es;
  }

  /** A full registry whose first key is pending and ripe, and whose second slot is about to be free. */
  ghost predicate NearlyFull(s: System) {
    && Inv(s) && s.r.entries[0].status == Pending && s.r.entries[0].proposedAt + s.r.timelock <= s.now
    && s.r.entries[1].status == (if s.r.graceAfterRevoke < s.r.grace + 2 then Revoked else Expired)
    && forall j | 2 <= j < MAX_JWKS :: s.r.entries[j].status == Pending
  }

  lemma {:induction false} RunsCompose(s: System, es: seq<Event>, fs: seq<Event>)
    requires IsRun(s, es) && IsRun(Run(s, es), fs)
    ensures IsRun(s, es + fs) && Run(s, es + fs) == Run(Run(s, es), fs)
    decreases |es|
  {
    if es == [] {
      assert es + fs == fs;
    } else {
      RunsCompose(Step(s, es[0]), es[1..], fs);
      assert (es + fs)[1..] == es[1..] + fs;
    }
  }

  // ----- A run from a new registry to such a state -----

  function Numbered(i: u8): Triple {
    Triple([i], [], [])
  }

  /** The first n slots hold a modulus each, under triples of their own and pending since now, and the
      others are empty. */
  ghost predicate Proposed(s: System, n: nat, modulus: bytes) {
    && n <= MAX_JWKS
    && (forall i | 0 <= i < n :: s.r.entries[i].status == Pending && s.r.entries[i].triple == Numbered(i)
                                 && s.r.entries[i].modulus == modulus && s.r.entries[i].proposedAt == s.now)
    && (forall i | n <= i < MAX_JWKS :: s.r.entries[i].status == Empty)
  }

  lemma ProposeNext(s: System, n: nat, k: JwkRegistry.Jwk)
    requires Proposed(s, n, k.modulus) && n < MAX_JWKS && IsProfile(k)
    ensures Proposed(Step(s, ProposeEvent(true, Numbered(n), k)), n + 1, k.modulus)
  {
    assert s.r.entries[n].status == Empty;
    assert FirstWith(s.r.entries, Empty, 0) == Some(n);
    forall i | 0 <= i < n
      ensures s.r.entries[i].triple != Numbered(n)
    {
      assert s.r.entries[i].triple.issuerHash[0] as int == i;
    }
    assert Find(s.r.entries, Numbered(n), {Pending, Active, Revoked, Expired}, 0) == None;
  }

  lemma {:induction false} ProposeAll(s: System, n: nat, k: JwkRegistry.Jwk) returns (es: seq<Event>, u: System)
    requires IsNew(s) && n <= MAX_JWKS && IsProfile(k)
    ensures IsRun(s, es) && Run(s, es) == u && Proposed(u, n, k.modulus)
    ensures u.now == s.now && u.r == s.r.(entries := u.r.entries, entryCount := u.r.entryCount)
  {
    if n == 0 {
      es, u := [], s;
    } else {
      var fs, t := ProposeAll(s, n - 1, k);
      var e := ProposeEvent(true, Numbered(n - 1), k);
      ProposeNext(t, n - 1, k);
      hide Proposed, Writable, IsNew;
      u := Step(t, e);
      Then(t, e, []);
      RunsCompose(s, fs, [e] + []);
      es := fs + ([e] + []);
    }
  }

  /** Every configuration has a run from a new registry to such a state: eight keys are proposed at
      once, and when the timelock is over the second has been revoked, or is activated for a second and
      expired as soon as it can be. */
  lemma ReachesNearlyFull(s: System, k: JwkRegistry.Jwk) returns (es: seq<Event>, u: System)
    requires IsNew(s) && IsProfile(k)
    ensures IsRun(s, es) && Run(s, es) == u && NearlyFull(u)
    ensures u.r.entries[0].modulus == k.modulus && forall j | 0 <= j < MAX_JWKS :: u.r.entries[j].triple == Numbered(j)
  {
    var fs, t := ProposeAll(s, MAX_JWKS, k);
    ReachableIsSound(s, fs);
    var gs;
    gs, u := SecondTaken(t);
    RunsCompose(s, fs, gs);
    es := fs + gs;
  }

  lemma SecondTaken(s: System) returns (es: seq<Event>, u: System)
    requires Inv(s) && Proposed(s, MAX_JWKS, s.r.entries[0].modulus)
    ensures IsRun(s, es) && Run(s, es) == u && NearlyFull(u)
    ensures u.r.entries[0].modulus == s.r.entries[0].modulus
    ensures forall j | 0 <= j < MAX_JWKS :: u.r.entries[j].triple == Numbered(j)
  {
    hide Used, Propose, Bootstrap;
    var t, ripe := Numbered(1), Pass(s.now + s.r.timelock);
    if s.r.graceAfterRevoke < s.r.grace + 2 {
      FindsIt(s.r.entries, 1, {Pending, Active});
      var s1 := Step(s, RevokeEvent(true, t));
      u := Step(s1, ripe);
      StepKeepsInv(s, RevokeEvent(true, t));
      StepKeepsInv(s1, ripe);
      Then(s1, ripe, []);
      Then(s, RevokeEvent(true, t), [ripe] + []);
      es := [RevokeEvent(true, t)] + ([ripe] + []);
    } else {
      var s1 := Step(s, ripe);
      StepKeepsInv(s, ripe);
      FindsIt(s1.r.entries, 1, {Pending});
      var act := ActivateEvent(true, t, s1.now + 1);
      var s2 := Step(s1, act);
      StepKeepsInv(s1, act);
      var late := Pass(s2.now + s2.r.grace + 2);
      var s3 := Step(s2, late);
      StepKeepsInv(s2, late);
      FindsIt(s3.r.entries, 1, {Active});
      u := Step(s3, ExpireEvent(t));
      StepKeepsInv(s3, ExpireEvent(t));
      Then(s3, ExpireEvent(t), []);
      Then(s2, late, [ExpireEvent(t)] + []);
      Then(s1, act, [late] + ([ExpireEvent(t)] + []));
      Then(s, ripe, [act] + ([late] + ([ExpireEvent(t)] + [])));
      es := [ripe] + ([act] + ([late] + ([ExpireEvent(t)] + [])));
    }
  }

  /** The quickest way to free the first slot. */
  lemma Freed(s: System) returns (es: seq<Event>, u: System)
    requires NearlyFull(s)
    ensures IsRun(s, es) && Run(s, es) == u && u.now == s.now + Lead(s.r) && Inv(u) && TwoFree(u)
    ensures u.r.timelock == s.r.timelock && forall j | 0 <= j < MAX_JWKS :: u.r.entries[j].triple == s.r.entries[j].triple
  {
    hide Used;
    var t, late := s.r.entries[0].triple, Pass(s.now + Lead(s.r));
    if s.r.graceAfterRevoke < s.r.grace + 2 {
      FindsIt(s.r.entries, 0, {Pending, Active});
      var s1 := Step(s, RevokeEvent(true, t));
      u := Step(s1, late);
      StepKeepsInv(s, RevokeEvent(true, t));
      StepKeepsInv(s1, late);
      Then(s1, late, []);
      Then(s, RevokeEvent(true, t), [late] + []);
      es := [RevokeEvent(true, t)] + ([late] + []);
    } else {
      FindsIt(s.r.entries, 0, {Pending});
      var act := ActivateEvent(true, t, s.now + 1);
      var s1 := Step(s, act);
      var s2 := Step(s1, late);
      StepKeepsInv(s, act);
      StepKeepsInv(s1, late);
      FindsIt(s2.r.entries, 0, {Active});
      u := Step(s2, ExpireEvent(t));
      StepKeepsInv(s2, ExpireEvent(t));
      Then(s2, ExpireEvent(t), []);
      Then(s1, late, [ExpireEvent(t)] + []);
      Then(s, act, [late] + ([ExpireEvent(t)] + []));
      es := [act] + ([late] + ([ExpireEvent(t)] + []));
    }
  }

  /** At the bound itself another key can be activated under the vetted triple: any key of the profile,
      for any timelock and any graces. */
  lemma BoundIsExact(s: System, other: Triple, k: JwkRegistry.Jwk) returns (es: seq<Event>, until: int)
    requires NearlyFull(s) && IsProfile(k) && forall j | 0 <= j < MAX_JWKS :: s.r.entries[j].triple != other
    ensures IsRun(s, es) && Run(s, es).now == s.now + Lead(s.r) + s.r.timelock
    ensures var u, t := Run(s, es), s.r.entries[0].triple; var (r, err) := Activate(u.r, true, t, until, u.now);
            err.None? && exists j :: 0 <= j < MAX_JWKS && u.r.entries[j].status == Pending
                                     && r.entries[j].status == Active && r.entries[j].triple == t
                                     && r.entries[j].modulus == k.modulus
  {
    hide Inv, TwoFree, NearlyFull, Activate, Run, IsRun;
    var es1, u1 := Freed(s);
    until := u1.now + u1.r.timelock + 1;
    var es2, u2 := Replaced(u1, other, k, until);
    RunsCompose(s, es1, es2);
    es := es1 + es2;
  }

  /** And that happens: in some run of a new registry the watcher reads a ripe pending key, and what its
      activation makes active at the bound is any other. */
  lemma BoundIsReached(s: System, vetted: JwkRegistry.Jwk, k: JwkRegistry.Jwk)
    returns (es: seq<Event>, v: System, fs: seq<Event>, until: int)
    requires IsNew(s) && IsProfile(vetted) && IsProfile(k)
    ensures IsRun(s, es) && Run(s, es) == v && NearlyFull(v) && v.r.entries[0].modulus == vetted.modulus
    ensures IsRun(v, fs) && Run(v, fs).now == v.now + Lead(v.r) + v.r.timelock
    ensures var u, t := Run(v, fs), v.r.entries[0].triple; var (r, err) := Activate(u.r, true, t, until, u.now);
            err.None? && exists j :: 0 <= j < MAX_JWKS && u.r.entries[j].status == Pending
                                     && r.entries[j].status == Active && r.entries[j].triple == t
                                     && r.entries[j].modulus == k.modulus
  {
    hide Inv, NearlyFull, Activate, Run, IsRun, IsNew;
    es, v := ReachesNearlyFull(s, vetted);
    forall j | 0 <= j < MAX_JWKS
      ensures v.r.entries[j].triple != Numbered(MAX_JWKS)
    {
      assert v.r.entries[j].triple.issuerHash[0] as int == j;
    }
    fs, until := BoundIsExact(v, Numbered(MAX_JWKS), k);
  }
}
