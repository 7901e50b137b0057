/** The in-memory per-address limiter (backend/internal/api/ratelimit.go), used when Redis is
    absent or fails open: a capped map of buckets with oldest-first eviction and a sweep.

    Times are nanoseconds. One attempt costs NANOS_PER_ATTEMPT units and a bucket earns one unit
    per nanosecond, which is the configured rate of one attempt every six seconds. */
module LocalLimiter {

  const NANOS_PER_ATTEMPT: int := 6_000_000_000
  const BURST: int := 10
  const CAPACITY: int := BURST * NANOS_PER_ATTEMPT
  const IDLE_TTL: int := 30 * 60 * 1_000_000_000

  /** The rate.Limiter of one address (its units and when they were counted) and the last hit. */
  datatype IpBucket = IpBucket(units: int, last: int, lastHit: int)

  type Buckets = map<string, IpBucket>

  function Refilled(b: IpBucket, now: int): int {
    var earned := if now < b.last then 0 else now - b.last;
    if b.units + earned < CAPACITY then b.units + earned else CAPACITY
  }

  /** rate.Limiter.Allow: a refusal leaves the limiter as it was. */
  function Take(b: IpBucket, now: int): (IpBucket, bool) {
    var units := Refilled(b, now);
    if units >= NANOS_PER_ATTEMPT then (b.(units := units - NANOS_PER_ATTEMPT, last := now), true)
    else (b, false)
  }

  /** One attempt from `ip`, once there is room for its bucket. */
  function Hit(m: Buckets, ip: string, now: int): (Buckets, bool) {
    var b := if ip in m then m[ip].(lastHit := now) else IpBucket(CAPACITY, now, now);
    var (after, ok) := Take(b, now);
    (m[ip := after], ok)
  }

  /** gcLoop drops every bucket whose last hit is before the cutoff. */
  function Swept(m: Buckets, now: int): Buckets {
    map ip | ip in m && m[ip].lastHit >= now - IDLE_TTL :: m[ip]
  }

  ghost predicate IsOldest(m: Buckets, ip: string) {
    ip in m && forall other | other in m :: m[ip].lastHit <= m[other].lastHit
  }

  /** The eviction drops an oldest bucket, except that it leaves the map alone when the oldest key
      it found is the empty string, which the code also uses for "none found". */
  ghost predicate EvictsOldest(m: Buckets, after: Buckets) {
    if m == map[] then after == m
    else exists ip :: IsOldest(m, ip) && after == if ip == "" then m else m - {ip}
  }

  /** One whole call of `allow` under the cap. */
  ghost predicate Allows(cap: nat, m: Buckets, ip: string, now: int, after: Buckets, ok: bool) {
    if ip !in m && |m| >= cap then
      exists roomy :: EvictsOldest(m, roomy) && (after, ok) == Hit(roomy, ip, now)
    else
      (after, ok) == Hit(m, ip, now)
  }

  class AuthRateLimiter {
    const maxBuckets: nat
    var buckets: Buckets

    constructor ()
      ensures maxBuckets == 50_000 && buckets == map[]
    {
      maxBuckets := 50_000;
      buckets := map[];
    }

    method Allow(ip: string, now: int) returns (ok: bool)
      modifies this
      ensures Allows(maxBuckets, old(buckets), ip, now, buckets, ok)
      ensures ip in buckets && buckets[ip].lastHit == now
      ensures forall other | other in buckets && other != ip ::
                other in old(buckets) && buckets[other] == old(buckets)[other]
    {
      ghost var roomy := buckets;
      if ip !in buckets {
        if |buckets| >= maxBuckets {
          EvictOldestLocked();
        }
        roomy := buckets;
        assert ip !in roomy;
        buckets := buckets[ip := IpBucket(CAPACITY, now, now)];
      }
      buckets := buckets[ip := buckets[ip].(lastHit := now)];
      var (after, admitted) := Take(buckets[ip], now);
      buckets := buckets[ip := after];
      ok := admitted;
      assert buckets == Hit(roomy, ip, now).0;
    }

    method EvictOldestLocked()
      modifies this
      ensures EvictsOldest(old(buckets), buckets)
    {
      var oldestKey, oldestTime, first := "", 0, true;
      var pending := buckets.Keys;
      while pending != {}
        invariant pending <= buckets.Keys && buckets == old(buckets)
        invariant first <==> pending == buckets.Keys
        invariant first ==> oldestKey == ""
        invariant !first ==> oldestKey in buckets && oldestTime == buckets[oldestKey].lastHit
        invariant !first ==> forall ip | ip in buckets && ip !in pending :: oldestTime <= buckets[ip].lastHit
        decreases pending
      {
        var k :| k in pending;
        if first || buckets[k].lastHit < oldestTime {
          oldestKey, oldestTime, first := k, buckets[k].lastHit, false;
        }
        pending := pending - {k};
      }
      assert buckets != map[] ==> buckets.Keys != {} && IsOldest(buckets, oldestKey);
      if oldestKey != "" {
        buckets := buckets - {oldestKey};
      }
    }

    method Sweep(now: int)
      modifies this
      ensures buckets == Swept(old(buckets), now)
      ensures forall ip | ip in old(buckets) ::
                if old(buckets)[ip].lastHit < now - 1_800_000_000_000 then ip !in buckets
                else ip in buckets && buckets[ip] == old(buckets)[ip]
      ensures buckets.Keys <= old(buckets).Keys
    {
      var cutoff := now - IDLE_TTL;
      var stale: set<string> := {};
      var pending := buckets.Keys;
      while pending != {}
        invariant pending <= buckets.Keys && buckets == old(buckets)
        invariant stale == set ip | ip in buckets && ip !in pending && buckets[ip].lastHit < cutoff
        decreases pending
      {
        var ip :| ip in pending;
        if buckets[ip].lastHit < cutoff {
          stale := stale + {ip};
        }
        pending := pending - {ip};
      }
      var doomed := stale;
      while doomed != {}
        invariant doomed <= stale
        invariant buckets == old(buckets) - (stale - doomed)
        decreases doomed
      {
        var ip :| ip in doomed;
        buckets := buckets - {ip};
        doomed := doomed - {ip};
      }
    }
  }

  // ----- The cap -----

  /** With non-empty addresses, as the middleware supplies them, the map never outgrows the cap. */
  lemma CapHolds(cap: nat, m: Buckets, ip: string, now: int, after: Buckets, ok: bool)
    requires Allows(cap, m, ip, now, after, ok)
    requires 1 <= cap && |m| <= cap && "" !in m && ip != ""
    ensures |after| <= cap && "" !in after
  {
    if ip !in m && |m| >= cap {
      var roomy :| EvictsOldest(m, roomy) && (after, ok) == Hit(roomy, ip, now);
      assert m.Keys != {};
      var gone :| IsOldest(m, gone) && roomy == if gone == "" then m else m - {gone};
      assert roomy == m - {gone} && after.Keys == m.Keys - {gone} + {ip};
    } else {
      assert after.Keys == m.Keys + {ip};
      if ip in m {
        assert m.Keys + {ip} == m.Keys;
      }
    }
  }

  /** Addresses are dropped only when a new one meets a full map, one at a time, and the one hit longest
      ago; all others keep their buckets. */
  lemma EvictsOnlyWhenFull(cap: nat, m: Buckets, ip: string, now: int, after: Buckets, ok: bool, x: string)
    requires Allows(cap, m, ip, now, after, ok) && x in m && x != ip
    ensures x in after ==> after[x] == m[x]
    ensures x !in after ==> ip !in m && cap <= |m| && forall y | y in m :: m[x].lastHit <= m[y].lastHit
    ensures x !in after ==> forall y | y in m && y != x :: y in after
  {
    if ip !in m && |m| >= cap {
      var roomy :| EvictsOldest(m, roomy) && (after, ok) == Hit(roomy, ip, now);
    }
  }

  /** A call made on the limiter. */
  datatype Call = Allow(ip: string, now: int) | Gc(now: int)

  ghost predicate Steps(cap: nat, m: Buckets, c: Call, after: Buckets) {
    match c
    case Allow(ip, now) => Allows(cap, m, ip, now, after, true) || Allows(cap, m, ip, now, after, false)
    case Gc(now) => after == Swept(m, now)
  }

  /** The maps the limiter goes through, one per call, from an empty one. */
  ghost predicate IsTrace(cap: nat, calls: seq<Call>, maps: seq<Buckets>) {
    && |maps| == |calls| + 1 && maps[0] == map[]
    && forall i | 0 <= i < |calls| :: Steps(cap, maps[i], calls[i], maps[i + 1])
  }

  lemma {:induction false} CapAlwaysHolds(cap: nat, calls: seq<Call>, maps: seq<Buckets>, n: nat)
    requires 1 <= cap && IsTrace(cap, calls, maps) && n < |maps|
    requires forall i | 0 <= i < |calls| && calls[i].Allow? :: calls[i].ip != ""
    ensures |maps[n]| <= cap && "" !in maps[n]
  {
    hide Allows, Swept;
    if n > 0 {
      CapAlwaysHolds(cap, calls, maps, n - 1);
      var m, c, after := maps[n - 1], calls[n - 1], maps[n];
      assert Steps(cap, m, c, after);
      if c.Allow? {
        CapHolds(cap, m, c.ip, c.now, after, Allows(cap, m, c.ip, c.now, after, true));
      } else {
        SweepShrinks(m, c.now);
      }
    }
  }

  lemma SweepShrinks(m: Buckets, now: int)
    ensures Swept(m, now).Keys <= m.Keys && |Swept(m, now)| <= |m|
  {
    var kept := Swept(m, now).Keys;
    assert m.Keys == kept + (m.Keys - kept);
  }

  /** An empty address breaks the cap: once it is the oldest key nothing is evicted any more. */
  lemma EmptyKeyDefeatsTheCap(b: IpBucket, now: int)
    ensures var m: Buckets := map["" := b];
            exists after, ok :: Allows(1, m, "10.0.0.1", now, after, ok) && |after| == 2
  {
    var m: Buckets := map["" := b];
    assert IsOldest(m, "") && EvictsOldest(m, m);
    var (after, ok) := Hit(m, "10.0.0.1", now);
    assert after.Keys == {"", "10.0.0.1"};
    assert |after.Keys| == 2;
    assert Allows(1, m, "10.0.0.1", now, after, ok);
  }

  // ----- The sweep is harmless -----

  /** What can happen to the map: an attempt, a sweep, or an eviction of some address. */
  datatype Event = Attempt(ip: string, now: int) | Sweep(now: int) | Evict(ip: string, now: int)

  function Apply(m: Buckets, e: Event, sweeping: bool): (Buckets, bool) {
    match e
    case Attempt(ip, now) => Hit(m, ip, now)
    case Sweep(now) => (if sweeping then Swept(m, now) else m, false)
    case Evict(ip, _) => (m - {ip}, false)
  }

  /** The map after a history of events, with the sweeps carried out or ignored. */
  function After(es: seq<Event>, sweeping: bool): Buckets {
    if es == [] then map[] else Apply(After(es[..|es| - 1], sweeping), es[|es| - 1], sweeping).0
  }

  ghost predicate Chronological(es: seq<Event>) {
    forall i, j | 0 <= i < j < |es| :: es[i].now <= es[j].now
  }

  /** The swept map differs from the unswept one only in buckets that are full again. */
  ghost predicate OnlyFullForgotten(swept: Buckets, unswept: Buckets, now: int) {
    && (forall ip | ip in swept :: ip in unswept && swept[ip] == unswept[ip])
    && (forall ip | ip in unswept ::
          unswept[ip].units >= 0 && unswept[ip].last <= unswept[ip].lastHit <= now)
    && (forall ip | ip in unswept && ip !in swept :: Refilled(unswept[ip], now) == CAPACITY)
  }

  lemma AttemptForgetsOnlyFull(a: Buckets, b: Buckets, ip: string, before: int, now: int)
    requires OnlyFullForgotten(a, b, before) && before <= now
    ensures Hit(a, ip, now).1 == Hit(b, ip, now).1
    ensures OnlyFullForgotten(Hit(a, ip, now).0, Hit(b, ip, now).0, now)
  {
    var c, d := Hit(a, ip, now).0, Hit(b, ip, now).0;
    assert c[ip] == d[ip];
  }

  lemma StepForgetsOnlyFull(a: Buckets, b: Buckets, e: Event, before: int)
    requires OnlyFullForgotten(a, b, before) && before <= e.now
    ensures Apply(a, e, true).1 == Apply(b, e, false).1
    ensures OnlyFullForgotten(Apply(a, e, true).0, Apply(b, e, false).0, e.now)
  {
    hide Hit;
    if e.Attempt? {
      AttemptForgetsOnlyFull(a, b, e.ip, before, e.now);
    }
  }

  lemma {:induction false} HistoryForgetsOnlyFull(es: seq<Event>)
    requires es != [] && Chronological(es)
    ensures OnlyFullForgotten(After(es, true), After(es, false), es[|es| - 1].now)
  {
    var last := |es| - 1;
    if last == 0 {
      assert es[..0] == [];
      StepForgetsOnlyFull(map[], map[], es[0], es[0].now);
    } else {
      assert es[..last][last - 1] == es[last - 1];
      HistoryForgetsOnlyFull(es[..last]);
      StepForgetsOnlyFull(After(es[..last], true), After(es[..last], false), es[last], es[last - 1].now);
    }
  }

  /** Sweeping never changes a verdict: after any history, with any evictions in it, the next
      attempt is answered as if no sweep had ever run. */
  lemma SweepChangesNoVerdict(es: seq<Event>, ip: string, now: int)
    requires Chronological(es + [Attempt(ip, now)])
    ensures Hit(After(es, true), ip, now).1 == Hit(After(es, false), ip, now).1
  {
    var all := es + [Attempt(ip, now)];
    if es == [] {
      assert After(es, true) == After(es, false) == map[];
    } else {
      assert forall i | 0 <= i < |es| :: all[i] == es[i];
      assert es[|es| - 1].now <= all[|es|].now;
      HistoryForgetsOnlyFull(es);
      StepForgetsOnlyFull(After(es, true), After(es, false), Attempt(ip, now), es[|es| - 1].now);
    }
  }

  // ----- The sweep is harmless under the cap as well -----

  /** One call with its verdict, the sweeps carried out or not. */
  ghost predicate Answers(cap: nat, m: Buckets, c: Call, after: Buckets, ok: bool, sweeping: bool) {
    match c
    case Allow(ip, now) => Allows(cap, m, ip, now, after, ok)
    case Gc(now) => after == if sweeping then Swept(m, now) else m
  }

  ghost predicate IsHistory(cap: nat, calls: seq<Call>, oks: seq<bool>, maps: seq<Buckets>, sweeping: bool) {
    && |maps| == |calls| + 1 == |oks| + 1 && maps[0] == map[]
    && forall i | 0 <= i < |calls| :: Answers(cap, maps[i], calls[i], maps[i + 1], oks[i], sweeping)
  }

  /** `b` is what `a` would be had nothing been swept: it has the same buckets and perhaps some more,
      all of them full and all hit longer ago than any bucket of `a`. */
  ghost predicate Shadows(cap: nat, a: Buckets, b: Buckets, now: int) {
    && |b| <= cap && "" !in b
    && (forall ip | ip in a :: ip in b && b[ip] == a[ip])
    && (forall ip | ip in b :: b[ip].units >= 0 && b[ip].last <= b[ip].lastHit <= now)
    && (forall x | x in b && x !in a :: b[x].lastHit < now && Refilled(b[x], now) == CAPACITY)
    && (forall x, y | x in b && x !in a && y in a :: b[x].lastHit < a[y].lastHit)
  }

  lemma Fewer(a: Buckets, b: Buckets)
    requires forall ip | ip in a :: ip in b && b[ip] == a[ip]
    ensures |a| <= |b| && (|a| == |b| ==> a == b)
  {
    assert b.Keys == a.Keys + (b.Keys - a.Keys);
    if |a| == |b| {
      assert b.Keys - a.Keys == {};
      assert b.Keys == a.Keys;
    }
  }

  lemma {:induction false} OldestOf(m: Buckets, ips: set<string>) returns (ip: string)
    requires ips != {} && ips <= m.Keys
    ensures ip in ips && forall other | other in ips :: m[ip].lastHit <= m[other].lastHit
    decreases ips
  {
    ip :| ip in ips;
    if ips != {ip} {
      var rest := OldestOf(m, ips - {ip});
      if m[rest].lastHit < m[ip].lastHit {
        ip := rest;
      }
    }
  }

  lemma AgeKeepsShadow(cap: nat, a: Buckets, b: Buckets, before: int, now: int)
    requires Shadows(cap, a, b, before) && before <= now
    ensures Shadows(cap, a, b, now)
  {
  }

  /** One bucket written to both maps, hit just now. */
  lemma PutKeepsShadow(cap: nat, a: Buckets, b: Buckets, ip: string, e: IpBucket, now: int)
    requires Shadows(cap, a, b, now) && ip != "" && (ip in b || |b| < cap)
    requires e.units >= 0 && e.last <= e.lastHit == now
    ensures Shadows(cap, a[ip := e], b[ip := e], now)
  {
    hide Refilled;
    PutSize(cap, b, ip, e);
    var c, d := a[ip := e], b[ip := e];
    forall x | x in d && x !in c
      ensures d[x].lastHit < now && Refilled(d[x], now) == CAPACITY && forall y | y in c :: d[x].lastHit < c[y].lastHit
    {
      assert x in b && x !in a && d[x] == b[x];
    }
  }

  lemma PutSize(cap: nat, b: Buckets, ip: string, e: IpBucket)
    requires |b| <= cap && (ip in b || |b| < cap)
    ensures |b[ip := e]| <= cap
  {
    var d := b[ip := e];
    assert d.Keys == b.Keys + {ip};
    if ip in b {
      assert b.Keys + {ip} == b.Keys;
    }
  }

  /** A full bucket answers like a new one. */
  lemma HitsAgree(cap: nat, a: Buckets, b: Buckets, ip: string, now: int)
    requires Shadows(cap, a, b, now)
    ensures var (c, ok) := Hit(a, ip, now); var (d, yes) := Hit(b, ip, now);
            ok == yes && c[ip] == d[ip] && c == a[ip := c[ip]] && d == b[ip := d[ip]]
            && c[ip].units >= 0 && c[ip].last <= c[ip].lastHit == now
  {
  }

  /** An attempt on a map with room, or on a known address. */
  lemma HitKeepsShadow(cap: nat, a: Buckets, b: Buckets, ip: string, before: int, now: int)
    requires Shadows(cap, a, b, before) && before <= now && ip != "" && (ip in b || |b| < cap)
    ensures Hit(a, ip, now).1 == Hit(b, ip, now).1
    ensures Shadows(cap, Hit(a, ip, now).0, Hit(b, ip, now).0, now)
  {
    hide Shadows, Hit;
    AgeKeepsShadow(cap, a, b, before, now);
    HitsAgree(cap, a, b, ip, now);
    PutKeepsShadow(cap, a, b, ip, Hit(a, ip, now).0[ip], now);
  }

  lemma DropKeepsShadow(cap: nat, a: Buckets, b: Buckets, x: string, now: int)
    requires Shadows(cap, a, b, now) && x in b && x !in a
    ensures Shadows(cap, a, b - {x}, now) && |b - {x}| < cap
  {
    assert (b - {x}).Keys == b.Keys - {x};
  }

  /** Whatever the swept map does, the unswept one can do with the same answer: while it holds more, a
      full map makes it evict only what the sweep had dropped. */
  lemma ShadowAnswers(cap: nat, a: Buckets, b: Buckets, ip: string, before: int, now: int, after: Buckets, ok: bool)
    returns (c: Buckets)
    requires 1 <= cap && Shadows(cap, a, b, before) && before <= now && ip != ""
    requires Allows(cap, a, ip, now, after, ok)
    ensures Allows(cap, b, ip, now, c, ok) && Shadows(cap, after, c, now)
  {
    hide Hit, Shadows;
    ShadowHolds(cap, a, b, before);
    Fewer(a, b);
    if ip in b || |b| < cap {
      HitKeepsShadow(cap, a, b, ip, before, now);
      c := Hit(b, ip, now).0;
    } else if a == b {
      var roomy :| EvictsOldest(a, roomy) && (after, ok) == Hit(roomy, ip, now);
      BothEvict(cap, a, roomy, before);
      HitKeepsShadow(cap, roomy, roomy, ip, before, now);
      c := after;
    } else {
      var x := OldestExtra(cap, a, b, before);
      DropKeepsShadow(cap, a, b, x, before);
      HitKeepsShadow(cap, a, b - {x}, ip, before, now);
      c := Hit(b - {x}, ip, now).0;
      assert EvictsOldest(b, b - {x});
    }
  }

  lemma ShadowHolds(cap: nat, a: Buckets, b: Buckets, now: int)
    requires Shadows(cap, a, b, now)
    ensures |b| <= cap && "" !in b && forall ip | ip in a :: ip in b && b[ip] == a[ip]
  {
  }

  lemma NoExtras(a: Buckets, b: Buckets)
    requires forall ip | ip in a :: ip in b && b[ip] == a[ip]
    ensures (forall y | y in b :: y in a) ==> a == b
  {
    if forall y | y in b :: y in a {
      assert a == b;
    }
  }

  lemma OldestExtra(cap: nat, a: Buckets, b: Buckets, now: int) returns (x: string)
    requires Shadows(cap, a, b, now) && a != b
    ensures x in b && x !in a && IsOldest(b, x)
  {
    var extras := b.Keys - a.Keys;
    NoExtras(a, b);
    var y :| y in b && y !in a;
    assert y in extras;
    x := OldestOf(b, extras);
  }

  lemma BothEvict(cap: nat, m: Buckets, roomy: Buckets, now: int)
    requires Shadows(cap, m, m, now) && EvictsOldest(m, roomy) && |m| >= cap >= 1
    ensures Shadows(cap, roomy, roomy, now) && |roomy| < cap
  {
    assert m.Keys != {};
    var gone :| IsOldest(m, gone) && roomy == if gone == "" then m else m - {gone};
    assert roomy.Keys == m.Keys - {gone};
  }

  lemma SweepKeepsShadow(cap: nat, a: Buckets, b: Buckets, before: int, now: int)
    requires Shadows(cap, a, b, before) && before <= now
    ensures Shadows(cap, Swept(a, now), b, now)
  {
  }

  ghost predicate InOrder(calls: seq<Call>) {
    forall i, j | 0 <= i < j < |calls| :: calls[i].now <= calls[j].now
  }

  /** Every history of the limiter has a twin under the same cap in which nothing is ever swept and
      every attempt gets the same answer. */
  lemma {:induction false} SweptHistoryHasUnsweptTwin(cap: nat, calls: seq<Call>, oks: seq<bool>, maps: seq<Buckets>)
    returns (twin: seq<Buckets>)
    requires 1 <= cap && IsHistory(cap, calls, oks, maps, true) && InOrder(calls)
    requires forall i | 0 <= i < |calls| && calls[i].Allow? :: calls[i].ip != ""
    ensures IsHistory(cap, calls, oks, twin, false)
    ensures calls != [] ==> Shadows(cap, maps[|calls|], twin[|calls|], calls[|calls| - 1].now)
    decreases |calls|
  {
    hide Allows, Swept, Shadows;
    if calls == [] {
      twin := [map[]];
      return;
    }
    var n := |calls| - 1;
    var c, m := calls[n], maps[n];
    var earlier := SweptHistoryHasUnsweptTwin(cap, calls[..n], oks[..n], maps[..n + 1]);
    var before := if n == 0 then c.now else calls[n - 1].now;
    assert Shadows(cap, m, earlier[n], before) by {
      if n == 0 {
        NothingShadows(cap, before);
      } else {
        assert calls[..n][n - 1] == calls[n - 1];
      }
    }
    assert Answers(cap, m, c, maps[n + 1], oks[n], true);
    var next := earlier[n];
    if c.Allow? {
      next := ShadowAnswers(cap, m, earlier[n], c.ip, before, c.now, maps[n + 1], oks[n]);
    } else {
      SweepKeepsShadow(cap, m, earlier[n], before, c.now);
    }
    twin := earlier + [next];
    forall i | 0 <= i < |calls|
      ensures Answers(cap, twin[i], calls[i], twin[i + 1], oks[i], false)
    {
      if i < n {
        assert Answers(cap, earlier[i], calls[..n][i], earlier[i + 1], oks[..n][i], false);
      }
    }
  }

  lemma NothingShadows(cap: nat, now: int)
    ensures Shadows(cap, map[], map[], now)
  {
  }

  // ----- What the limiter of an address admits -----

  predicate IsAttempt(c: Call, ip: string) {
    c.Allow? && c.ip == ip
  }

  /** How many of the attempts from `ip` among the calls i, ..., k-1 were admitted. */
  function Admitted(calls: seq<Call>, oks: seq<bool>, ip: string, i: nat, k: nat): nat
    requires i <= k <= |calls| == |oks|
  {
    if i == k then 0
    else Admitted(calls, oks, ip, i, k - 1) + if IsAttempt(calls[k - 1], ip) && oks[k - 1] then 1 else 0
  }

  /** Call f creates the bucket of `ip`, and nothing removes it before call k. */
  ghost predicate Lasts(calls: seq<Call>, maps: seq<Buckets>, ip: string, f: nat, k: nat)
    requires |maps| == |calls| + 1
  {
    f < k <= |calls| && IsAttempt(calls[f], ip) && ip !in maps[f] && forall n | f < n <= k :: ip in maps[n]
  }

  /** Attempt j, on top of those admitted since attempt i, is within the burst of ten and one more for
      every six seconds since. */
  predicate Fits(calls: seq<Call>, oks: seq<bool>, ip: string, i: nat, j: nat)
    requires i <= j < |calls| == |oks|
  {
    (Admitted(calls, oks, ip, i, j) + 1) * 6_000_000_000 <= 60_000_000_000 + (calls[j].now - calls[i].now)
  }

  /** What a call does to the bucket of `ip` that it finds and leaves in the map. */
  lemma BucketMoves(cap: nat, m: Buckets, c: Call, after: Buckets, ok: bool, sweeping: bool, ip: string)
    requires Answers(cap, m, c, after, ok, sweeping) && ip in m && ip in after
    ensures if IsAttempt(c, ip) then (after[ip], ok) == Take(m[ip].(lastHit := c.now), c.now)
            else after[ip] == m[ip]
  {
    if c.Allow? && c.ip !in m && |m| >= cap {
      var roomy :| EvictsOldest(m, roomy) && (after, ok) == Hit(roomy, c.ip, c.now);
    }
  }

  lemma BucketStarts(cap: nat, m: Buckets, c: Call, after: Buckets, ok: bool, sweeping: bool, ip: string)
    requires Answers(cap, m, c, after, ok, sweeping) && IsAttempt(c, ip) && ip !in m
    ensures ok && ip in after && after[ip] == IpBucket(CAPACITY - NANOS_PER_ATTEMPT, c.now, c.now)
  {
    if |m| >= cap {
      var roomy :| EvictsOldest(m, roomy) && (after, ok) == Hit(roomy, ip, c.now);
    }
  }

  /** The bucket is as low as the attempt since which the most was admitted has made it; `a` is that
      attempt. */
  lemma {:induction false} LowestSince(cap: nat, calls: seq<Call>, oks: seq<bool>, maps: seq<Buckets>, sweeping: bool,
                                       ip: string, f: nat, k: nat) returns (a: nat)
    requires IsHistory(cap, calls, oks, maps, sweeping) && InOrder(calls) && Lasts(calls, maps, ip, f, k)
    ensures f <= a < k && IsAttempt(calls[a], ip)
    ensures var b := maps[k][ip]; var left := b.units - b.last;
            b.last <= calls[k - 1].now
            && left == CAPACITY - calls[a].now - NANOS_PER_ATTEMPT * Admitted(calls, oks, ip, a, k)
            && forall i: nat | f <= i < k && IsAttempt(calls[i], ip) ::
                 left <= CAPACITY - calls[i].now - NANOS_PER_ATTEMPT * Admitted(calls, oks, ip, i, k)
    decreases k
  {
    hide Answers, Take;
    var n := k - 1;
    assert Answers(cap, maps[n], calls[n], maps[k], oks[n], sweeping);
    if n == f {
      BucketStarts(cap, maps[n], calls[n], maps[k], oks[n], sweeping, ip);
      a := f;
    } else {
      a := LowestSince(cap, calls, oks, maps, sweeping, ip, f, n);
      BucketMoves(cap, maps[n], calls[n], maps[k], oks[n], sweeping, ip);
      a := OneMore(calls, oks, ip, f, n, a, maps[n][ip], maps[k][ip]);
    }
  }

  lemma OneMore(calls: seq<Call>, oks: seq<bool>, ip: string, f: nat, n: nat, a: nat, b: IpBucket, after: IpBucket)
    returns (lowest: nat)
    requires f <= a < n < |calls| == |oks| && IsAttempt(calls[a], ip) && InOrder(calls) && b.last <= calls[n - 1].now
    requires b.units - b.last == CAPACITY - calls[a].now - NANOS_PER_ATTEMPT * Admitted(calls, oks, ip, a, n)
    requires forall i: nat | f <= i < n && IsAttempt(calls[i], ip) ::
               b.units - b.last <= CAPACITY - calls[i].now - NANOS_PER_ATTEMPT * Admitted(calls, oks, ip, i, n)
    requires if IsAttempt(calls[n], ip) then (after, oks[n]) == Take(b.(lastHit := calls[n].now), calls[n].now)
             else after == b
    ensures f <= lowest <= n && IsAttempt(calls[lowest], ip) && after.last <= calls[n].now
    ensures after.units - after.last
         == CAPACITY - calls[lowest].now - NANOS_PER_ATTEMPT * Admitted(calls, oks, ip, lowest, n + 1)
    ensures forall i: nat | f <= i <= n && IsAttempt(calls[i], ip) ::
              after.units - after.last
              <= CAPACITY - calls[i].now - NANOS_PER_ATTEMPT * Admitted(calls, oks, ip, i, n + 1)
  {
    assert calls[n - 1].now <= calls[n].now;
    lowest := if after != b && b.units + (calls[n].now - b.last) >= CAPACITY then n else a;
    assert Admitted(calls, oks, ip, n, n) == 0;
  }

  /** The exact window. As long as the bucket of an address is neither evicted nor swept, an attempt is
      admitted exactly when it fits in the window since every earlier attempt, and itself. */
  lemma ExactWindow(cap: nat, calls: seq<Call>, oks: seq<bool>, maps: seq<Buckets>, sweeping: bool, ip: string,
                    f: nat, j: nat)
    requires IsHistory(cap, calls, oks, maps, sweeping) && InOrder(calls)
    requires j < |calls| && IsAttempt(calls[j], ip)
    requires (f == j && ip !in maps[f]) || Lasts(calls, maps, ip, f, j)
    ensures oks[j] <==> forall i: nat | f <= i <= j && IsAttempt(calls[i], ip) :: Fits(calls, oks, ip, i, j)
  {
    assert Answers(cap, maps[j], calls[j], maps[j + 1], oks[j], sweeping);
    assert Admitted(calls, oks, ip, j, j) == 0;
    if f == j {
      BucketStarts(cap, maps[j], calls[j], maps[j + 1], oks[j], sweeping, ip);
    } else {
      var a := LowestSince(cap, calls, oks, maps, sweeping, ip, f, j);
      assert calls[j - 1].now <= calls[j].now;
      AttemptOutcome(cap, maps[j], calls[j], maps[j + 1], oks[j], sweeping, ip);
      hide Answers, Lasts, IsHistory;
      if oks[j] {
        forall i: nat | f <= i <= j && IsAttempt(calls[i], ip)
          ensures Fits(calls, oks, ip, i, j)
        {
        }
      } else {
        assert !Fits(calls, oks, ip, a, j);
      }
    }
  }

  lemma AttemptOutcome(cap: nat, m: Buckets, c: Call, after: Buckets, ok: bool, sweeping: bool, ip: string)
    requires Answers(cap, m, c, after, ok, sweeping) && IsAttempt(c, ip) && ip in m && m[ip].last <= c.now
    ensures ok <==> m[ip].units + (c.now - m[ip].last) >= NANOS_PER_ATTEMPT
  {
  }

  /** And sweeping does not matter: in a history with sweeps the same holds for every address that its
      unswept twin keeps, whatever the sweeps removed. */
  lemma ExactWindowThroughSweeps(cap: nat, calls: seq<Call>, oks: seq<bool>, maps: seq<Buckets>)
    returns (twin: seq<Buckets>)
    requires 1 <= cap && IsHistory(cap, calls, oks, maps, true) && InOrder(calls)
    requires forall i | 0 <= i < |calls| && calls[i].Allow? :: calls[i].ip != ""
    ensures IsHistory(cap, calls, oks, twin, false)
    ensures forall ip: string, f: nat, j: nat |
              Lasts(calls, twin, ip, f, j) && j < |calls| && IsAttempt(calls[j], ip) ::
              oks[j] <==> forall i: nat | f <= i <= j && IsAttempt(calls[i], ip) :: Fits(calls, oks, ip, i, j)
  {
    twin := SweptHistoryHasUnsweptTwin(cap, calls, oks, maps);
    forall ip: string, f: nat, j: nat | Lasts(calls, twin, ip, f, j) && j < |calls| && IsAttempt(calls[j], ip)
      ensures oks[j] <==> forall i: nat | f <= i <= j && IsAttempt(calls[i], ip) :: Fits(calls, oks, ip, i, j)
    {
      ExactWindow(cap, calls, oks, twin, false, ip, f, j);
    }
  }
}
