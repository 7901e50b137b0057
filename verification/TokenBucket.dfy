/** The Redis token bucket that guards the authentication endpoints
    (backend/internal/api/ratelimit.go).

    Token counts are held in thousandths of a token. The script divides
    `elapsed * rate` by 1000, so in this unit every quantity it stores is an integer
    and no rounding is left to model. Times are milliseconds.

    There are two clocks. The script refills by the time its caller passes, each replica reading its
    own clock; the key expires by the clock of Redis. */
module TokenBucket {

  function Max(a: int, b: int): int {
    if a < b then b else a
  }

  function Min(a: int, b: int): int {
    if a < b then a else b
  }

  /** One Redis hash with its expiry: Absent is what HMGET reports as two nils. `ts` is a time of the
      callers and `deadline` one of Redis. */
  datatype Hash = Absent | Present(tokens: int, ts: int, deadline: int)

  /** When a request arrives: by its caller's clock and by that of Redis. */
  datatype Request = Request(now: int, redis: int)

  /** The argument of PEXPIRE: max(2000, ceil(burst / rate * 2000)) milliseconds. */
  function Ttl(rate: int, burst: int): int
    requires rate >= 1
  {
    Max(2000, (2000 * burst + rate - 1) / rate)
  }

  /** The least number of milliseconds that is at least two seconds and at least twice a full refill. */
  lemma TtlIsLeast(rate: int, burst: int, t: int)
    requires rate >= 1
    ensures Ttl(rate, burst) <= t <==> 2000 <= t && 2000 * burst <= t * rate
  {
    Quotient(2000 * burst + rate - 1, rate);
    CeilingIsLeast(2000 * burst, rate, (2000 * burst + rate - 1) / rate, t);
  }

  lemma Quotient(m: int, d: int)
    requires d >= 1
    ensures d * (m / d) <= m < d * (m / d) + d
  {
  }

  lemma CeilingIsLeast(n: int, d: int, c: int, t: int)
    requires d >= 1 && d * c <= n + d - 1 < d * c + d
    ensures c <= t <==> n <= t * d
  {
    assert t * d == d * c + d * (t - c);
    if c <= t {
      assert d * (t - c) >= 0;
    } else {
      assert d * (t - c + 1) <= 0;
      assert d * (t - c + 1) == d * (t - c) + d;
    }
  }

  /** The number of thousandths a request at time `now` finds after the lazy refill. */
  function Level(h: Hash, now: int, rate: int, burst: int): int {
    var tokens := if h.Absent? then 1000 * burst else h.tokens;
    var ts := if h.Absent? then now else h.ts;
    Min(1000 * burst, tokens + Max(0, now - ts) * rate)
  }

  /** What the script does to the hash it reads: the hash it leaves and its verdict. */
  function Script(h: Hash, q: Request, rate: int, burst: int): (Hash, bool)
    requires rate >= 1
  {
    var tokens := Level(h, q.now, rate, burst);
    var deadline := q.redis + Ttl(rate, burst);
    if tokens < 1000 then
      (Present(tokens, q.now, deadline), false)
    else
      (Present(tokens - 1000, q.now, deadline), true)
  }

  /** Redis hides a key from its deadline on. */
  function Visible(h: Hash, q: Request): Hash {
    if h.Present? && q.redis < h.deadline then h else Absent
  }

  /** One evaluation on the keyspace: only that key changes, to what the script leaves of the hash that
      Redis still shows under it, and the answer is 1 or 0. */
  predicate IsEval(hashes: map<string, Hash>, key: string, q: Request, rate: int, burst: int,
                   after: map<string, Hash>, result: int)
    requires rate >= 1
  {
    var (hash, admitted) := Script(Visible(if key in hashes then hashes[key] else Absent, q), q, rate, burst);
    after == hashes[key := hash] && result == if admitted then 1 else 0
  }

  /** The keyspace, with the script run as the single atomic step that Redis makes it. */
  class RedisLimiter {
    var hashes: map<string, Hash>

    function Lookup(key: string): Hash
      reads this
    {
      if key in hashes then hashes[key] else Absent
    }

    method Eval(key: string, q: Request, rate: int, burst: int) returns (result: int)
      requires rate >= 1
      modifies this
      ensures IsEval(old(hashes), key, q, rate, burst, hashes, result)
    {
      var data := Visible(Lookup(key), q);
      var tokens := if data.Absent? then burst * 1000 else data.tokens;
      var ts := if data.Absent? then q.now else data.ts;
      var elapsed := Max(0, q.now - ts);
      tokens := Min(burst * 1000, tokens + elapsed * rate);
      var expiry := q.redis + Ttl(rate, burst);
      if tokens < 1000 {
        hashes := hashes[key := Present(tokens, q.now, expiry)];
        return 0;
      }
      tokens := tokens - 1000;
      hashes := hashes[key := Present(tokens, q.now, expiry)];
      return 1;
    }
  }

  // ----- Runs on a fresh key -----

  /** The hash before request j when keys never expire. */
  function Kept(rate: int, burst: int, qs: seq<Request>, j: nat): Hash
    requires rate >= 1 && j <= |qs|
  {
    if j == 0 then Absent else Script(Kept(rate, burst, qs, j - 1), qs[j - 1], rate, burst).0
  }

  /** The hash before request j when Redis expires keys. */
  function Stored(rate: int, burst: int, qs: seq<Request>, j: nat): Hash
    requires rate >= 1 && j <= |qs|
  {
    if j == 0 then Absent
    else Script(Visible(Stored(rate, burst, qs, j - 1), qs[j - 1]), qs[j - 1], rate, burst).0
  }

  /** The verdict on request j that a client of the real, expiring store receives. */
  predicate Admits(rate: int, burst: int, qs: seq<Request>, j: nat)
    requires rate >= 1 && j < |qs|
  {
    Script(Visible(Stored(rate, burst, qs, j), qs[j]), qs[j], rate, burst).1
  }

  /** How many of the requests i, ..., j-1 were admitted. */
  function Admitted(rate: int, burst: int, qs: seq<Request>, i: nat, j: nat): nat
    requires rate >= 1 && i <= j <= |qs|
  {
    if i == j then 0
    else Admitted(rate, burst, qs, i, j - 1) + if Admits(rate, burst, qs, j - 1) then 1 else 0
  }

  /** Time elapsed from request i to request j, counting only the forward steps of the callers'
      clocks. */
  function Forward(qs: seq<Request>, i: nat, j: nat): nat
    requires i <= j < |qs|
  {
    if i == j then 0 else Forward(qs, i, j - 1) + Max(0, qs[j].now - qs[j - 1].now)
  }

  // ----- When expiry is invisible -----

  /** Between two requests Redis's clock moves at most twice as far as the callers' clocks move
      forward; the time to live is twice the time a refill takes. */
  predicate PacedAt(qs: seq<Request>, j: nat)
    requires 0 < j < |qs|
  {
    qs[j].redis - qs[j - 1].redis <= 2 * Max(0, qs[j].now - qs[j - 1].now)
  }

  ghost predicate Paced(qs: seq<Request>) {
    forall j: nat | 0 < j < |qs| :: PacedAt(qs, j)
  }

  /** One clock for everything is paced, however it steps. */
  lemma SharedClockIsPaced(qs: seq<Request>)
    requires forall j | 0 <= j < |qs| :: qs[j].redis == qs[j].now
    ensures Paced(qs)
  {
  }

  /** Whether request j finds what it would find if keys never expired: its key is still there, or
      has refilled anyway. */
  predicate FindsAll(rate: int, burst: int, qs: seq<Request>, j: nat)
    requires rate >= 1 && 0 < j < |qs|
  {
    qs[j].redis < qs[j - 1].redis + Ttl(rate, burst)
    || Level(Kept(rate, burst, qs, j), qs[j].now, rate, burst) == 1000 * burst
  }

  /** The first n requests all do. */
  ghost predicate NoneLost(rate: int, burst: int, qs: seq<Request>, n: nat)
    requires rate >= 1 && n <= |qs|
  {
    forall j: nat | 0 < j < n :: FindsAll(rate, burst, qs, j)
  }

  /** A key the script left, as the next request finds it. */
  lemma {:induction false} KeptIsPresent(rate: int, burst: int, qs: seq<Request>, j: nat)
    requires rate >= 1 && burst >= 0 && 0 < j <= |qs|
    ensures var h := Kept(rate, burst, qs, j);
            h.Present? && h.tokens >= 0 && h.ts == qs[j - 1].now && h.deadline == qs[j - 1].redis + Ttl(rate, burst)
  {
    var before := Kept(rate, burst, qs, j - 1);
    if j > 1 {
      KeptIsPresent(rate, burst, qs, j - 1);
      assert Max(0, qs[j - 1].now - before.ts) * rate >= 0;
    }
  }

  /** Losing the key changes nothing exactly when the bucket was full. */
  lemma LostIffFull(h: Hash, q: Request, rate: int, burst: int)
    requires rate >= 1 && h.Present?
    ensures Script(Visible(h, q), q, rate, burst) == Script(h, q, rate, burst)
            <==> q.redis < h.deadline || Level(h, q.now, rate, burst) == 1000 * burst
  {
    assert Level(Absent, q.now, rate, burst) == 1000 * burst;
  }

  /** Request j leaves the same hash and gets the same verdict whether keys expire or not. */
  predicate SameOutcome(rate: int, burst: int, qs: seq<Request>, j: nat)
    requires rate >= 1 && j < |qs|
  {
    Script(Visible(Stored(rate, burst, qs, j), qs[j]), qs[j], rate, burst)
    == Script(Kept(rate, burst, qs, j), qs[j], rate, burst)
  }

  lemma {:induction false} SameSoFar(rate: int, burst: int, qs: seq<Request>, n: nat)
    requires rate >= 1 && n <= |qs| && forall j: nat | j < n :: SameOutcome(rate, burst, qs, j)
    ensures Stored(rate, burst, qs, n) == Kept(rate, burst, qs, n)
  {
    hide Script, Visible;
    if n > 0 {
      SameSoFar(rate, burst, qs, n - 1);
      assert SameOutcome(rate, burst, qs, n - 1);
    }
  }

  lemma SameAtIff(rate: int, burst: int, qs: seq<Request>, j: nat)
    requires rate >= 1 && burst >= 0 && j < |qs| && Stored(rate, burst, qs, j) == Kept(rate, burst, qs, j)
    ensures SameOutcome(rate, burst, qs, j) <==> (j > 0 ==> FindsAll(rate, burst, qs, j))
  {
    hide FindsAll, Script, Level;
    if j > 0 {
      KeptIsPresent(rate, burst, qs, j);
      FindsAllMeans(rate, burst, qs, j);
      LostIffFull(Kept(rate, burst, qs, j), qs[j], rate, burst);
    }
  }

  /** Expiry shows in no state and no verdict of the first n requests exactly when each of them finds
      all. */
  lemma {:induction false} ExpiryInvisibleIff(rate: int, burst: int, qs: seq<Request>, n: nat)
    requires rate >= 1 && burst >= 0 && n <= |qs|
    ensures (forall j: nat | j < n :: SameOutcome(rate, burst, qs, j))
            <==> NoneLost(rate, burst, qs, n)
  {
    hide FindsAll, SameOutcome;
    if n > 0 {
      var m := n - 1;
      ExpiryInvisibleIff(rate, burst, qs, m);
      if forall j: nat | j < m :: SameOutcome(rate, burst, qs, j) {
        SameSoFar(rate, burst, qs, m);
        SameAtIff(rate, burst, qs, m);
      }
    }
  }

  lemma FindsAllMeans(rate: int, burst: int, qs: seq<Request>, j: nat)
    requires rate >= 1 && burst >= 0 && 0 < j < |qs|
    ensures FindsAll(rate, burst, qs, j)
            <==> (Kept(rate, burst, qs, j).Present? && qs[j].redis < Kept(rate, burst, qs, j).deadline)
                 || Level(Kept(rate, burst, qs, j), qs[j].now, rate, burst) == 1000 * burst
  {
    KeptIsPresent(rate, burst, qs, j);
  }

  /** At that pace a key that is gone has refilled. */
  lemma PacedFindsAll(rate: int, burst: int, qs: seq<Request>, j: nat)
    requires rate >= 1 && burst >= 0 && 0 < j < |qs| && PacedAt(qs, j)
    ensures FindsAll(rate, burst, qs, j)
  {
    KeptIsPresent(rate, burst, qs, j);
    var idle := Max(0, qs[j].now - qs[j - 1].now);
    if qs[j - 1].redis + Ttl(rate, burst) <= qs[j].redis {
      Refills(rate, burst, idle);
    }
  }

  lemma Refills(rate: int, burst: int, idle: nat)
    requires rate >= 1 && burst >= 0 && Ttl(rate, burst) <= 2 * idle
    ensures idle * rate >= 1000 * burst
  {
    var c := (2000 * burst + rate - 1) / rate;
    assert c * rate >= 2000 * burst;
    assert (2 * idle - c) * rate >= 0;
    assert 2 * (idle * rate) == (2 * idle - c) * rate + c * rate;
  }

  lemma PacedLosesNone(rate: int, burst: int, qs: seq<Request>)
    requires rate >= 1 && burst >= 0 && Paced(qs)
    ensures NoneLost(rate, burst, qs, |qs|)
  {
    forall j: nat | 0 < j < |qs|
      ensures FindsAll(rate, burst, qs, j)
    {
      PacedFindsAll(rate, burst, qs, j);
    }
  }

  /** The states and verdicts of requests that find all, one by one. */
  lemma SameAsKept(rate: int, burst: int, qs: seq<Request>, j: nat)
    requires rate >= 1 && burst >= 0 && j < |qs| && NoneLost(rate, burst, qs, j + 1)
    ensures Stored(rate, burst, qs, j) == Kept(rate, burst, qs, j)
    ensures Admits(rate, burst, qs, j) == Script(Kept(rate, burst, qs, j), qs[j], rate, burst).1
  {
    hide FindsAll, Script, Visible;
    ExpiryInvisibleIff(rate, burst, qs, j + 1);
    SameSoFar(rate, burst, qs, j);
    assert SameOutcome(rate, burst, qs, j);
  }

  /** Over every paced sequence of requests, deleting idle keys changes no verdict and no state. */
  lemma ExpiryInvisible(rate: int, burst: int, qs: seq<Request>, j: nat)
    requires rate >= 1 && burst >= 0 && j <= |qs| && Paced(qs)
    ensures Stored(rate, burst, qs, j) == Kept(rate, burst, qs, j)
    ensures j < |qs| ==> Admits(rate, burst, qs, j) == Script(Kept(rate, burst, qs, j), qs[j], rate, burst).1
  {
    hide Script, Visible, NoneLost;
    PacedLosesNone(rate, burst, qs);
    ExpiryInvisibleIff(rate, burst, qs, |qs|);
    SameSoFar(rate, burst, qs, j);
    if j < |qs| {
      assert SameOutcome(rate, burst, qs, j);
    }
  }

  // ----- The exact sliding-window meaning of the bucket -----

  /** What the rate and the burst allow from request i to request j. */
  function Allowance(rate: int, burst: int, qs: seq<Request>, i: nat, j: nat): int
    requires i <= j < |qs|
  {
    1000 * burst + rate * Forward(qs, i, j)
  }

  /** Request j, on top of those admitted since request i, stays inside that allowance. */
  predicate Fits(rate: int, burst: int, qs: seq<Request>, i: nat, j: nat)
    requires rate >= 1 && i <= j < |qs|
  {
    1000 * (Admitted(rate, burst, qs, i, j) + 1) <= Allowance(rate, burst, qs, i, j)
  }

  /** What is left of the allowance before request j. */
  function Room(rate: int, burst: int, qs: seq<Request>, i: nat, j: nat): int
    requires rate >= 1 && i <= j < |qs|
  {
    Allowance(rate, burst, qs, i, j) - 1000 * Admitted(rate, burst, qs, i, j)
  }

  lemma AllowanceStep(rate: int, burst: int, qs: seq<Request>, i: nat, j: nat)
    requires rate >= 1 && i < j < |qs|
    ensures Allowance(rate, burst, qs, i, j)
            == Allowance(rate, burst, qs, i, j - 1) + Max(0, qs[j].now - qs[j - 1].now) * rate
    ensures Max(0, qs[j].now - qs[j - 1].now) * rate >= 0
  {
    var f, step := Forward(qs, i, j - 1), Max(0, qs[j].now - qs[j - 1].now);
    assert rate * (f + step) == rate * f + step * rate;
  }

  /** The lazily refilled level is the least room over all windows that end now; `i` is a window
      that attains it. */
  lemma {:induction false} LevelIsLeastRoom(rate: int, burst: int, qs: seq<Request>, j: nat) returns (i: nat)
    requires rate >= 1 && burst >= 0 && j < |qs| && NoneLost(rate, burst, qs, j)
    ensures i <= j && Level(Kept(rate, burst, qs, j), qs[j].now, rate, burst) == Room(rate, burst, qs, i, j)
    ensures forall k: nat | k <= j ::
              Level(Kept(rate, burst, qs, j), qs[j].now, rate, burst) <= Room(rate, burst, qs, k, j)
  {
    i := j;
    if j > 0 {
      var before := Level(Kept(rate, burst, qs, j - 1), qs[j - 1].now, rate, burst);
      var spent := if Admits(rate, burst, qs, j - 1) then 1000 else 0;
      var earned := Max(0, qs[j].now - qs[j - 1].now) * rate;
      var at := LevelIsLeastRoom(rate, burst, qs, j - 1);
      SameAsKept(rate, burst, qs, j - 1);
      assert Level(Kept(rate, burst, qs, j), qs[j].now, rate, burst)
          == Min(1000 * burst, before - spent + earned);
      forall k: nat | k < j
        ensures Room(rate, burst, qs, k, j) == Room(rate, burst, qs, k, j - 1) - spent + earned
      {
        AllowanceStep(rate, burst, qs, k, j);
      }
      if before - spent + earned < 1000 * burst {
        i := at;
      }
    }
  }

  /** Request j is admitted exactly when it fits in every window that ends with it. The windows are
      measured by the forward movement of the callers' clocks, which may step back; Redis's clock may run
      as it likes as long as no key is lost before it has refilled. */
  lemma ExactWindow(rate: int, burst: int, qs: seq<Request>, j: nat)
    requires rate >= 1 && burst >= 0 && j < |qs| && NoneLost(rate, burst, qs, j + 1)
    ensures Admits(rate, burst, qs, j) <==> forall i: nat | i <= j :: Fits(rate, burst, qs, i, j)
  {
    var least := LevelIsLeastRoom(rate, burst, qs, j);
    SameAsKept(rate, burst, qs, j);
    assert forall i: nat | i <= j :: Fits(rate, burst, qs, i, j) <==> Room(rate, burst, qs, i, j) >= 1000;
  }

  /** The allowance is the burst plus the rate times the plain elapsed time exactly when the callers'
      clocks never step back in between. */
  lemma AllowanceElapsed(rate: int, burst: int, qs: seq<Request>, i: nat, j: nat)
    requires rate >= 1 && i <= j < |qs|
    ensures Allowance(rate, burst, qs, i, j) == 1000 * burst + rate * (qs[j].now - qs[i].now)
            <==> forall k | i <= k < j :: qs[k].now <= qs[k + 1].now
  {
    ForwardIsElapsedIff(qs, i, j);
    SameProduct(rate, Forward(qs, i, j), qs[j].now - qs[i].now);
  }

  lemma SameProduct(rate: int, f: int, d: int)
    requires rate >= 1
    ensures rate * f == rate * d <==> f == d
  {
    assert rate * f - rate * d == rate * (f - d);
  }

  lemma {:induction false} ForwardIsElapsedIff(qs: seq<Request>, i: nat, j: nat)
    requires i <= j < |qs|
    ensures Forward(qs, i, j) >= qs[j].now - qs[i].now
    ensures Forward(qs, i, j) == qs[j].now - qs[i].now <==> forall k | i <= k < j :: qs[k].now <= qs[k + 1].now
  {
    if i < j {
      ForwardIsElapsedIff(qs, i, j - 1);
      assert (forall k | i <= k < j :: qs[k].now <= qs[k + 1].now)
        <==> (forall k | i <= k < j - 1 :: qs[k].now <= qs[k + 1].now) && qs[j - 1].now <= qs[j].now;
    }
  }

  /** No window admits more than the burst plus what the rate earned during it. */
  lemma {:induction false} WindowBound(rate: int, burst: int, qs: seq<Request>, i: nat, j: nat)
    requires rate >= 1 && burst >= 0 && i <= j < |qs| && NoneLost(rate, burst, qs, j + 1)
    ensures 1000 * Admitted(rate, burst, qs, i, j + 1) <= Allowance(rate, burst, qs, i, j)
  {
    if Admits(rate, burst, qs, j) {
      ExactWindow(rate, burst, qs, j);
      assert Fits(rate, burst, qs, i, j);
    } else if i < j {
      WindowBound(rate, burst, qs, i, j - 1);
      AllowanceStep(rate, burst, qs, i, j);
    } else {
      assert Admitted(rate, burst, qs, i, i) == 0;
    }
  }

  ghost predicate AllAdmit(rate: int, burst: int, qs: seq<Request>, i: nat, j: nat)
    requires rate >= 1 && i <= j <= |qs|
  {
    forall k: nat | i <= k < j :: Admits(rate, burst, qs, k)
  }

  lemma {:induction false} AdmittedCounts(rate: int, burst: int, qs: seq<Request>, i: nat, j: nat)
    requires rate >= 1 && i <= j <= |qs|
    ensures Admitted(rate, burst, qs, i, j) <= j - i
    ensures AllAdmit(rate, burst, qs, i, j) ==> Admitted(rate, burst, qs, i, j) == j - i
  {
    if i < j {
      AdmittedCounts(rate, burst, qs, i, j - 1);
    }
  }

  /** A client is never refused during its first n requests exactly when every window of them
      stays inside the burst-plus-rate envelope. */
  lemma NeverRefusedIffConforming(rate: int, burst: int, qs: seq<Request>, n: nat)
    requires rate >= 1 && burst >= 0 && n <= |qs| && NoneLost(rate, burst, qs, n)
    ensures AllAdmit(rate, burst, qs, 0, n) <==>
            forall i: nat, j: nat | i <= j < n :: 1000 * (j - i + 1) <= Allowance(rate, burst, qs, i, j)
  {
    if AllAdmit(rate, burst, qs, 0, n) {
      forall i: nat, j: nat | i <= j < n
        ensures 1000 * (j - i + 1) <= Allowance(rate, burst, qs, i, j)
      {
        WindowBound(rate, burst, qs, i, j);
        AdmittedCounts(rate, burst, qs, i, j + 1);
      }
    }
    if forall i: nat, j: nat | i <= j < n :: 1000 * (j - i + 1) <= Allowance(rate, burst, qs, i, j) {
      forall k: nat | k < n
        ensures Admits(rate, burst, qs, k)
      {
        forall i: nat | i <= k
          ensures Fits(rate, burst, qs, i, k)
        {
          AdmittedCounts(rate, burst, qs, i, k);
          assert 1000 * (k - i + 1) <= Allowance(rate, burst, qs, i, k);
        }
        ExactWindow(rate, burst, qs, k);
      }
    }
  }

  /** The script stores `now` even when the clock has stepped back, so the bound in plain elapsed
      time fails without a monotone clock: at one request per second with a burst of one, two
      requests carry the time stamp 1000 and both are admitted. */
  lemma SteppedBackClockRefills()
    ensures var qs := [Request(1000, 1000), Request(0, 0), Request(1000, 1000)];
            Paced(qs) && Admits(1, 1, qs, 0) && !Admits(1, 1, qs, 1) && Admits(1, 1, qs, 2)
            && !(1000 * Admitted(1, 1, qs, 0, 3) <= 1000 * 1 + 1 * (qs[2].now - qs[0].now))
  {
    var qs := [Request(1000, 1000), Request(0, 0), Request(1000, 1000)];
    assert Stored(1, 1, qs, 1) == Present(0, 1000, 3000);
    assert Stored(1, 1, qs, 2) == Present(0, 0, 2000);
    assert Admitted(1, 1, qs, 0, 1) == 1;
    assert Admitted(1, 1, qs, 0, 2) == 1;
  }

  /** Without the pace the window fails even for callers whose clocks stand still: the key expires by
      Redis's clock and the next request finds a full bucket. */
  lemma OutpacedExpiryRefills()
    ensures var qs := [Request(1000, 0), Request(1000, 2000)];
            !FindsAll(1, 1, qs, 1) && Admits(1, 1, qs, 0) && Admits(1, 1, qs, 1)
            && !Fits(1, 1, qs, 0, 1)
  {
    var qs := [Request(1000, 0), Request(1000, 2000)];
    assert Stored(1, 1, qs, 1) == Kept(1, 1, qs, 1) == Present(0, 1000, 2000);
    assert Admitted(1, 1, qs, 0, 0) == 0;
    assert Admitted(1, 1, qs, 0, 1) == 1;
    assert Forward(qs, 0, 0) == 0;
    assert Forward(qs, 0, 1) == 0;
  }

  // ----- Sequences of evaluations -----

  datatype EvalCall = EvalCall(key: string, q: Request)

  /** The keyspaces and answers of a sequence of evaluations, on any keys. */
  ghost predicate IsTrace(rate: int, burst: int, calls: seq<EvalCall>, spaces: seq<map<string, Hash>>, results: seq<int>)
    requires rate >= 1
  {
    && |spaces| == |calls| + 1 == |results| + 1
    && forall i | 0 <= i < |calls| ::
         IsEval(spaces[i], calls[i].key, calls[i].q, rate, burst, spaces[i + 1], results[i])
  }

  /** The requests among the calls that are on one key, in order. */
  function On(calls: seq<EvalCall>, key: string): seq<Request> {
    if calls == [] then []
    else On(calls[..|calls| - 1], key) + if calls[|calls| - 1].key == key then [calls[|calls| - 1].q] else []
  }

  lemma {:induction false} StoredPrefix(rate: int, burst: int, qs: seq<Request>, more: seq<Request>, j: nat)
    requires rate >= 1 && j <= |qs|
    ensures Stored(rate, burst, qs + more, j) == Stored(rate, burst, qs, j)
  {
    if j > 0 {
      StoredPrefix(rate, burst, qs, more, j - 1);
      assert (qs + more)[j - 1] == qs[j - 1];
    }
  }

  /** After n calls the keyspace holds, under the key, what the requests on that key left of it. */
  lemma {:induction false} KeyHoldsStored(rate: int, burst: int, calls: seq<EvalCall>, spaces: seq<map<string, Hash>>,
                                          results: seq<int>, key: string, n: nat)
    requires rate >= 1 && IsTrace(rate, burst, calls, spaces, results) && key !in spaces[0] && n <= |calls|
    ensures var qs := On(calls[..n], key);
            (if key in spaces[n] then spaces[n][key] else Absent) == Stored(rate, burst, qs, |qs|)
  {
    hide Script, Visible;
    if n > 0 {
      KeyHoldsStored(rate, burst, calls, spaces, results, key, n - 1);
      var m := n - 1;
      assert calls[..n][..m] == calls[..m] && calls[..n][m] == calls[m];
      assert IsEval(spaces[m], calls[m].key, calls[m].q, rate, burst, spaces[n], results[m]);
      if calls[m].key == key {
        var qs := On(calls[..m], key);
        var longer := qs + [calls[m].q];
        StoredPrefix(rate, burst, qs, [calls[m].q], |qs|);
        assert On(calls[..n], key) == longer && longer[|longer| - 1] == calls[m].q;
        assert Stored(rate, burst, longer, |longer| - 1) == Stored(rate, burst, qs, |qs|);
      } else {
        assert On(calls[..n], key) == On(calls[..m], key) + [] == On(calls[..m], key);
      }
    } else {
      assert calls[..0] == [];
    }
  }

  /** Every answer of the limiter is the verdict of the runs above on the requests of its own key,
      whatever is asked about other keys in between. */
  lemma AnswersAreVerdicts(rate: int, burst: int, calls: seq<EvalCall>, spaces: seq<map<string, Hash>>,
                           results: seq<int>, n: nat)
    requires rate >= 1 && IsTrace(rate, burst, calls, spaces, results) && n < |calls| && calls[n].key !in spaces[0]
    ensures var qs := On(calls[..n], calls[n].key) + [calls[n].q];
            results[n] == if Admits(rate, burst, qs, |qs| - 1) then 1 else 0
  {
    hide Script, Visible;
    var before := On(calls[..n], calls[n].key);
    KeyHoldsStored(rate, burst, calls, spaces, results, calls[n].key, n);
    StoredPrefix(rate, burst, before, [calls[n].q], |before|);
    assert IsEval(spaces[n], calls[n].key, calls[n].q, rate, burst, spaces[n + 1], results[n]);
  }

  /** So, as long as no key is lost before it has refilled, an evaluation answers 1 exactly when the
      request fits in every window of the requests on its key. */
  lemma AnswersFitWindows(rate: int, burst: int, calls: seq<EvalCall>, spaces: seq<map<string, Hash>>,
                          results: seq<int>, n: nat)
    requires rate >= 1 && burst >= 0 && IsTrace(rate, burst, calls, spaces, results)
    requires n < |calls| && calls[n].key !in spaces[0]
    requires var qs := On(calls[..n], calls[n].key) + [calls[n].q]; NoneLost(rate, burst, qs, |qs|)
    ensures var j := |On(calls[..n], calls[n].key)|; var qs := On(calls[..n], calls[n].key) + [calls[n].q];
            results[n] == if forall i: nat | i <= j :: Fits(rate, burst, qs, i, j) then 1 else 0
  {
    var j := |On(calls[..n], calls[n].key)|;
    AnswersAreVerdicts(rate, burst, calls, spaces, results, n);
    ExactWindow(rate, burst, On(calls[..n], calls[n].key) + [calls[n].q], j);
  }
}
