/** The on-chain registry of signing keys (contracts/jwk-registry/src/lib.rs): proposal, activation
    after a timelock, revocation, expiry and recycling of its eight slots.

    A slot is a record here and 400 bytes of a flat array in the program. Times are seconds; the
    program's saturating additions are plain ones. */
module JwkRegistry {
  import opened Bytes

  const MAX_JWKS: nat := 8
  const MAX_VALIDITY: int := 30 * 24 * 3600

  datatype Status = Empty | Pending | Active | Revoked | Expired

  datatype Triple = Triple(issuerHash: bytes, audienceHash: bytes, kidHash: bytes)

  datatype Entry = Entry(status: Status, triple: Triple, modulus: bytes, proposedAt: int, validFrom: int,
                         validUntil: int, revokedAt: int)

  type Slots = es: seq<Entry> | |es| == MAX_JWKS
    witness seq(MAX_JWKS, _ => Entry(Empty, Triple([], [], []), [], 0, 0, 0, 0))

  datatype Registry = Registry(entries: Slots, entryCount: nat, timelock: nat, grace: nat, graceAfterRevoke: nat)

  datatype Error = Unauthorized | InvalidKey | AlreadyExists | RegistryFull | RevokeGraceNotElapsed | InvalidValidity
                 | NotPending | TimelockNotElapsed | NotRevocable | NotExpirable | NotYetExpired | NotEmpty

  /** A proposed key: algorithm, modulus and exponent. */
  datatype Jwk = Jwk(alg: u8, modulus: bytes, exponent: u32)

  predicate IsProfile(k: Jwk) {
    k.alg == 1 && |k.modulus| == 256 && k.modulus[0] >= 128 && k.modulus[255] % 2 == 1 && k.exponent == 65537
  }

  // ----- Looking for slots -----

  predicate Hits(e: Entry, t: Triple, want: set<Status>) {
    e.status in want && e.triple == t
  }

  predicate IsOf(e: Entry, status: Status, t: Triple) {
    e.status == status && e.triple == t
  }

  predicate IsRevocable(e: Entry, t: Triple) {
    (e.status == Pending || e.status == Active) && e.triple == t
  }

  /** The first slot of that triple with a wanted status, from slot `from` on. */
  function Find(es: seq<Entry>, t: Triple, want: set<Status>, from: nat): (r: Option<nat>)
    requires from <= |es|
    ensures r.None? ==> forall i | from <= i < |es| :: !Hits(es[i], t, want)
    ensures r.Some? ==> from <= r.value < |es| && Hits(es[r.value], t, want)
                        && forall i | from <= i < r.value :: !Hits(es[i], t, want)
    decreases |es| - from
  {
    if from == |es| then None
    else if Hits(es[from], t, want) then Some(from)
    else Find(es, t, want, from + 1)
  }

  function FirstWith(es: seq<Entry>, status: Status, from: nat): (r: Option<nat>)
    requires from <= |es|
    ensures r.None? ==> forall i | from <= i < |es| :: es[i].status != status
    ensures r.Some? ==> from <= r.value < |es| && es[r.value].status == status
                        && forall i | from <= i < r.value :: es[i].status != status
    decreases |es| - from
  {
    if from == |es| then None
    else if es[from].status == status then Some(from)
    else FirstWith(es, status, from + 1)
  }

  predicate IsReady(e: Entry, now: int, grace: nat) {
    e.status == Revoked && e.revokedAt + grace <= now
  }

  function FirstReady(es: seq<Entry>, now: int, grace: nat, from: nat): (r: Option<nat>)
    requires from <= |es|
    ensures r.None? ==> forall i | from <= i < |es| :: !IsReady(es[i], now, grace)
    ensures r.Some? ==> from <= r.value < |es| && IsReady(es[r.value], now, grace)
                        && forall i | from <= i < r.value :: !IsReady(es[i], now, grace)
    decreases |es| - from
  {
    if from == |es| then None
    else if IsReady(es[from], now, grace) then Some(from)
    else FirstReady(es, now, grace, from + 1)
  }

  /** A slot that may be written: empty, expired, or revoked for as long as the grace. */
  predicate IsFree(e: Entry, now: int, grace: nat) {
    e.status == Empty || e.status == Expired || (e.status == Revoked && now - e.revokedAt >= grace)
  }

  /** Empty slots first, then expired ones, then revoked ones whose grace is over. */
  function Writable(es: seq<Entry>, now: int, grace: nat): Result<nat> {
    var empty, expired, ready := FirstWith(es, Empty, 0), FirstWith(es, Expired, 0), FirstReady(es, now, grace, 0);
    if empty.Some? then Ok(empty.value)
    else if expired.Some? then Ok(expired.value)
    else if ready.Some? then Ok(ready.value)
    else Err(if FirstWith(es, Revoked, 0).Some? then RevokeGraceNotElapsed else RegistryFull)
  }

  datatype Result<+T> = Ok(value: T) | Err(error: Error)

  // ----- The instructions on values -----

  function Propose(r: Registry, signed: bool, t: Triple, k: Jwk, now: int): (Registry, Option<Error>) {
    var slot := Writable(r.entries, now, r.graceAfterRevoke);
    if !signed then (r, Some(Unauthorized))
    else if !IsProfile(k) then (r, Some(InvalidKey))
    else if Find(r.entries, t, {Pending, Active, Revoked, Expired}, 0).Some? then (r, Some(AlreadyExists))
    else if slot.Err? then (r, Some(slot.error))
    else
      var i := slot.value;
      (r.(entries := r.entries[i := Entry(Pending, t, k.modulus, now, 0, 0, 0)],
          entryCount := if r.entries[i].status == Empty then r.entryCount + 1 else r.entryCount), None)
  }

  predicate IsValidity(until: int, now: int) {
    now < until && until - now <= MAX_VALIDITY
  }

  function Activate(r: Registry, signed: bool, t: Triple, until: int, now: int): (Registry, Option<Error>) {
    var slot := Find(r.entries, t, {Pending}, 0);
    if !signed then (r, Some(Unauthorized))
    else if !IsValidity(until, now) then (r, Some(InvalidValidity))
    else if slot.None? then (r, Some(NotPending))
    else if now < r.entries[slot.value].proposedAt + r.timelock then (r, Some(TimelockNotElapsed))
    else
      var e := r.entries[slot.value];
      (r.(entries := r.entries[slot.value := e.(status := Active, validFrom := now, validUntil := until)]), None)
  }

  function Revoke(r: Registry, signed: bool, t: Triple, now: int): (Registry, Option<Error>) {
    var slot := Find(r.entries, t, {Pending, Active}, 0);
    if !signed then (r, Some(Unauthorized))
    else if slot.None? then (r, Some(NotRevocable))
    else
      var e := r.entries[slot.value];
      (r.(entries := r.entries[slot.value := e.(status := Revoked, revokedAt := now)]), None)
  }

  function Expire(r: Registry, t: Triple, now: int): (Registry, Option<Error>) {
    var slot := Find(r.entries, t, {Active}, 0);
    if slot.None? then (r, Some(NotExpirable))
    else if now <= r.entries[slot.value].validUntil + r.grace then (r, Some(NotYetExpired))
    else (r.(entries := r.entries[slot.value := r.entries[slot.value].(status := Expired)]), None)
  }

  function Bootstrap(r: Registry, signed: bool, t: Triple, k: Jwk, until: int, now: int): (Registry, Option<Error>) {
    if !signed then (r, Some(Unauthorized))
    else if r.entryCount != 0 then (r, Some(NotEmpty))
    else if !IsProfile(k) then (r, Some(InvalidKey))
    else if !IsValidity(until, now) then (r, Some(InvalidValidity))
    else (r.(entries := r.entries[0 := Entry(Active, t, k.modulus, now, now, until, 0)], entryCount := 1), None)
  }

  // ----- The program's loops -----

  class Account {
    var entries: Slots
    var entryCount: nat
    const timelock: nat
    const grace: nat
    const graceAfterRevoke: nat

    function View(): Registry
      reads this
    {
      Registry(entries, entryCount, timelock, grace, graceAfterRevoke)
    }

    method FindSlot(t: Triple, want: set<Status>) returns (r: Option<nat>)
      ensures r == Find(entries, t, want, 0)
    {
      for i := 0 to |entries|
        invariant Find(entries, t, want, 0) == Find(entries, t, want, i)
      {
        if entries[i].status in want && entries[i].triple == t {
          return Some(i);
        }
      }
      return None;
    }

    method FindWritableSlot(now: int) returns (r: Result<nat>)
      ensures r == Writable(entries, now, graceAfterRevoke)
      ensures r.Ok? ==> r.value < 8 && IsFree(entries[r.value], now, graceAfterRevoke)
                        && (forall j | 0 <= j < r.value && IsFree(entries[j], now, graceAfterRevoke) ::
                              entries[j].status != entries[r.value].status)
      ensures r.Ok? && entries[r.value].status != Empty ==> forall j | 0 <= j < 8 :: entries[j].status != Empty
      ensures r.Ok? && entries[r.value].status == Revoked ==> forall j | 0 <= j < 8 :: entries[j].status != Expired
      ensures r.Err? ==> forall j | 0 <= j < 8 :: !IsFree(entries[j], now, graceAfterRevoke)
      ensures r == Err(RevokeGraceNotElapsed) ==> exists j :: 0 <= j < 8 && entries[j].status == Revoked
      ensures r == Err(RegistryFull) ==> forall j | 0 <= j < 8 :: entries[j].status != Revoked
      ensures r.Err? ==> r.error == RevokeGraceNotElapsed || r.error == RegistryFull
    {
      var expired: Option<nat> := None;
      var ready: Option<nat> := None;
      var revokedSeen := false;
      for i := 0 to |entries|
        invariant FirstWith(entries, Empty, 0) == FirstWith(entries, Empty, i)
        invariant FirstWith(entries, Expired, 0) == if expired.Some? then expired else FirstWith(entries, Expired, i)
        invariant FirstReady(entries, now, graceAfterRevoke, 0)
               == if ready.Some? then ready else FirstReady(entries, now, graceAfterRevoke, i)
        invariant revokedSeen <==> exists j :: 0 <= j < i && entries[j].status == Revoked
      {
        match entries[i].status {
          case Empty =>
            return Ok(i);
          case Expired =>
            if expired.None? {
              expired := Some(i);
            }
          case Revoked =>
            revokedSeen := true;
            if ready.None? && now >= entries[i].revokedAt + graceAfterRevoke {
              ready := Some(i);
            }
          case _ =>
        }
      }
      if expired.Some? {
        return Ok(expired.value);
      }
      if ready.Some? {
        return Ok(ready.value);
      }
      return Err(if revokedSeen then RevokeGraceNotElapsed else RegistryFull);
    }

    method ProposeJwk(signed: bool, t: Triple, k: Jwk, now: int) returns (e: Option<Error>)
      modifies this
      ensures (View(), e) == Propose(old(View()), signed, t, k, now)
      ensures e.Some? ==> View() == old(View())
      ensures !signed ==> e == Some(Unauthorized)
      ensures signed ==>
                (e == Some(InvalidKey) <==> !(k.alg == 1 && |k.modulus| == 256 && k.modulus[0] >= 128
                                              && k.modulus[255] % 2 == 1 && k.exponent == 65537))
      ensures signed && e != Some(InvalidKey) ==>
                (e == Some(AlreadyExists)
                 <==> exists i :: 0 <= i < 8 && old(entries)[i].status != Empty && old(entries)[i].triple == t)
      ensures e.None? ==>
                exists i :: 0 <= i < 8 && IsFree(old(entries)[i], now, graceAfterRevoke)
                            && entries == old(entries)[i := Entry(Pending, t, k.modulus, now, 0, 0, 0)]
                            && entryCount == old(entryCount) + if old(entries)[i].status == Empty then 1 else 0
      ensures signed && e.Some? && e != Some(InvalidKey) && e != Some(AlreadyExists) ==>
                forall i | 0 <= i < 8 :: !IsFree(old(entries)[i], now, graceAfterRevoke)
    {
      if !signed {
        return Some(Unauthorized);
      }
      if !IsProfile(k) {
        return Some(InvalidKey);
      }
      var taken := FindSlot(t, {Pending, Active, Revoked, Expired});
      if taken.Some? {
        return Some(AlreadyExists);
      }
      var slot := FindWritableSlot(now);
      if slot.Err? {
        return Some(slot.error);
      }
      var wasEmpty := entries[slot.value].status == Empty;
      entries := entries[slot.value := Entry(Pending, t, k.modulus, now, 0, 0, 0)];
      if wasEmpty {
        entryCount := entryCount + 1;
      }
      return None;
    }

    method ActivateJwk(signed: bool, t: Triple, until: int, now: int) returns (e: Option<Error>)
      modifies this
      ensures (View(), e) == Activate(old(View()), signed, t, until, now)
      ensures e.Some? ==> View() == old(View())
      ensures entryCount == old(entryCount)
      ensures !signed ==> e == Some(Unauthorized)
      ensures signed ==> (e == Some(InvalidValidity) <==> !(now < until <= now + 2_592_000))
      ensures signed && e != Some(InvalidValidity) ==>
                (e == Some(NotPending) <==> forall i | 0 <= i < 8 :: !IsOf(old(entries)[i], Pending, t))
      ensures signed && (e == Some(TimelockNotElapsed) || e.None?) ==>
                exists i :: 0 <= i < 8 && IsOf(old(entries)[i], Pending, t)
                            && (forall j | 0 <= j < i :: !IsOf(old(entries)[j], Pending, t))
                            && var was := old(entries)[i];
                               if e.Some? then now - was.proposedAt < timelock
                               else now - was.proposedAt >= timelock
                                    && entries == old(entries)[i := Entry(Active, t, was.modulus, was.proposedAt, now,
                                                                          until, was.revokedAt)]
    {
      if !signed {
        return Some(Unauthorized);
      }
      if !(until > now && until - now <= MAX_VALIDITY) {
        return Some(InvalidValidity);
      }
      var slot := FindSlot(t, {Pending});
      if slot.None? {
        return Some(NotPending);
      }
      var i := slot.value;
      if now < entries[i].proposedAt + timelock {
        return Some(TimelockNotElapsed);
      }
      entries := entries[i := entries[i].(status := Active)];
      entries := entries[i := entries[i].(validFrom := now)];
      entries := entries[i := entries[i].(validUntil := until)];
      assert entries == old(entries)[i := old(entries)[i].(status := Active, validFrom := now, validUntil := until)];
      return None;
    }

    method RevokeJwk(signed: bool, t: Triple, now: int) returns (e: Option<Error>)
      modifies this
      ensures (View(), e) == Revoke(old(View()), signed, t, now)
      ensures e.Some? ==> View() == old(View())
      ensures entryCount == old(entryCount)
      ensures !signed ==> e == Some(Unauthorized)
      ensures signed ==> (e == Some(NotRevocable) <==> forall i | 0 <= i < 8 :: !IsRevocable(old(entries)[i], t))
      ensures signed && e != Some(NotRevocable) ==>
                e.None? && exists i :: 0 <= i < 8 && IsRevocable(old(entries)[i], t)
                            && (forall j | 0 <= j < i :: !IsRevocable(old(entries)[j], t))
                            && entries == old(entries)[i := old(entries)[i].(status := Revoked, revokedAt := now)]
    {
      if !signed {
        return Some(Unauthorized);
      }
      var slot := FindSlot(t, {Pending, Active});
      if slot.None? {
        return Some(NotRevocable);
      }
      entries := entries[slot.value := entries[slot.value].(status := Revoked)];
      entries := entries[slot.value := entries[slot.value].(revokedAt := now)];
      assert entries == old(entries)[slot.value := old(entries)[slot.value].(status := Revoked, revokedAt := now)];
      return None;
    }

    method ExpireJwk(t: Triple, now: int) returns (e: Option<Error>)
      modifies this
      ensures (View(), e) == Expire(old(View()), t, now)
      ensures e.Some? ==> View() == old(View())
      ensures entryCount == old(entryCount)
      ensures e == Some(NotExpirable) <==> forall i | 0 <= i < 8 :: !IsOf(old(entries)[i], Active, t)
      ensures e != Some(NotExpirable) ==>
                exists i :: 0 <= i < 8 && IsOf(old(entries)[i], Active, t)
                            && (forall j | 0 <= j < i :: !IsOf(old(entries)[j], Active, t))
                            && var was := old(entries)[i];
                               if e.Some? then e == Some(NotYetExpired) && now - was.validUntil <= grace
                               else now - was.validUntil > grace
                                    && entries == old(entries)[i := was.(status := Expired)]
    {
      var slot := FindSlot(t, {Active});
      if slot.None? {
        return Some(NotExpirable);
      }
      if now <= entries[slot.value].validUntil + grace {
        return Some(NotYetExpired);
      }
      entries := entries[slot.value := entries[slot.value].(status := Expired)];
      return None;
    }

    method BootstrapJwk(signed: bool, t: Triple, k: Jwk, until: int, now: int) returns (e: Option<Error>)
      modifies this
      ensures (View(), e) == Bootstrap(old(View()), signed, t, k, until, now)
      ensures e.Some? ==> View() == old(View())
      ensures !signed ==> e == Some(Unauthorized)
      ensures signed && old(entryCount) != 0 ==> e == Some(NotEmpty)
      ensures e.None? <==> signed && old(entryCount) == 0 && now < until <= now + 2_592_000
                           && k.alg == 1 && |k.modulus| == 256 && k.modulus[0] >= 128 && k.modulus[255] % 2 == 1
                           && k.exponent == 65537
      ensures e.None? ==> entryCount == 1 && entries == old(entries)[0 := Entry(Active, t, k.modulus, now, now, until, 0)]
    {
      if !signed {
        return Some(Unauthorized);
      }
      if entryCount != 0 {
        return Some(NotEmpty);
      }
      if !IsProfile(k) {
        return Some(InvalidKey);
      }
      if !(until > now && until - now <= MAX_VALIDITY) {
        return Some(InvalidValidity);
      }
      entries := entries[0 := Entry(Active, t, k.modulus, now, now, until, 0)];
      entryCount := 1;
      return None;
    }
  }
}
