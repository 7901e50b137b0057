/** The watcher that mirrors the providers' signing keys on chain: vetting a JWK's modulus, gathering
    the keys of a pass, and deciding which pending entries to activate (jwk-rotator/src/index.ts).

    Base64 text arrives decoded, and `sha` stands for SHA-256. Fetching and sending are parameters. */
module JwkRotator {
  import opened Bytes

  // ----- Big-endian integers -----

  function Pow2(n: nat): (p: nat)
    ensures p > 0
  {
    if n == 0 then 1 else 2 * Pow2(n - 1)
  }

  function Value(s: bytes): nat {
    if s == [] then 0 else Value(s[..|s| - 1]) * 256 + s[|s| - 1] as nat
  }

  lemma {:induction false} EightBitsMore(n: nat)
    ensures Pow2(n + 8) == 256 * Pow2(n)
  {
    assert Pow2(n + 8) == 2 * Pow2(n + 7) == 4 * Pow2(n + 6) == 8 * Pow2(n + 5) == 16 * Pow2(n + 4);
    assert Pow2(n + 4) == 2 * Pow2(n + 3) == 4 * Pow2(n + 2) == 8 * Pow2(n + 1) == 16 * Pow2(n);
  }

  lemma Shift(top: nat, p: nat, v: nat, last: nat)
    requires top * p <= v < (top + 1) * p && last < 256
    ensures top * (256 * p) <= v * 256 + last < (top + 1) * (256 * p)
  {
    assert top * (256 * p) == 256 * (top * p);
    assert (top + 1) * (256 * p) == 256 * ((top + 1) * p);
  }

  /** The leading byte brackets the value. */
  lemma {:induction false} LeadingByte(s: bytes)
    requires s != []
    ensures s[0] * Pow2(8 * (|s| - 1)) <= Value(s) < (s[0] + 1) * Pow2(8 * (|s| - 1))
  {
    var n := |s| - 1;
    if n > 0 {
      LeadingByte(s[..n]);
      EightBitsMore(8 * (n - 1));
      Shift(s[0], Pow2(8 * (n - 1)), Value(s[..n]), s[n]);
    } else {
      assert s[..0] == [];
    }
  }

  lemma {:induction false} LeadingZero(s: bytes)
    requires s != [] && s[0] == 0
    ensures Value(s) == Value(s[1..])
  {
    var n := |s| - 1;
    if n > 0 {
      LeadingZero(s[..n]);
      assert s[..n][1..] == s[1..][..n - 1];
      assert s[1..][n - 1] == s[n];
    }
  }

  // ----- The modulus -----

  const MODULUS_BYTES := 256

  predicate IsOdd2048(v: nat) {
    v % 2 == 1 && Pow2(2047) <= v < Pow2(2048)
  }

  function BigEndian(v: nat, width: nat): (b: bytes)
    ensures |b| == width
  {
    if width == 0 then [] else BigEndian(v / 256, width - 1) + [v % 256]
  }

  lemma {:induction false} BigEndianOfValue(s: bytes)
    ensures BigEndian(Value(s), |s|) == s
  {
    if s != [] {
      var n := |s| - 1;
      BigEndianOfValue(s[..n]);
      assert Value(s) / 256 == Value(s[..n]) && Value(s) % 256 == s[n];
      assert s == s[..n] + [s[n]];
    }
  }

  /** What normalising means: the 256 digits of an odd integer of exactly 2048 bits that was written
      in at most 257 bytes. */
  function Normalized(decoded: bytes): Option<bytes> {
    if |decoded| <= MODULUS_BYTES + 1 && IsOdd2048(Value(decoded))
    then Some(BigEndian(Value(decoded), MODULUS_BYTES))
    else None
  }

  lemma Double(n: nat)
    ensures Pow2(n + 1) == 2 * Pow2(n)
  {
  }

  lemma {:induction false} Pow2Grows(m: nat, n: nat)
    requires m <= n
    ensures Pow2(m) <= Pow2(n)
  {
    if m < n {
      Pow2Grows(m, n - 1);
    }
  }

  lemma Mul(a: int, c: int, p: nat)
    requires a <= c
    ensures a * p <= c * p
  {
    assert c * p - a * p == (c - a) * p;
  }

  lemma LowBit(s: bytes)
    requires s != []
    ensures Value(s) % 2 == s[|s| - 1] % 2
  {
  }

  /** 256 bytes denote an odd 2048-bit integer exactly when the top bit and the lowest bit are set. */
  lemma TopAndLowBit(n: bytes)
    requires |n| == MODULUS_BYTES
    ensures IsOdd2048(Value(n)) <==> n[0] >= 128 && n[MODULUS_BYTES - 1] % 2 == 1
    ensures Value(n) < Pow2(2048)
  {
    hide Pow2, Value;
    LeadingByte(n);
    LowBit(n);
    EightBitsMore(2040);
    Double(2047);
    var top: int := n[0];
    var p := Pow2(2040);
    Mul(top + 1, 256, p);
    if top >= 128 {
      Mul(128, top, p);
    } else {
      Mul(top + 1, 128, p);
    }
  }

  lemma ShortValues(s: bytes)
    requires |s| < MODULUS_BYTES
    ensures Value(s) < Pow2(2047)
  {
    hide Pow2;
    if s != [] {
      LeadingByte(s);
      EightBitsMore(8 * (|s| - 1));
      var top: int := s[0];
      Mul(top + 1, 256, Pow2(8 * (|s| - 1)));
      Pow2Grows(8 * |s|, 2047);
    } else {
      Pow2Grows(0, 2047);
    }
  }

  /** One byte too many, and not a leading zero: the value is too big. */
  lemma LongValues(s: bytes)
    requires |s| == MODULUS_BYTES + 1
    ensures s[0] != 0 ==> Value(s) >= Pow2(2048)
    ensures s[0] == 0 ==> Value(s) == Value(s[1..])
  {
    hide Pow2;
    LeadingByte(s);
    if s[0] == 0 {
      LeadingZero(s);
    } else {
      Mul(1, s[0], Pow2(2048));
    }
  }

  /** Whatever normalises is 256 bytes of the same integer, with its top and lowest bit set, and
      normalises to itself: a shorter or longer writing adds no key. */
  lemma NormalizedKeepsValue(decoded: bytes)
    requires Normalized(decoded).Some?
    ensures var n := Normalized(decoded).value;
            Value(n) == Value(decoded) && |n| == MODULUS_BYTES && n[0] >= 128 && n[MODULUS_BYTES - 1] % 2 == 1
            && Normalized(n) == Some(n) && (decoded == n || decoded == [0] + n)
  {
    hide Pow2, Value;
    if |decoded| < MODULUS_BYTES {
      ShortValues(decoded);
    } else if |decoded| == MODULUS_BYTES {
      BigEndianOfValue(decoded);
      TopAndLowBit(decoded);
    } else {
      LongValues(decoded);
      BigEndianOfValue(decoded[1..]);
      TopAndLowBit(decoded[1..]);
      assert decoded == [0] + decoded[1..];
    }
  }

  /** Zeros in front do not change the value; a buffer that had to be padded has a zero in front. */
  method NormalizeModulus(decoded: bytes) returns (r: Option<bytes>)
    ensures r == Normalized(decoded)
  {
    hide Pow2, Value;
    var n := decoded;
    if |n| == MODULUS_BYTES + 1 && n[0] == 0 {
      LongValues(decoded);
      n := n[1..];
    }
    if |n| > MODULUS_BYTES {
      if |n| == MODULUS_BYTES + 1 {
        LongValues(decoded);
      }
      return None;
    }
    if |n| < MODULUS_BYTES {
      ShortValues(n);
      n := seq(MODULUS_BYTES - |n|, _ => 0) + n;
      assert n[0] == 0;
    } else {
      TopAndLowBit(n);
      BigEndianOfValue(n);
    }
    if n[0] < 128 || n[MODULUS_BYTES - 1] % 2 == 0 {
      return None;
    }
    return Some(n);
  }

  // ----- The keys of a pass -----

  datatype Provider = Provider(name: string, enabled: bool, issuer: bytes, audience: bytes)

  /** A JWK with `n` and `e` decoded; a field that is absent or not text is None. */
  datatype Jwk = Jwk(kty: Option<string>, alg: Option<string>, use: Option<string>, kid: Option<bytes>,
                     n: Option<bytes>, e: Option<bytes>)

  datatype ProviderKey = ProviderKey(provider: string, issuerHash: bytes, audienceHash: bytes, kidHash: bytes,
                                     modulus: bytes)

  const EXPONENT := 65537

  /** Whether the JWK's exponent is looked at. */
  predicate IsCandidate(k: Jwk) {
    k.kty == Some("RSA") && (k.alg.None? || k.alg == Some("RS256")) && (k.use.None? || k.use == Some("sig"))
    && k.kid.Some? && k.n.Some? && k.e.Some? && Normalized(k.n.value).Some?
  }

  /** Reading an empty exponent throws, which fails the whole fetch. */
  predicate Throws(k: Jwk) {
    IsCandidate(k) && k.e.value == []
  }

  predicate IsUsable(k: Jwk) {
    IsCandidate(k) && Value(k.e.value) == EXPONENT
  }

  function KeyOf(p: Provider, k: Jwk, sha: bytes -> bytes): ProviderKey
    requires IsUsable(k)
  {
    ProviderKey(p.name, sha(p.issuer), sha(p.audience), sha(k.kid.value), Normalized(k.n.value).value)
  }

  function Usable(p: Provider, jwks: seq<Jwk>, sha: bytes -> bytes): seq<ProviderKey> {
    if jwks == [] then []
    else
      var n := |jwks| - 1;
      Usable(p, jwks[..n], sha) + if IsUsable(jwks[n]) then [KeyOf(p, jwks[n], sha)] else []
  }

  /** What fetching from one provider yields: nothing at all if one of its keys throws. */
  function Fetched(p: Provider, jwks: seq<Jwk>, sha: bytes -> bytes): Option<seq<ProviderKey>> {
    if exists i :: 0 <= i < |jwks| && Throws(jwks[i]) then None else Some(Usable(p, jwks, sha))
  }

  method FetchProviderKeys(p: Provider, jwks: seq<Jwk>, sha: bytes -> bytes) returns (r: Option<seq<ProviderKey>>)
    ensures r == Fetched(p, jwks, sha)
  {
    hide IsOdd2048, Value;
    var keys: seq<ProviderKey> := [];
    for i := 0 to |jwks|
      invariant keys == Usable(p, jwks[..i], sha)
      invariant forall j | 0 <= j < i :: !Throws(jwks[j])
    {
      assert jwks[..i + 1][..i] == jwks[..i];
      var k := jwks[i];
      if k.kty != Some("RSA") {
        continue;
      }
      if k.alg.Some? && k.alg != Some("RS256") {
        continue;
      }
      if k.use.Some? && k.use != Some("sig") {
        continue;
      }
      if k.kid.None? || k.n.None? || k.e.None? {
        continue;
      }
      var modulus := NormalizeModulus(k.n.value);
      if modulus.None? {
        continue;
      }
      if k.e.value == [] {
        return None;
      }
      if Value(k.e.value) != EXPONENT {
        continue;
      }
      keys := keys + [ProviderKey(p.name, sha(p.issuer), sha(p.audience), sha(k.kid.value), modulus.value)];
    }
    assert jwks[..|jwks|] == jwks;
    return Some(keys);
  }

  /** What each enabled provider answered this pass, if it answered. */
  function Gathered(ps: seq<Provider>, answers: seq<Option<seq<Jwk>>>, sha: bytes -> bytes): seq<ProviderKey>
    requires |ps| == |answers|
  {
    if ps == [] then []
    else
      var n := |ps| - 1;
      var fetched := if ps[n].enabled && answers[n].Some? then Fetched(ps[n], answers[n].value, sha) else None;
      Gathered(ps[..n], answers[..n], sha) + if fetched.Some? then fetched.value else []
  }

  method GatherKeys(ps: seq<Provider>, answers: seq<Option<seq<Jwk>>>, sha: bytes -> bytes)
    returns (keys: seq<ProviderKey>)
    requires |ps| == |answers|
    ensures keys == Gathered(ps, answers, sha)
  {
    keys := [];
    for i := 0 to |ps|
      invariant keys == Gathered(ps[..i], answers[..i], sha)
    {
      assert ps[..i + 1][..i] == ps[..i] && answers[..i + 1][..i] == answers[..i];
      if !ps[i].enabled || answers[i].None? {
        continue;
      }
      var fetched := FetchProviderKeys(ps[i], answers[i].value, sha);
      if fetched.Some? {
        keys := keys + fetched.value;
      }
    }
    assert ps[..|ps|] == ps && answers[..|answers|] == answers;
  }

  // ----- Activation -----

  datatype Status = Pending | Active | Revoked | Lapsed

  datatype Entry = Entry(status: Status, issuerHash: bytes, audienceHash: bytes, kidHash: bytes, modulus: bytes,
                         proposedAt: int)

  predicate TripleEq(e: Entry, k: ProviderKey) {
    e.issuerHash == k.issuerHash && e.audienceHash == k.audienceHash && e.kidHash == k.kidHash
  }

  /** The provider answered with at least one key, and the entry is about its issuer and audience. */
  ghost predicate Covers(p: Provider, e: Entry, keys: seq<ProviderKey>, sha: bytes -> bytes) {
    (exists i :: 0 <= i < |keys| && keys[i].provider == p.name)
    && sha(p.issuer) == e.issuerHash && sha(p.audience) == e.audienceHash
  }

  ghost predicate IsFirst(ps: seq<Provider>, i: nat, e: Entry, keys: seq<ProviderKey>, sha: bytes -> bytes) {
    i < |ps| && Covers(ps[i], e, keys, sha) && forall j | 0 <= j < i :: !Covers(ps[j], e, keys, sha)
  }

  /** A key the named provider publishes right now, with the entry's triple and the entry's modulus. */
  ghost predicate IsPublishedAs(e: Entry, name: string, keys: seq<ProviderKey>) {
    exists i :: 0 <= i < |keys| && keys[i].provider == name && TripleEq(e, keys[i]) && e.modulus == keys[i].modulus
  }

  predicate IsRipe(e: Entry, now: int, timelock: int) {
    e.status == Pending && e.proposedAt + timelock <= now
  }

  /** What becomes of an entry in the activation loop: left alone, reported, or activated. */
  ghost predicate Activates(e: Entry, ps: seq<Provider>, keys: seq<ProviderKey>, now: int, timelock: int,
                            sha: bytes -> bytes) {
    IsRipe(e, now, timelock)
    && exists i: nat :: IsFirst(ps, i, e, keys, sha) && IsPublishedAs(e, ps[i].name, keys)
  }

  ghost predicate Refuses(e: Entry, ps: seq<Provider>, keys: seq<ProviderKey>, now: int, timelock: int,
                          sha: bytes -> bytes) {
    IsRipe(e, now, timelock)
    && exists i: nat :: IsFirst(ps, i, e, keys, sha) && !IsPublishedAs(e, ps[i].name, keys)
  }

  method FindProvider(e: Entry, ps: seq<Provider>, keys: seq<ProviderKey>, sha: bytes -> bytes)
    returns (r: Option<nat>)
    ensures r.Some? ==> IsFirst(ps, r.value, e, keys, sha)
                        && forall i: nat | IsFirst(ps, i, e, keys, sha) :: i == r.value
    ensures r.None? ==> forall i: nat :: !IsFirst(ps, i, e, keys, sha)
  {
    var names := set k | k in keys :: k.provider;
    for i := 0 to |ps|
      invariant forall j | 0 <= j < i :: !Covers(ps[j], e, keys, sha)
    {
      if ps[i].name in names && sha(ps[i].issuer) == e.issuerHash && sha(ps[i].audience) == e.audienceHash {
        return Some(i);
      }
    }
    return None;
  }

  method IsLive(e: Entry, name: string, keys: seq<ProviderKey>) returns (r: bool)
    ensures r == IsPublishedAs(e, name, keys)
  {
    for i := 0 to |keys|
      invariant forall j | 0 <= j < i ::
          !(keys[j].provider == name && TripleEq(e, keys[j]) && e.modulus == keys[j].modulus)
    {
      if keys[i].provider == name && TripleEq(e, keys[i]) && e.modulus == keys[i].modulus {
        return true;
      }
    }
    return false;
  }

  /** The slots sent for activation and the slots reported, each in slot order. */
  method ActivatePending(onchain: seq<Entry>, ps: seq<Provider>, keys: seq<ProviderKey>, now: int, timelock: int,
                         sha: bytes -> bytes)
    returns (sent: seq<nat>, refused: seq<nat>)
    ensures forall i: nat :: i in sent <==> i < |onchain| && Activates(onchain[i], ps, keys, now, timelock, sha)
    ensures forall i: nat :: i in refused <==> i < |onchain| && Refuses(onchain[i], ps, keys, now, timelock, sha)
    ensures forall i | i in sent || i in refused ::
              onchain[i].status == Pending && now - onchain[i].proposedAt >= timelock
    ensures forall a, b | 0 <= a < b < |sent| :: sent[a] < sent[b]
    ensures forall a, b | 0 <= a < b < |refused| :: refused[a] < refused[b]
  {
    hide Covers, IsPublishedAs, IsFirst;
    sent, refused := [], [];
    for i: nat := 0 to |onchain|
      invariant forall j: nat :: j in sent <==> j < i && Activates(onchain[j], ps, keys, now, timelock, sha)
      invariant forall j: nat :: j in refused <==> j < i && Refuses(onchain[j], ps, keys, now, timelock, sha)
      invariant forall a, b | 0 <= a < b < |sent| :: sent[a] < sent[b]
      invariant forall a, b | 0 <= a < b < |refused| :: refused[a] < refused[b]
    {
      var e := onchain[i];
      assert forall a | 0 <= a < |sent| :: sent[a] in sent;
      assert forall a | 0 <= a < |refused| :: refused[a] in refused;
      if e.status != Pending {
        continue;
      }
      if now < e.proposedAt + timelock {
        continue;
      }
      var provider := FindProvider(e, ps, keys, sha);
      if provider.None? {
        continue;
      }
      var live := IsLive(e, ps[provider.value].name, keys);
      if !live {
        refused := refused + [i];
        continue;
      }
      sent := sent + [i];
    }
  }

  // ----- What activation means -----

  lemma {:induction false} UsableAre(p: Provider, jwks: seq<Jwk>, sha: bytes -> bytes, i: nat) returns (k: Jwk)
    requires i < |Usable(p, jwks, sha)|
    ensures k in jwks && IsUsable(k) && Usable(p, jwks, sha)[i] == KeyOf(p, k, sha)
  {
    var n := |jwks| - 1;
    if i < |Usable(p, jwks[..n], sha)| {
      k := UsableAre(p, jwks[..n], sha, i);
    } else {
      k := jwks[n];
    }
  }

  /** Every gathered key is a usable key of the answer of the provider it names. */
  lemma {:induction false} GatheredAre(ps: seq<Provider>, answers: seq<Option<seq<Jwk>>>, sha: bytes -> bytes, i: nat)
    returns (p: nat, k: Jwk)
    requires |ps| == |answers| && i < |Gathered(ps, answers, sha)|
    ensures p < |ps| && ps[p].enabled && answers[p].Some? && k in answers[p].value && IsUsable(k)
    ensures Gathered(ps, answers, sha)[i] == KeyOf(ps[p], k, sha)
  {
    var n := |ps| - 1;
    if i < |Gathered(ps[..n], answers[..n], sha)| {
      p, k := GatheredAre(ps[..n], answers[..n], sha, i);
    } else {
      p := n;
      k := UsableAre(ps[n], answers[n].value, sha, i - |Gathered(ps[..n], answers[..n], sha)|);
    }
  }

  /** A signing key of the answer that the watcher looks at as far as the exponent. */
  ghost predicate IsSigningKey(k: Jwk) {
    && k.kty == Some("RSA") && k.kid.Some? && k.n.Some? && k.e.Some?
    && (k.alg.Some? ==> k.alg.value == "RS256") && (k.use.Some? ==> k.use.value == "sig")
    && |k.n.value| <= 257 && Value(k.n.value) % 2 == 1 && Pow2(2047) <= Value(k.n.value) < Pow2(2048)
  }

  /** Answer `jwks` of provider p yields `key` from its j-th entry: no entry fails the fetch, and that one
      is a signing key of exponent 65537, under the hashes of this issuer, audience and key id. */
  ghost predicate Yields(p: Provider, jwks: seq<Jwk>, j: nat, key: ProviderKey, sha: bytes -> bytes) {
    && p.enabled && j < |jwks|
    && (forall i | 0 <= i < |jwks| && IsSigningKey(jwks[i]) :: jwks[i].e.value != [])
    && IsSigningKey(jwks[j]) && Value(jwks[j].e.value) == 65537
    && key.provider == p.name && key.issuerHash == sha(p.issuer) && key.audienceHash == sha(p.audience)
    && key.kidHash == sha(jwks[j].kid.value)
    && |key.modulus| == 256 && Value(key.modulus) == Value(jwks[j].n.value)
  }

  lemma SigningKeys(k: Jwk)
    ensures IsCandidate(k) <==> IsSigningKey(k)
    ensures IsCandidate(k) ==> |Normalized(k.n.value).value| == 256
                               && Value(Normalized(k.n.value).value) == Value(k.n.value)
  {
    hide Pow2, Value;
    if IsCandidate(k) {
      NormalizedKeepsValue(k.n.value);
    }
  }

  lemma {:induction false} UsableIsListed(p: Provider, jwks: seq<Jwk>, sha: bytes -> bytes, j: nat)
    requires j < |jwks| && IsUsable(jwks[j])
    ensures KeyOf(p, jwks[j], sha) in Usable(p, jwks, sha)
  {
    hide IsUsable, KeyOf;
    var n := |jwks| - 1;
    if j < n {
      UsableIsListed(p, jwks[..n], sha, j);
    }
  }

  lemma {:induction false} FetchedIsGathered(ps: seq<Provider>, answers: seq<Option<seq<Jwk>>>, sha: bytes -> bytes,
                                             p: nat, key: ProviderKey)
    requires |ps| == |answers| && p < |ps| && ps[p].enabled && answers[p].Some?
    requires Fetched(ps[p], answers[p].value, sha).Some? && key in Fetched(ps[p], answers[p].value, sha).value
    ensures key in Gathered(ps, answers, sha)
  {
    hide Fetched;
    var n := |ps| - 1;
    if p < n {
      FetchedIsGathered(ps[..n], answers[..n], sha, p, key);
    }
  }

  lemma {:induction false} GatheredIsFetched(ps: seq<Provider>, answers: seq<Option<seq<Jwk>>>, sha: bytes -> bytes,
                                             key: ProviderKey) returns (p: nat)
    requires |ps| == |answers| && key in Gathered(ps, answers, sha)
    ensures p < |ps| && ps[p].enabled && answers[p].Some?
    ensures Fetched(ps[p], answers[p].value, sha).Some? && key in Fetched(ps[p], answers[p].value, sha).value
  {
    hide Fetched;
    var n := |ps| - 1;
    if key in Gathered(ps[..n], answers[..n], sha) {
      p := GatheredIsFetched(ps[..n], answers[..n], sha, key);
    } else {
      p := n;
    }
  }

  /** What one answer yields, no more and no less. */
  lemma FetchedIff(p: Provider, jwks: seq<Jwk>, sha: bytes -> bytes, key: ProviderKey)
    requires p.enabled
    ensures (Fetched(p, jwks, sha).Some? && key in Fetched(p, jwks, sha).value)
            <==> exists j: nat :: Yields(p, jwks, j, key, sha)
  {
    forall k | k in jwks
      ensures IsCandidate(k) <==> IsSigningKey(k)
      ensures IsCandidate(k) ==> |Normalized(k.n.value).value| == 256
                                 && Value(Normalized(k.n.value).value) == Value(k.n.value)
    {
      SigningKeys(k);
    }
    hide IsCandidate, IsSigningKey, Value, Normalized;
    var found := Fetched(p, jwks, sha);
    if found.Some? && key in found.value {
      var i: nat :| i < |found.value| && found.value[i] == key;
      var k := UsableAre(p, jwks, sha, i);
      var j: nat :| j < |jwks| && jwks[j] == k;
      assert forall l | 0 <= l < |jwks| :: !Throws(jwks[l]);
      assert Yields(p, jwks, j, key, sha);
    }
    if j: nat :| Yields(p, jwks, j, key, sha) {
      assert forall l | 0 <= l < |jwks| :: !Throws(jwks[l]);
      UsableIsListed(p, jwks, sha, j);
      SameModulus(key.modulus, Normalized(jwks[j].n.value).value);
    }
  }

  lemma SameModulus(a: bytes, b: bytes)
    requires |a| == |b| && Value(a) == Value(b)
    ensures a == b
  {
    BigEndianOfValue(a);
    BigEndianOfValue(b);
  }

  /** A pass gathers every usable key of every enabled provider that answered without failing, and
      nothing else. */
  lemma GatheredIff(ps: seq<Provider>, answers: seq<Option<seq<Jwk>>>, sha: bytes -> bytes, key: ProviderKey)
    requires |ps| == |answers|
    ensures key in Gathered(ps, answers, sha)
            <==> exists p: nat, j: nat :: p < |ps| && answers[p].Some? && Yields(ps[p], answers[p].value, j, key, sha)
  {
    hide Gathered, Fetched, Yields;
    if key in Gathered(ps, answers, sha) {
      var p := GatheredIsFetched(ps, answers, sha, key);
      FetchedIff(ps[p], answers[p].value, sha, key);
      var j: nat :| Yields(ps[p], answers[p].value, j, key, sha);
    }
    if p: nat, j: nat :| p < |ps| && answers[p].Some? && Yields(ps[p], answers[p].value, j, key, sha) {
      YieldsEnabled(ps[p], answers[p].value, j, key, sha);
      FetchedIff(ps[p], answers[p].value, sha, key);
      FetchedIsGathered(ps, answers, sha, p, key);
    }
  }

  lemma YieldsEnabled(p: Provider, jwks: seq<Jwk>, j: nat, key: ProviderKey, sha: bytes -> bytes)
    requires Yields(p, jwks, j, key, sha)
    ensures p.enabled
  {
    hide IsSigningKey;
  }

  /** The main result: with names and (issuer, audience) hashes that tell the providers apart, a pass
      activates a ripe entry exactly when some provider publishes that very key right now. */
  lemma ActivatedIffPublished(e: Entry, ps: seq<Provider>, answers: seq<Option<seq<Jwk>>>, now: int, timelock: int,
                              sha: bytes -> bytes)
    requires |ps| == |answers|
    requires forall i, j | 0 <= i < j < |ps| :: ps[i].name != ps[j].name
    requires forall i, j | 0 <= i < j < |ps| && sha(ps[i].issuer) == sha(ps[j].issuer) ::
               sha(ps[i].audience) != sha(ps[j].audience)
    ensures var keys := Gathered(ps, answers, sha);
            Activates(e, ps, keys, now, timelock, sha)
            <==> IsRipe(e, now, timelock)
                 && exists i :: 0 <= i < |keys| && TripleEq(e, keys[i]) && e.modulus == keys[i].modulus
  {
    hide IsUsable, Gathered;
    var keys := Gathered(ps, answers, sha);
    if IsRipe(e, now, timelock) && exists i :: 0 <= i < |keys| && TripleEq(e, keys[i]) && e.modulus == keys[i].modulus {
      var i :| 0 <= i < |keys| && TripleEq(e, keys[i]) && e.modulus == keys[i].modulus;
      var p, _ := GatheredAre(ps, answers, sha, i);
      assert keys[i].provider == ps[p].name;
      assert IsFirst(ps, p, e, keys, sha);
      assert IsPublishedAs(e, ps[p].name, keys);
    }
  }

  /** A ripe entry is activated or reported, and never both, exactly when some provider of its issuer and
      audience answered with a key at all. */
  lemma RipeIsSettledIff(e: Entry, ps: seq<Provider>, keys: seq<ProviderKey>, now: int, timelock: int,
                         sha: bytes -> bytes)
    requires e.status == Pending && now - e.proposedAt >= timelock
    ensures !(Activates(e, ps, keys, now, timelock, sha) && Refuses(e, ps, keys, now, timelock, sha))
    ensures Activates(e, ps, keys, now, timelock, sha) || Refuses(e, ps, keys, now, timelock, sha)
            <==> exists i, k :: 0 <= i < |ps| && 0 <= k < |keys| && keys[k].provider == ps[i].name
                                && sha(ps[i].issuer) == e.issuerHash && sha(ps[i].audience) == e.audienceHash
  {
    hide IsPublishedAs;
    if i, k :| 0 <= i < |ps| && 0 <= k < |keys| && keys[k].provider == ps[i].name
               && sha(ps[i].issuer) == e.issuerHash && sha(ps[i].audience) == e.audienceHash {
      assert Covers(ps[i], e, keys, sha);
      var f := FirstCovering(e, ps, keys, sha, i);
    }
  }

  lemma {:induction false} FirstCovering(e: Entry, ps: seq<Provider>, keys: seq<ProviderKey>, sha: bytes -> bytes,
                                         i: nat) returns (f: nat)
    requires i < |ps| && Covers(ps[i], e, keys, sha)
    ensures IsFirst(ps, f, e, keys, sha)
  {
    hide Covers;
    f := i;
    if j: nat :| j < i && Covers(ps[j], e, keys, sha) {
      f := FirstCovering(e, ps, keys, sha, j);
    }
  }

  /** Whatever the providers are: an activated entry holds an odd 2048-bit modulus under the key id
      that an enabled provider of its issuer and audience published with exponent 65537. */
  lemma ActivatedIsVetted(e: Entry, ps: seq<Provider>, answers: seq<Option<seq<Jwk>>>, now: int, timelock: int,
                          sha: bytes -> bytes) returns (p: nat, k: Jwk)
    requires |ps| == |answers| && Activates(e, ps, Gathered(ps, answers, sha), now, timelock, sha)
    ensures p < |ps| && ps[p].enabled && answers[p].Some? && k in answers[p].value && IsUsable(k)
    ensures e.issuerHash == sha(ps[p].issuer) && e.audienceHash == sha(ps[p].audience) && e.kidHash == sha(k.kid.value)
    ensures Value(e.modulus) == Value(k.n.value) && |e.modulus| == MODULUS_BYTES && IsOdd2048(Value(e.modulus))
  {
    hide Gathered, Usable, IsCandidate, Normalized, Value;
    var keys := Gathered(ps, answers, sha);
    var f: nat :| IsFirst(ps, f, e, keys, sha) && IsPublishedAs(e, ps[f].name, keys);
    var i :| 0 <= i < |keys| && keys[i].provider == ps[f].name && TripleEq(e, keys[i]) && e.modulus == keys[i].modulus;
    p, k := GatheredAre(ps, answers, sha, i);
    UsableModulus(k);
  }

  lemma UsableModulus(k: Jwk)
    requires IsUsable(k)
    ensures var n := Normalized(k.n.value).value;
            Value(n) == Value(k.n.value) && |n| == MODULUS_BYTES && IsOdd2048(Value(n))
  {
    hide Pow2, Value;
    NormalizedKeepsValue(k.n.value);
  }

  // ----- Validity -----

  const MAX_VALIDITY: int := 30 * 24 * 3600

  function TokenTtl(name: string): (t: int)
    requires name == "google" || name == "apple"
  {
    if name == "google" then 3600 else 600
  }

  function ComputeValidUntil(name: string, grace: int, now: int): (until: int)
    requires name == "google" || name == "apple"
    ensures until <= now + MAX_VALIDITY
    ensures now < until <==> TokenTtl(name) + grace > 0
    ensures until == now + MAX_VALIDITY <==> TokenTtl(name) + grace >= MAX_VALIDITY
    ensures until <= now + TokenTtl(name) + grace
    ensures name == "google" && grace <= 2_588_400 ==> until - now - grace == 3600
    ensures name == "apple" && grace <= 2_591_400 ==> until - now - grace == 600
  {
    var validUntil := now + TokenTtl(name) + grace;
    if validUntil - now > MAX_VALIDITY then now + MAX_VALIDITY else validUntil
  }
}
