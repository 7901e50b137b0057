/** Signature verification over a member slot (contracts/auth/src/lib.rs), and in particular the
    WebAuthn branch, which must find the challenge in the clientDataJSON that the authenticator
    signed (WebAuthn Level 2 sections 5.8.1 and 7.2). */
module WebAuthn {
  import opened Bytes
  import opened MemberSlots
  import Base64Url
  import Precompile

  const AUTH_DATA_MAX: nat := 192
  const CLIENT_DATA_JSON_MAX: nat := 192
  const MESSAGE_MAX: nat := AUTH_DATA_MAX + 32
  const QUOTE: byte := '\"' as int
  const KEY: string := "\"challenge\":\""

  function Needle(): (b: bytes)
    ensures |b| == 13
  {
    Ascii(KEY)
  }

  /** The contents of the Instructions sysvar. */
  type Sysvar = bytes

  predicate OccursAt(haystack: bytes, needle: bytes, p: nat) {
    p + |needle| <= |haystack| && haystack[p..p + |needle|] == needle
  }

  predicate FirstAt(haystack: bytes, needle: bytes, p: nat) {
    OccursAt(haystack, needle, p) && forall q: nat | q < p :: !OccursAt(haystack, needle, q)
  }

  /** The offset of the first occurrence, if there is one. */
  method FindSubslice(haystack: bytes, needle: bytes) returns (r: Option<nat>)
    ensures r.Some? ==> FirstAt(haystack, needle, r.value)
    ensures r.None? ==> forall p: nat :: !OccursAt(haystack, needle, p)
  {
    if needle == [] {
      return Some(0);
    }
    if |needle| > |haystack| {
      return None;
    }
    var limit := |haystack| - |needle|;
    for i := 0 to limit + 1
      invariant forall q: nat | q < i :: !OccursAt(haystack, needle, q)
    {
      if haystack[i..i + |needle|] == needle {
        return Some(i);
      }
    }
    return None;
  }

  /** The member that names a challenge: the key, its encoding and the closing quote. */
  function Member(challenge: Bytes32): (m: bytes)
    ensures |m| == 57
  {
    Base64Url.EncodeLength(challenge);
    Needle() + Base64Url.Encode(challenge) + [QUOTE]
  }

  /** The clientDataJSON names this challenge: the first occurrence of the key opens the member
      that does. */
  ghost predicate Carries(json: bytes, challenge: Bytes32) {
    exists p: nat :: FirstAt(json, Needle(), p) && OccursAt(json, Member(challenge), p)
  }

  lemma MemberInjective(c: Bytes32, d: Bytes32)
    requires Member(c) == Member(d)
    ensures c == d
  {
    hide Base64Url.Encode;
    Base64Url.EncodeLength(c);
    Base64Url.EncodeLength(d);
    assert Member(c)[13..56] == Base64Url.Encode(c);
    assert Member(d)[13..56] == Base64Url.Encode(d);
    Base64Url.EncodeInjective(c, d);
  }

  /** One clientDataJSON authorises at most one challenge. */
  lemma OneChallengePerClientData(json: bytes, c: Bytes32, d: Bytes32)
    requires Carries(json, c) && Carries(json, d)
    ensures c == d
  {
    hide Member;
    hide Needle;
    var p: nat :| FirstAt(json, Needle(), p) && OccursAt(json, Member(c), p);
    var q: nat :| FirstAt(json, Needle(), q) && OccursAt(json, Member(d), q);
    assert p == q;
    MemberInjective(c, d);
  }

  /** The three comparisons of the source at the first occurrence of the key. */
  lemma CarriesAt(json: bytes, challenge: Bytes32, p: nat)
    requires FirstAt(json, Needle(), p)
    ensures Carries(json, challenge) <==>
            p + 56 < |json| && json[p + 13..p + 56] == Base64Url.Encode(challenge) && json[p + 56] == QUOTE
  {
    hide Base64Url.Encode;
    hide Needle;
    Base64Url.EncodeLength(challenge);
    var value := Base64Url.Encode(challenge);
    assert Carries(json, challenge) <==> OccursAt(json, Member(challenge), p);
    if OccursAt(json, Member(challenge), p) {
      var member := json[p..p + 57];
      assert member == Needle() + value + [QUOTE];
      assert json[p + 13..p + 56] == member[13..56] == value;
      assert json[p + 56] == member[56];
    }
    if p + 56 < |json| && json[p + 13..p + 56] == value && json[p + 56] == QUOTE {
      assert json[p..p + 57] == json[p..p + 13] + json[p + 13..p + 56] + [json[p + 56]];
    }
  }

  ghost predicate PayloadSizesOk(authData: bytes, json: bytes) {
    0 < |authData| <= AUTH_DATA_MAX && 0 < |json| <= CLIENT_DATA_JSON_MAX
  }

  /** Accepts exactly when the payload sizes are allowed, the client data carries the challenge and
      the passkey signed the authenticator data followed by the hash of the client data. */
  method VerifyWebAuthn(key: bytes, challenge: Bytes32, sysvar: Sysvar, authData: bytes, json: bytes,
                        sha256: bytes -> Bytes32)
    returns (r: Result<()>)
    ensures r == WebAuthnVerdict(key, challenge, sysvar, authData, json, sha256)
  {
    hide Base64Url.Encode;
    hide Needle;
    hide Member;
    hide Precompile.Find;
    if authData == [] || |authData| > AUTH_DATA_MAX || json == [] || |json| > CLIENT_DATA_JSON_MAX {
      return Err(InvalidWebAuthnPayload);
    }
    var challengeB64 := new byte[43](_ => 0);
    Base64Url.Encode32(challenge, challengeB64);
    var needle := Needle();
    var keyPos := FindSubslice(json, needle);
    if keyPos.None? {
      return Err(InvalidWebAuthnPayload);
    }
    CarriesAt(json, challenge, keyPos.value);
    var valueStart := keyPos.value + |needle|;
    var valueEnd := valueStart + 43;
    if valueEnd >= |json| {
      return Err(InvalidWebAuthnPayload);
    }
    if json[valueStart..valueEnd] != challengeB64[..] {
      return Err(InvalidWebAuthnPayload);
    }
    if json[valueEnd] != QUOTE {
      return Err(InvalidWebAuthnPayload);
    }
    var hash := sha256(json);
    var signed := new byte[MESSAGE_MAX](_ => 0);
    var n := |authData|;
    forall i | 0 <= i < n {
      signed[i] := authData[i];
    }
    forall i | 0 <= i < 32 {
      signed[n + i] := hash[i];
    }
    assert signed[..n + 32] == authData + hash;
    var vouched := Precompile.FindLongRecord(sysvar, Precompile.Secp256r1(key, signed[..n + 32]));
    r := Lifted(vouched);
  }

  ghost function WebAuthnVerdict(key: bytes, challenge: Bytes32, sysvar: Sysvar, authData: bytes, json: bytes,
                                 sha256: bytes -> Bytes32): Result<()> {
    if !PayloadSizesOk(authData, json) || !Carries(json, challenge) then Err(InvalidWebAuthnPayload)
    else Found(Precompile.Secp256r1(key, authData + sha256(json)), sysvar)
  }

  function Lifted(v: Precompile.Outcome<()>): Result<()> {
    if v.Ok? then Ok(()) else Err(PrecompileRefused(v.error))
  }

  function Found(w: Precompile.Wanted, sysvar: Sysvar): Result<()> {
    Lifted(Precompile.Find(sysvar, w))
  }

  /** What each scheme requires of the transaction before a slot counts as having signed. */
  ghost function Verdict(slot: Slot, challenge: Bytes32, sysvar: Sysvar, authData: bytes, json: bytes,
                         sha256: bytes -> Bytes32): Result<()> {
    var scheme := slot[0];
    if scheme == ED25519 then Found(Precompile.Ed25519(slot[1..33], challenge), sysvar)
    else if scheme == SECP256K1 then Found(Precompile.Secp256k1(slot[1..21], challenge), sysvar)
    else if scheme == SECP256R1 then Found(Precompile.Secp256r1(slot[1..34], challenge), sysvar)
    else if scheme == WEBAUTHN then WebAuthnVerdict(slot[1..34], challenge, sysvar, authData, json, sha256)
    else Err(UnsupportedScheme)
  }

  method VerifySignature(slot: Slot, challenge: Bytes32, sysvar: Sysvar, authData: bytes, json: bytes,
                         sha256: bytes -> Bytes32)
    returns (r: Result<()>)
    ensures r == Verdict(slot, challenge, sysvar, authData, json, sha256)
  {
    hide Precompile.Find, WebAuthnVerdict;
    var scheme := slot[0];
    if scheme == ED25519 {
      var vouched := Precompile.FindLongRecord(sysvar, Precompile.Ed25519(slot[1..33], challenge));
      r := Lifted(vouched);
    } else if scheme == SECP256K1 {
      var vouched := Precompile.FindShortRecord(sysvar, Precompile.Secp256k1(slot[1..21], challenge));
      r := Lifted(vouched);
    } else if scheme == SECP256R1 {
      var vouched := Precompile.FindLongRecord(sysvar, Precompile.Secp256r1(slot[1..34], challenge));
      r := Lifted(vouched);
    } else if scheme == WEBAUTHN {
      r := VerifyWebAuthn(slot[1..34], challenge, sysvar, authData, json, sha256);
    } else {
      r := Err(UnsupportedScheme);
    }
  }

  /** No two challenges are authorised by one WebAuthn payload, whatever the transaction holds. */
  lemma PayloadAuthorisesOneChallenge(slot: Slot, c: Bytes32, d: Bytes32, s: Sysvar, t: Sysvar, authData: bytes,
                                      json: bytes, sha256: bytes -> Bytes32)
    requires slot[0] == WEBAUTHN
    requires Verdict(slot, c, s, authData, json, sha256).Ok? && Verdict(slot, d, t, authData, json, sha256).Ok?
    ensures c == d
  {
    OneChallengePerClientData(json, c, d);
  }
}
