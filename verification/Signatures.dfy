/** What it takes for a credential to count as having signed a challenge, end to end: from the scheme
    and the identifier, through its slot and the bytes of the transaction, to the verdict
    (contracts/auth/src/lib.rs, contracts/auth/src/precompile.rs). */
module Signatures {
  import opened Bytes
  import opened MemberSlots
  import Precompile
  import SysvarWriter
  import WebAuthn

  /** Which credentials have a slot, and how the slot is laid out. */
  lemma SlotLayout(scheme: u8, id: bytes)
    ensures BuildMemberSlot(scheme, id).Ok?
            <==> (scheme == 0 && |id| == 32) || (scheme == 1 && |id| == 20) || (scheme == 2 && |id| == 33)
                 || (scheme == 3 && |id| == 33) || (scheme == 4 && |id| == 32)
    ensures scheme > 4 ==> BuildMemberSlot(scheme, id) == Err(UnsupportedScheme)
    ensures BuildMemberSlot(scheme, id).Ok? ==>
              var slot := BuildMemberSlot(scheme, id).value;
              slot[0] == scheme && slot[1..1 + |id|] == id && forall i | 1 + |id| <= i < 34 :: slot[i] == 0
  {
    if BuildMemberSlot(scheme, id).Ok? {
      BuiltSlots(BuildMemberSlot(scheme, id).value);
    }
  }

  /** The program that verifies for a scheme, and the layout of its records. */
  function WantedFor(scheme: u8): Precompile.Wanted {
    if scheme == 0 then Precompile.Wanted(Precompile.Long, Precompile.ED25519_ID, [], [])
    else if scheme == 1 then Precompile.Wanted(Precompile.Short, Precompile.SECP256K1_ID, [], [])
    else Precompile.Wanted(Precompile.Long, Precompile.SECP256R1_ID, [], [])
  }

  /** What the credential must have signed: the challenge itself, and for a passkey the authenticator
      data with the hash of the client data. */
  function SignedBy(scheme: u8, challenge: Bytes32, authData: bytes, json: bytes, sha256: bytes -> Bytes32): bytes {
    if scheme == 3 then authData + sha256(json) else challenge
  }

  lemma FoundInTransaction(ixs: seq<SysvarWriter.Instruction>, tail: bytes, at: nat, scheme: u8, signature: bytes,
                           key: bytes, message: bytes, id: bytes, wanted: bytes)
    requires scheme <= 3 && SysvarWriter.HoldsOne(ixs, at, WantedFor(scheme), signature, key, message)
    requires |key| == |id|
    ensures var w := WantedFor(scheme);
            WebAuthn.Found(w.(key := id, message := wanted), SysvarWriter.SysvarBytes(ixs, tail))
            == if key == id && message == wanted then Ok(())
               else Err(PrecompileRefused(Precompile.NoMatchingInvocation))
  {
    var w := WantedFor(scheme);
    assert SysvarWriter.HoldsOne(ixs, at, w.(key := id, message := wanted), signature, key, message);
    hide SysvarWriter.HoldsOne, SysvarWriter.SysvarBytes, Precompile.Find;
    SysvarWriter.InvocationIsFound(ixs, tail, at, w.(key := id, message := wanted), signature, key, message);
  }

  /** In a transaction that invokes the scheme's program once, a credential counts as having signed
      exactly when that invocation is about its own identifier and about the challenge; a passkey also
      needs client data of the right size that names the challenge. */
  lemma SignedExactlyBy(scheme: u8, id: bytes, challenge: Bytes32, authData: bytes, json: bytes,
                        sha256: bytes -> Bytes32, ixs: seq<SysvarWriter.Instruction>, tail: bytes, at: nat,
                        signature: bytes, key: bytes, message: bytes)
    requires scheme <= 3 && BuildMemberSlot(scheme, id).Ok? && |key| == |id|
    requires SysvarWriter.HoldsOne(ixs, at, WantedFor(scheme), signature, key, message)
    ensures var slot := BuildMemberSlot(scheme, id).value;
            WebAuthn.Verdict(slot, challenge, SysvarWriter.SysvarBytes(ixs, tail), authData, json, sha256)
            == if scheme == 3 && (!(0 < |authData| <= 192 && 0 < |json| <= 192) || !WebAuthn.Carries(json, challenge))
               then Err(InvalidWebAuthnPayload)
               else if key == id && message == SignedBy(scheme, challenge, authData, json, sha256) then Ok(())
               else Err(PrecompileRefused(Precompile.NoMatchingInvocation))
  {
    SlotLayout(scheme, id);
    FoundInTransaction(ixs, tail, at, scheme, signature, key, message, id,
                       SignedBy(scheme, challenge, authData, json, sha256));
    hide SysvarWriter.HoldsOne, SysvarWriter.SysvarBytes, WebAuthn.Carries, WebAuthn.Found, BuildMemberSlot;
  }

  /** An OIDC slot never signs, whatever the transaction holds. */
  lemma OidcNeverSigns(seed: bytes, challenge: Bytes32, authData: bytes, json: bytes, sha256: bytes -> Bytes32,
                       sysvar: bytes)
    requires BuildMemberSlot(OIDC_JWT, seed).Ok?
    ensures WebAuthn.Verdict(BuildMemberSlot(OIDC_JWT, seed).value, challenge, sysvar, authData, json, sha256)
         == Err(UnsupportedScheme)
  {
    SlotLayout(4, seed);
    hide Precompile.Find, WebAuthn.Carries;
  }
}
