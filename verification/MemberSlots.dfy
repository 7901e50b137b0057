/** The 34-byte member slots of contracts/auth/src/lib.rs: a scheme tag, an identifier whose length
    the scheme fixes, and zero padding. */
module MemberSlots {
  import opened Bytes
  import Precompile

  datatype AuthError =
    | UnsupportedScheme
    | InvalidIdentifierLen
    | InvalidSlotLayout
    | InvalidWebAuthnPayload
    | InvalidNonce
    | PrecompileRefused(reason: Precompile.PrecompileError)

  datatype Result<+T> = Ok(value: T) | Err(error: AuthError)

  const ED25519: u8 := 0
  const SECP256K1: u8 := 1
  const SECP256R1: u8 := 2
  const WEBAUTHN: u8 := 3
  const OIDC_JWT: u8 := 4
  const MAX_SCHEME: u8 := WEBAUTHN

  function IdLenForScheme(scheme: u8): Result<nat> {
    if scheme == ED25519 then Ok(32)
    else if scheme == SECP256K1 then Ok(20)
    else if scheme == SECP256R1 then Ok(33)
    else if scheme == WEBAUTHN then Ok(33)
    else if scheme == OIDC_JWT then Ok(32)
    else Err(UnsupportedScheme)
  }

  function BuildMemberSlot(scheme: u8, identifier: bytes): Result<Slot> {
    var expected := IdLenForScheme(scheme);
    if expected.Err? then Err(expected.error)
    else if |identifier| != expected.value then Err(InvalidIdentifierLen)
    else Ok([scheme] + identifier + seq(33 - |identifier|, _ => 0))
  }

  /** The scan both validators make over the bytes after the identifier. */
  method PaddingIsZero(slot: Slot, start: nat) returns (r: Result<()>)
    requires start <= 34
    ensures r == if forall i | start <= i < 34 :: slot[i] == 0 then Ok(()) else Err(InvalidSlotLayout)
  {
    for i := start to 34
      invariant forall k | start <= k < i :: slot[k] == 0
    {
      if slot[i] != 0 {
        return Err(InvalidSlotLayout);
      }
    }
    return Ok(());
  }

  /** The identifier a slot holds, read at the length its own tag prescribes. */
  function Identifier(slot: Slot): bytes
    requires IdLenForScheme(slot[0]).Ok?
  {
    slot[1..1 + IdLenForScheme(slot[0]).value]
  }

  ghost predicate Padded(slot: Slot) {
    && IdLenForScheme(slot[0]).Ok?
    && forall i | 1 + IdLenForScheme(slot[0]).value <= i < 34 :: slot[i] == 0
  }

  /** A slot is built from one scheme and identifier at most, and from some exactly when its padding
      is zero. */
  lemma BuiltSlots(slot: Slot)
    ensures forall scheme: u8, id: bytes | BuildMemberSlot(scheme, id) == Ok(slot) ::
              Padded(slot) && scheme == slot[0] && id == Identifier(slot)
    ensures Padded(slot) ==> BuildMemberSlot(slot[0], Identifier(slot)) == Ok(slot)
  {
    forall scheme: u8, id: bytes | BuildMemberSlot(scheme, id) == Ok(slot)
      ensures Padded(slot) && scheme == slot[0] && id == Identifier(slot)
    {
      assert slot[1..1 + |id|] == id;
    }
    if Padded(slot) {
      var id := Identifier(slot);
      assert slot == [slot[0]] + id + seq(33 - |id|, _ => 0);
    }
  }

  /** Distinct credentials never share a slot. */
  lemma SlotsAreInjective(s: u8, id: bytes, t: u8, jd: bytes)
    requires BuildMemberSlot(s, id).Ok? && BuildMemberSlot(s, id) == BuildMemberSlot(t, jd)
    ensures s == t && id == jd
  {
    BuiltSlots(BuildMemberSlot(s, id).value);
  }

  /** Accepts exactly the slots that some base-scheme identifier is built into. */
  method ValidateMemberSlotBase(slot: Slot) returns (r: Result<()>)
    ensures r.Ok? <==> exists scheme: u8, id: bytes :: scheme <= MAX_SCHEME && BuildMemberSlot(scheme, id) == Ok(slot)
    ensures r.Err? ==> r.error == if slot[0] > MAX_SCHEME then UnsupportedScheme else InvalidSlotLayout
  {
    BuiltSlots(slot);
    var scheme := slot[0];
    if scheme > MAX_SCHEME {
      return Err(UnsupportedScheme);
    }
    var idLen := IdLenForScheme(scheme);
    r := PaddingIsZero(slot, 1 + idLen.value);
  }

  /** Accepts exactly the slots that some OIDC address seed is built into. */
  method ValidateOidcSlot(slot: Slot) returns (r: Result<()>)
    ensures r.Ok? <==> exists seed: bytes :: BuildMemberSlot(OIDC_JWT, seed) == Ok(slot)
    ensures r.Err? ==> r.error == if slot[0] != OIDC_JWT then UnsupportedScheme else InvalidSlotLayout
  {
    BuiltSlots(slot);
    if slot[0] != OIDC_JWT {
      return Err(UnsupportedScheme);
    }
    r := PaddingIsZero(slot, 1 + IdLenForScheme(OIDC_JWT).value);
  }
}
