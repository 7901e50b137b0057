/** The owner's admin gate and its nonce (contracts/auth/src/admin.rs), over whole runs in which the
    calling program hashes the stored nonce into the challenge and stores the nonce it gets back. */
module OwnerAdmin {
  import opened Bytes
  import opened MemberSlots
  import WebAuthn
  import Challenge

  const U64_MAX: u64 := 0xFFFF_FFFF_FFFF_FFFF

  /** The verdict of the gate: the next nonce, or why it refuses. */
  ghost function Gate(expected: u64, onChain: u64, owner: Slot, challenge: Bytes32, sysvar: WebAuthn.Sysvar,
                      sha256: bytes -> Bytes32): Result<u64> {
    if expected != onChain then Err(InvalidNonce)
    else if owner[0] == WEBAUTHN then Err(UnsupportedScheme)
    else
      var verified := WebAuthn.Verdict(owner, challenge, sysvar, [], [], sha256);
      if verified.Err? then Err(verified.error)
      else if onChain == U64_MAX then Err(InvalidNonce)
      else Ok(onChain + 1)
  }

  method VerifyOwnerAdmin(expected: u64, onChain: u64, owner: Slot, challenge: Bytes32, sysvar: WebAuthn.Sysvar,
                          sha256: bytes -> Bytes32)
    returns (r: Result<u64>)
    ensures r == Gate(expected, onChain, owner, challenge, sysvar, sha256)
    ensures r.Ok? <==> expected == onChain < 0xFFFF_FFFF_FFFF_FFFF && owner[0] != 3
                       && WebAuthn.Verdict(owner, challenge, sysvar, [], [], sha256).Ok?
    ensures r.Ok? ==> r.value == onChain + 1
    ensures expected != onChain ==> r == Err(InvalidNonce)
    ensures expected == onChain && owner[0] == 3 ==> r == Err(UnsupportedScheme)
  {
    if expected != onChain {
      return Err(InvalidNonce);
    }
    if owner[0] == WEBAUTHN {
      return Err(UnsupportedScheme);
    }
    var verified := WebAuthn.VerifySignature(owner, challenge, sysvar, [], [], sha256);
    if verified.Err? {
      return Err(verified.error);
    }
    r := if onChain < U64_MAX then Ok(onChain + 1) else Err(InvalidNonce);
  }

  // ----- Runs of admin calls on one policy -----

  /** The policy whose nonce is being spent. */
  datatype Policy = Policy(dwallet: Bytes32, address: Bytes32)

  /** One transaction: the operation asked for, the owner slot stored at that time, the nonce the
      caller expects and the precompile invocations it carries. */
  datatype Attempt = Attempt(op: Challenge.AdminOp, human: Challenge.Human, owner: Slot, expected: u64,
                             sysvar: WebAuthn.Sysvar)

  /** The challenge call an attempt makes when `nonce` is the nonce stored on chain. */
  function CallOf(p: Policy, a: Attempt, nonce: u64): Challenge.Call {
    Challenge.Admin(a.op, a.human, p.dwallet, p.address, nonce, a.owner)
  }

  ghost function Verdict(p: Policy, a: Attempt, nonce: u64, sha256: bytes -> Bytes32): Result<u64> {
    Gate(a.expected, nonce, a.owner, sha256(Challenge.Preimage(CallOf(p, a, nonce))), a.sysvar, sha256)
  }

  /** The nonce stored before attempt k. */
  ghost function NonceAt(p: Policy, start: u64, run: seq<Attempt>, k: nat, sha256: bytes -> Bytes32): u64
    requires k <= |run|
  {
    if k == 0 then start
    else
      var before := NonceAt(p, start, run, k - 1, sha256);
      var verdict := Verdict(p, run[k - 1], before, sha256);
      if verdict.Ok? then verdict.value else before
  }

  ghost predicate Accepts(p: Policy, start: u64, run: seq<Attempt>, k: nat, sha256: bytes -> Bytes32)
    requires k < |run|
  {
    Verdict(p, run[k], NonceAt(p, start, run, k, sha256), sha256).Ok?
  }

  ghost function AcceptedBefore(p: Policy, start: u64, run: seq<Attempt>, k: nat, sha256: bytes -> Bytes32): nat
    requires k <= |run|
  {
    if k == 0 then 0
    else AcceptedBefore(p, start, run, k - 1, sha256) + if Accepts(p, start, run, k - 1, sha256) then 1 else 0
  }

  lemma VerdictAdvances(p: Policy, a: Attempt, nonce: u64, sha256: bytes -> Bytes32)
    ensures var verdict := Verdict(p, a, nonce, sha256);
            verdict.Ok? ==> nonce < U64_MAX && verdict.value == nonce + 1
  {
    hide Challenge.Preimage;
    hide WebAuthn.Verdict;
  }

  /** The stored nonce counts the accepted operations exactly: it never wraps around. */
  lemma {:induction false} NonceCountsAccepted(p: Policy, start: u64, run: seq<Attempt>, k: nat, sha256: bytes -> Bytes32)
    requires k <= |run|
    ensures NonceAt(p, start, run, k, sha256) == start + AcceptedBefore(p, start, run, k, sha256)
  {
    hide Verdict;
    if k > 0 {
      NonceCountsAccepted(p, start, run, k - 1, sha256);
      VerdictAdvances(p, run[k - 1], NonceAt(p, start, run, k - 1, sha256), sha256);
    }
  }

  lemma {:induction false} AcceptedGrows(p: Policy, start: u64, run: seq<Attempt>, i: nat, j: nat, sha256: bytes -> Bytes32)
    requires i <= j <= |run|
    ensures AcceptedBefore(p, start, run, i, sha256) <= AcceptedBefore(p, start, run, j, sha256)
  {
    hide Accepts;
    if i < j {
      AcceptedGrows(p, start, run, i, j - 1, sha256);
    }
  }

  /** Once an operation is accepted, every later attempt faces a larger nonce and a challenge with
      another preimage, so no authorisation is accepted twice. */
  lemma NeverAcceptedTwice(p: Policy, start: u64, run: seq<Attempt>, i: nat, j: nat, sha256: bytes -> Bytes32)
    requires i < j < |run| && Accepts(p, start, run, i, sha256)
    ensures var m, n := NonceAt(p, start, run, i, sha256), NonceAt(p, start, run, j, sha256);
            m < n && Challenge.Preimage(CallOf(p, run[i], m)) != Challenge.Preimage(CallOf(p, run[j], n))
  {
    hide Accepts;
    hide Challenge.Preimage;
    NonceCountsAccepted(p, start, run, i, sha256);
    NonceCountsAccepted(p, start, run, j, sha256);
    AcceptedGrows(p, start, run, i + 1, j, sha256);
    var c := CallOf(p, run[i], NonceAt(p, start, run, i, sha256));
    var d := CallOf(p, run[j], NonceAt(p, start, run, j, sha256));
    assert c.nonce < d.nonce;
    if Challenge.Preimage(c) == Challenge.Preimage(d) {
      Challenge.UniquelyDecodable(c, d);
    }
  }

  /** At the largest nonce nothing is accepted any more. */
  lemma {:induction false} ExhaustedNonceRefuses(p: Policy, run: seq<Attempt>, k: nat, sha256: bytes -> Bytes32)
    requires k < |run|
    ensures NonceAt(p, U64_MAX, run, k, sha256) == U64_MAX && !Accepts(p, U64_MAX, run, k, sha256)
  {
    hide Verdict;
    if k > 0 {
      ExhaustedNonceRefuses(p, run, k - 1, sha256);
    }
    VerdictAdvances(p, run[k], U64_MAX, sha256);
  }
}
