/** The clear-signing texts written out in full for the challenges that only the chain renders: the
    OIDC sessions and the admin operations (contracts/auth/src/human_message.rs). The other five are
    written out by the gateway, in GatewayChallenges. */
module MessageTexts {
  import opened Bytes
  import opened Numerals
  import opened ClearSigning
  import C = Challenge
  import MemberSlots

  /** A literal and what is shown behind it. */
  function Piece(words: string, shown: bytes): bytes {
    Ascii(words) + shown
  }

  function PieceOf(c: Clause): bytes
    requires IsShown(c.value)
  {
    Piece(Words(c.literal), Show(c.value))
  }

  function Pieces(m: seq<Clause>): (ps: seq<bytes>)
    requires AllShown(m)
    ensures |ps| == |m|
  {
    if m == [] then [] else [PieceOf(m[0])] + Pieces(m[1..])
  }

  lemma {:induction false} TextIsPieces(m: seq<Clause>)
    requires AllShown(m)
    ensures Text(m) == Concat(Pieces(m))
  {
    if m != [] {
      TextIsPieces(m[1..]);
      hide Show, Words;
      Regroup(Ascii(Words(m[0].literal)), Show(m[0].value), Text(m[1..]));
    }
  }

  lemma Regroup(a: bytes, b: bytes, x: bytes)
    ensures a + b + x == a + (b + x)
  {
  }

  lemma PiecesOfThree(a: Clause, b: Clause, c: Clause)
    requires IsShown(b.value) && IsShown(c.value)
    ensures AllShown([a, b, c]) <==> IsShown(a.value)
    ensures IsShown(a.value) ==> Text([a, b, c]) == Concat([PieceOf(a), PieceOf(b), PieceOf(c)])
  {
    hide Text, PieceOf, Concat, IsShown;
    var m := [a, b, c];
    assert m[0] == a;
    if IsShown(a.value) {
      TextIsPieces(m);
      assert m[1..] == [b, c] && [b, c][1..] == [c] && [c][1..] == [];
      assert Pieces([c]) == [PieceOf(c)] + Pieces([]);
      assert Pieces([b, c]) == [PieceOf(b)] + Pieces([c]);
      assert Pieces(m) == [PieceOf(a), PieceOf(b), PieceOf(c)];
    }
  }

  lemma OidcWords()
    ensures Words(Opening(4)) == "Open OIDC session for dWallet " && Words(Opening(5)) == "Authorize OIDC session "
    ensures Words(Until) == " until " && Words(EphemeralKey) == " using ephemeral key "
    ensures Words(ForDWallet) == " for dWallet " && Words(Message) == " message " && Words(Metadata) == " metadata "
    ensures Words(Scheme) == " scheme " && Words(User) == " user "
  {
  }

  lemma OidcSessionOpenText(c: C.Call)
    requires c.OidcSessionOpen?
    ensures AllShown(MessageOf(c))
    ensures Text(MessageOf(c))
         == Concat([Piece("Open OIDC session for dWallet ", Base58(c.dwallet)), Piece(" until ", Decimal(c.notAfter)),
                    Piece(" using ephemeral key ", Hex(c.ephPk))])
  {
    hide Text, Base58, Hex, Decimal, Piece, Concat, Words, AllShown;
    var m := [Clause(Opening(4), Address(c.dwallet)), Clause(Until, Number(c.notAfter)),
              Clause(EphemeralKey, Digest(c.ephPk))];
    assert MessageOf(c) == m;
    hide MessageOf;
    PiecesOfThree(m[0], m[1], m[2]);
    OidcWords();
  }

  lemma OidcPrimaryUseText(c: C.Call)
    requires c.OidcPrimaryUse?
    ensures AllShown(MessageOf(c))
    ensures Text(MessageOf(c))
         == Concat([Piece("Authorize OIDC session ", Base58(c.session)), Piece(" for dWallet ", Base58(c.dwallet)),
                    Piece(" message ", Hex(c.messageDigest))])
            + Concat([Piece(" metadata ", Hex(c.metadataDigest)), Piece(" scheme ", Decimal(c.scheme)),
                      Piece(" user ", Hex(c.userPubkey))])
  {
    hide Text, Base58, Hex, Decimal, Piece, Concat, Words, AllShown;
    var m := [Clause(Opening(5), Address(c.session)), Clause(ForDWallet, Address(c.dwallet)),
              Clause(Message, Digest(c.messageDigest))];
    var n := [Clause(Metadata, Digest(c.metadataDigest)), Clause(Scheme, Number(c.scheme)),
              Clause(User, Digest(c.userPubkey))];
    assert MessageOf(c) == m + n;
    hide MessageOf;
    PiecesOfThree(m[0], m[1], m[2]);
    PiecesOfThree(n[0], n[1], n[2]);
    TextAppend(m, n);
    OidcWords();
  }

  lemma {:induction false} TextAppend(m: seq<Clause>, n: seq<Clause>)
    requires AllShown(m) && AllShown(n)
    ensures AllShown(m + n) && Text(m + n) == Text(m) + Text(n)
  {
    hide Show, Words;
    if m == [] {
      assert m + n == n;
    } else {
      TextAppend(m[1..], n);
      assert (m + n)[1..] == m[1..] + n;
    }
  }

  // ----- Admin operations -----

  /** A member slot by its scheme and identifier, when the scheme is known. */
  function SlotText(slot: Slot): bytes
    requires slot[0] <= 4
  {
    Ascii("scheme:") + Decimal(slot[0]) + Ascii(";id:")
    + Hex(slot[1..1 + if slot[0] == 0 || slot[0] == 4 then 32 else if slot[0] == 1 then 20 else 33])
  }

  function LimitText(some: u8, limit: u64): bytes {
    if some == 0 then Ascii("none") else Decimal(limit)
  }

  predicate NamesUnknownScheme(op: C.AdminOp) {
    match op
    case AddMember(m) => m[0] > 4
    case RemoveMember(m) => m[0] > 4
    case SetPrimary(p) => p[0] > 4
    case _ => false
  }

  /** What an operation does, and the words between that and the policy. */
  function Doing(op: C.AdminOp): (bytes, string)
    requires !NamesUnknownScheme(op)
  {
    match op
    case AddMember(m) => (Piece("Add member ", SlotText(m)), " to policy ")
    case RemoveMember(m) => (Piece("Remove member ", SlotText(m)), " from policy ")
    case AddDestination(d) => (Piece("Allow destination ", Hex(d)), " on policy ")
    case RemoveDestination(d) => (Piece("Block destination ", Hex(d)), " on policy ")
    case Revoke => ([], "Revoke policy ")
    case SetPrimary(p) => (Piece("Set primary to ", SlotText(p)), " on policy ")
    case SetQuorumThresholdImmediate(t) => (Piece("Set quorum threshold to ", Decimal(t)), " immediately on policy ")
    case SetDailyLimitImmediate(some, limit) =>
      (Piece("Set daily limit to ", LimitText(some, limit)), " immediately on policy ")
    case SetCooldownImmediate(s) => (Piece("Set cooldown to ", Decimal(s)), " seconds immediately on policy ")
    case ProposeQuorumThreshold(t) => (Piece("Propose quorum threshold ", Decimal(t)), " on policy ")
    case ProposeDailyLimit(some, limit) => (Piece("Propose daily limit ", LimitText(some, limit)), " on policy ")
    case ProposeCooldown(s) => (Piece("Propose cooldown ", Decimal(s)), " seconds on policy ")
  }

  lemma SlotShows(slot: Slot)
    ensures IsShown(Member(slot)) <==> slot[0] <= 4
    ensures slot[0] <= 4 ==> Show(Member(slot)) == SlotText(slot)
  {
    hide Hex, Decimal, Ascii;
  }

  /** The clauses of an operation that has a parameter. */
  ghost predicate IsParameter(op: C.AdminOp, m: seq<Clause>, policy: Bytes32, dwallet: Bytes32) {
    |m| == 3 && m[1].value == Address(policy) && m[2] == Clause(ForDWallet, Address(dwallet))
    && (IsShown(m[0].value) <==> !NamesUnknownScheme(op))
    && (!NamesUnknownScheme(op) ==> Doing(op) == (PieceOf(m[0]), Words(m[1].literal)))
  }

  lemma MemberParameter(op: C.AdminOp, policy: Bytes32, dwallet: Bytes32)
    requires op.AddMember? || op.RemoveMember? || op.SetPrimary?
    ensures IsParameter(op, AdminMessage(op, policy, dwallet), policy, dwallet)
  {
    hide Piece, SlotText, Hex, Decimal, Ascii, MemberSlots.IdLenForScheme, Show, Words, IsShown;
    match op {
      case AddMember(s) => SlotShows(s);
      case RemoveMember(s) => SlotShows(s);
      case SetPrimary(s) => SlotShows(s);
    }
    AdminWords();
  }

  lemma DestinationParameter(op: C.AdminOp, policy: Bytes32, dwallet: Bytes32)
    requires op.AddDestination? || op.RemoveDestination?
    ensures IsParameter(op, AdminMessage(op, policy, dwallet), policy, dwallet)
  {
    hide Piece, SlotText, Hex, Decimal, Ascii, MemberSlots.IdLenForScheme, Show, Words, IsShown;
    PlainShows(0, 0, op.destination);
    AdminWords();
  }

  lemma SetParameter(op: C.AdminOp, policy: Bytes32, dwallet: Bytes32)
    requires op.SetQuorumThresholdImmediate? || op.SetDailyLimitImmediate? || op.SetCooldownImmediate?
    ensures IsParameter(op, AdminMessage(op, policy, dwallet), policy, dwallet)
  {
    hide Piece, SlotText, Hex, Decimal, Ascii, MemberSlots.IdLenForScheme, Show, Words, IsShown;
    match op {
      case SetQuorumThresholdImmediate(t) => PlainShows(0, t, []);
      case SetDailyLimitImmediate(some, n) => PlainShows(some, n, []);
      case SetCooldownImmediate(n) => PlainShows(0, n, []);
    }
    SettingWords();
  }

  lemma ProposeParameter(op: C.AdminOp, policy: Bytes32, dwallet: Bytes32)
    requires op.ProposeQuorumThreshold? || op.ProposeDailyLimit? || op.ProposeCooldown?
    ensures IsParameter(op, AdminMessage(op, policy, dwallet), policy, dwallet)
  {
    hide Piece, SlotText, Hex, Decimal, Ascii, MemberSlots.IdLenForScheme, Show, Words, IsShown;
    match op {
      case ProposeQuorumThreshold(t) => PlainShows(0, t, []);
      case ProposeDailyLimit(some, n) => PlainShows(some, n, []);
      case ProposeCooldown(n) => PlainShows(0, n, []);
    }
    ProposingWords();
  }

  lemma Parameter(op: C.AdminOp, policy: Bytes32, dwallet: Bytes32)
    requires !op.Revoke?
    ensures IsParameter(op, AdminMessage(op, policy, dwallet), policy, dwallet)
  {
    hide IsParameter, AdminMessage;
    if op.AddMember? || op.RemoveMember? || op.SetPrimary? {
      MemberParameter(op, policy, dwallet);
    } else if op.AddDestination? || op.RemoveDestination? {
      DestinationParameter(op, policy, dwallet);
    } else if op.SetQuorumThresholdImmediate? || op.SetDailyLimitImmediate? || op.SetCooldownImmediate? {
      SetParameter(op, policy, dwallet);
    } else {
      ProposeParameter(op, policy, dwallet);
    }
  }

  lemma PlainShows(some: u8, n: u64, d: bytes)
    ensures IsShown(Limit(some, n)) && IsShown(Number(n))
    ensures Show(Limit(some, n)) == LimitText(some, n) && Show(Number(n)) == Decimal(n)
    ensures |d| == 32 ==> IsShown(Digest(d)) && Show(Digest(d)) == Hex(d)
  {
    hide Hex, Decimal, Ascii;
  }

  lemma AdminWords()
    ensures Words(Opening(8)) == "Add member " && Words(Opening(9)) == "Remove member "
    ensures Words(Opening(10)) == "Allow destination " && Words(Opening(11)) == "Block destination "
    ensures Words(Opening(12)) == "Revoke policy " && Words(Opening(13)) == "Set primary to "
    ensures Words(ToPolicy) == " to policy " && Words(FromPolicy) == " from policy " && Words(OnPolicy) == " on policy "
    ensures Words(ForDWallet) == " for dWallet "
  {
  }

  lemma SettingWords()
    ensures Words(Opening(14)) == "Set quorum threshold to " && Words(Opening(15)) == "Set daily limit to "
    ensures Words(Opening(16)) == "Set cooldown to "
    ensures Words(NowOnPolicy) == " immediately on policy "
    ensures Words(SecondsNowOnPolicy) == " seconds immediately on policy "
  {
  }

  lemma ProposingWords()
    ensures Words(Opening(17)) == "Propose quorum threshold " && Words(Opening(18)) == "Propose daily limit "
    ensures Words(Opening(19)) == "Propose cooldown "
    ensures Words(OnPolicy) == " on policy " && Words(SecondsOnPolicy) == " seconds on policy "
  {
  }

  /** Every admin operation shows its own parameter, the policy and the wallet, in its own words; only a
      member of an unknown scheme has no text. */
  lemma AdminText(c: C.Call)
    requires c.Admin?
    ensures AllShown(MessageOf(c)) <==> !NamesUnknownScheme(c.op)
    ensures !NamesUnknownScheme(c.op) ==>
              Text(MessageOf(c)) == Concat([Doing(c.op).0, Piece(Doing(c.op).1, Base58(c.policy)),
                                            Piece(" for dWallet ", Base58(c.dwallet))])
  {
    hide AdminMessage, NamesUnknownScheme, Doing, Piece, Base58, Text, Concat, AllShown, Words;
    if c.op.Revoke? {
      RevokeText(c);
    } else {
      var m := AdminMessage(c.op, c.policy, c.dwallet);
      assert MessageOf(c) == m;
      hide MessageOf;
      Parameter(c.op, c.policy, c.dwallet);
      PiecesOfThree(m[0], m[1], m[2]);
      assert m == [m[0], m[1], m[2]];
      AdminWords();
    }
  }

  lemma RevokeText(c: C.Call)
    requires c.Admin? && c.op.Revoke?
    ensures AllShown(MessageOf(c)) && !NamesUnknownScheme(c.op)
    ensures Text(MessageOf(c)) == Concat([Doing(c.op).0, Piece(Doing(c.op).1, Base58(c.policy)),
                                          Piece(" for dWallet ", Base58(c.dwallet))])
  {
    hide Text, Base58, Piece, Words;
    var m := [Clause(Opening(12), Address(c.policy)), Clause(ForDWallet, Address(c.dwallet))];
    assert MessageOf(c) == m;
    hide MessageOf;
    TextIsPieces(m);
    assert m[1..] == [m[1]] && m[1..][1..] == [];
    var ps := [PieceOf(m[0]), PieceOf(m[1])];
    assert Pieces(m) == ps;
    var none: bytes := [];
    assert [none, ps[0], ps[1]][1..] == ps;
    assert Concat([none, ps[0], ps[1]]) == none + Concat(ps);
    AdminWords();
  }
}
