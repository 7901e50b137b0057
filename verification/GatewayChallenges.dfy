/** The gateway's own construction of the recovery challenges (gateway/internal/policy/
    challenges_recovery.go), which must hash the very bytes the on-chain program hashes
    (contracts/auth/src/challenge.rs): a difference is a signature the chain silently refuses.

    The two are written apart, one as lists of parts for `hashv`, the other as writes to a growing
    buffer, and so are the texts for the signer inside them. */
module GatewayChallenges {
  import opened Bytes
  import opened ClearSigning
  import opened Numerals
  import C = Challenge
  import MemberSlots

  /** bytes.Buffer, with the parts it is meant to hold in the end and how many of them it holds. */
  class Buffer {
    var data: bytes
    ghost var plan: seq<bytes>
    ghost var written: nat

    ghost predicate Valid()
      reads this
    {
      written <= |plan| && data == Concat(plan[..written])
    }

    constructor ()
      ensures Valid() && data == [] && written == 0
    {
      data, plan, written := [], [], 0;
    }

    /** Says what the buffer is for; what it holds so far must fit. */
    ghost method Intend(parts: seq<bytes>, n: nat)
      requires n <= |parts| && data == Concat(parts[..n])
      modifies this`plan, this`written
      ensures Valid() && plan == parts && written == n
    {
      plan, written := parts, n;
    }

    method Write(p: bytes)
      requires Valid() && written < |plan| && plan[written] == p
      modifies this`data, this`written
      ensures Valid() && written == old(written) + 1 && data == old(data) + p
    {
      ConcatSnoc(plan[..written], p);
      assert plan[..written + 1] == plan[..written] + [p];
      data, written := data + p, written + 1;
    }

    method WriteByte(b: byte)
      requires Valid() && written < |plan| && plan[written] == [b]
      modifies this`data, this`written
      ensures Valid() && written == old(written) + 1 && data == old(data) + [b]
    {
      Write([b]);
    }

    method Bytes() returns (r: bytes)
      requires Valid() && written == |plan|
      ensures r == Concat(plan)
    {
      assert plan[..written] == plan;
      r := data;
    }
  }

  lemma {:induction false} ConcatSnoc(parts: seq<bytes>, p: bytes)
    ensures Concat(parts + [p]) == Concat(parts) + p
  {
    if parts == [] {
      assert [p][1..] == [];
    } else {
      ConcatSnoc(parts[1..], p);
      assert (parts + [p])[1..] == parts[1..] + [p];
    }
  }

  datatype PrimaryRecoverInput = PrimaryRecoverInput(
    dwallet: Bytes32, messageApproval: Bytes32, messageDigest: Bytes32, metadataDigest: Bytes32,
    userPubkey: Bytes32, signatureScheme: u16, messageApprovalBump: u8, nonce: u64, primarySlot: Slot)

  datatype QuorumSessionOpenInput = QuorumSessionOpenInput(
    dwallet: Bytes32, messageDigest: Bytes32, metadataDigest: Bytes32, userPubkey: Bytes32, signatureScheme: u16,
    messageApprovalBump: u8, amount: u64, destination: Bytes32, expiresAt: i64, sessionNonce: u64, primarySlot: Slot)

  datatype QuorumContributeInput = QuorumContributeInput(
    session: Bytes32, memberSlot: Slot, dwallet: Bytes32, amount: u64, destination: Bytes32, messageDigest: Bytes32,
    metadataDigest: Bytes32, userPubkey: Bytes32, signatureScheme: u16, messageApprovalBump: u8, expiresAt: i64)

  datatype PasskeySessionOpenInput = PasskeySessionOpenInput(
    dwallet: Bytes32, primarySlot: Slot, ephPk: Bytes32, notAfter: u64, credentialIdHash: Bytes32, sessionNonce: u64)

  datatype PasskeyPrimaryUseInput = PasskeyPrimaryUseInput(
    session: Bytes32, dwallet: Bytes32, messageApproval: Bytes32, messageDigest: Bytes32, metadataDigest: Bytes32,
    userPubkey: Bytes32, signatureScheme: u16, messageApprovalBump: u8, useNonce: u64, primarySlot: Slot)

  // ----- The calls on chain these inputs stand for -----

  function PrimaryRecoverCall(x: PrimaryRecoverInput, human: C.Human): C.Call {
    C.PrimaryRecover(human, x.dwallet, x.messageApproval, x.messageDigest, x.metadataDigest, x.userPubkey,
                     x.signatureScheme, x.messageApprovalBump, x.nonce, x.primarySlot)
  }

  function QuorumSessionOpenCall(x: QuorumSessionOpenInput, human: C.Human): C.Call {
    C.QuorumSessionOpen(human, x.dwallet, x.messageDigest, x.metadataDigest, x.userPubkey, x.signatureScheme,
                        x.messageApprovalBump, x.amount, x.destination, x.expiresAt, x.sessionNonce, x.primarySlot)
  }

  function QuorumContributeCall(x: QuorumContributeInput, human: C.Human): C.Call {
    C.QuorumContribute(human, x.session, x.memberSlot, x.dwallet, x.amount, x.destination, x.messageDigest,
                       x.metadataDigest, x.userPubkey, x.signatureScheme, x.messageApprovalBump, x.expiresAt)
  }

  function PasskeySessionOpenCall(x: PasskeySessionOpenInput, human: C.Human): C.Call {
    C.PasskeySessionOpen(human, x.dwallet, x.primarySlot, x.ephPk, x.notAfter, x.credentialIdHash, x.sessionNonce)
  }

  function PasskeyPrimaryUseCall(x: PasskeyPrimaryUseInput, human: C.Human): C.Call {
    C.PasskeyPrimaryUse(human, x.session, x.dwallet, x.messageApproval, x.messageDigest, x.metadataDigest,
                        x.userPubkey, x.signatureScheme, x.messageApprovalBump, x.useNonce, x.primarySlot)
  }

  // ----- The texts as the gateway writes them -----

  /** What clause k of a message asks to write. */
  predicate Asks(m: seq<Clause>, k: nat, words: string, shown: bytes)
    requires AllShown(m)
  {
    k < |m| && words == Words(m[k].literal) && shown == Show(m[k].value)
  }

  /** Writes a literal and a value to the text so far. */
  method WriteBoth(text: bytes, words: string, shown: bytes, ghost m: seq<Clause>, ghost k: nat) returns (longer: bytes)
    requires AllShown(m) && Asks(m, k, words, shown) && text == Text(m[..k])
    ensures longer == Text(m[..k + 1])
  {
    hide Show, Words, Text;
    TextSnoc(m[..k], m[k]);
    assert m[..k + 1] == m[..k] + [m[k]];
    longer := text + Ascii(words);
    longer := longer + shown;
    assert longer == text + (Ascii(words) + shown);
  }

  method ToHexLower(b: bytes) returns (text: bytes)
    ensures text == Hex(b)
  {
    var out := new byte[2 * |b|];
    hide HexDigit;
    for i := 0 to |b|
      invariant forall k | 0 <= k < i :: out[2 * k] == HexDigit(b[k] / 16) && out[2 * k + 1] == HexDigit(b[k] % 16)
    {
      out[2 * i] := HexDigit(b[i] / 16);
      out[2 * i + 1] := HexDigit(b[i] % 16);
    }
    HexAt(b, out[..]);
    return out[..];
  }

  lemma {:induction false} HexAt(b: bytes, h: bytes)
    requires |h| == 2 * |b|
    requires forall k | 0 <= k < |b| :: h[2 * k] == HexDigit(b[k] / 16) && h[2 * k + 1] == HexDigit(b[k] % 16)
    ensures h == Hex(b)
  {
    hide HexDigit;
    if b != [] {
      assert forall k | 0 <= k < |b| - 1 :: h[2..][2 * k] == h[2 * (k + 1)] && h[2..][2 * k + 1] == h[2 * (k + 1) + 1];
      HexAt(b[1..], h[2..]);
      assert h == [h[2 * 0], h[2 * 0 + 1]] + h[2..];
    }
  }

  lemma WordsWithin()
    ensures Words(ForDWallet) == " for dWallet " && Words(AsMember) == " as member " && Words(Amount) == " amount "
    ensures Words(Destination) == " destination " && Words(Message) == " message " && Words(Metadata) == " metadata "
    ensures Words(Scheme) == " scheme " && Words(User) == " user " && Words(Expires) == " expires "
  {
  }

  lemma OpeningsAre()
    ensures Words(Opening(2)) == "Open quorum session for dWallet "
    ensures Words(Opening(3)) == "Contribute to quorum session "
  {
  }

  lemma RecoverAsks(x: PrimaryRecoverInput)
    ensures var m := MessageOf(PrimaryRecoverCall(x, []));
            |m| == 5 && AllShown(m) && Text(m[..0]) == [] && m[..5] == m
            && Asks(m, 0, "Recover dWallet ", Base58(x.dwallet))
            && Asks(m, 1, " for message ", Hex(x.messageDigest))
            && Asks(m, 2, " metadata ", Hex(x.metadataDigest))
            && Asks(m, 3, " scheme ", Decimal(x.signatureScheme))
            && Asks(m, 4, " user ", Hex(x.userPubkey))
  {
    hide Base58, Hex, Decimal;
    var m := MessageOf(PrimaryRecoverCall(x, []));
    assert m[..0] == [];
  }

  /** The addresses are rendered by the base58 encoder of the Solana library, the numbers by strconv. */
  method HumanMessagePrimaryRecover(x: PrimaryRecoverInput) returns (human: bytes)
    ensures human == TextOf(PrimaryRecoverCall(x, []))
  {
    hide Base58, Hex, Decimal, Text, MessageOf, Asks, AllShown;
    ghost var m := MessageOf(PrimaryRecoverCall(x, []));
    RecoverAsks(x);
    human := WriteBoth([], "Recover dWallet ", Base58(x.dwallet), m, 0);
    var h := ToHexLower(x.messageDigest);
    human := WriteBoth(human, " for message ", h, m, 1);
    h := ToHexLower(x.metadataDigest);
    human := WriteBoth(human, " metadata ", h, m, 2);
    human := WriteBoth(human, " scheme ", Decimal(x.signatureScheme), m, 3);
    h := ToHexLower(x.userPubkey);
    human := WriteBoth(human, " user ", h, m, 4);
  }

  lemma QuorumOpenAsks(x: QuorumSessionOpenInput)
    ensures var m := MessageOf(QuorumSessionOpenCall(x, []));
            |m| == 7 && AllShown(m) && Text(m[..0]) == [] && m[..7] == m
            && Asks(m, 0, "Open quorum session for dWallet ", Base58(x.dwallet))
            && Asks(m, 1, " amount ", Decimal(x.amount))
            && Asks(m, 2, " destination ", Hex(x.destination))
            && Asks(m, 3, " message ", Hex(x.messageDigest))
            && Asks(m, 4, " metadata ", Hex(x.metadataDigest))
            && Asks(m, 5, " scheme ", Decimal(x.signatureScheme))
            && Asks(m, 6, " expires ", Show(Time(x.expiresAt)))
  {
    WordsWithin();
    OpeningsAre();
    hide Base58, Hex, Decimal, Words, C.AdminNumber, AdminMessage;
    var m := MessageOf(QuorumSessionOpenCall(x, []));
    assert m[..0] == [];
  }

  method HumanMessageQuorumSessionOpen(x: QuorumSessionOpenInput) returns (human: bytes)
    ensures human == TextOf(QuorumSessionOpenCall(x, []))
  {
    hide Base58, Hex, Decimal, Text, MessageOf, Asks, AllShown, Show;
    ghost var m := MessageOf(QuorumSessionOpenCall(x, []));
    QuorumOpenAsks(x);
    human := WriteBoth([], "Open quorum session for dWallet ", Base58(x.dwallet), m, 0);
    human := WriteBoth(human, " amount ", Decimal(x.amount), m, 1);
    var h := ToHexLower(x.destination);
    human := WriteBoth(human, " destination ", h, m, 2);
    h := ToHexLower(x.messageDigest);
    human := WriteBoth(human, " message ", h, m, 3);
    h := ToHexLower(x.metadataDigest);
    human := WriteBoth(human, " metadata ", h, m, 4);
    human := WriteBoth(human, " scheme ", Decimal(x.signatureScheme), m, 5);
    human := WriteBoth(human, " expires ", Show(Time(x.expiresAt)), m, 6);
  }

  lemma ContributeAsks(x: QuorumContributeInput)
    requires IsShown(Member(x.memberSlot))
    ensures var m := MessageOf(QuorumContributeCall(x, []));
            |m| == 10 && AllShown(m) && Text(m[..0]) == [] && m[..10] == m
            && Asks(m, 0, "Contribute to quorum session ", Base58(x.session))
            && Asks(m, 1, " as member ", Show(Member(x.memberSlot)))
            && Asks(m, 2, " for dWallet ", Base58(x.dwallet))
            && Asks(m, 3, " amount ", Decimal(x.amount))
            && Asks(m, 4, " destination ", Hex(x.destination))
            && Asks(m, 5, " message ", Hex(x.messageDigest))
            && Asks(m, 6, " metadata ", Hex(x.metadataDigest))
            && Asks(m, 7, " scheme ", Decimal(x.signatureScheme))
            && Asks(m, 8, " user ", Hex(x.userPubkey))
            && Asks(m, 9, " expires ", Show(Time(x.expiresAt)))
  {
    WordsWithin();
    OpeningsAre();
    hide Base58, Hex, Decimal, Words, C.AdminNumber, AdminMessage;
    var m := MessageOf(QuorumContributeCall(x, []));
    assert m[..0] == [];
  }

  method RenderMemberSlot(slot: Slot) returns (r: Option<bytes>)
    ensures r == if IsShown(Member(slot)) then Some(Show(Member(slot))) else None
  {
    hide Hex, Decimal;
    var idLen := MemberSlots.IdLenForScheme(slot[0]);
    if idLen.Err? {
      return None;
    }
    var text := Ascii("scheme:");
    text := text + Decimal(slot[0]);
    text := text + Ascii(";id:");
    var h := ToHexLower(slot[1..1 + idLen.value]);
    text := text + h;
    return Some(text);
  }

  /** The text names the member, so an unknown scheme tag in the slot is an error here. */
  method HumanMessageQuorumContribute(x: QuorumContributeInput) returns (r: Option<bytes>)
    ensures r.None? <==> !IsShown(Member(x.memberSlot))
    ensures var c := QuorumContributeCall(x, []); r.Some? ==> AllShown(MessageOf(c)) && r.value == TextOf(c)
  {
    hide Base58, Hex, Decimal, Text, MessageOf, Asks, AllShown, Show;
    var slotText := RenderMemberSlot(x.memberSlot);
    if slotText.None? {
      return None;
    }
    ghost var m := MessageOf(QuorumContributeCall(x, []));
    ContributeAsks(x);
    var human := WriteBoth([], "Contribute to quorum session ", Base58(x.session), m, 0);
    human := WriteBoth(human, " as member ", slotText.value, m, 1);
    human := WriteBoth(human, " for dWallet ", Base58(x.dwallet), m, 2);
    human := WriteBoth(human, " amount ", Decimal(x.amount), m, 3);
    var h := ToHexLower(x.destination);
    human := WriteBoth(human, " destination ", h, m, 4);
    h := ToHexLower(x.messageDigest);
    human := WriteBoth(human, " message ", h, m, 5);
    h := ToHexLower(x.metadataDigest);
    human := WriteBoth(human, " metadata ", h, m, 6);
    human := WriteBoth(human, " scheme ", Decimal(x.signatureScheme), m, 7);
    h := ToHexLower(x.userPubkey);
    human := WriteBoth(human, " user ", h, m, 8);
    human := WriteBoth(human, " expires ", Show(Time(x.expiresAt)), m, 9);
    return Some(human);
  }

  lemma PasskeyOpenAsks(x: PasskeySessionOpenInput)
    ensures var m := MessageOf(PasskeySessionOpenCall(x, []));
            |m| == 3 && AllShown(m) && Text(m[..0]) == [] && m[..3] == m
            && Asks(m, 0, "Open passkey session for dWallet ", Base58(x.dwallet))
            && Asks(m, 1, " until ", Decimal(x.notAfter))
            && Asks(m, 2, " using ephemeral key ", Hex(x.ephPk))
  {
    hide Base58, Hex, Decimal;
    var m := MessageOf(PasskeySessionOpenCall(x, []));
    assert m[..0] == [];
  }

  method HumanMessagePasskeySessionOpen(x: PasskeySessionOpenInput) returns (human: bytes)
    ensures human == TextOf(PasskeySessionOpenCall(x, []))
  {
    hide Base58, Hex, Decimal, Text, MessageOf, Asks, AllShown;
    ghost var m := MessageOf(PasskeySessionOpenCall(x, []));
    PasskeyOpenAsks(x);
    human := WriteBoth([], "Open passkey session for dWallet ", Base58(x.dwallet), m, 0);
    human := WriteBoth(human, " until ", Decimal(x.notAfter), m, 1);
    var h := ToHexLower(x.ephPk);
    human := WriteBoth(human, " using ephemeral key ", h, m, 2);
  }

  lemma PasskeyUseAsks(x: PasskeyPrimaryUseInput)
    ensures var m := MessageOf(PasskeyPrimaryUseCall(x, []));
            |m| == 6 && AllShown(m) && Text(m[..0]) == [] && m[..6] == m
            && Asks(m, 0, "Authorize passkey session ", Base58(x.session))
            && Asks(m, 1, " for dWallet ", Base58(x.dwallet))
            && Asks(m, 2, " message ", Hex(x.messageDigest))
            && Asks(m, 3, " metadata ", Hex(x.metadataDigest))
            && Asks(m, 4, " scheme ", Decimal(x.signatureScheme))
            && Asks(m, 5, " user ", Hex(x.userPubkey))
  {
    hide Base58, Hex, Decimal;
    var m := MessageOf(PasskeyPrimaryUseCall(x, []));
    assert m[..0] == [];
  }

  method HumanMessagePasskeyPrimaryUse(x: PasskeyPrimaryUseInput) returns (human: bytes)
    ensures human == TextOf(PasskeyPrimaryUseCall(x, []))
  {
    hide Base58, Hex, Decimal, Text, MessageOf, Asks, AllShown;
    ghost var m := MessageOf(PasskeyPrimaryUseCall(x, []));
    PasskeyUseAsks(x);
    human := WriteBoth([], "Authorize passkey session ", Base58(x.session), m, 0);
    human := WriteBoth(human, " for dWallet ", Base58(x.dwallet), m, 1);
    var h := ToHexLower(x.messageDigest);
    human := WriteBoth(human, " message ", h, m, 2);
    h := ToHexLower(x.metadataDigest);
    human := WriteBoth(human, " metadata ", h, m, 3);
    human := WriteBoth(human, " scheme ", Decimal(x.signatureScheme), m, 4);
    h := ToHexLower(x.userPubkey);
    human := WriteBoth(human, " user ", h, m, 5);
  }

  // ----- The preimages as the gateway writes them -----

  // After each text the source checks its length; the assertions in that place say it cannot fail.

  /** Domain, tag and the text behind its length, as every Preimage starts. */
  function Head(tag: string, human: bytes): seq<bytes> {
    [Ascii(C.DOMAIN), Ascii(tag), C.LenLe(human), human]
  }

  method Begin(tag: string, human: bytes) returns (buf: Buffer)
    requires |human| <= C.MAX_HUMAN_MESSAGE_BYTES
    ensures fresh(buf) && buf.data == Concat(Head(tag, human))
  {
    hide Concat, Le, Ascii;
    buf := new Buffer();
    var none: seq<bytes> := [];
    assert Concat(Head(tag, human)[..0]) == [] by {
      assert Head(tag, human)[..0] == none;
    }
    buf.Intend(Head(tag, human), 0);
    buf.Write(Ascii(C.DOMAIN));
    buf.Write(Ascii(tag));
    buf.Write(Le16(|human|));
    buf.Write(human);
    assert Head(tag, human)[..4] == Head(tag, human);
  }

  lemma PartsStartWithHead(c: C.Call)
    requires !c.Init?
    ensures |C.Parts(c)| > 4 && C.Parts(c)[..4] == Head(C.Tag(c), c.human)
  {
    hide Concat, Le, Ascii, C.LenLe, C.Tag;
  }

  method PrimaryRecoverPreimage(x: PrimaryRecoverInput) returns (r: Option<bytes>)
    ensures r == Some(C.Preimage(WithText(PrimaryRecoverCall(x, []))))
  {
    hide Concat, Le, Ascii, C.LenLe, Head, MessageOf, Show, Text, AllShown, TextOf;
    var human := HumanMessagePrimaryRecover(x);
    assert |human| <= C.MAX_HUMAN_MESSAGE_BYTES;
    ghost var c := PrimaryRecoverCall(x, human);
    var buf := Begin("primary-recover", human);
    PartsStartWithHead(c);
    buf.Intend(C.Parts(c), 4);
    buf.Write(x.dwallet);
    buf.Write(x.messageApproval);
    buf.Write(x.messageDigest);
    buf.Write(x.metadataDigest);
    buf.Write(x.userPubkey);
    buf.Write(Le16(x.signatureScheme));
    buf.WriteByte(x.messageApprovalBump);
    buf.Write(Le64(x.nonce));
    buf.Write(x.primarySlot);
    var all := buf.Bytes();
    return Some(all);
  }

  method QuorumSessionOpenPreimage(x: QuorumSessionOpenInput) returns (r: Option<bytes>)
    ensures r == Some(C.Preimage(WithText(QuorumSessionOpenCall(x, []))))
  {
    hide Concat, Le, Ascii, C.LenLe, Head, MessageOf, Show, Text, AllShown, TextOf;
    var human := HumanMessageQuorumSessionOpen(x);
    assert |human| <= C.MAX_HUMAN_MESSAGE_BYTES;
    ghost var c := QuorumSessionOpenCall(x, human);
    var buf := Begin("quorum-session-open", human);
    PartsStartWithHead(c);
    buf.Intend(C.Parts(c), 4);
    buf.Write(x.dwallet);
    buf.Write(x.messageDigest);
    buf.Write(x.metadataDigest);
    buf.Write(x.userPubkey);
    buf.Write(Le16(x.signatureScheme));
    buf.WriteByte(x.messageApprovalBump);
    buf.Write(Le64(x.amount));
    buf.Write(x.destination);
    buf.Write(Le64(Unsigned(x.expiresAt)));
    buf.Write(Le64(x.sessionNonce));
    buf.Write(x.primarySlot);
    var all := buf.Bytes();
    return Some(all);
  }

  lemma ContributeParts(x: QuorumContributeInput, human: C.Human)
    ensures var p := C.Parts(QuorumContributeCall(x, human));
            |p| == 15 && p[4] == x.session && p[5] == x.memberSlot && p[6] == x.dwallet && p[7] == Le64(x.amount)
            && p[8] == x.destination && p[9] == x.messageDigest && p[10] == x.metadataDigest && p[11] == x.userPubkey
            && p[12] == Le16(x.signatureScheme) && p[13] == [x.messageApprovalBump]
            && p[14] == Le64(Unsigned(x.expiresAt))
  {
    hide Le, Ascii, C.LenLe;
  }

  method QuorumContributePreimage(x: QuorumContributeInput) returns (r: Option<bytes>)
    ensures r.None? <==> !IsShown(Member(x.memberSlot))
    ensures var c := QuorumContributeCall(x, []);
            r.Some? ==> AllShown(MessageOf(c)) && r.value == C.Preimage(WithText(c))
  {
    hide Concat, Le, Ascii, C.LenLe, C.Parts, C.Fields, Head, MessageOf, Show, Text, AllShown, TextOf;
    var text := HumanMessageQuorumContribute(x);
    if text.None? {
      return None;
    }
    var human := text.value;
    assert |human| <= C.MAX_HUMAN_MESSAGE_BYTES;
    ghost var c := QuorumContributeCall(x, human);
    var buf := Begin("quorum-contribute", human);
    PartsStartWithHead(c);
    ContributeParts(x, human);
    buf.Intend(C.Parts(c), 4);
    buf.Write(x.session);
    buf.Write(x.memberSlot);
    buf.Write(x.dwallet);
    buf.Write(Le64(x.amount));
    buf.Write(x.destination);
    buf.Write(x.messageDigest);
    buf.Write(x.metadataDigest);
    buf.Write(x.userPubkey);
    buf.Write(Le16(x.signatureScheme));
    buf.WriteByte(x.messageApprovalBump);
    buf.Write(Le64(Unsigned(x.expiresAt)));
    var all := buf.Bytes();
    return Some(all);
  }

  method PasskeySessionOpenPreimage(x: PasskeySessionOpenInput) returns (r: Option<bytes>)
    ensures r == Some(C.Preimage(WithText(PasskeySessionOpenCall(x, []))))
  {
    hide Concat, Le, Ascii, C.LenLe, Head, MessageOf, Show, Text, AllShown, TextOf;
    var human := HumanMessagePasskeySessionOpen(x);
    assert |human| <= C.MAX_HUMAN_MESSAGE_BYTES;
    ghost var c := PasskeySessionOpenCall(x, human);
    var buf := Begin("passkey-session-open", human);
    PartsStartWithHead(c);
    buf.Intend(C.Parts(c), 4);
    buf.Write(x.dwallet);
    buf.Write(x.primarySlot);
    buf.Write(x.ephPk);
    buf.Write(Le64(x.notAfter));
    buf.Write(x.credentialIdHash);
    buf.Write(Le64(x.sessionNonce));
    var all := buf.Bytes();
    return Some(all);
  }

  method PasskeyPrimaryUsePreimage(x: PasskeyPrimaryUseInput) returns (r: Option<bytes>)
    ensures r == Some(C.Preimage(WithText(PasskeyPrimaryUseCall(x, []))))
  {
    hide Concat, Le, Ascii, C.LenLe, Head, MessageOf, Show, Text, AllShown, TextOf;
    var human := HumanMessagePasskeyPrimaryUse(x);
    assert |human| <= C.MAX_HUMAN_MESSAGE_BYTES;
    ghost var c := PasskeyPrimaryUseCall(x, human);
    var buf := Begin("passkey-primary-use", human);
    PartsStartWithHead(c);
    buf.Intend(C.Parts(c), 4);
    buf.Write(x.session);
    buf.Write(x.dwallet);
    buf.Write(x.messageApproval);
    buf.Write(x.messageDigest);
    buf.Write(x.metadataDigest);
    buf.Write(x.userPubkey);
    buf.Write(Le16(x.signatureScheme));
    buf.WriteByte(x.messageApprovalBump);
    buf.Write(Le64(x.useNonce));
    buf.Write(x.primarySlot);
    var all := buf.Bytes();
    return Some(all);
  }

  /** The conversion uint64(x) of an int64. */
  function Unsigned(x: i64): u64 {
    if x < 0 then x + 0x1_0000_0000_0000_0000 else x
  }

  // ----- The other mirror -----

  /** The admin challenges of gateway/internal/auth/challenges_recovery.go: domain v1, no human text,
      no policy address, extras without lengths. */
  function OldAdminParts(op: C.AdminOp, dwallet: Bytes32, nonce: u64, primary: Slot): seq<bytes> {
    [Ascii(C.DOMAIN_INIT_V1), Ascii(C.AdminTag(op)), dwallet, Le64(nonce), primary] + C.AdminExtras(op)
  }

  /** That file says it mirrors the on-chain challenges byte for byte. No admin preimage it builds is
      one that any on-chain challenge function hashes. */
  lemma OldAdminMirrorNeverMatches(op: C.AdminOp, dwallet: Bytes32, nonce: u64, primary: Slot, c: C.Call)
    ensures Concat(OldAdminParts(op, dwallet, nonce, primary)) != C.Preimage(c)
  {
    hide C.Fields, Le, C.LenLe;
    var rest := [dwallet, Le64(nonce), primary] + C.AdminExtras(op);
    C.ConcatTwo(Ascii(C.DOMAIN_INIT_V1), Ascii(C.AdminTag(op)), rest);
    assert OldAdminParts(op, dwallet, nonce, primary) == [Ascii(C.DOMAIN_INIT_V1), Ascii(C.AdminTag(op))] + rest;
    C.PreimageLayout(c);
    C.DomainsDiffer();
    OldTagDiffers(op, c);
    var x, y := Ascii(C.AdminTag(op)) + Concat(rest), Ascii(C.Tag(c)) + C.Rest(c);
    if Ascii(C.DOMAIN_INIT_V1) + x == Ascii(C.Domain(c)) + y {
      PrefixSplit(Ascii(C.DOMAIN_INIT_V1), x, Ascii(C.Domain(c)), y);
      FirstByte(Ascii(C.AdminTag(op)), Concat(rest));
      FirstByte(Ascii(C.Tag(c)), C.Rest(c));
    }
  }

  lemma FirstByte(a: bytes, x: bytes)
    requires a != []
    ensures (a + x)[0] == a[0]
  {
  }

  lemma OldTagDiffers(op: C.AdminOp, c: C.Call)
    ensures |Ascii(C.AdminTag(op))| > 0 && |Ascii(C.Tag(c))| > 0
    ensures c.Init? ==> Ascii(C.AdminTag(op))[0] != Ascii(C.Tag(c))[0]
  {
    C.AdminTagReadsBack(op, []);
    assert Ascii(C.AdminTag(op)) + [] == Ascii(C.AdminTag(op));
    TagsAreNotEmpty(c);
    hide C.AdminTag, C.ReadAdminTag, C.AdminNumber;
  }

  lemma TagsAreNotEmpty(c: C.Call)
    ensures |C.Tag(c)| > 0
  {
  }
}
