/** The challenges every credential signs (contracts/auth/src/challenge.rs), as the byte strings
    that are hashed. SHA-256 is a parameter, and so is the rendered human-readable text, which the
    renderers cap at MAX_HUMAN_MESSAGE_BYTES. */
module Challenge {
  import opened Bytes

  const MAX_HUMAN_MESSAGE_BYTES: nat := 768

  type Human = h: bytes | |h| <= MAX_HUMAN_MESSAGE_BYTES

  const DOMAIN: string := "andromeda::rules-policy::v2"
  const DOMAIN_INIT_V1: string := "andromeda::rules-policy::v1"
  const OP_INIT: string := "init"

  const ADMIN_HASH_MAX_EXTRAS: nat := 6

  /** The parameters of the admin operations beyond the ones they share. */
  datatype AdminOp =
    | AddMember(member: Slot)
    | RemoveMember(member: Slot)
    | AddDestination(destination: Bytes32)
    | RemoveDestination(destination: Bytes32)
    | Revoke
    | SetPrimary(newPrimary: Slot)
    | SetQuorumThresholdImmediate(threshold: u8)
    | SetDailyLimitImmediate(some: u8, limit: u64)
    | SetCooldownImmediate(seconds: u64)
    | ProposeQuorumThreshold(threshold: u8)
    | ProposeDailyLimit(some: u8, limit: u64)
    | ProposeCooldown(seconds: u64)

  /** One call of a challenge function. */
  datatype Call =
    | Init(dwallet: Bytes32, initAuthority: Slot, primary: Slot, quorumThreshold: u8, dailyLimitSome: u8,
           dailyLimit: u64, cooldownSeconds: u64, allowedDestinationsSome: u8)
    | PrimaryRecover(human: Human, dwallet: Bytes32, messageApproval: Bytes32, messageDigest: Bytes32,
                     metadataDigest: Bytes32, userPubkey: Bytes32, scheme: u16, bump: u8, nonce: u64,
                     primary: Slot)
    | QuorumSessionOpen(human: Human, dwallet: Bytes32, messageDigest: Bytes32, metadataDigest: Bytes32,
                        userPubkey: Bytes32, scheme: u16, bump: u8, amount: u64, destination: Bytes32,
                        expiresAt: i64, nonce: u64, primary: Slot)
    | QuorumContribute(human: Human, session: Bytes32, member: Slot, dwallet: Bytes32, amount: u64,
                       destination: Bytes32, messageDigest: Bytes32, metadataDigest: Bytes32,
                       userPubkey: Bytes32, scheme: u16, bump: u8, expiresAt: i64)
    | OidcSessionOpen(human: Human, dwallet: Bytes32, primary: Slot, ephPk: Bytes32, notAfter: u64,
                      jwtDigest: Bytes32, jwkRegistry: Bytes32, verifierVersion: u32, nonce: u64)
    | OidcPrimaryUse(human: Human, session: Bytes32, dwallet: Bytes32, messageApproval: Bytes32,
                     messageDigest: Bytes32, metadataDigest: Bytes32, userPubkey: Bytes32, scheme: u16,
                     bump: u8, nonce: u64, primary: Slot)
    | PasskeySessionOpen(human: Human, dwallet: Bytes32, primary: Slot, ephPk: Bytes32, notAfter: u64,
                         credentialIdHash: Bytes32, nonce: u64)
    | PasskeyPrimaryUse(human: Human, session: Bytes32, dwallet: Bytes32, messageApproval: Bytes32,
                        messageDigest: Bytes32, metadataDigest: Bytes32, userPubkey: Bytes32, scheme: u16,
                        bump: u8, nonce: u64, primary: Slot)
    | Admin(op: AdminOp, human: Human, dwallet: Bytes32, policy: Bytes32, nonce: u64, primary: Slot)

  function AdminTag(op: AdminOp): string {
    match op
    case AddMember(_) => "admin-add-member"
    case RemoveMember(_) => "admin-remove-member"
    case AddDestination(_) => "admin-add-destination"
    case RemoveDestination(_) => "admin-remove-destination"
    case Revoke => "admin-revoke"
    case SetPrimary(_) => "admin-set-primary"
    case SetQuorumThresholdImmediate(_) => "admin-set-qt-immediate"
    case SetDailyLimitImmediate(_, _) => "admin-set-dl-immediate"
    case SetCooldownImmediate(_) => "admin-set-cd-immediate"
    case ProposeQuorumThreshold(_) => "admin-propose-qt"
    case ProposeDailyLimit(_, _) => "admin-propose-dl"
    case ProposeCooldown(_) => "admin-propose-cd"
  }

  function Tag(c: Call): string {
    match c
    case Init(_, _, _, _, _, _, _, _) => OP_INIT
    case PrimaryRecover(_, _, _, _, _, _, _, _, _, _) => "primary-recover"
    case QuorumSessionOpen(_, _, _, _, _, _, _, _, _, _, _, _) => "quorum-session-open"
    case QuorumContribute(_, _, _, _, _, _, _, _, _, _, _, _) => "quorum-contribute"
    case OidcSessionOpen(_, _, _, _, _, _, _, _, _) => "oidc-session-open"
    case OidcPrimaryUse(_, _, _, _, _, _, _, _, _, _, _) => "oidc-primary-use"
    case PasskeySessionOpen(_, _, _, _, _, _, _) => "passkey-session-open"
    case PasskeyPrimaryUse(_, _, _, _, _, _, _, _, _, _, _) => "passkey-primary-use"
    case Admin(op, _, _, _, _, _) => AdminTag(op)
  }

  // ----- The parts each function passes to hashv -----

  function AdminExtras(op: AdminOp): seq<bytes> {
    match op
    case AddMember(m) => [m]
    case RemoveMember(m) => [m]
    case AddDestination(d) => [d]
    case RemoveDestination(d) => [d]
    case Revoke => []
    case SetPrimary(p) => [p]
    case SetQuorumThresholdImmediate(t) => [[t]]
    case SetDailyLimitImmediate(s, l) => [[s], Le64(l)]
    case SetCooldownImmediate(s) => [Le64(s)]
    case ProposeQuorumThreshold(t) => [[t]]
    case ProposeDailyLimit(s, l) => [[s], Le64(l)]
    case ProposeCooldown(s) => [Le64(s)]
  }

  /** The length of a byte string, cast to u16. */
  function LenLe(b: bytes): (l: bytes)
    ensures |l| == 2
  {
    Le16(|b| % 0x1_0000)
  }

  /** Each extra behind its length. */
  function Prefixed(extras: seq<bytes>): seq<bytes> {
    if extras == [] then [] else [LenLe(extras[0]), extras[0]] + Prefixed(extras[1..])
  }

  /** The typed parameters, in order, after the human text. */
  function Fields(c: Call): seq<bytes> {
    match c
    case Init(dwallet, initAuthority, primary, qt, dls, dl, cd, ads) =>
      [dwallet, initAuthority, primary, [qt], [dls], Le64(dl), Le64(cd), [ads]]
    case PrimaryRecover(_, dwallet, approval, message, metadata, user, scheme, bump, nonce, primary) =>
      [dwallet, approval, message, metadata, user, Le16(scheme), [bump], Le64(nonce), primary]
    case QuorumSessionOpen(_, dwallet, message, metadata, user, scheme, bump, amount, destination, expires, nonce, primary) =>
      [dwallet, message, metadata, user, Le16(scheme), [bump], Le64(amount), destination, LeI64(expires),
       Le64(nonce), primary]
    case QuorumContribute(_, session, member, dwallet, amount, destination, message, metadata, user, scheme, bump, expires) =>
      [session, member, dwallet, Le64(amount), destination, message, metadata, user, Le16(scheme), [bump],
       LeI64(expires)]
    case OidcSessionOpen(_, dwallet, primary, ephPk, notAfter, jwt, registry, version, nonce) =>
      [dwallet, primary, ephPk, Le64(notAfter), jwt, registry, Le32(version), Le64(nonce)]
    case OidcPrimaryUse(_, session, dwallet, approval, message, metadata, user, scheme, bump, nonce, primary) =>
      [session, dwallet, approval, message, metadata, user, Le16(scheme), [bump], Le64(nonce), primary]
    case PasskeySessionOpen(_, dwallet, primary, ephPk, notAfter, credential, nonce) =>
      [dwallet, primary, ephPk, Le64(notAfter), credential, Le64(nonce)]
    case PasskeyPrimaryUse(_, session, dwallet, approval, message, metadata, user, scheme, bump, nonce, primary) =>
      [session, dwallet, approval, message, metadata, user, Le16(scheme), [bump], Le64(nonce), primary]
    case Admin(op, _, dwallet, policy, nonce, primary) =>
      [dwallet, policy, Le64(nonce), primary] + Prefixed(AdminExtras(op))
  }

  function Parts(c: Call): seq<bytes> {
    if c.Init? then [Ascii(DOMAIN_INIT_V1), Ascii(Tag(c))] + Fields(c)
    else [Ascii(DOMAIN), Ascii(Tag(c)), LenLe(c.human), c.human] + Fields(c)
  }

  function Preimage(c: Call): bytes {
    Concat(Parts(c))
  }

  // ----- The operation is determined by the first bytes -----

  /** A number for each operation. */
  function Number(c: Call): nat {
    match c
    case Init(_, _, _, _, _, _, _, _) => 0
    case PrimaryRecover(_, _, _, _, _, _, _, _, _, _) => 1
    case QuorumSessionOpen(_, _, _, _, _, _, _, _, _, _, _, _) => 2
    case QuorumContribute(_, _, _, _, _, _, _, _, _, _, _, _) => 3
    case OidcSessionOpen(_, _, _, _, _, _, _, _, _) => 4
    case OidcPrimaryUse(_, _, _, _, _, _, _, _, _, _, _) => 5
    case PasskeySessionOpen(_, _, _, _, _, _, _) => 6
    case PasskeyPrimaryUse(_, _, _, _, _, _, _, _, _, _, _) => 7
    case Admin(op, _, _, _, _, _) => 8 + AdminNumber(op)
  }

  function AdminNumber(op: AdminOp): nat {
    match op
    case AddMember(_) => 0
    case RemoveMember(_) => 1
    case AddDestination(_) => 2
    case RemoveDestination(_) => 3
    case Revoke => 4
    case SetPrimary(_) => 5
    case SetQuorumThresholdImmediate(_) => 6
    case SetDailyLimitImmediate(_, _) => 7
    case SetCooldownImmediate(_) => 8
    case ProposeQuorumThreshold(_) => 9
    case ProposeDailyLimit(_, _) => 10
    case ProposeCooldown(_) => 11
  }

  /** The tags are told apart by the character at a position that every tag still in question has:
      the v2 tags form a prefix-free code. */
  function ReadTag(b: bytes): nat {
    if |b| < 12 then 0
    else if b[0] == 'p' as int then
      if b[1] == 'r' as int then 1 else if b[8] == 's' as int then 6 else 7
    else if b[0] == 'q' as int then
      if b[7] == 's' as int then 2 else 3
    else if b[0] == 'o' as int then
      if b[5] == 's' as int then 4 else 5
    else 8 + ReadAdminTag(b)
  }

  function ReadAdminTag(b: bytes): nat
    requires |b| >= 12
  {
    if b[6] == 'a' as int then
      if b[10] == 'm' as int then 0 else 2
    else if b[6] == 'r' as int then
      if b[8] == 'v' as int then 4
      else if |b| > 13 && b[13] == 'm' as int then 1 else 3
    else if b[6] == 's' as int then
      if b[10] == 'p' as int then 5 else if b[10] == 'q' as int then 6 else if b[10] == 'd' as int then 7 else 8
    else if |b| < 15 then 0
    else if b[14] == 'q' as int then 9 else if b[14] == 'd' as int then 10 else 11
  }

  lemma TagReadsBack(c: Call, rest: bytes)
    requires !c.Init?
    ensures ReadTag(Ascii(Tag(c)) + rest) == Number(c)
  {
    var b := Ascii(Tag(c)) + rest;
    assert forall i | 0 <= i < |Tag(c)| :: b[i] == Ascii(Tag(c))[i];
    if c.Admin? {
      AdminTagReadsBack(c.op, rest);
    }
  }

  lemma AdminTagReadsBack(op: AdminOp, rest: bytes)
    ensures var b := Ascii(AdminTag(op)) + rest;
            |b| >= 12 && b[0] == 'a' as int && ReadAdminTag(b) == AdminNumber(op)
  {
    var b := Ascii(AdminTag(op)) + rest;
    assert forall i | 0 <= i < |AdminTag(op)| :: b[i] == Ascii(AdminTag(op))[i];
  }

  // ----- Unique decodability -----

  ghost predicate SameWidths(p: seq<bytes>, q: seq<bytes>) {
    |p| == |q| && forall i | 0 <= i < |p| :: |p[i]| == |q[i]|
  }

  lemma {:induction false} PrefixedWidths(a: seq<bytes>, b: seq<bytes>)
    requires SameWidths(a, b)
    ensures SameWidths(Prefixed(a), Prefixed(b))
  {
    if a != [] {
      PrefixedWidths(a[1..], b[1..]);
    }
  }

  lemma {:induction false} PrefixedDetermines(a: seq<bytes>, b: seq<bytes>)
    requires Prefixed(a) == Prefixed(b)
    ensures a == b
  {
    if a != [] && b != [] {
      assert a[0] == Prefixed(a)[1] == b[0];
      assert Prefixed(a[1..]) == Prefixed(a)[2..] == Prefixed(b[1..]);
      PrefixedDetermines(a[1..], b[1..]);
      assert a == [a[0]] + a[1..] && b == [b[0]] + b[1..];
    }
  }

  lemma SameWidthsAppend(p: seq<bytes>, q: seq<bytes>, x: seq<bytes>, y: seq<bytes>)
    requires SameWidths(p, q) && SameWidths(x, y)
    ensures SameWidths(p + x, q + y)
  {
  }

  /** One operation has one tag and lays out its fields in fixed widths. */
  lemma FieldWidths(c: Call, d: Call)
    requires Number(c) == Number(d)
    ensures Tag(c) == Tag(d) && SameWidths(Fields(c), Fields(d))
  {
    OneTag(c, d);
    hide Tag;
    hide Le;
    if c.Admin? {
      AdminWidths(c.op, d.op);
      PrefixedWidths(AdminExtras(c.op), AdminExtras(d.op));
      var p, q := [c.dwallet, c.policy, Le64(c.nonce), c.primary], [d.dwallet, d.policy, Le64(d.nonce), d.primary];
      SameWidthsAppend(p, q, Prefixed(AdminExtras(c.op)), Prefixed(AdminExtras(d.op)));
    }
  }

  lemma OneTag(c: Call, d: Call)
    requires Number(c) == Number(d)
    ensures Tag(c) == Tag(d)
  {
    if c.Admin? {
      AdminWidths(c.op, d.op);
    }
  }

  lemma AdminWidths(o: AdminOp, p: AdminOp)
    requires AdminNumber(o) == AdminNumber(p)
    ensures AdminTag(o) == AdminTag(p) && SameWidths(AdminExtras(o), AdminExtras(p))
  {
  }

  /** The values of one operation are read back from its fields. */
  lemma FieldsDetermine(c: Call, d: Call)
    requires Number(c) == Number(d) && Fields(c) == Fields(d)
    requires !c.Init? ==> c.human == d.human
    ensures c == d
  {
    var p, q := Fields(c), Fields(d);
    assert forall i | 0 <= i < |p| :: p[i] == q[i];
    match c {
      case Init(_, _, _, _, _, _, _, _) =>
        Le64Injective(c.dailyLimit, d.dailyLimit);
        Le64Injective(c.cooldownSeconds, d.cooldownSeconds);
      case PrimaryRecover(_, _, _, _, _, _, _, _, _, _) =>
        Le16Injective(c.scheme, d.scheme);
        Le64Injective(c.nonce, d.nonce);
      case QuorumSessionOpen(_, _, _, _, _, _, _, _, _, _, _, _) =>
        Le16Injective(c.scheme, d.scheme);
        Le64Injective(c.amount, d.amount);
        LeI64Injective(c.expiresAt, d.expiresAt);
        Le64Injective(c.nonce, d.nonce);
      case QuorumContribute(_, _, _, _, _, _, _, _, _, _, _, _) =>
        Le64Injective(c.amount, d.amount);
        Le16Injective(c.scheme, d.scheme);
        LeI64Injective(c.expiresAt, d.expiresAt);
      case OidcSessionOpen(_, _, _, _, _, _, _, _, _) =>
        Le64Injective(c.notAfter, d.notAfter);
        Le32Injective(c.verifierVersion, d.verifierVersion);
        Le64Injective(c.nonce, d.nonce);
      case OidcPrimaryUse(_, _, _, _, _, _, _, _, _, _, _) =>
        Le16Injective(c.scheme, d.scheme);
        Le64Injective(c.nonce, d.nonce);
      case PasskeySessionOpen(_, _, _, _, _, _, _) =>
        Le64Injective(c.notAfter, d.notAfter);
        Le64Injective(c.nonce, d.nonce);
      case PasskeyPrimaryUse(_, _, _, _, _, _, _, _, _, _, _) =>
        Le16Injective(c.scheme, d.scheme);
        Le64Injective(c.nonce, d.nonce);
      case Admin(_, _, _, _, _, _) =>
        assert Prefixed(AdminExtras(c.op)) == p[4..] && Prefixed(AdminExtras(d.op)) == q[4..];
        PrefixedDetermines(AdminExtras(c.op), AdminExtras(d.op));
        ExtrasDetermine(c.op, d.op);
        Le64Injective(c.nonce, d.nonce);
    }
  }

  lemma ExtrasDetermine(o: AdminOp, p: AdminOp)
    requires AdminNumber(o) == AdminNumber(p) && AdminExtras(o) == AdminExtras(p)
    ensures o == p
  {
    var x, y := AdminExtras(o), AdminExtras(p);
    assert forall i | 0 <= i < |x| :: x[i] == y[i];
    match o {
      case SetDailyLimitImmediate(_, l) => Le64Injective(l, p.limit);
      case ProposeDailyLimit(_, l) => Le64Injective(l, p.limit);
      case SetCooldownImmediate(s) => Le64Injective(s, p.seconds);
      case ProposeCooldown(s) => Le64Injective(s, p.seconds);
      case _ =>
    }
  }

  function Domain(c: Call): string {
    if c.Init? then DOMAIN_INIT_V1 else DOMAIN
  }

  /** What follows the domain and the tag. */
  function Rest(c: Call): bytes {
    if c.Init? then Concat(Fields(c)) else LenLe(c.human) + (c.human + Concat(Fields(c)))
  }

  lemma PreimageLayout(c: Call)
    ensures Preimage(c) == Ascii(Domain(c)) + (Ascii(Tag(c)) + Rest(c))
  {
    hide Fields;
    hide Tag;
    hide LenLe;
    if c.Init? {
      ConcatTwo(Ascii(Domain(c)), Ascii(Tag(c)), Fields(c));
    } else {
      var tail := [LenLe(c.human), c.human] + Fields(c);
      ConcatTwo(LenLe(c.human), c.human, Fields(c));
      ConcatTwo(Ascii(Domain(c)), Ascii(Tag(c)), tail);
      assert Parts(c) == [Ascii(Domain(c)), Ascii(Tag(c))] + tail;
    }
  }

  lemma ConcatTwo(a: bytes, b: bytes, rest: seq<bytes>)
    ensures Concat([a, b] + rest) == a + (b + Concat(rest))
  {
    assert ([a, b] + rest)[1..] == [b] + rest;
    assert ([b] + rest)[1..] == rest;
  }

  lemma ConcatHead(x: bytes, rest: seq<bytes>)
    ensures Concat([x] + rest) == x + Concat(rest)
  {
    assert ([x] + rest)[1..] == rest;
  }

  lemma Associate(a: bytes, b: bytes, x: bytes)
    ensures a + (b + x) == (a + b) + x
  {
  }

  lemma {:induction false} ConcatAppend(p: seq<bytes>, q: seq<bytes>)
    ensures Concat(p + q) == Concat(p) + Concat(q)
  {
    if p == [] {
      assert Concat(p) == [];
      hide Concat;
      assert p + q == q;
    } else {
      ConcatAppend(p[1..], q);
      ConcatHead(p[0], p[1..]);
      ConcatHead(p[0], p[1..] + q);
      hide Concat;
      assert [p[0]] + p[1..] == p && [p[0]] + (p[1..] + q) == p + q;
      Associate(p[0], Concat(p[1..]), Concat(q));
    }
  }

  lemma DomainsDiffer()
    ensures |DOMAIN| == |DOMAIN_INIT_V1| == 27
    ensures Ascii(DOMAIN)[26] != Ascii(DOMAIN_INIT_V1)[26]
  {
  }

  /** Every two challenge calls with the same preimage are the same operation with the same human
      text and the same parameters. */
  lemma UniquelyDecodable(c: Call, d: Call)
    requires Preimage(c) == Preimage(d)
    ensures c == d
  {
    PreimageLayout(c);
    PreimageLayout(d);
    DomainsDiffer();
    hide Fields;
    hide Tag;
    hide Preimage;
    PrefixSplit(Ascii(Domain(c)), Ascii(Tag(c)) + Rest(c), Ascii(Domain(d)), Ascii(Tag(d)) + Rest(d));
    if !c.Init? {
      TagReadsBack(c, Rest(c));
      TagReadsBack(d, Rest(d));
    }
    FieldWidths(c, d);
    PrefixSplit(Ascii(Tag(c)), Rest(c), Ascii(Tag(d)), Rest(d));
    if !c.Init? {
      var x, y := Concat(Fields(c)), Concat(Fields(d));
      TextSplits(c.human, x, d.human, y);
    }
    assert Concat(Fields(c)) + [] == Concat(Fields(d)) + [];
    ConcatInjective(Fields(c), [], Fields(d), []);
    FieldsDetermine(c, d);
  }

  // ----- Where each field stands -----

  predicate StandsAt(b: bytes, o: nat, field: bytes) {
    o + |field| <= |b| && b[o..o + |field|] == field
  }

  /** How many bytes come before field i. */
  function Before(fields: seq<bytes>, i: nat): nat
    requires i <= |fields|
  {
    if i == 0 then 0 else Before(fields, i - 1) + |fields[i - 1]|
  }

  lemma {:induction false} BeforeRest(fields: seq<bytes>, i: nat)
    requires 0 < i <= |fields|
    ensures Before(fields, i) == |fields[0]| + Before(fields[1..], i - 1)
  {
    if i > 1 {
      BeforeRest(fields, i - 1);
    }
  }

  /** A field laid one behind the other after a head stands where the widths put it. */
  lemma {:induction false} FieldStands(head: bytes, fields: seq<bytes>, i: nat)
    requires i < |fields|
    ensures StandsAt(head + Concat(fields), |head| + Before(fields, i), fields[i])
    decreases |fields|
  {
    FirstStands(head, fields);
    if i > 0 {
      BeforeRest(fields, i);
      FieldStands(head + fields[0], fields[1..], i - 1);
    }
  }

  lemma {:induction false} AllBefore(fields: seq<bytes>)
    ensures |Concat(fields)| == Before(fields, |fields|)
  {
    if fields != [] {
      AllBefore(fields[1..]);
      BeforeRest(fields, |fields|);
    }
  }

  lemma FieldsStand(head: bytes, fields: seq<bytes>)
    ensures forall i: nat | i < |fields| :: StandsAt(head + Concat(fields), |head| + Before(fields, i), fields[i])
    ensures |head + Concat(fields)| == |head| + Before(fields, |fields|)
  {
    AllBefore(fields);
    hide StandsAt, Concat, Before;
    forall i: nat | i < |fields|
      ensures StandsAt(head + Concat(fields), |head| + Before(fields, i), fields[i])
    {
      FieldStands(head, fields, i);
    }
  }

  lemma FirstStands(head: bytes, fields: seq<bytes>)
    requires fields != []
    ensures head + Concat(fields) == head + fields[0] + Concat(fields[1..])
    ensures StandsAt(head + Concat(fields), |head|, fields[0])
  {
  }

  /** The head of every preimage but that of init: domain, tag, and the text behind its length. */
  function HeadBytes(c: Call): bytes
    requires !c.Init?
  {
    Ascii(DOMAIN) + Ascii(Tag(c)) + Le16(|c.human|) + c.human
  }

  lemma InitStands(c: Call)
    requires c.Init?
    ensures Preimage(c) == Ascii("andromeda::rules-policy::v1" + "init") + Concat(Fields(c))
    ensures StandsAt(Preimage(c), 0, Ascii("andromeda::rules-policy::v1" + "init"))
  {
    PreimageLayout(c);
    hide Fields, Concat, Le, Preimage;
    assert Ascii("andromeda::rules-policy::v1") + Ascii("init") == Ascii("andromeda::rules-policy::v1" + "init");
  }

  lemma HeadStands(c: Call)
    requires !c.Init?
    ensures Preimage(c) == HeadBytes(c) + Concat(Fields(c)) && StandsAt(Preimage(c), 0, HeadBytes(c))
    ensures |HeadBytes(c)| == 29 + |Tag(c)| + |c.human|
  {
    PreimageLayout(c);
    hide Fields, Concat, Le, Preimage, Tag, Ascii;
    assert |Ascii(DOMAIN)| == 27;
    FourParts(Ascii(DOMAIN), Ascii(Tag(c)), Le16(|c.human|), c.human, Concat(Fields(c)));
  }

  lemma FourParts(a: bytes, b: bytes, x: bytes, y: bytes, rest: bytes)
    ensures a + (b + (x + (y + rest))) == a + b + x + y + rest
  {
  }

  lemma InitWidths(c: Call)
    requires c.Init?
    ensures var f := Fields(c);
            |f| == 8
            && Before(f, 1) == 32 && Before(f, 2) == 66 && Before(f, 3) == 100 && Before(f, 4) == 101
            && Before(f, 5) == 102 && Before(f, 6) == 110 && Before(f, 7) == 118 && Before(f, 8) == 119
  {
    hide Le;
  }

  /** Byte by byte: the preimage of an init. */
  lemma InitOffsets(c: Call)
    requires c.Init?
    ensures var b := Preimage(c);
            |b| == 150 && StandsAt(b, 0, Ascii("andromeda::rules-policy::v1" + "init"))
            && StandsAt(b, 31, c.dwallet) && StandsAt(b, 63, c.initAuthority) && StandsAt(b, 97, c.primary)
            && StandsAt(b, 131, [c.quorumThreshold]) && StandsAt(b, 132, [c.dailyLimitSome])
            && StandsAt(b, 133, Le64(c.dailyLimit)) && StandsAt(b, 141, Le64(c.cooldownSeconds))
            && StandsAt(b, 149, [c.allowedDestinationsSome])
  {
    InitStands(c);
    hide Concat, Preimage, Le, HeadBytes;
    FieldsStand(Ascii("andromeda::rules-policy::v1" + "init"), Fields(c));
    InitWidths(c);
    hide StandsAt, Before;
  }

  lemma OidcSessionOpenWidths(c: Call)
    requires c.OidcSessionOpen?
    ensures var f := Fields(c);
            |f| == 8
            && Before(f, 1) == 32 && Before(f, 2) == 66 && Before(f, 3) == 98 && Before(f, 4) == 106
            && Before(f, 5) == 138 && Before(f, 6) == 170 && Before(f, 7) == 174 && Before(f, 8) == 182
  {
    hide Le;
  }

  /** The preimage of an OIDC session opening, from the end of its text. */
  lemma OidcSessionOpenOffsets(c: Call)
    requires c.OidcSessionOpen?
    ensures var b, h := Preimage(c), 46 + |c.human|;
            |b| == h + 182 && StandsAt(b, 0, Ascii(DOMAIN) + Ascii("oidc-session-open") + Le16(|c.human|) + c.human)
            && StandsAt(b, h, c.dwallet) && StandsAt(b, h + 32, c.primary) && StandsAt(b, h + 66, c.ephPk)
            && StandsAt(b, h + 98, Le64(c.notAfter)) && StandsAt(b, h + 106, c.jwtDigest)
            && StandsAt(b, h + 138, c.jwkRegistry) && StandsAt(b, h + 170, Le32(c.verifierVersion))
            && StandsAt(b, h + 174, Le64(c.nonce))
  {
    HeadStands(c);
    hide Concat, Preimage, Le, HeadBytes;
    FieldsStand(HeadBytes(c), Fields(c));
    OidcSessionOpenWidths(c);
    hide StandsAt, Before;
  }

  lemma OidcPrimaryUseWidths(c: Call)
    requires c.OidcPrimaryUse?
    ensures var f := Fields(c);
            |f| == 10
            && Before(f, 1) == 32 && Before(f, 2) == 64 && Before(f, 3) == 96 && Before(f, 4) == 128
            && Before(f, 5) == 160 && Before(f, 6) == 192 && Before(f, 7) == 194 && Before(f, 8) == 195
            && Before(f, 9) == 203 && Before(f, 10) == 237
  {
    hide Le;
  }

  /** The preimage of a use of an OIDC session. */
  lemma OidcPrimaryUseOffsets(c: Call)
    requires c.OidcPrimaryUse?
    ensures var b, h := Preimage(c), 45 + |c.human|;
            |b| == h + 237 && StandsAt(b, 0, Ascii(DOMAIN) + Ascii("oidc-primary-use") + Le16(|c.human|) + c.human)
            && StandsAt(b, h, c.session) && StandsAt(b, h + 32, c.dwallet) && StandsAt(b, h + 64, c.messageApproval)
            && StandsAt(b, h + 96, c.messageDigest) && StandsAt(b, h + 128, c.metadataDigest)
            && StandsAt(b, h + 160, c.userPubkey) && StandsAt(b, h + 192, Le16(c.scheme))
            && StandsAt(b, h + 194, [c.bump]) && StandsAt(b, h + 195, Le64(c.nonce)) && StandsAt(b, h + 203, c.primary)
  {
    HeadStands(c);
    hide Concat, Preimage, Le, HeadBytes;
    FieldsStand(HeadBytes(c), Fields(c));
    OidcPrimaryUseWidths(c);
    hide StandsAt, Before;
  }

  /** The preimage of an admin operation: the shared fields, then each parameter behind its length. */
  lemma AdminOffsets(c: Call)
    requires c.Admin?
    ensures var b, h := Preimage(c), 29 + |AdminTag(c.op)| + |c.human|;
            |b| >= h + 106 && StandsAt(b, 0, Ascii(DOMAIN) + Ascii(AdminTag(c.op)) + Le16(|c.human|) + c.human)
            && StandsAt(b, h, c.dwallet) && StandsAt(b, h + 32, c.policy) && StandsAt(b, h + 64, Le64(c.nonce))
            && StandsAt(b, h + 72, c.primary)
            && match c.op
               case AddMember(m) => b[h + 106..] == Le16(34) + m
               case RemoveMember(m) => b[h + 106..] == Le16(34) + m
               case AddDestination(d) => b[h + 106..] == Le16(32) + d
               case RemoveDestination(d) => b[h + 106..] == Le16(32) + d
               case Revoke => b[h + 106..] == []
               case SetPrimary(p) => b[h + 106..] == Le16(34) + p
               case SetQuorumThresholdImmediate(t) => b[h + 106..] == Le16(1) + [t]
               case SetDailyLimitImmediate(s, l) => b[h + 106..] == Le16(1) + [s] + Le16(8) + Le64(l)
               case SetCooldownImmediate(s) => b[h + 106..] == Le16(8) + Le64(s)
               case ProposeQuorumThreshold(t) => b[h + 106..] == Le16(1) + [t]
               case ProposeDailyLimit(s, l) => b[h + 106..] == Le16(1) + [s] + Le16(8) + Le64(l)
               case ProposeCooldown(s) => b[h + 106..] == Le16(8) + Le64(s)
  {
    HeadStands(c);
    AdminHeadBytes(c);
    FixedThenExtras(c);
    AdminExtrasBytes(c.op);
    hide *;
    FiveStand(HeadBytes(c), c.dwallet, c.policy, Le64(c.nonce), c.primary, Concat(Prefixed(AdminExtras(c.op))));
  }

  lemma AdminHeadBytes(c: Call)
    requires c.Admin?
    ensures HeadBytes(c) == Ascii(DOMAIN) + Ascii(AdminTag(c.op)) + Le16(|c.human|) + c.human
    ensures |Tag(c)| == |AdminTag(c.op)| && |Le64(c.nonce)| == 8
  {
    hide Ascii, AdminTag;
  }

  lemma FiveStand(head: bytes, f0: bytes, f1: bytes, f2: bytes, f3: bytes, f4: bytes)
    requires |f0| == 32 && |f1| == 32 && |f2| == 8 && |f3| == 34
    ensures var b, h := head + Concat([f0, f1, f2, f3, f4]), |head|;
            StandsAt(b, h, f0) && StandsAt(b, h + 32, f1) && StandsAt(b, h + 64, f2) && StandsAt(b, h + 72, f3)
            && |b| >= h + 106 && b[h + 106..] == f4
  {
    var f := [f0, f1, f2, f3, f4];
    FieldsStand(head, f);
    assert Before(f, 1) == 32 && Before(f, 2) == 64 && Before(f, 3) == 72 && Before(f, 4) == 106;
    hide Concat;
    assert StandsAt(head + Concat(f), |head| + 106, f[4]);
  }

  lemma FixedThenExtras(c: Call)
    requires c.Admin?
    ensures Concat(Fields(c))
         == Concat([c.dwallet, c.policy, Le64(c.nonce), c.primary, Concat(Prefixed(AdminExtras(c.op)))])
  {
    var extras := Prefixed(AdminExtras(c.op));
    hide Prefixed, AdminExtras, Le;
    var fixedPart := [c.dwallet, c.policy, Le64(c.nonce), c.primary];
    ConcatAppend(fixedPart, extras);
    ConcatAppend(fixedPart, [Concat(extras)]);
    assert Concat([Concat(extras)]) == Concat(extras);
    assert fixedPart + [Concat(extras)] == [c.dwallet, c.policy, Le64(c.nonce), c.primary, Concat(extras)];
  }

  lemma AdminExtrasBytes(op: AdminOp)
    ensures var e := Concat(Prefixed(AdminExtras(op)));
            match op
            case AddMember(m) => e == Le16(34) + m
            case RemoveMember(m) => e == Le16(34) + m
            case AddDestination(d) => e == Le16(32) + d
            case RemoveDestination(d) => e == Le16(32) + d
            case Revoke => e == []
            case SetPrimary(p) => e == Le16(34) + p
            case SetQuorumThresholdImmediate(t) => e == Le16(1) + [t]
            case SetDailyLimitImmediate(s, l) => e == Le16(1) + [s] + Le16(8) + Le64(l)
            case SetCooldownImmediate(s) => e == Le16(8) + Le64(s)
            case ProposeQuorumThreshold(t) => e == Le16(1) + [t]
            case ProposeDailyLimit(s, l) => e == Le16(1) + [s] + Le16(8) + Le64(l)
            case ProposeCooldown(s) => e == Le16(8) + Le64(s)
  {
    var extras := AdminExtras(op);
    if |extras| == 1 {
      OneExtra(extras[0]);
      assert extras == [extras[0]];
    } else if |extras| == 2 {
      TwoExtras(extras[0], extras[1]);
      assert extras == [extras[0], extras[1]];
    }
    hide Le;
  }

  lemma OneExtra(x: bytes)
    ensures Concat(Prefixed([x])) == LenLe(x) + x
  {
    hide LenLe;
    ConcatTwo(LenLe(x), x, []);
    assert [x][1..] == [] && Prefixed([x]) == [LenLe(x), x] + [];
  }

  lemma TwoExtras(x: bytes, y: bytes)
    ensures Concat(Prefixed([x, y])) == LenLe(x) + x + LenLe(y) + y
  {
    hide LenLe;
    OneExtra(y);
    ConcatTwo(LenLe(x), x, Prefixed([y]));
    assert [x, y][1..] == [y];
  }

  // ----- admin_hash_with_human with any list of extras -----

  /** The arguments of admin_hash_with_human; `op` stands for its tag. */
  datatype AdminArgs = AdminArgs(op: AdminOp, human: bytes, dwallet: Bytes32, policy: Bytes32, nonce: u64,
                                 primary: Slot, extras: seq<bytes>)

  function Kept(extras: seq<bytes>): seq<bytes> {
    if |extras| <= ADMIN_HASH_MAX_EXTRAS then extras else extras[..ADMIN_HASH_MAX_EXTRAS]
  }

  function AdminHead(a: AdminArgs): seq<bytes> {
    [DomainBytes(), TagBytes(a.op), LenLe(a.human), a.human, a.dwallet, a.policy, Le64(a.nonce), a.primary]
  }

  function DomainBytes(): bytes {
    Ascii(DOMAIN)
  }

  function TagBytes(op: AdminOp): bytes {
    Ascii(AdminTag(op))
  }

  /** What is hashed: lengths are cast to u16 and extras beyond the sixth are dropped. */
  function AdminParts(a: AdminArgs): seq<bytes> {
    AdminHead(a) + Prefixed(Kept(a.extras))
  }

  lemma {:induction false} PrefixedSnoc(extras: seq<bytes>, e: bytes)
    ensures Prefixed(extras + [e]) == Prefixed(extras) + [LenLe(e), e]
  {
    if extras == [] {
      assert [] + [e] == [e] && [e][1..] == [];
    } else {
      PrefixedSnoc(extras[1..], e);
      assert (extras + [e])[1..] == extras[1..] + [e];
    }
  }

  /** The parts are gathered in arrays of fixed size, which are values in the source. */
  method AdminHashWithHuman(a: AdminArgs, hash: bytes -> Bytes32) returns (r: Bytes32)
    ensures r == hash(Concat(AdminParts(a)))
  {
    hide LenLe;
    hide Concat;
    hide DomainBytes;
    hide TagBytes;
    hide Le64;
    var parts: seq<bytes> := seq(20, _ => []);
    var extraLens: seq<bytes> := seq(ADMIN_HASH_MAX_EXTRAS, _ => [0, 0]);
    parts := parts[0 := DomainBytes()][1 := TagBytes(a.op)][2 := LenLe(a.human)][3 := a.human];
    parts := parts[4 := a.dwallet][5 := a.policy][6 := Le64(a.nonce)][7 := a.primary];
    assert parts[..8] == AdminHead(a);
    var n := 8;
    var extraCount := if |a.extras| < ADMIN_HASH_MAX_EXTRAS then |a.extras| else ADMIN_HASH_MAX_EXTRAS;
    for i := 0 to extraCount
      invariant |extraLens| == ADMIN_HASH_MAX_EXTRAS
      invariant forall k | 0 <= k < i :: extraLens[k] == LenLe(a.extras[k])
    {
      extraLens := extraLens[i := LenLe(a.extras[i])];
    }
    assert a.extras[..0] == [] && AdminHead(a) + Prefixed(a.extras[..0]) == AdminHead(a);
    hide AdminHead, Prefixed;
    for i := 0 to extraCount
      invariant |parts| == 20 && n == 8 + 2 * i
      invariant parts[..n] == AdminHead(a) + Prefixed(a.extras[..i])
    {
      if n + 1 >= |parts| {
        break;
      }
      KeepOne(a.extras, i);
      TwoMore(parts, n, extraLens[i], a.extras[i], AdminHead(a), Prefixed(a.extras[..i]));
      parts := parts[n := extraLens[i]][n + 1 := a.extras[i]];
      n := n + 2;
    }
    assert Kept(a.extras) == a.extras[..extraCount];
    r := hash(Concat(parts[..n]));
  }

  lemma TwoMore(parts: seq<bytes>, n: nat, x: bytes, y: bytes, head: seq<bytes>, done: seq<bytes>)
    requires n + 1 < |parts| && parts[..n] == head + done
    ensures parts[n := x][n + 1 := y][..n + 2] == head + (done + [x, y])
  {
    assert parts[n := x][n + 1 := y][..n] == parts[..n];
  }

  lemma KeepOne(extras: seq<bytes>, i: nat)
    requires i < |extras|
    ensures Prefixed(extras[..i + 1]) == Prefixed(extras[..i]) + [LenLe(extras[i]), extras[i]]
  {
    PrefixedSnoc(extras[..i], extras[i]);
    assert extras[..i + 1] == extras[..i] + [extras[i]];
  }

  /** The typed admin operations hash exactly these parts. */
  lemma AdminCallParts(c: Call)
    requires c.Admin?
    ensures Parts(c) == AdminParts(AdminArgs(c.op, c.human, c.dwallet, c.policy, c.nonce, c.primary, AdminExtras(c.op)))
  {
    assert |AdminExtras(c.op)| <= 2;
  }

  ghost predicate ShortExtras(extras: seq<bytes>) {
    forall e | e in extras :: |e| < 0x1_0000
  }

  lemma FirstExtra(a: seq<bytes>, b: seq<bytes>)
    requires a != [] && b != [] && |a[0]| < 0x1_0000 && |b[0]| < 0x1_0000
    requires Concat(Prefixed(a)) == Concat(Prefixed(b))
    ensures a[0] == b[0] && Concat(Prefixed(a[1..])) == Concat(Prefixed(b[1..]))
  {
    hide LenLe;
    hide Concat;
    ConcatTwo(LenLe(a[0]), a[0], Prefixed(a[1..]));
    ConcatTwo(LenLe(b[0]), b[0], Prefixed(b[1..]));
    TextSplits(a[0], Concat(Prefixed(a[1..])), b[0], Concat(Prefixed(b[1..])));
  }

  /** A text behind its u16 length is delimited by it. */
  lemma TextSplits(h: bytes, x: bytes, k: bytes, y: bytes)
    requires |h| < 0x1_0000 && |k| < 0x1_0000
    requires LenLe(h) + (h + x) == LenLe(k) + (k + y)
    ensures h == k && x == y
  {
    hide Le;
    PrefixSplit(LenLe(h), h + x, LenLe(k), k + y);
    Le16Injective(|h|, |k|);
    PrefixSplit(h, x, k, y);
  }

  /** The length prefixes delimit the extras, to the end of the input. */
  lemma {:induction false} ExtrasReadBack(a: seq<bytes>, b: seq<bytes>)
    requires ShortExtras(a) && ShortExtras(b) && Concat(Prefixed(a)) == Concat(Prefixed(b))
    ensures a == b
  {
    hide LenLe;
    if a == [] || b == [] {
      assert Concat(Prefixed([])) == [];
    } else {
      FirstExtra(a, b);
      ExtrasReadBack(a[1..], b[1..]);
      assert a == [a[0]] + a[1..] && b == [b[0]] + b[1..];
    }
  }

  function AdminFixed(a: AdminArgs): seq<bytes> {
    [a.dwallet, a.policy, Le64(a.nonce), a.primary]
  }

  lemma AdminPartsSplit(a: AdminArgs)
    ensures AdminParts(a) == [Ascii(DOMAIN), Ascii(AdminTag(a.op))]
                             + ([LenLe(a.human), a.human] + (AdminFixed(a) + Prefixed(Kept(a.extras))))
  {
    hide Prefixed, LenLe, Ascii, AdminTag, Le, Kept;
  }

  lemma AdminLayout(a: AdminArgs)
    ensures Concat(AdminParts(a))
         == Ascii(DOMAIN) + (Ascii(AdminTag(a.op)) + (LenLe(a.human)
            + (a.human + (Concat(AdminFixed(a)) + Concat(Prefixed(Kept(a.extras)))))))
  {
    AdminPartsSplit(a);
    hide *;
    var extras := Prefixed(Kept(a.extras));
    var fixedPart := AdminFixed(a) + extras;
    var text := [LenLe(a.human), a.human] + fixedPart;
    ConcatAppend(AdminFixed(a), extras);
    ConcatTwo(LenLe(a.human), a.human, fixedPart);
    ConcatTwo(Ascii(DOMAIN), Ascii(AdminTag(a.op)), text);
  }

  /** Two admin preimages agree exactly when the operations, the texts, the fixed parameters and the
      first six extras agree. Extras beyond the sixth are not signed. */
  lemma AdminPreimagesAgreeIff(a: AdminArgs, b: AdminArgs)
    requires |a.human| <= MAX_HUMAN_MESSAGE_BYTES && |b.human| <= MAX_HUMAN_MESSAGE_BYTES
    requires ShortExtras(a.extras) && ShortExtras(b.extras)
    ensures Concat(AdminParts(a)) == Concat(AdminParts(b)) <==>
            && AdminTag(a.op) == AdminTag(b.op) && a.human == b.human && a.dwallet == b.dwallet
            && a.policy == b.policy && a.nonce == b.nonce && a.primary == b.primary
            && Kept(a.extras) == Kept(b.extras)
  {
    AdminLayout(a);
    AdminLayout(b);
    hide AdminParts;
    hide Prefixed;
    hide Concat;
    if Concat(AdminParts(a)) == Concat(AdminParts(b)) {
      AdminTextAgrees(a, b);
      var x, y := Concat(Prefixed(Kept(a.extras))), Concat(Prefixed(Kept(b.extras)));
      var f, g := AdminFixed(a), AdminFixed(b);
      ConcatInjective(f, x, g, y);
      assert f[0] == g[0] && f[1] == g[1] && f[2] == g[2] && f[3] == g[3];
      Le64Injective(a.nonce, b.nonce);
      ExtrasReadBack(Kept(a.extras), Kept(b.extras));
    }
  }

  lemma AdminTextAgrees(a: AdminArgs, b: AdminArgs)
    requires |a.human| <= MAX_HUMAN_MESSAGE_BYTES && |b.human| <= MAX_HUMAN_MESSAGE_BYTES
    requires Concat(AdminParts(a)) == Concat(AdminParts(b))
    ensures AdminTag(a.op) == AdminTag(b.op) && a.human == b.human
    ensures Concat(AdminFixed(a)) + Concat(Prefixed(Kept(a.extras)))
         == Concat(AdminFixed(b)) + Concat(Prefixed(Kept(b.extras)))
  {
    AdminLayout(a);
    AdminLayout(b);
    hide AdminParts;
    hide AdminFixed;
    hide Prefixed;
    hide Concat;
    hide LenLe;
    hide AdminTag;
    var p := Concat(AdminFixed(a)) + Concat(Prefixed(Kept(a.extras)));
    var q := Concat(AdminFixed(b)) + Concat(Prefixed(Kept(b.extras)));
    var s, t := LenLe(a.human) + (a.human + p), LenLe(b.human) + (b.human + q);
    PrefixSplit(Ascii(DOMAIN), Ascii(AdminTag(a.op)) + s, Ascii(DOMAIN), Ascii(AdminTag(b.op)) + t);
    AdminTagReadsBack(a.op, s);
    AdminTagReadsBack(b.op, t);
    AdminWidths(a.op, b.op);
    PrefixSplit(Ascii(AdminTag(a.op)), s, Ascii(AdminTag(b.op)), t);
    TextSplits(a.human, p, b.human, q);
  }

  /** The bound on the length of an extra cannot be dropped: the length of 65536 bytes is written as
      zero, and the bytes themselves then read as two further extras. */
  lemma OverlongExtraIsAmbiguous(filler: bytes)
    requires |filler| == 0x1_0000 - 4
    ensures var long := Le16(|filler|) + filler + Le16(0);
            |long| == 0x1_0000 && Concat(Prefixed([long])) == Concat(Prefixed([[], filler, []]))
  {
    hide Le;
    var long := Le16(|filler|) + filler + Le16(0);
    var e: bytes := [];
    ConcatTwo(Le16(0), long, []);
    var none: seq<bytes> := [];
    assert [long][1..] == none && Prefixed([long]) == [Le16(0), long] + [];
    ConcatTwo(Le16(0), e, []);
    ConcatTwo(Le16(|filler|), filler, [Le16(0), e] + []);
    ConcatTwo(Le16(0), e, [Le16(|filler|), filler] + ([Le16(0), e] + []));
    assert [e, filler, e][1..] == [filler, e] && [filler, e][1..] == [e] && [e][1..] == none;
    assert Prefixed([e]) == [Le16(0), e] + [];
    assert Prefixed([filler, e]) == [Le16(|filler|), filler] + Prefixed([e]);
    assert Prefixed([e, filler, e]) == [Le16(0), e] + Prefixed([filler, e]);
    assert Le16(0) + (long + []) == Le16(0) + ([] + (Le16(|filler|) + (filler + (Le16(0) + ([] + [])))));
  }
}
