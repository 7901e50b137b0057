/** The text a signer reads before signing (contracts/auth/src/human_message.rs): rendered from the
    typed parameters into a fixed buffer of 768 bytes, for every challenge that carries a text.

    No text overflows the buffer, and a text tells which operation it is about and every value it
    shows. Each of the program's message functions is a list of writes, alternately a literal and a
    value, and is that list here. */
module ClearSigning {
  import opened Bytes
  import opened Numerals
  import C = Challenge
  import MemberSlots

  /** A value the text shows: an address, a digest, a number, a time, an optional limit, a slot. */
  datatype Value =
    | Address(a: Bytes32)
    | Digest(b: Bytes32)
    | Number(n: u64)
    | Time(t: i64)
    | Limit(some: u8, n: u64)
    | Member(slot: Slot)

  /** The literals: the one a message opens with, by the number of its operation, and those within. */
  datatype Literal =
    | Opening(operation: nat)
    | AsMember | ForDWallet | ForMessage | Message | Metadata | Scheme | User | Amount | Destination | Expires
    | Until | EphemeralKey | ToPolicy | FromPolicy | OnPolicy | NowOnPolicy | SecondsNowOnPolicy | SecondsOnPolicy

  function OpeningWords(operation: nat): string {
    match operation
    case 1 => "Recover dWallet "
    case 2 => "Open quorum session for dWallet "
    case 3 => "Contribute to quorum session "
    case 4 => "Open OIDC session for dWallet "
    case 5 => "Authorize OIDC session "
    case 6 => "Open passkey session for dWallet "
    case 7 => "Authorize passkey session "
    case 8 => "Add member "
    case 9 => "Remove member "
    case 10 => "Allow destination "
    case 11 => "Block destination "
    case 12 => "Revoke policy "
    case 13 => "Set primary to "
    case 14 => "Set quorum threshold to "
    case 15 => "Set daily limit to "
    case 16 => "Set cooldown to "
    case 17 => "Propose quorum threshold "
    case 18 => "Propose daily limit "
    case _ => "Propose cooldown "
  }

  function Words(l: Literal): string {
    match l
    case Opening(operation) => OpeningWords(operation)
    case AsMember => " as member "
    case ForDWallet => " for dWallet "
    case ForMessage => " for message "
    case Message => " message "
    case Metadata => " metadata "
    case Scheme => " scheme "
    case User => " user "
    case Amount => " amount "
    case Destination => " destination "
    case Expires => " expires "
    case Until => " until "
    case EphemeralKey => " using ephemeral key "
    case ToPolicy => " to policy "
    case FromPolicy => " from policy "
    case OnPolicy => " on policy "
    case NowOnPolicy => " immediately on policy "
    case SecondsNowOnPolicy => " seconds immediately on policy "
    case SecondsOnPolicy => " seconds on policy "
  }

  /** A literal and the value after it. */
  datatype Clause = Clause(literal: Literal, value: Value)

  // ----- The messages -----

  function AboutPolicy(op: C.AdminOp, value: Value, on: Literal, policy: Bytes32, dwallet: Bytes32): seq<Clause> {
    [Clause(Opening(8 + C.AdminNumber(op)), value), Clause(on, Address(policy)), Clause(ForDWallet, Address(dwallet))]
  }

  function AdminMessage(op: C.AdminOp, policy: Bytes32, dwallet: Bytes32): seq<Clause> {
    match op
    case AddMember(m) => AboutPolicy(op, Member(m), ToPolicy, policy, dwallet)
    case RemoveMember(m) => AboutPolicy(op, Member(m), FromPolicy, policy, dwallet)
    case AddDestination(d) => AboutPolicy(op, Digest(d), OnPolicy, policy, dwallet)
    case RemoveDestination(d) => AboutPolicy(op, Digest(d), OnPolicy, policy, dwallet)
    case Revoke => [Clause(Opening(8 + C.AdminNumber(op)), Address(policy)), Clause(ForDWallet, Address(dwallet))]
    case SetPrimary(p) => AboutPolicy(op, Member(p), OnPolicy, policy, dwallet)
    case SetQuorumThresholdImmediate(t) => AboutPolicy(op, Number(t), NowOnPolicy, policy, dwallet)
    case SetDailyLimitImmediate(some, limit) => AboutPolicy(op, Limit(some, limit), NowOnPolicy, policy, dwallet)
    case SetCooldownImmediate(s) => AboutPolicy(op, Number(s), SecondsNowOnPolicy, policy, dwallet)
    case ProposeQuorumThreshold(t) => AboutPolicy(op, Number(t), OnPolicy, policy, dwallet)
    case ProposeDailyLimit(some, limit) => AboutPolicy(op, Limit(some, limit), OnPolicy, policy, dwallet)
    case ProposeCooldown(s) => AboutPolicy(op, Number(s), SecondsOnPolicy, policy, dwallet)
  }

  /** The message of a call. The text the call carries plays no part. */
  function MessageOf(c: C.Call): (m: seq<Clause>)
    requires !c.Init?
    ensures m != [] && m[0].literal == Opening(C.Number(c))
  {
    var opening := Opening(C.Number(c));
    match c
    case PrimaryRecover(_, dwallet, _, message, metadata, user, scheme, _, _, _) =>
      [Clause(opening, Address(dwallet)), Clause(ForMessage, Digest(message)), Clause(Metadata, Digest(metadata)),
       Clause(Scheme, Number(scheme)), Clause(User, Digest(user))]
    case QuorumSessionOpen(_, dwallet, message, metadata, _, scheme, _, amount, destination, expires, _, _) =>
      [Clause(opening, Address(dwallet)), Clause(Amount, Number(amount)), Clause(Destination, Digest(destination)),
       Clause(Message, Digest(message)), Clause(Metadata, Digest(metadata)), Clause(Scheme, Number(scheme)),
       Clause(Expires, Time(expires))]
    case QuorumContribute(_, session, member, dwallet, amount, destination, message, metadata, user, scheme, _, expires) =>
      [Clause(opening, Address(session)), Clause(AsMember, Member(member)), Clause(ForDWallet, Address(dwallet)),
       Clause(Amount, Number(amount)), Clause(Destination, Digest(destination)), Clause(Message, Digest(message)),
       Clause(Metadata, Digest(metadata)), Clause(Scheme, Number(scheme)), Clause(User, Digest(user)),
       Clause(Expires, Time(expires))]
    case OidcSessionOpen(_, dwallet, _, ephPk, notAfter, _, _, _, _) =>
      [Clause(opening, Address(dwallet)), Clause(Until, Number(notAfter)), Clause(EphemeralKey, Digest(ephPk))]
    case OidcPrimaryUse(_, session, dwallet, _, message, metadata, user, scheme, _, _, _) =>
      [Clause(opening, Address(session)), Clause(ForDWallet, Address(dwallet)), Clause(Message, Digest(message)),
       Clause(Metadata, Digest(metadata)), Clause(Scheme, Number(scheme)), Clause(User, Digest(user))]
    case PasskeySessionOpen(_, dwallet, _, ephPk, notAfter, _, _) =>
      [Clause(opening, Address(dwallet)), Clause(Until, Number(notAfter)), Clause(EphemeralKey, Digest(ephPk))]
    case PasskeyPrimaryUse(_, session, dwallet, _, message, metadata, user, scheme, _, _, _) =>
      [Clause(opening, Address(session)), Clause(ForDWallet, Address(dwallet)), Clause(Message, Digest(message)),
       Clause(Metadata, Digest(metadata)), Clause(Scheme, Number(scheme)), Clause(User, Digest(user))]
    case Admin(op, _, dwallet, policy, _, _) => AdminMessage(op, policy, dwallet)
  }

  // ----- Their text -----

  /** A slot with an unknown scheme has no text. */
  predicate IsShown(v: Value) {
    v.Member? ==> MemberSlots.IdLenForScheme(v.slot[0]).Ok?
  }

  predicate AllShown(m: seq<Clause>) {
    forall i | 0 <= i < |m| :: IsShown(m[i].value)
  }

  function Show(v: Value): bytes
    requires IsShown(v)
  {
    match v
    case Address(a) => Base58(a)
    case Digest(b) => Hex(b)
    case Number(n) => Decimal(n)
    case Time(t) => (if t < 0 then [MINUS] else []) + Decimal(Size(t))
    case Limit(some, n) => if some == 0 then Ascii("none") else Decimal(n)
    case Member(slot) => Ascii("scheme:") + Decimal(slot[0]) + Ascii(";id:") + Hex(MemberSlots.Identifier(slot))
  }

  function Size(t: int): nat {
    if t < 0 then -t else t
  }

  const MINUS: byte := '-' as int
  const SPACE: byte := ' ' as int

  function Text(m: seq<Clause>): bytes
    requires AllShown(m)
  {
    if m == [] then [] else Ascii(Words(m[0].literal)) + (Show(m[0].value) + Text(m[1..]))
  }

  // ----- What a value's text tells -----

  /** What the text tells of a value: not which number stands for "some", and not the padding. */
  function Seen(v: Value): Value
    requires IsShown(v)
  {
    match v
    case Limit(some, n) => if some == 0 then Limit(0, 0) else Limit(1, n)
    case Member(slot) => Member(MemberSlots.BuildMemberSlot(slot[0], MemberSlots.Identifier(slot)).value)
    case _ => v
  }

  predicate SameKind(v: Value, w: Value) {
    match v
    case Address(_) => w.Address?
    case Digest(_) => w.Digest?
    case Number(_) => w.Number?
    case Time(_) => w.Time?
    case Limit(_, _) => w.Limit?
    case Member(_) => w.Member?
  }

  lemma TimesDiffer(t: i64, u: i64)
    requires Show(Time(t)) == Show(Time(u))
    ensures t == u
  {
    hide Decimal;
    DecimalIsDigits(Size(t));
    DecimalIsDigits(Size(u));
    DecimalIsShort(Size(t));
    DecimalIsShort(Size(u));
    SignedTexts(t < 0, Decimal(Size(t)), u < 0, Decimal(Size(u)));
    DecimalDetermines(Size(t), Size(u));
  }

  lemma SignedTexts(p: bool, x: bytes, q: bool, y: bytes)
    requires |x| > 0 && |y| > 0 && MINUS !in x && MINUS !in y
    requires (if p then [MINUS] else []) + x == (if q then [MINUS] else []) + y
    ensures p == q && x == y
  {
    var none: bytes := [];
    assert none + x == x && none + y == y;
    assert ([MINUS] + x)[0] == MINUS && ([MINUS] + y)[0] == MINUS;
    assert x[0] in x && y[0] in y;
    if p && q {
      PrefixSplit([MINUS], x, [MINUS], y);
    }
  }

  lemma LimitsDiffer(v: Value, w: Value)
    requires v.Limit? && w.Limit? && Show(v) == Show(w)
    ensures Seen(v) == Seen(w)
  {
    hide Decimal;
    DecimalIsDigits(v.n);
    DecimalIsDigits(w.n);
    DecimalIsShort(v.n);
    DecimalIsShort(w.n);
    assert Ascii("none")[0] == 'n' as int && Decimal(v.n)[0] in Decimal(v.n) && Decimal(w.n)[0] in Decimal(w.n);
    if v.some != 0 && w.some != 0 {
      DecimalDetermines(v.n, w.n);
    }
  }

  lemma MemberStarts(slot: Slot)
    requires IsShown(Member(slot))
    ensures var t := Show(Member(slot));
            |t| > 12 && t[7] == Digit(slot[0]) && t[12..] == Hex(MemberSlots.Identifier(slot))
  {
    OneDigit(slot[0]);
    var head, id := Ascii("scheme:") + Decimal(slot[0]) + Ascii(";id:"), Hex(MemberSlots.Identifier(slot));
    hide Decimal, Hex;
    assert head[7] == Digit(slot[0]);
    assert (head + id)[12..] == id;
  }

  lemma OneDigit(d: nat)
    requires d < 10
    ensures Decimal(d) == [Digit(d)]
  {
    if d > 0 {
      assert LowFirst(d, 10) == [d];
    }
  }

  lemma SameSlot(v: Value, w: Value)
    requires v.Member? && w.Member? && IsShown(v) && IsShown(w) && v.slot[0] == w.slot[0]
    requires MemberSlots.Identifier(v.slot) == MemberSlots.Identifier(w.slot)
    ensures Seen(v) == Seen(w)
  {
    hide MemberSlots.BuildMemberSlot, MemberSlots.Identifier;
  }

  lemma MembersDiffer(v: Value, w: Value)
    requires v.Member? && w.Member? && IsShown(v) && IsShown(w) && Show(v) == Show(w)
    ensures Seen(v) == Seen(w)
  {
    MemberStarts(v.slot);
    MemberStarts(w.slot);
    hide Show, Seen, Hex, MemberSlots.Identifier;
    HexDetermines(MemberSlots.Identifier(v.slot), MemberSlots.Identifier(w.slot));
    SameSlot(v, w);
  }

  lemma ValuesDiffer(v: Value, w: Value)
    requires SameKind(v, w) && IsShown(v) && IsShown(w) && Show(v) == Show(w)
    ensures Seen(v) == Seen(w)
  {
    match v {
      case Address(a) => Base58Determines(a, w.a);
      case Digest(b) => HexDetermines(b, w.b);
      case Number(n) => DecimalDetermines(n, w.n);
      case Time(t) => TimesDiffer(t, w.t);
      case Limit(_, _) => LimitsDiffer(v, w);
      case Member(_) => MembersDiffer(v, w);
    }
  }

  /** And nothing else matters for the text. */
  lemma TextOfSeen(v: Value)
    requires IsShown(v)
    ensures IsShown(Seen(v)) && Show(Seen(v)) == Show(v) && SameKind(v, Seen(v))
  {
    if v.Member? {
      var id := MemberSlots.Identifier(v.slot);
      assert Seen(v).slot[1..1 + |id|] == id;
    }
  }

  // ----- Reading a text back -----

  lemma NoSpace(v: Value)
    requires IsShown(v)
    ensures SPACE !in Show(v)
  {
    hide Decimal, Base58, Hex, MemberSlots.Identifier;
    match v {
      case Address(a) => Base58HasNoSpace(a);
      case Digest(_) =>
      case Number(n) => DecimalIsDigits(n);
      case Time(t) => DecimalIsDigits(Size(t));
      case Limit(_, n) => DecimalIsDigits(n);
      case Member(slot) =>
        DecimalIsDigits(slot[0]);
        LiteralsHaveNoSpace();
    }
  }

  lemma LiteralsHaveNoSpace()
    ensures SPACE !in Ascii("scheme:") && SPACE !in Ascii(";id:")
  {
    assert Ascii("scheme:") == ['s' as int, 'c' as int, 'h' as int, 'e' as int, 'm' as int, 'e' as int, ':' as int];
    assert Ascii(";id:") == [';' as int, 'i' as int, 'd' as int, ':' as int];
  }

  lemma Base58HasNoSpace(b: bytes)
    ensures SPACE !in Base58(b)
  {
    var t := Base58(b);
    forall i | 0 <= i < |t|
      ensures t[i] != SPACE
    {
    }
  }

  lemma NotBeyondSpace(a: bytes, x: bytes, b: bytes, y: bytes)
    requires SPACE !in b && a + x == b + y && (x != [] ==> x[0] == SPACE)
    ensures |b| <= |a|
  {
    var t := a + x;
    assert forall i | 0 <= i < |b| :: t[i] == b[i];
    assert x != [] ==> t[|a|] == SPACE;
  }

  /** A text without spaces ends where the next space is. */
  lemma UpToSpace(a: bytes, x: bytes, b: bytes, y: bytes)
    requires SPACE !in a && SPACE !in b && a + x == b + y
    requires (x != [] ==> x[0] == SPACE) && (y != [] ==> y[0] == SPACE)
    ensures a == b && x == y
  {
    NotBeyondSpace(a, x, b, y);
    NotBeyondSpace(b, y, a, x);
    PrefixSplit(a, x, b, y);
  }

  predicate SameClause(c: Clause, d: Clause) {
    c.literal == d.literal && SameKind(c.value, d.value)
  }

  ghost predicate SameShape(m: seq<Clause>, n: seq<Clause>) {
    |m| == |n| && forall i | 0 <= i < |m| :: SameClause(m[i], n[i])
  }

  /** The literals within a message begin with a space. */
  predicate IsSpaced(m: seq<Clause>) {
    forall i | 0 <= i < |m| :: !m[i].literal.Opening?
  }

  function Told(m: seq<Clause>): seq<Value>
    requires AllShown(m)
  {
    if m == [] then [] else [Seen(m[0].value)] + Told(m[1..])
  }

  lemma TextStarts(m: seq<Clause>)
    requires AllShown(m) && IsSpaced(m)
    ensures Text(m) != [] ==> Text(m)[0] == SPACE
  {
    hide Show;
    if m != [] {
      WordsStart(m[0].literal);
      hide Words;
    }
  }

  lemma WordsStart(l: Literal)
    requires !l.Opening?
    ensures |Words(l)| > 0 && Words(l)[0] == ' '
  {
  }

  /** With the same literals in the same places, equal texts show equal values, and the other way
      round. */
  lemma {:induction false} ReadsBack(m: seq<Clause>, n: seq<Clause>)
    requires SameShape(m, n) && AllShown(m) && AllShown(n)
    requires m != [] ==> IsSpaced(m[1..])
    ensures Text(m) == Text(n) <==> Told(m) == Told(n)
    decreases |m|
  {
    if m != [] {
      var v, w, x, y := m[0].value, n[0].value, Text(m[1..]), Text(n[1..]);
      assert IsSpaced(n[1..]);
      ReadsBack(m[1..], n[1..]);
      TextStarts(m[1..]);
      TextStarts(n[1..]);
      TextOfSeen(v);
      TextOfSeen(w);
      hide Show, Seen;
      assert Told(m)[0] == Seen(v) && Told(n)[0] == Seen(w);
      assert Told(m)[1..] == Told(m[1..]) && Told(n)[1..] == Told(n[1..]);
      if Text(m) == Text(n) {
        PrefixSplit(Ascii(Words(m[0].literal)), Show(v) + x, Ascii(Words(n[0].literal)), Show(w) + y);
        NoSpace(v);
        NoSpace(w);
        UpToSpace(Show(v), x, Show(w), y);
        ValuesDiffer(v, w);
      }
    }
  }

  // ----- The messages tell their operations apart -----

  /** The number of the operation, from characters of the first literal. */
  function ReadOperation(t: bytes): nat {
    if |t| < 11 then 0
    else if t[0] == 'R' as int then
      if t[2] == 'c' as int then 1 else if t[2] == 'm' as int then 9 else 12
    else if t[0] == 'O' as int then
      if t[5] == 'q' as int then 2 else if t[5] == 'O' as int then 4 else 6
    else if t[0] == 'C' as int then 3
    else if t[0] == 'A' as int then
      if t[1] == 'd' as int then 8 else if t[1] == 'l' as int then 10 else if t[10] == 'O' as int then 5 else 7
    else if t[0] == 'B' as int then 11
    else if t[0] == 'S' as int then
      if t[4] == 'p' as int then 13 else if t[4] == 'q' as int then 14 else if t[4] == 'd' as int then 15 else 16
    else
      if t[8] == 'q' as int then 17 else if t[8] == 'd' as int then 18 else 19
  }

  lemma FirstOpenings(operation: nat, rest: bytes)
    requires 1 <= operation <= 3
    ensures ReadOperation(Ascii(OpeningWords(operation)) + rest) == operation
  {
    var words := OpeningWords(operation);
    assert forall i | 0 <= i < |words| :: (Ascii(words) + rest)[i] == Ascii(words)[i];
  }

  lemma SessionOpenings(operation: nat, rest: bytes)
    requires 4 <= operation <= 7
    ensures ReadOperation(Ascii(OpeningWords(operation)) + rest) == operation
  {
    var words := OpeningWords(operation);
    assert forall i | 0 <= i < |words| :: (Ascii(words) + rest)[i] == Ascii(words)[i];
  }

  lemma AdminOpenings(operation: nat, rest: bytes)
    requires 8 <= operation <= 13
    ensures ReadOperation(Ascii(OpeningWords(operation)) + rest) == operation
  {
    var words := OpeningWords(operation);
    assert forall i | 0 <= i < |words| :: (Ascii(words) + rest)[i] == Ascii(words)[i];
  }

  lemma LastOpenings(operation: nat, rest: bytes)
    requires 14 <= operation <= 19
    ensures ReadOperation(Ascii(OpeningWords(operation)) + rest) == operation
  {
    var words := OpeningWords(operation);
    assert forall i | 0 <= i < |words| :: (Ascii(words) + rest)[i] == Ascii(words)[i];
  }

  lemma OpeningReadsBack(operation: nat, rest: bytes)
    requires 1 <= operation <= 19
    ensures ReadOperation(Ascii(OpeningWords(operation)) + rest) == operation
  {
    hide OpeningWords, ReadOperation;
    if operation <= 3 {
      FirstOpenings(operation, rest);
    } else if operation <= 7 {
      SessionOpenings(operation, rest);
    } else if operation <= 13 {
      AdminOpenings(operation, rest);
    } else {
      LastOpenings(operation, rest);
    }
  }

  lemma OperationReadsBack(c: C.Call)
    requires !c.Init? && AllShown(MessageOf(c))
    ensures ReadOperation(Text(MessageOf(c))) == C.Number(c)
  {
    hide ReadOperation, MessageOf, OpeningWords, Show;
    var m := MessageOf(c);
    OpeningReadsBack(C.Number(c), Show(m[0].value) + Text(m[1..]));
  }

  lemma OperationFixesShape(c: C.Call, d: C.Call)
    requires !c.Init? && !d.Init? && C.Number(c) == C.Number(d)
    ensures SameShape(MessageOf(c), MessageOf(d)) && IsSpaced(MessageOf(c)[1..])
  {
    hide AdminMessage, MessageOf;
    match c {
      case Admin(_, _, _, _, _, _) => AdminShape(c, d);
      case QuorumContribute(_, _, _, _, _, _, _, _, _, _, _, _) => ContributeShape(c, d);
      case QuorumSessionOpen(_, _, _, _, _, _, _, _, _, _, _, _) => QuorumShape(c, d);
      case _ => OtherShape(c, d);
    }
  }

  lemma ContributeShape(c: C.Call, d: C.Call)
    requires c.QuorumContribute? && d.QuorumContribute? && C.Number(c) == C.Number(d)
    ensures SameShape(MessageOf(c), MessageOf(d)) && IsSpaced(MessageOf(c)[1..])
  {
    hide AdminMessage, C.Number;
  }

  lemma QuorumShape(c: C.Call, d: C.Call)
    requires c.QuorumSessionOpen? && d.QuorumSessionOpen? && C.Number(c) == C.Number(d)
    ensures SameShape(MessageOf(c), MessageOf(d)) && IsSpaced(MessageOf(c)[1..])
  {
    hide AdminMessage, C.Number;
  }

  lemma SameOperation(c: C.Call, d: C.Call)
    requires C.Number(c) == C.Number(d)
    ensures (c.PrimaryRecover? <==> d.PrimaryRecover?) && (c.OidcSessionOpen? <==> d.OidcSessionOpen?)
    ensures (c.OidcPrimaryUse? <==> d.OidcPrimaryUse?) && (c.PasskeySessionOpen? <==> d.PasskeySessionOpen?)
    ensures (c.PasskeyPrimaryUse? <==> d.PasskeyPrimaryUse?) && (c.Admin? <==> d.Admin?)
    ensures (c.QuorumSessionOpen? <==> d.QuorumSessionOpen?) && (c.QuorumContribute? <==> d.QuorumContribute?)
  {
  }

  lemma OtherShape(c: C.Call, d: C.Call)
    requires !c.Init? && !c.QuorumSessionOpen? && !c.QuorumContribute? && !c.Admin?
    requires !d.Init? && C.Number(c) == C.Number(d)
    ensures SameShape(MessageOf(c), MessageOf(d)) && IsSpaced(MessageOf(c)[1..])
  {
    SameOperation(c, d);
    hide AdminMessage, C.Number;
  }

  lemma AdminShape(c: C.Call, d: C.Call)
    requires c.Admin? && d.Admin? && C.Number(c) == C.Number(d)
    ensures SameShape(MessageOf(c), MessageOf(d)) && IsSpaced(MessageOf(c)[1..])
  {
    AdminFixesShape(c.op, d.op, c.policy, c.dwallet, d.policy, d.dwallet);
    hide AdminMessage;
  }

  lemma AdminFixesShape(o: C.AdminOp, p: C.AdminOp, policy: Bytes32, dwallet: Bytes32, policy': Bytes32,
                        dwallet': Bytes32)
    requires C.AdminNumber(o) == C.AdminNumber(p)
    ensures var m := AdminMessage(o, policy, dwallet);
            SameShape(m, AdminMessage(p, policy', dwallet')) && IsSpaced(m[1..])
  {
  }

  /** The main result: two challenges have the same text if and only if they are the same operation
      and show the same values. So what is read is what is signed, for every value that is shown. */
  lemma TextTellsIff(c: C.Call, d: C.Call)
    requires !c.Init? && !d.Init? && AllShown(MessageOf(c)) && AllShown(MessageOf(d))
    ensures Text(MessageOf(c)) == Text(MessageOf(d))
            <==> C.Number(c) == C.Number(d) && Told(MessageOf(c)) == Told(MessageOf(d))
  {
    OperationReadsBack(c);
    OperationReadsBack(d);
    hide Text, ReadOperation, C.Number;
    if C.Number(c) == C.Number(d) {
      OperationFixesShape(c, d);
      hide MessageOf, SameShape, Told;
      ReadsBack(MessageOf(c), MessageOf(d));
    }
  }

  // ----- No text overflows the buffer -----

  /** The longest text of a value. */
  function Reach(v: Value): nat {
    match v
    case Address(_) => 44
    case Digest(_) => 64
    case Member(_) => 78
    case _ => 20
  }

  function Width(c: Clause): nat {
    |Words(c.literal)| + Reach(c.value)
  }

  function Room(m: seq<Clause>): nat {
    if m == [] then 0 else Width(m[0]) + Room(m[1..])
  }

  lemma TimesFit(t: i64)
    ensures |Decimal(Size(t))| <= 19
  {
    assert Pow(10, 19) == 10_000_000_000_000_000_000 by {
      PowAdd(10, 9, 10);
      PowAdd(10, 5, 5);
      assert Pow(10, 2) == 100;
      assert Pow(10, 4) == 10_000;
      assert Pow(10, 9) == 1_000_000_000 by {
        PowAdd(10, 4, 5);
      }
    }
    FewDigits(Size(t), 10, 19);
  }

  lemma ShowFits(v: Value)
    requires IsShown(v)
    ensures |Show(v)| <= Reach(v)
  {
    hide Decimal, Base58;
    match v {
      case Address(a) => Base58Fits(a);
      case Digest(_) =>
      case Number(n) => DecimalIsShort(n);
      case Time(t) => TimesFit(t);
      case Limit(_, n) => DecimalIsShort(n);
      case Member(slot) => OneDigit(slot[0]);
    }
  }

  lemma {:induction false} TextSnoc(m: seq<Clause>, c: Clause)
    requires AllShown(m) && IsShown(c.value)
    ensures AllShown(m + [c]) && Text(m + [c]) == Text(m) + (Ascii(Words(c.literal)) + Show(c.value))
  {
    hide Show, Words;
    if m == [] {
      assert m + [c] == [c];
    } else {
      TextSnoc(m[1..], c);
      assert (m + [c])[1..] == m[1..] + [c];
    }
  }

  lemma {:induction false} TextFitsRoom(m: seq<Clause>)
    requires AllShown(m)
    ensures |Text(m)| <= Room(m)
  {
    hide Show, Words, Reach;
    if m != [] {
      ShowFits(m[0].value);
      TextFitsRoom(m[1..]);
    }
  }

  lemma {:induction false} RoomSplits(m: seq<Clause>, n: seq<Clause>)
    ensures Room(m + n) == Room(m) + Room(n)
  {
    hide Width;
    if m == [] {
      assert m + n == n;
    } else {
      RoomSplits(m[1..], n);
      assert (m + n)[1..] == m[1..] + n;
    }
  }

  lemma {:induction false} RoomBound(m: seq<Clause>, width: nat)
    requires forall i | 0 <= i < |m| :: Width(m[i]) <= width
    ensures Room(m) <= |m| * width
  {
    hide Width;
    if m != [] {
      RoomBound(m[1..], width);
      assert |m| * width == (|m| - 1) * width + width;
    }
  }

  lemma WordsFit(l: Literal)
    ensures |Words(l)| <= 33 && (l.Opening? || |Words(l)| <= 31)
  {
  }

  lemma ContributeFits(c: C.Call)
    requires c.QuorumContribute?
    ensures Room(MessageOf(c)) <= C.MAX_HUMAN_MESSAGE_BYTES
  {
    hide Words, Room;
    var who := [Clause(Opening(3), Address(c.session)), Clause(AsMember, Member(c.member))];
    var how := [Clause(ForDWallet, Address(c.dwallet)), Clause(Amount, Number(c.amount))];
    var what := [Clause(Destination, Digest(c.destination)), Clause(Message, Digest(c.messageDigest)),
                 Clause(Metadata, Digest(c.metadataDigest)), Clause(Scheme, Number(c.scheme)),
                 Clause(User, Digest(c.userPubkey)), Clause(Expires, Time(c.expiresAt))];
    assert MessageOf(c) == who + how + what;
    hide MessageOf;
    RoomSplits(who, how);
    RoomSplits(who + how, what);
    ContributeWords();
    RoomBound(who, 89);
    RoomBound(how, 57);
    RoomBound(what, 77);
  }

  lemma ContributeWords()
    ensures |Words(Opening(3))| == 29 && |Words(AsMember)| == 11 && |Words(ForDWallet)| == 13 && |Words(Amount)| == 8
    ensures |Words(Destination)| == 13 && |Words(Message)| == 9 && |Words(Metadata)| == 10 && |Words(Scheme)| == 8
    ensures |Words(User)| == 6 && |Words(Expires)| == 9
  {
  }

  /** Every message leaves room to spare in the buffer, so no write ever fails for want of it. */
  lemma MessageFits(c: C.Call)
    requires !c.Init?
    ensures Room(MessageOf(c)) <= C.MAX_HUMAN_MESSAGE_BYTES
  {
    if c.QuorumContribute? {
      ContributeFits(c);
    } else {
      var m := MessageOf(c);
      assert |m| <= 7 && forall i | 0 <= i < |m| :: m[i].value.Member? ==> c.Admin?;
      forall i | 0 <= i < |m|
        ensures Width(m[i]) <= if c.Admin? then 111 else 97
      {
        WordsFit(m[i].literal);
      }
      assert c.Admin? ==> |m| <= 3;
      hide MessageOf, Width;
      RoomBound(m, if c.Admin? then 111 else 97);
    }
  }

  /** The text of a challenge as it is hashed. */
  function TextOf(c: C.Call): (text: C.Human)
    requires !c.Init? && AllShown(MessageOf(c))
  {
    MessageFits(c);
    TextFitsRoom(MessageOf(c));
    Text(MessageOf(c))
  }

  function WithText(c: C.Call): C.Call
    requires !c.Init? && AllShown(MessageOf(c))
  {
    c.(human := TextOf(c))
  }
}
