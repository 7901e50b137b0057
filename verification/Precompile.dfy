/** Reading the Instructions sysvar for a signature precompile invocation
    (contracts/auth/src/precompile.rs): which bytes of a transaction count as a key having signed a
    message. Offsets fit a machine word many times over, so the checked additions never fail. */
module Precompile {
  import opened Bytes

  datatype PrecompileError = SysvarTooShort | InvalidLayout | CrossInstructionUnsupported | NoMatchingInvocation

  datatype Outcome<+T> = Ok(value: T) | Err(error: PrecompileError)

  const ED25519_ID: bytes :=
    [0x03, 0x7d, 0x46, 0xd6, 0x7c, 0x93, 0xfb, 0xbe, 0x12, 0xf9, 0x42, 0x8f, 0x83, 0x8d, 0x40, 0xff,
     0x05, 0x70, 0x74, 0x49, 0x27, 0xf4, 0x8a, 0x64, 0xfc, 0xca, 0x70, 0x44, 0x80, 0x00, 0x00, 0x00]
  const SECP256K1_ID: bytes :=
    [0x04, 0xc6, 0xfc, 0x20, 0xf0, 0x50, 0xcc, 0xf0, 0x55, 0x84, 0xd7, 0x21, 0x1c, 0x9f, 0x8c, 0xf5,
     0x9e, 0xc1, 0x47, 0x85, 0xbb, 0x16, 0x6a, 0x1e, 0x28, 0x30, 0xe8, 0x12, 0x20, 0x00, 0x00, 0x00]
  const SECP256R1_ID: bytes :=
    [0x06, 0x92, 0x0d, 0xec, 0x2f, 0xea, 0x71, 0xb5, 0xb7, 0x23, 0x81, 0x4d, 0x74, 0x2d, 0xa9, 0x03,
     0x1c, 0x83, 0xe7, 0x5f, 0xdb, 0x79, 0x5d, 0x56, 0x8e, 0x75, 0x47, 0x80, 0x20, 0x00, 0x00, 0x00]

  const ACCOUNT_META_LEN: nat := 33
  const PROGRAM_ID_LEN: nat := 32

  // ----- Reading -----

  function U16(b: bytes, o: nat): nat
    requires o + 2 <= |b|
  {
    var low: int := b[o];
    var high: int := b[o + 1];
    low + 0x100 * high
  }

  function ReadU16(b: bytes, o: nat): Outcome<nat> {
    if o + 2 > |b| then Err(SysvarTooShort) else Ok(U16(b, o))
  }

  function ReadSlice(b: bytes, o: nat, len: nat): Outcome<bytes> {
    if o + len > |b| then Err(SysvarTooShort) else Ok(b[o..o + len])
  }

  /** The program and the data of an instruction. */
  datatype Body = Body(program: bytes, data: bytes)

  /** The body of instruction i: its offset from the table, past its accounts. */
  function BodyAt(sysvar: bytes, i: nat): Outcome<Body> {
    var offset := ReadU16(sysvar, 2 + 2 * i);
    if offset.Err? then Err(offset.error) else
    var accounts := ReadU16(sysvar, offset.value);
    if accounts.Err? then Err(accounts.error) else
    var at := offset.value + 2 + ACCOUNT_META_LEN * accounts.value;
    var program := ReadSlice(sysvar, at, PROGRAM_ID_LEN);
    if program.Err? then Err(program.error) else
    var len := ReadU16(sysvar, at + PROGRAM_ID_LEN);
    if len.Err? then Err(len.error) else
    var data := ReadSlice(sysvar, at + PROGRAM_ID_LEN + 2, len.value);
    if data.Err? then Err(data.error) else Ok(Body(program.value, data.value))
  }

  // ----- Records -----

  /** The two layouts of offset records: Ed25519 and Secp256r1, and Secp256k1. */
  datatype Layout = Long | Short

  function HeaderLen(l: Layout): nat {
    if l.Long? then 2 else 1
  }

  function RecordLen(l: Layout): nat {
    if l.Long? then 14 else 11
  }

  function SignatureLen(l: Layout): nat {
    if l.Long? then 64 else 65
  }

  predicate IsTable(data: bytes, l: Layout) {
    |data| >= HeaderLen(l) && HeaderLen(l) + data[0] * RecordLen(l) <= |data|
  }

  /** Where the fields of record r stand. */
  datatype Fields = Fields(signature: nat, key: nat, message: nat, size: nat, isSelf: bool)

  function FieldsAt(data: bytes, l: Layout, r: nat): Fields
    requires IsTable(data, l) && r < data[0]
  {
    assert (r + 1) * RecordLen(l) <= data[0] * RecordLen(l);
    var o := HeaderLen(l) + r * RecordLen(l);
    if l.Long? then
      Fields(U16(data, o), U16(data, o + 4), U16(data, o + 8), U16(data, o + 10),
             U16(data, o + 2) == 0xFFFF && U16(data, o + 6) == 0xFFFF && U16(data, o + 12) == 0xFFFF)
    else
      Fields(U16(data, o), U16(data, o + 3), U16(data, o + 6), U16(data, o + 8),
             data[o + 2] == 0xFF && data[o + 5] == 0xFF && data[o + 10] == 0xFF)
  }

  /** The key and the message record r vouches for, when it refers to its own instruction throughout. */
  function RecordAt(data: bytes, l: Layout, keyLen: nat, r: nat): Outcome<(bytes, bytes)>
    requires IsTable(data, l) && r < data[0]
  {
    var f := FieldsAt(data, l, r);
    if !f.isSelf then Err(CrossInstructionUnsupported)
    else if f.signature + SignatureLen(l) > |data| || f.key + keyLen > |data| || f.message + f.size > |data| then
      Err(SysvarTooShort)
    else Ok((data[f.key..f.key + keyLen], data[f.message..f.message + f.size]))
  }

  // ----- What is being looked for -----

  datatype Wanted = Wanted(layout: Layout, program: bytes, key: bytes, message: bytes)

  predicate IsHit(data: bytes, w: Wanted, r: nat)
    requires IsTable(data, w.layout) && r < data[0]
  {
    RecordAt(data, w.layout, |w.key|, r) == Ok((w.key, w.message))
  }

  /** Going through the records of one instruction from record r on. */
  function Scan(data: bytes, w: Wanted, r: nat): Outcome<bool>
    requires IsTable(data, w.layout) && r <= data[0]
    decreases data[0] - r
  {
    if r == data[0] then Ok(false)
    else
      var found := RecordAt(data, w.layout, |w.key|, r);
      if found.Err? then Err(found.error)
      else if found.value == (w.key, w.message) then Ok(true)
      else Scan(data, w, r + 1)
  }

  function ScanBody(b: Body, w: Wanted): Outcome<bool> {
    if b.program != w.program then Ok(false)
    else if !IsTable(b.data, w.layout) then Err(InvalidLayout)
    else Scan(b.data, w, 0)
  }

  /** Going through the instructions from instruction i on. */
  function Search(sysvar: bytes, w: Wanted, i: nat): Outcome<()>
    requires |sysvar| >= 2 && i <= U16(sysvar, 0)
    decreases U16(sysvar, 0) - i
  {
    if i == U16(sysvar, 0) then Err(NoMatchingInvocation)
    else
      var b := BodyAt(sysvar, i);
      if b.Err? then Err(b.error)
      else
        var found := ScanBody(b.value, w);
        if found.Err? then Err(found.error)
        else if found.value then Ok(())
        else Search(sysvar, w, i + 1)
  }

  function Find(sysvar: bytes, w: Wanted): Outcome<()> {
    if |sysvar| < 2 then Err(SysvarTooShort) else Search(sysvar, w, 0)
  }

  ghost predicate CleanUpTo(data: bytes, w: Wanted, r: nat)
    requires IsTable(data, w.layout) && r <= data[0]
  {
    forall k: nat | k < r :: RecordAt(data, w.layout, |w.key|, k).Ok?
  }

  /** Instruction i gives no reason to refuse: it is another program's, or all its records are sound. */
  ghost predicate IsClean(sysvar: bytes, w: Wanted, i: nat) {
    var b := BodyAt(sysvar, i);
    b.Ok? && (b.value.program == w.program ==>
                IsTable(b.value.data, w.layout) && CleanUpTo(b.value.data, w, b.value.data[0]))
  }

  /** Record r of instruction i is the wanted one, and nothing ahead of it in the instruction is
      unsound. */
  ghost predicate IsMet(sysvar: bytes, w: Wanted, i: nat, r: nat) {
    var b := BodyAt(sysvar, i);
    b.Ok? && b.value.program == w.program && IsTable(b.value.data, w.layout) && r < b.value.data[0]
    && CleanUpTo(b.value.data, w, r) && IsHit(b.value.data, w, r)
  }

  ghost predicate CleanBefore(sysvar: bytes, w: Wanted, i: nat) {
    forall k: nat | k < i :: IsClean(sysvar, w, k)
  }

  /** A self-contained record of the wanted key and message is met before anything unsound. */
  ghost predicate IsVouched(sysvar: bytes, w: Wanted) {
    |sysvar| >= 2
    && exists i: nat, r: nat :: i < U16(sysvar, 0) && CleanBefore(sysvar, w, i) && IsMet(sysvar, w, i, r)
  }

  /** The error is that of the first unsound thing, and NoMatchingInvocation when there is none. */
  ghost predicate IsRefusal(sysvar: bytes, w: Wanted, e: PrecompileError) {
    if |sysvar| < 2 then e == SysvarTooShort
    else if CleanBefore(sysvar, w, U16(sysvar, 0)) then e == NoMatchingInvocation
    else exists i: nat :: i < U16(sysvar, 0) && CleanBefore(sysvar, w, i) && Breaks(sysvar, w, i, e)
  }

  /** Instruction i is unsound, and e is what its first unsound part is called. */
  ghost predicate Breaks(sysvar: bytes, w: Wanted, i: nat, e: PrecompileError) {
    var b := BodyAt(sysvar, i);
    if b.Err? then e == b.error
    else if b.value.program != w.program then false
    else if !IsTable(b.value.data, w.layout) then e == InvalidLayout
    else exists r: nat :: r < b.value.data[0] && CleanUpTo(b.value.data, w, r)
                          && RecordAt(b.value.data, w.layout, |w.key|, r) == Err(e)
  }

  // ----- The loops -----

  method ReadIxBody(sysvar: bytes, i: nat) returns (r: Outcome<Option<Body>>)
    ensures r == if |sysvar| < 2 then Err(SysvarTooShort) else if i >= U16(sysvar, 0) then Ok(None)
                 else if BodyAt(sysvar, i).Err? then Err(BodyAt(sysvar, i).error) else Ok(Some(BodyAt(sysvar, i).value))
  {
    if |sysvar| < 2 {
      return Err(SysvarTooShort);
    }
    var n := ReadU16(sysvar, 0);
    if i >= n.value {
      return Ok(None);
    }
    var offset := ReadU16(sysvar, 2 + i * 2);
    if offset.Err? {
      return Err(offset.error);
    }
    var accounts := ReadU16(sysvar, offset.value);
    if accounts.Err? {
      return Err(accounts.error);
    }
    var at := offset.value + 2 + accounts.value * ACCOUNT_META_LEN;
    var program := ReadSlice(sysvar, at, PROGRAM_ID_LEN);
    if program.Err? {
      return Err(program.error);
    }
    var len := ReadU16(sysvar, at + PROGRAM_ID_LEN);
    if len.Err? {
      return Err(len.error);
    }
    var data := ReadSlice(sysvar, at + PROGRAM_ID_LEN + 2, len.value);
    if data.Err? {
      return Err(data.error);
    }
    return Ok(Some(Body(program.value, data.value)));
  }

  /** The reads of one record in the loop of find_long_record. */
  method ReadLongRecord(data: bytes, k: nat, keyLen: nat) returns (r: Outcome<(bytes, bytes)>)
    requires IsTable(data, Long) && k < data[0]
    ensures r == RecordAt(data, Long, keyLen, k)
  {
    var records: nat := data[0];
    assert (k + 1) * 14 <= records * 14;
    var o := 2 + k * 14;
    var signature, key, message, size := U16(data, o), U16(data, o + 4), U16(data, o + 8), U16(data, o + 10);
    if U16(data, o + 2) != 0xFFFF || U16(data, o + 6) != 0xFFFF || U16(data, o + 12) != 0xFFFF {
      return Err(CrossInstructionUnsupported);
    }
    var s := ReadSlice(data, signature, 64);
    if s.Err? {
      return Err(s.error);
    }
    var pk := ReadSlice(data, key, keyLen);
    if pk.Err? {
      return Err(pk.error);
    }
    var msg := ReadSlice(data, message, size);
    if msg.Err? {
      return Err(msg.error);
    }
    return Ok((pk.value, msg.value));
  }

  method ReadShortRecord(data: bytes, k: nat, keyLen: nat) returns (r: Outcome<(bytes, bytes)>)
    requires IsTable(data, Short) && k < data[0]
    ensures r == RecordAt(data, Short, keyLen, k)
  {
    var records: nat := data[0];
    assert (k + 1) * 11 <= records * 11;
    var o := 1 + k * 11;
    var signature, key, message, size := U16(data, o), U16(data, o + 3), U16(data, o + 6), U16(data, o + 8);
    if data[o + 2] != 0xFF || data[o + 5] != 0xFF || data[o + 10] != 0xFF {
      return Err(CrossInstructionUnsupported);
    }
    var s := ReadSlice(data, signature, 64 + 1);
    if s.Err? {
      return Err(s.error);
    }
    var addr := ReadSlice(data, key, keyLen);
    if addr.Err? {
      return Err(addr.error);
    }
    var msg := ReadSlice(data, message, size);
    if msg.Err? {
      return Err(msg.error);
    }
    return Ok((addr.value, msg.value));
  }

  method FindLongRecord(sysvar: bytes, w: Wanted) returns (r: Outcome<()>)
    requires w.layout == Long
    ensures r == Find(sysvar, w)
  {
    hide RecordAt, BodyAt;
    if |sysvar| < 2 {
      return Err(SysvarTooShort);
    }
    var n := U16(sysvar, 0);
    for i: nat := 0 to n
      invariant Search(sysvar, w, 0) == Search(sysvar, w, i)
    {
      var body := ReadIxBody(sysvar, i);
      if body.Err? {
        return Err(body.error);
      }
      var b := body.value.value;
      if b.program != w.program {
        continue;
      }
      if |b.data| < 2 {
        return Err(InvalidLayout);
      }
      var records := b.data[0];
      if 2 + records * 14 > |b.data| {
        return Err(InvalidLayout);
      }
      for k: nat := 0 to records
        invariant Scan(b.data, w, 0) == Scan(b.data, w, k)
      {
        var record := ReadLongRecord(b.data, k, |w.key|);
        if record.Err? {
          return Err(record.error);
        }
        if record.value == (w.key, w.message) {
          return Ok(());
        }
      }
    }
    return Err(NoMatchingInvocation);
  }

  method FindShortRecord(sysvar: bytes, w: Wanted) returns (r: Outcome<()>)
    requires w.layout == Short
    ensures r == Find(sysvar, w)
  {
    hide RecordAt, BodyAt;
    if |sysvar| < 2 {
      return Err(SysvarTooShort);
    }
    var n := U16(sysvar, 0);
    for i: nat := 0 to n
      invariant Search(sysvar, w, 0) == Search(sysvar, w, i)
    {
      var body := ReadIxBody(sysvar, i);
      if body.Err? {
        return Err(body.error);
      }
      var b := body.value.value;
      if b.program != w.program {
        continue;
      }
      if b.data == [] {
        return Err(InvalidLayout);
      }
      var records := b.data[0];
      if 1 + records * 11 > |b.data| {
        return Err(InvalidLayout);
      }
      for k: nat := 0 to records
        invariant Scan(b.data, w, 0) == Scan(b.data, w, k)
      {
        var record := ReadShortRecord(b.data, k, |w.key|);
        if record.Err? {
          return Err(record.error);
        }
        if record.value == (w.key, w.message) {
          return Ok(());
        }
      }
    }
    return Err(NoMatchingInvocation);
  }

  function Ed25519(key: bytes, message: bytes): Wanted {
    Wanted(Long, ED25519_ID, key, message)
  }

  function Secp256r1(key: bytes, message: bytes): Wanted {
    Wanted(Long, SECP256R1_ID, key, message)
  }

  function Secp256k1(address: bytes, message: bytes): Wanted {
    Wanted(Short, SECP256K1_ID, address, message)
  }

  // ----- What an acceptance means -----

  lemma {:induction false} ScanMeans(data: bytes, w: Wanted, r: nat)
    requires IsTable(data, w.layout) && r <= data[0] && CleanUpTo(data, w, r)
    ensures var s := Scan(data, w, r);
            && (s == Ok(true) <==> exists k: nat :: r <= k < data[0] && CleanUpTo(data, w, k) && IsHit(data, w, k))
            && (s == Ok(false) ==> CleanUpTo(data, w, data[0]))
            && (s.Err? ==> exists k: nat :: r <= k < data[0] && CleanUpTo(data, w, k)
                                            && RecordAt(data, w.layout, |w.key|, k) == Err(s.error))
    decreases data[0] - r
  {
    hide RecordAt;
    if r < data[0] {
      var found := RecordAt(data, w.layout, |w.key|, r);
      if found.Ok? && found.value != (w.key, w.message) {
        ScanMeans(data, w, r + 1);
      }
    }
  }

  lemma BodyMeans(sysvar: bytes, w: Wanted, i: nat)
    requires BodyAt(sysvar, i).Ok?
    ensures var s := ScanBody(BodyAt(sysvar, i).value, w);
            && (s == Ok(true) <==> exists r: nat :: IsMet(sysvar, w, i, r))
            && (s == Ok(false) ==> IsClean(sysvar, w, i))
            && (s.Err? ==> Breaks(sysvar, w, i, s.error) && !IsClean(sysvar, w, i))
  {
    hide RecordAt, BodyAt;
    var b := BodyAt(sysvar, i).value;
    if b.program == w.program && IsTable(b.data, w.layout) {
      ScanMeans(b.data, w, 0);
      if Scan(b.data, w, 0) == Ok(true) {
        var k: nat :| k < b.data[0] && CleanUpTo(b.data, w, k) && IsHit(b.data, w, k);
        assert IsMet(sysvar, w, i, k);
      }
    }
  }

  /** What is met, or broken, at instruction i settles the search. */
  ghost predicate MetFrom(sysvar: bytes, w: Wanted, i: nat)
    requires |sysvar| >= 2
  {
    exists k: nat, r: nat :: i <= k < U16(sysvar, 0) && CleanBefore(sysvar, w, k) && IsMet(sysvar, w, k, r)
  }

  lemma SettledHere(sysvar: bytes, w: Wanted, i: nat)
    requires |sysvar| >= 2 && i < U16(sysvar, 0) && CleanBefore(sysvar, w, i)
    ensures !IsClean(sysvar, w, i) ==>
              (MetFrom(sysvar, w, i) <==> exists r: nat :: IsMet(sysvar, w, i, r))
              && !CleanBefore(sysvar, w, U16(sysvar, 0))
    ensures IsClean(sysvar, w, i) ==> CleanBefore(sysvar, w, i + 1)
  {
    hide IsClean, IsMet;
  }

  lemma {:induction false} SearchMeans(sysvar: bytes, w: Wanted, i: nat)
    requires |sysvar| >= 2 && i <= U16(sysvar, 0) && CleanBefore(sysvar, w, i)
    ensures var s := Search(sysvar, w, i);
            (s.Ok? <==> MetFrom(sysvar, w, i)) && (s.Err? ==> IsRefusal(sysvar, w, s.error))
    decreases U16(sysvar, 0) - i
  {
    hide IsClean, IsMet, CleanBefore, ScanBody, BodyAt, Breaks;
    if i < U16(sysvar, 0) {
      SettledHere(sysvar, w, i);
      var b := BodyAt(sysvar, i);
      if b.Err? {
        UnreadableBreaks(sysvar, w, i);
      } else {
        BodyMeans(sysvar, w, i);
        var found := ScanBody(b.value, w);
        if found == Ok(false) {
          SearchMeans(sysvar, w, i + 1);
        } else if found == Ok(true) {
          var r: nat :| IsMet(sysvar, w, i, r);
          assert MetFrom(sysvar, w, i);
        }
      }
    }
  }

  lemma UnreadableBreaks(sysvar: bytes, w: Wanted, i: nat)
    requires BodyAt(sysvar, i).Err?
    ensures Breaks(sysvar, w, i, BodyAt(sysvar, i).error) && !IsClean(sysvar, w, i)
    ensures forall r: nat :: !IsMet(sysvar, w, i, r)
  {
  }

  /** Accepted if and only if a self-contained record of this very key and message, in an instruction
      of the right program, is met before anything unsound; and a refusal says what was unsound first. */
  lemma VouchedIff(sysvar: bytes, w: Wanted)
    ensures Find(sysvar, w).Ok? <==> IsVouched(sysvar, w)
    ensures Find(sysvar, w).Err? ==> IsRefusal(sysvar, w, Find(sysvar, w).error)
  {
    hide IsMet, IsClean;
    if |sysvar| >= 2 {
      SearchMeans(sysvar, w, 0);
    }
  }
}
