/** The bytes the precompile search reads, written down on their own: the offset records in the order
    of the layouts at the head of contracts/auth/src/precompile.rs, and the Instructions sysvar around
    them. What was written is what is read. */
module SysvarWriter {
  import opened Bytes
  import opened Precompile

  // ----- Offset records -----

  /** One record: where signature, key and message stand, and in which instruction. */
  datatype Offsets = Offsets(signature: u16, signatureIx: u16, key: u16, keyIx: u16, message: u16, size: u16,
                             messageIx: u16)

  /** Indices are one byte wide in the short layout. */
  predicate IsRecord(l: Layout, f: Offsets) {
    l.Short? ==> f.signatureIx < 0x100 && f.keyIx < 0x100 && f.messageIx < 0x100
  }

  function IndexBytes(l: Layout, ix: u16): bytes
    requires l.Short? ==> ix < 0x100
  {
    if l.Long? then Le16(ix) else [ix]
  }

  function RecordBytes(l: Layout, f: Offsets): bytes
    requires IsRecord(l, f)
  {
    Le16(f.signature) + IndexBytes(l, f.signatureIx)
    + Le16(f.key) + IndexBytes(l, f.keyIx)
    + Le16(f.message) + Le16(f.size) + IndexBytes(l, f.messageIx)
  }

  function RecordsBytes(l: Layout, fs: seq<Offsets>): bytes
    requires forall r | 0 <= r < |fs| :: IsRecord(l, fs[r])
  {
    if fs == [] then [] else RecordsBytes(l, fs[..|fs| - 1]) + RecordBytes(l, fs[|fs| - 1])
  }

  /** Instruction data: the number of records, a padding byte in the long layout, the records, and what
      they point to. */
  function DataBytes(l: Layout, fs: seq<Offsets>, padding: byte, payload: bytes): bytes
    requires |fs| < 0x100 && forall r | 0 <= r < |fs| :: IsRecord(l, fs[r])
  {
    (if l.Long? then [|fs|, padding] else [|fs|]) + RecordsBytes(l, fs) + payload
  }

  lemma Le16Bytes(n: u16)
    ensures Le16(n) == [n % 0x100, n / 0x100]
  {
    assert Le(n / 0x100 / 0x100, 0) == [];
    assert Le(n / 0x100, 1) == [n / 0x100 % 0x100] + [];
  }

  lemma RecordFields(l: Layout, f: Offsets)
    requires IsRecord(l, f)
    ensures var b := RecordBytes(l, f);
            |b| == RecordLen(l) && U16(b, 0) == f.signature
            && if l.Long? then
                 U16(b, 2) == f.signatureIx && U16(b, 4) == f.key && U16(b, 6) == f.keyIx && U16(b, 8) == f.message
                 && U16(b, 10) == f.size && U16(b, 12) == f.messageIx
               else
                 b[2] == f.signatureIx && U16(b, 3) == f.key && b[5] == f.keyIx && U16(b, 6) == f.message
                 && U16(b, 8) == f.size && b[10] == f.messageIx
  {
    Le16Bytes(f.signature);
    Le16Bytes(f.signatureIx);
    Le16Bytes(f.key);
    Le16Bytes(f.keyIx);
    Le16Bytes(f.message);
    Le16Bytes(f.size);
    Le16Bytes(f.messageIx);
    hide Le16;
  }

  lemma {:induction false} RecordStands(l: Layout, fs: seq<Offsets>, r: nat)
    requires r < |fs| && forall k | 0 <= k < |fs| :: IsRecord(l, fs[k])
    ensures var b, at := RecordsBytes(l, fs), r * RecordLen(l);
            |b| == |fs| * RecordLen(l) && at + RecordLen(l) <= |b| && b[at..at + RecordLen(l)] == RecordBytes(l, fs[r])
    decreases |fs|
  {
    hide RecordBytes;
    var n := |fs| - 1;
    RecordFields(l, fs[n]);
    if n > 0 {
      RecordStands(l, fs[..n], if r < n then r else 0);
    }
  }

  predicate IsSelf(l: Layout, f: Offsets) {
    var self := if l.Long? then 0xFFFF else 0xFF;
    f.signatureIx == self && f.keyIx == self && f.messageIx == self
  }

  /** A record standing at `o`, field by field. */
  lemma RecordReads(data: bytes, l: Layout, o: nat, f: Offsets)
    requires IsRecord(l, f) && o + RecordLen(l) <= |data| && data[o..o + RecordLen(l)] == RecordBytes(l, f)
    ensures U16(data, o) == f.signature
    ensures if l.Long? then
              U16(data, o + 2) == f.signatureIx && U16(data, o + 4) == f.key && U16(data, o + 6) == f.keyIx
              && U16(data, o + 8) == f.message && U16(data, o + 10) == f.size && U16(data, o + 12) == f.messageIx
            else
              data[o + 2] == f.signatureIx && U16(data, o + 3) == f.key && data[o + 5] == f.keyIx
              && U16(data, o + 6) == f.message && U16(data, o + 8) == f.size && data[o + 10] == f.messageIx
  {
    RecordFields(l, f);
    hide RecordBytes;
    var b := data[o..o + RecordLen(l)];
    assert forall k: nat | k < |b| :: b[k] == data[o + k];
  }

  lemma SliceOfSlice(data: bytes, h: nat, b: bytes, at: nat, len: nat)
    requires h + |b| <= |data| && data[h..h + |b|] == b && at + len <= |b|
    ensures data[h + at..h + at + len] == b[at..at + len]
  {
    var x, y := data[h + at..h + at + len], b[at..at + len];
    forall k | 0 <= k < len
      ensures x[k] == y[k]
    {
      assert data[h..h + |b|][at + k] == data[h + at + k];
    }
  }

  lemma RecordsInData(l: Layout, fs: seq<Offsets>, padding: byte, payload: bytes)
    requires |fs| < 0x100 && forall k | 0 <= k < |fs| :: IsRecord(l, fs[k])
    ensures var data, h, b := DataBytes(l, fs, padding, payload), HeaderLen(l), RecordsBytes(l, fs);
            h + |b| <= |data| && data[0] == |fs| && data[h..h + |b|] == b
  {
    hide RecordBytes, RecordsBytes;
  }

  lemma RecordInData(l: Layout, fs: seq<Offsets>, padding: byte, payload: bytes, r: nat)
    requires r < |fs| < 0x100 && forall k | 0 <= k < |fs| :: IsRecord(l, fs[k])
    ensures var data, o := DataBytes(l, fs, padding, payload), HeaderLen(l) + r * RecordLen(l);
            IsTable(data, l) && data[0] == |fs| && o + RecordLen(l) <= |data|
            && data[o..o + RecordLen(l)] == RecordBytes(l, fs[r])
  {
    RecordStands(l, fs, r);
    RecordsInData(l, fs, padding, payload);
    hide RecordBytes, RecordsBytes, DataBytes;
    SliceOfSlice(DataBytes(l, fs, padding, payload), HeaderLen(l), RecordsBytes(l, fs), r * RecordLen(l), RecordLen(l));
  }

  /** The fields written are the fields read, of every record of either layout. */
  lemma FieldsReadBack(l: Layout, fs: seq<Offsets>, padding: byte, payload: bytes, r: nat)
    requires r < |fs| < 0x100 && forall k | 0 <= k < |fs| :: IsRecord(l, fs[k])
    ensures var data := DataBytes(l, fs, padding, payload); var f := fs[r];
            IsTable(data, l) && data[0] == |fs|
            && FieldsAt(data, l, r) == Fields(f.signature, f.key, f.message, f.size, IsSelf(l, f))
  {
    hide *;
    RecordInData(l, fs, padding, payload, r);
    FieldsStand(DataBytes(l, fs, padding, payload), l, r, fs[r]);
  }

  lemma FieldsStand(data: bytes, l: Layout, r: nat, f: Offsets)
    requires IsTable(data, l) && r < data[0] && IsRecord(l, f)
    requires var o := HeaderLen(l) + r * RecordLen(l);
             o + RecordLen(l) <= |data| && data[o..o + RecordLen(l)] == RecordBytes(l, f)
    ensures FieldsAt(data, l, r) == Fields(f.signature, f.key, f.message, f.size, IsSelf(l, f))
  {
    RecordReads(data, l, HeaderLen(l) + r * RecordLen(l), f);
    hide RecordBytes, U16, IsTable;
  }

  /** What a record vouches for: the bytes at the places written in it, unless an index points to another
      instruction or a place is past the end. */
  lemma RecordReadsBack(l: Layout, fs: seq<Offsets>, padding: byte, payload: bytes, r: nat, keyLen: nat)
    requires r < |fs| < 0x100 && forall k | 0 <= k < |fs| :: IsRecord(l, fs[k])
    ensures var data := DataBytes(l, fs, padding, payload); var f := fs[r];
            IsTable(data, l) && data[0] == |fs|
            && RecordAt(data, l, keyLen, r)
               == if !IsSelf(l, f) then Err(CrossInstructionUnsupported)
                  else if f.signature + (if l.Long? then 64 else 65) > |data| || f.key + keyLen > |data|
                          || f.message + f.size > |data| then Err(SysvarTooShort)
                  else Ok((data[f.key..f.key + keyLen], data[f.message..f.message + f.size]))
  {
    FieldsReadBack(l, fs, padding, payload, r);
    hide FieldsAt, DataBytes;
  }

  // ----- The sysvar -----

  /** `accounts` holds the metas of the accounts, thirty-three bytes each. */
  datatype Instruction = Instruction(count: u16, accounts: bytes, program: Bytes32, data: bytes)

  predicate IsWritable(ix: Instruction) {
    |ix.accounts| == 33 * ix.count && |ix.data| < 0x1_0000
  }

  function InstructionBytes(ix: Instruction): (b: bytes)
    requires IsWritable(ix)
    ensures |b| == 36 + |ix.accounts| + |ix.data|
  {
    Le16(ix.count) + ix.accounts + ix.program + Le16(|ix.data|) + ix.data
  }

  function BodiesBytes(ixs: seq<Instruction>): bytes
    requires forall i | 0 <= i < |ixs| :: IsWritable(ixs[i])
  {
    if ixs == [] then [] else BodiesBytes(ixs[..|ixs| - 1]) + InstructionBytes(ixs[|ixs| - 1])
  }

  /** Where instruction i stands: behind the count, the table of offsets and the instructions before. */
  function Start(ixs: seq<Instruction>, i: nat): nat
    requires i <= |ixs| && forall k | 0 <= k < |ixs| :: IsWritable(ixs[k])
  {
    2 + 2 * |ixs| + |BodiesBytes(ixs[..i])|
  }

  ghost predicate AllWritable(ixs: seq<Instruction>) {
    && |ixs| < 0x1_0000
    && (forall i | 0 <= i < |ixs| :: IsWritable(ixs[i]))
    && (forall i | 0 <= i < |ixs| :: Start(ixs, i) < 0x1_0000)
  }

  ghost function StartsBytes(ixs: seq<Instruction>, n: nat): bytes
    requires n <= |ixs| && AllWritable(ixs)
  {
    if n == 0 then [] else StartsBytes(ixs, n - 1) + Le16(Start(ixs, n - 1))
  }

  /** The count, where each instruction stands, the instructions, and what the runtime appends. */
  ghost function SysvarBytes(ixs: seq<Instruction>, tail: bytes): bytes
    requires AllWritable(ixs)
  {
    Le16(|ixs|) + StartsBytes(ixs, |ixs|) + BodiesBytes(ixs) + tail
  }

  lemma {:induction false} StartStands(ixs: seq<Instruction>, n: nat, i: nat)
    requires i < n <= |ixs| && AllWritable(ixs)
    ensures |StartsBytes(ixs, n)| == 2 * n && StartsBytes(ixs, n)[2 * i..2 * i + 2] == Le16(Start(ixs, i))
    decreases n
  {
    Le16Bytes(Start(ixs, n - 1));
    hide Start, Le16;
    if n > 1 {
      StartStands(ixs, n - 1, if i < n - 1 then i else 0);
    }
  }

  lemma {:induction false} BodyStands(ixs: seq<Instruction>, i: nat)
    requires i < |ixs| && forall k | 0 <= k < |ixs| :: IsWritable(ixs[k])
    ensures var at, b := |BodiesBytes(ixs[..i])|, InstructionBytes(ixs[i]);
            at + |b| <= |BodiesBytes(ixs)| && BodiesBytes(ixs)[at..at + |b|] == b
    decreases |ixs|
  {
    hide InstructionBytes;
    var n := |ixs| - 1;
    if i < n {
      BodyStands(ixs[..n], i);
      assert ixs[..n][..i] == ixs[..i];
    } else {
      assert ixs[..n] == ixs[..i];
    }
  }

  /** The parts of an instruction, each where the reader looks for it. */
  lemma InstructionParts(ix: Instruction)
    requires IsWritable(ix)
    ensures var b, at := InstructionBytes(ix), 2 + 33 * ix.count;
            |b| == at + 34 + |ix.data| && U16(b, 0) == ix.count && b[at..at + 32] == ix.program
            && U16(b, at + 32) == |ix.data| && b[at + 34..] == ix.data
  {
    Le16Bytes(ix.count);
    Le16Bytes(|ix.data|);
    hide Le16;
    var b, at := InstructionBytes(ix), 2 + 33 * ix.count;
    assert b[at..at + 32] == ix.program;
    assert b[at + 32] == Le16(|ix.data|)[0] && b[at + 33] == Le16(|ix.data|)[1];
    assert b[at + 34..] == ix.data;
  }

  /** An instruction standing at `o`, as the reader finds it. */
  lemma BodyReads(sysvar: bytes, i: nat, o: nat, ix: Instruction)
    requires IsWritable(ix) && 4 + 2 * i <= |sysvar| && U16(sysvar, 2 + 2 * i) == o
    requires o + |InstructionBytes(ix)| <= |sysvar| && sysvar[o..o + |InstructionBytes(ix)|] == InstructionBytes(ix)
    ensures BodyAt(sysvar, i) == Ok(Body(ix.program, ix.data))
  {
    InstructionParts(ix);
    var b, at := InstructionBytes(ix), 2 + 33 * ix.count;
    hide InstructionBytes;
    var found := sysvar[o..o + |b|];
    assert forall k: nat | k < |b| :: found[k] == sysvar[o + k];
    assert sysvar[o + at..o + at + 32] == b[at..at + 32];
    assert sysvar[o + at + 34..o + at + 34 + |ix.data|] == b[at + 34..];
    assert U16(sysvar, o) == ix.count;
    assert U16(sysvar, o + at + 32) == |ix.data|;
  }

  lemma CountStands(ixs: seq<Instruction>, tail: bytes)
    requires AllWritable(ixs)
    ensures |SysvarBytes(ixs, tail)| >= 2 && U16(SysvarBytes(ixs, tail), 0) == |ixs|
  {
    Le16Bytes(|ixs|);
    hide StartsBytes, BodiesBytes, Le16;
  }

  lemma StartReads(ixs: seq<Instruction>, tail: bytes, i: nat)
    requires AllWritable(ixs) && i < |ixs|
    ensures var sysvar := SysvarBytes(ixs, tail);
            4 + 2 * i <= |sysvar| && U16(sysvar, 2 + 2 * i) == Start(ixs, i)
  {
    var sysvar, starts, o := SysvarBytes(ixs, tail), StartsBytes(ixs, |ixs|), Start(ixs, i);
    StartStands(ixs, |ixs|, i);
    Le16Bytes(|ixs|);
    Le16Bytes(o);
    hide Le16, StartsBytes, BodiesBytes, Start;
    assert sysvar[2..2 + |starts|] == starts;
    SliceOfSlice(sysvar, 2, starts, 2 * i, 2);
    var two := sysvar[2 + 2 * i..2 + 2 * i + 2];
    assert two[0] == sysvar[2 + 2 * i] && two[1] == sysvar[2 + 2 * i + 1];
  }

  lemma InstructionInSysvar(ixs: seq<Instruction>, tail: bytes, i: nat)
    requires AllWritable(ixs) && i < |ixs|
    ensures var sysvar, o, b := SysvarBytes(ixs, tail), Start(ixs, i), InstructionBytes(ixs[i]);
            o + |b| <= |sysvar| && sysvar[o..o + |b|] == b
  {
    var sysvar, bodies, at := SysvarBytes(ixs, tail), BodiesBytes(ixs), |BodiesBytes(ixs[..i])|;
    if |ixs| > 0 {
      StartStands(ixs, |ixs|, 0);
    }
    BodyStands(ixs, i);
    Le16Bytes(|ixs|);
    hide Le16, StartsBytes, BodiesBytes, InstructionBytes;
    var h := 2 + 2 * |ixs|;
    assert sysvar[h..h + |bodies|] == bodies;
    SliceOfSlice(sysvar, h, bodies, at, |InstructionBytes(ixs[i])|);
  }

  /** The instructions written are the instructions read. */
  lemma BodiesReadBack(ixs: seq<Instruction>, tail: bytes, i: nat)
    requires AllWritable(ixs) && i < |ixs|
    ensures var sysvar := SysvarBytes(ixs, tail);
            |sysvar| >= 2 && U16(sysvar, 0) == |ixs| && BodyAt(sysvar, i) == Ok(Body(ixs[i].program, ixs[i].data))
  {
    CountStands(ixs, tail);
    StartReads(ixs, tail, i);
    InstructionInSysvar(ixs, tail, i);
    hide SysvarBytes, InstructionBytes, BodyAt, U16, Start;
    BodyReads(SysvarBytes(ixs, tail), i, Start(ixs, i), ixs[i]);
  }

  // ----- One invocation -----

  /** The ordinary invocation: one record, and signature, key and message one behind the other. */
  function InvocationBytes(l: Layout, signature: bytes, key: bytes, message: bytes): bytes
    requires |signature| + |key| + |message| < 0xFF00
  {
    var self, at := if l.Long? then 0xFFFF else 0xFF, if l.Long? then 16 else 12;
    var f := Offsets(at, self, at + |signature|, self, at + |signature| + |key|, |message|, self);
    DataBytes(l, [f], 0, signature + key + message)
  }

  lemma InvocationReadsBack(l: Layout, signature: bytes, key: bytes, message: bytes)
    requires |signature| == (if l.Long? then 64 else 65) && |signature| + |key| + |message| < 0xFF00
    ensures var data := InvocationBytes(l, signature, key, message);
            IsTable(data, l) && data[0] == 1 && RecordAt(data, l, |key|, 0) == Ok((key, message))
  {
    var self, at := if l.Long? then 0xFFFF else 0xFF, if l.Long? then 16 else 12;
    var f := Offsets(at, self, at + |signature|, self, at + |signature| + |key|, |message|, self);
    var data := InvocationBytes(l, signature, key, message);
    RecordReadsBack(l, [f], 0, signature + key + message, 0, |key|);
    RecordFields(l, f);
    assert [f][..0] == [];
    assert RecordsBytes(l, [f]) == [] + RecordBytes(l, f);
    hide RecordBytes, RecordAt;
    var head := (if l.Long? then [1, 0] else [1]) + RecordsBytes(l, [f]);
    assert data == head + (signature + key + message) && |head| == at;
    assert data[f.key..f.key + |key|] == key;
    assert data[f.message..f.message + |message|] == message;
  }

  /** The transaction holds one ordinary invocation of the wanted program, at `at`, among instructions of
      other programs. */
  ghost predicate HoldsOne(ixs: seq<Instruction>, at: nat, w: Wanted, signature: bytes, key: bytes, message: bytes) {
    && AllWritable(ixs) && at < |ixs|
    && |signature| == (if w.layout.Long? then 64 else 65) && |signature| + |key| + |message| < 0xFF00
    && ixs[at].program == w.program && ixs[at].data == InvocationBytes(w.layout, signature, key, message)
    && forall i | 0 <= i < |ixs| && i != at :: ixs[i].program != w.program
  }

  lemma ScanFinds(w: Wanted, signature: bytes, key: bytes, message: bytes)
    requires |signature| == (if w.layout.Long? then 64 else 65) && |signature| + |key| + |message| < 0xFF00
    requires |key| == |w.key|
    ensures ScanBody(Body(w.program, InvocationBytes(w.layout, signature, key, message)), w)
         == Ok(key == w.key && message == w.message)
  {
    InvocationReadsBack(w.layout, signature, key, message);
    hide RecordAt, InvocationBytes;
    assert Scan(InvocationBytes(w.layout, signature, key, message), w, 1) == Ok(false);
  }

  /** Instruction `at` decides a search in which no other one has anything to say. */
  lemma {:induction false} SearchStops(sysvar: bytes, w: Wanted, at: nat, hit: bool, i: nat)
    requires |sysvar| >= 2 && i <= U16(sysvar, 0) && at < U16(sysvar, 0)
    requires forall k: nat | k < U16(sysvar, 0) ::
               BodyAt(sysvar, k).Ok? && ScanBody(BodyAt(sysvar, k).value, w) == Ok(hit && k == at)
    ensures Search(sysvar, w, i) == if hit && i <= at then Ok(()) else Err(NoMatchingInvocation)
    decreases U16(sysvar, 0) - i
  {
    hide BodyAt, ScanBody, U16;
    if i < U16(sysvar, 0) {
      SearchStops(sysvar, w, at, hit, i + 1);
    }
  }

  /** It is accepted exactly for the key and the message laid down in it. */
  lemma InvocationIsFound(ixs: seq<Instruction>, tail: bytes, at: nat, w: Wanted, signature: bytes, key: bytes,
                          message: bytes)
    requires HoldsOne(ixs, at, w, signature, key, message) && |key| == |w.key|
    ensures Find(SysvarBytes(ixs, tail), w)
         == if key == w.key && message == w.message then Ok(()) else Err(NoMatchingInvocation)
  {
    var sysvar, hit := SysvarBytes(ixs, tail), key == w.key && message == w.message;
    CountStands(ixs, tail);
    hide SysvarBytes, BodyAt, InvocationBytes, Scan, U16, AllWritable, Search;
    forall k: nat | k < |ixs|
      ensures BodyAt(sysvar, k).Ok? && ScanBody(BodyAt(sysvar, k).value, w) == Ok(hit && k == at)
    {
      BodiesReadBack(ixs, tail, k);
      ScanFinds(w, signature, key, message);
    }
    SearchStops(sysvar, w, at, hit, 0);
  }
}
