/** The writer behind the clear-signing text (contracts/auth/src/human_message.rs): appends to a
    fixed buffer of 768 bytes and fails the moment the next chunk would overflow it. */
module MessageWriter {
  import opened Bytes
  import opened Numerals
  import opened ClearSigning
  import C = Challenge
  import MemberSlots

  datatype HumanMessageError = BufferTooSmall | InvalidSlot

  type Failure = Option<HumanMessageError>

  const CAPACITY: nat := C.MAX_HUMAN_MESSAGE_BYTES

  /** The text is appended if it fits; otherwise the write fails, and what was there stays. */
  predicate Appended(before: bytes, after: bytes, text: bytes, e: Failure) {
    if |before| + |text| <= CAPACITY then e == None && after == before + text
    else e == Some(BufferTooSmall) && before <= after
  }

  lemma BothAppended(before: bytes, between: bytes, after: bytes, t: bytes, u: bytes, e: Failure)
    requires Appended(before, between, t, None) && Appended(between, after, u, e)
    ensures Appended(before, after, t + u, e)
  {
    assert before + t + u == before + (t + u);
  }

  lemma FirstFailed(before: bytes, after: bytes, t: bytes, u: bytes, e: Failure)
    requires Appended(before, after, t, e) && e.Some?
    ensures Appended(before, after, t + u, e)
  {
  }

  lemma ZeroIsOneDigit()
    ensures Decimal(0) == [Digit(0)]
  {
  }

  /** What is still to be written in front. */
  function Front(n: nat): bytes {
    if n == 0 then [] else Decimal(n)
  }

  lemma FrontSnoc(n: nat)
    requires n > 0
    ensures Front(n) == Front(Quotient(n, 10)) + [Digit(Remainder(n, 10))]
  {
    hide Quotient, Remainder;
    SpellCons(Remainder(n, 10), LowFirst(Quotient(n, 10), 10), Digit);
    hide Spell, Digit;
  }

  lemma Regroup(text: bytes, front: bytes, d: byte, shown: bytes)
    requires text == front + [d] + shown
    ensures text == front + ([d] + shown)
  {
  }

  lemma OneInFront(text: bytes, n: nat, shown: bytes)
    requires n > 0 && text == Front(n) + shown && |text| <= 20
    ensures text == Front(Quotient(n, 10)) + ([Digit(Remainder(n, 10))] + shown) && |shown| < 20
  {
    hide Front, Quotient, Remainder, Digit;
    FrontSnoc(n);
    Regroup(text, Front(Quotient(n, 10)), Digit(Remainder(n, 10)), shown);
  }

  method PutInFront(digits: array<byte>, i: nat, d: byte)
    requires i < digits.Length
    modifies digits
    ensures digits[i..] == [d] + old(digits[i + 1..])
  {
    digits[i] := d;
  }

  /** Fills the array from its end; twenty places are enough for every u64. */
  method FillDigits(v: u64, digits: array<byte>) returns (i: nat)
    requires v > 0 && digits.Length == 20
    modifies digits
    ensures i <= 20 && digits[i..] == Decimal(v)
  {
    hide Quotient, Remainder, Decimal, Digit;
    DecimalIsShort(v);
    ghost var text := Front(v);
    var n: nat := v;
    i := 20;
    assert text == Front(v) + digits[i..];
    while n > 0
      invariant i <= 20 && text == Front(n) + digits[i..]
    {
      OneInFront(text, n, digits[i..]);
      i := i - 1;
      PutInFront(digits, i, Digit(Remainder(n, 10)));
      n := Quotient(n, 10);
    }
  }

  class MsgWriter {
    const buf: array<byte>
    var len: nat

    predicate Valid()
      reads this
    {
      buf.Length == CAPACITY && len <= CAPACITY
    }

    function Written(): (b: bytes)
      requires Valid()
      reads this, buf
      ensures |b| == len
    {
      buf[..len]
    }

    constructor ()
      ensures Valid() && Written() == [] && fresh(buf)
    {
      buf := new byte[CAPACITY];
      len := 0;
    }

    method PushByte(b: byte) returns (e: Failure)
      requires Valid()
      modifies this`len, buf
      ensures Valid() && Appended(old(Written()), Written(), [b], e)
    {
      if len >= CAPACITY {
        return Some(BufferTooSmall);
      }
      buf[len] := b;
      len := len + 1;
      return None;
    }

    method PushBytes(p: bytes) returns (e: Failure)
      requires Valid()
      modifies this`len, buf
      ensures Valid() && Appended(old(Written()), Written(), p, e)
    {
      if len + |p| > CAPACITY {
        return Some(BufferTooSmall);
      }
      forall i | 0 <= i < |p| {
        buf[len + i] := p[i];
      }
      len := len + |p|;
      return None;
    }

    /** The literals it is given are all printable ASCII, so its check for that is left out. */
    method WriteStr(s: string) returns (e: Failure)
      requires Valid()
      modifies this`len, buf
      ensures Valid() && Appended(old(Written()), Written(), Ascii(s), e)
    {
      e := PushBytes(Ascii(s));
    }

    method WriteU64Dec(v: u64) returns (e: Failure)
      requires Valid()
      modifies this`len, buf
      ensures Valid() && Appended(old(Written()), Written(), Decimal(v), e)
    {
      hide Decimal;
      if v == 0 {
        ZeroIsOneDigit();
        e := PushByte(Digit(0));
        return;
      }
      var digits := new byte[20];
      var i := FillDigits(v, digits);
      e := PushBytes(digits[i..]);
    }

    method WriteI64Dec(v: i64) returns (e: Failure)
      requires Valid()
      modifies this`len, buf
      ensures Valid() && Appended(old(Written()), Written(), Show(Time(v)), e)
    {
      hide Decimal;
      if v < 0 {
        e := PushByte(MINUS);
        if e.Some? {
          return;
        }
        e := WriteU64Dec(Size(v));
      } else {
        e := WriteU64Dec(v);
      }
    }

    method WriteHexLower(b: bytes) returns (e: Failure)
      requires Valid()
      modifies this`len, buf
      ensures Valid() && Appended(old(Written()), Written(), Hex(b), e)
    {
      if len + 2 * |b| > CAPACITY {
        return Some(BufferTooSmall);
      }
      ghost var before := Written();
      assert Hex(b[..0]) == [];
      hide Hex, HexDigit;
      for i := 0 to |b|
        invariant Valid() && len == |before| + 2 * i && Written() == before + Hex(b[..i])
      {
        HexSnoc(b[..i], b[i]);
        assert b[..i + 1] == b[..i] + [b[i]];
        ghost var was := Written();
        buf[len] := HexDigit(b[i] / 16);
        buf[len + 1] := HexDigit(b[i] % 16);
        len := len + 2;
        assert Written() == was + [HexDigit(b[i] / 16), HexDigit(b[i] % 16)];
      }
      assert b[..|b|] == b;
      return None;
    }

    method WriteBase58(addr: Bytes32) returns (e: Failure)
      requires Valid()
      modifies this`len, buf
      ensures Valid() && Appended(old(Written()), Written(), Base58(addr), e)
    {
      hide Base58;
      var out := new byte[44];
      var n := EncodeBase58(addr, out);
      e := PushBytes(out[..n]);
    }

    method WriteMemberSlot(slot: Slot) returns (e: Failure)
      requires Valid()
      modifies this`len, buf
      ensures Valid()
      ensures if IsShown(Member(slot)) then Appended(old(Written()), Written(), Show(Member(slot)), e)
              else e == Some(InvalidSlot) && Written() == old(Written())
    {
      var idLen := MemberSlots.IdLenForScheme(slot[0]);
      if idLen.Err? {
        return Some(InvalidSlot);
      }
      ghost var start, number, id := Written(), Decimal(slot[0]), Hex(slot[1..1 + idLen.value]);
      ghost var t := Ascii("scheme:");
      ghost var u := t + number;
      ghost var w := u + Ascii(";id:");
      assert Show(Member(slot)) == w + id;
      hide Show, Ascii, Appended, Decimal, Hex, MemberSlots.IdLenForScheme;
      e := WriteStr("scheme:");
      if e.Some? {
        FirstFailed(start, Written(), t, number, e);
        FirstFailed(start, Written(), u, Ascii(";id:"), e);
        FirstFailed(start, Written(), w, id, e);
        return;
      }
      ghost var one := Written();
      e := WriteU64Dec(slot[0]);
      BothAppended(start, one, Written(), t, number, e);
      if e.Some? {
        FirstFailed(start, Written(), u, Ascii(";id:"), e);
        FirstFailed(start, Written(), w, id, e);
        return;
      }
      ghost var two := Written();
      e := WriteStr(";id:");
      BothAppended(start, two, Written(), u, Ascii(";id:"), e);
      if e.Some? {
        FirstFailed(start, Written(), w, id, e);
        return;
      }
      ghost var three := Written();
      e := WriteHexLower(slot[1..1 + idLen.value]);
      BothAppended(start, three, Written(), w, id, e);
    }

    method WriteOptionU64(some: u8, v: u64) returns (e: Failure)
      requires Valid()
      modifies this`len, buf
      ensures Valid() && Appended(old(Written()), Written(), Show(Limit(some, v)), e)
    {
      hide Decimal;
      if some == 0 {
        e := WriteStr("none");
      } else {
        e := WriteU64Dec(v);
      }
    }

    method WriteValue(v: Value) returns (e: Failure)
      requires Valid()
      modifies this`len, buf
      ensures Valid()
      ensures if IsShown(v) then Appended(old(Written()), Written(), Show(v), e) else e == Some(InvalidSlot)
    {
      match v
      case Address(a) => e := WriteBase58(a);
      case Digest(b) => e := WriteHexLower(b);
      case Number(n) => e := WriteU64Dec(n);
      case Time(t) => e := WriteI64Dec(t);
      case Limit(some, n) => e := WriteOptionU64(some, n);
      case Member(slot) => e := WriteMemberSlot(slot);
    }

    /** The writes of a message function, in order, up to the first that fails. With room for all of
        them only an unknown scheme can make one fail. */
    method WriteAll(m: seq<Clause>) returns (e: Failure)
      requires Valid() && len == 0 && Room(m) <= CAPACITY
      modifies this`len, buf
      ensures Valid() && e == if AllShown(m) then None else Some(InvalidSlot)
      ensures AllShown(m) ==> Written() == Text(m)
    {
      hide Words, Show, Room, Text, IsShown;
      assert m[..0] == [];
      assert Text([]) == [] by {
        EmptyText();
      }
      for i := 0 to |m|
        invariant Valid() && AllShown(m[..i]) && Written() == Text(m[..i])
      {
        var c := m[i];
        ThereIsRoom(m, i);
        assert m[..i + 1] == m[..i] + [c];
        e := WriteStr(Words(c.literal));
        assert e.None?;
        e := WriteValue(c.value);
        if e.Some? {
          assert !IsShown(m[i].value);
          return;
        }
        TextSnoc(m[..i], c);
      }
      assert m[..|m|] == m;
      return None;
    }
  }

  /** A message function: the rendered text, or the error of a slot with an unknown scheme. The buffer
      is never too small. */
  method Render(c: C.Call) returns (r: Option<bytes>)
    requires !c.Init?
    ensures r == if AllShown(MessageOf(c)) then Some(Text(MessageOf(c))) else None
  {
    MessageFits(c);
    hide MessageOf, Text;
    var w := new MsgWriter();
    var e := w.WriteAll(MessageOf(c));
    if e.Some? {
      return None;
    }
    var text := w.Written();
    return Some(text);
  }

  lemma EmptyText()
    ensures Text([]) == []
  {
  }

  lemma {:induction false} HexSnoc(b: bytes, x: byte)
    ensures Hex(b + [x]) == Hex(b) + [HexDigit(x / 16), HexDigit(x % 16)]
  {
    if b == [] {
      assert b + [x] == [x];
    } else {
      HexSnoc(b[1..], x);
      assert (b + [x])[1..] == b[1..] + [x];
    }
  }

  /** Before clause i there is room for it. */
  lemma ThereIsRoom(m: seq<Clause>, i: nat)
    requires i < |m| && AllShown(m[..i]) && Room(m) <= CAPACITY
    ensures |Text(m[..i])| + |Words(m[i].literal)| <= CAPACITY
    ensures IsShown(m[i].value) ==> |Text(m[..i])| + |Words(m[i].literal)| + |Show(m[i].value)| <= CAPACITY
  {
    TextFitsRoom(m[..i]);
    RoomSplits(m[..i], m[i..]);
    assert m == m[..i] + m[i..];
    if IsShown(m[i].value) {
      ShowFits(m[i].value);
    }
    hide Show, Words, Text;
  }
}
