/** Byte strings, fixed-width fields and little-endian integers, as the on-chain programs lay
    them out. */
module Bytes {

  type byte = x: int | 0 <= x < 256
  type bytes = seq<byte>

  datatype Option<+T> = None | Some(value: T)

  // ----- Fixed-width fields -----

  type Bytes32 = b: bytes | |b| == 32 witness seq(32, _ => 0)
  type Slot = b: bytes | |b| == 34 witness seq(34, _ => 0)
  type u8 = byte
  type u16 = x: int | 0 <= x < 0x1_0000
  type u32 = x: int | 0 <= x < 0x1_0000_0000
  type u64 = x: int | 0 <= x < 0x1_0000_0000_0000_0000
  type i64 = x: int | -0x8000_0000_0000_0000 <= x < 0x8000_0000_0000_0000

  /** The bytes of an ASCII literal; no other character occurs in one. */
  function Ascii(s: string): (b: bytes)
    ensures |b| == |s| && forall i | 0 <= i < |s| && s[i] as int < 128 :: b[i] == s[i] as int
  {
    seq(|s|, i requires 0 <= i < |s| => Code(s[i]))
  }

  function Code(c: char): byte {
    if c as int < 128 then c as int else '?' as int
  }

  // ----- Little-endian integers -----

  function Le(n: nat, width: nat): (b: bytes)
    ensures |b| == width
  {
    if width == 0 then [] else [n % 256] + Le(n / 256, width - 1)
  }

  function FromLe(b: bytes): nat {
    if b == [] then 0 else b[0] + 256 * FromLe(b[1..])
  }

  function Capacity(width: nat): nat {
    if width == 0 then 1 else 256 * Capacity(width - 1)
  }

  /** A number that fits its field is read back from it. */
  lemma {:induction false} LeRoundTrip(n: nat, width: nat)
    requires n < Capacity(width)
    ensures FromLe(Le(n, width)) == n
  {
    if width > 0 {
      LeRoundTrip(n / 256, width - 1);
      assert Le(n, width)[1..] == Le(n / 256, width - 1);
    }
  }

  lemma Capacities()
    ensures Capacity(2) == 0x1_0000 && Capacity(4) == 0x1_0000_0000
    ensures Capacity(8) == 0x1_0000_0000_0000_0000
  {
    assert Capacity(1) == 256;
    assert Capacity(3) == 256 * Capacity(2);
    assert Capacity(5) == 256 * Capacity(4);
    assert Capacity(7) == 256 * Capacity(6);
  }

  function Le16(n: u16): bytes { Le(n, 2) }
  function Le32(n: u32): bytes { Le(n, 4) }
  function Le64(n: u64): bytes { Le(n, 8) }

  /** Two's complement, as i64::to_le_bytes. */
  function LeI64(n: i64): bytes {
    Le(if n < 0 then n + 0x1_0000_0000_0000_0000 else n, 8)
  }

  lemma Le16Injective(m: u16, n: u16)
    requires Le16(m) == Le16(n)
    ensures m == n
  {
    Capacities();
    LeRoundTrip(m, 2);
    LeRoundTrip(n, 2);
  }

  lemma Le32Injective(m: u32, n: u32)
    requires Le32(m) == Le32(n)
    ensures m == n
  {
    Capacities();
    LeRoundTrip(m, 4);
    LeRoundTrip(n, 4);
  }

  lemma Le64Injective(m: u64, n: u64)
    requires Le64(m) == Le64(n)
    ensures m == n
  {
    Capacities();
    LeRoundTrip(m, 8);
    LeRoundTrip(n, 8);
  }

  lemma LeI64Injective(m: i64, n: i64)
    requires LeI64(m) == LeI64(n)
    ensures m == n
  {
    Capacities();
    LeRoundTrip(if m < 0 then m + 0x1_0000_0000_0000_0000 else m, 8);
    LeRoundTrip(if n < 0 then n + 0x1_0000_0000_0000_0000 else n, 8);
  }

  lemma {:induction false} ReadsFour(b: bytes)
    requires |b| >= 4
    ensures FromLe(b) == b[0] as int + 0x100 * (b[1] as int) + 0x1_0000 * (b[2] as int) + 0x100_0000 * (b[3] as int)
                        + 0x1_0000_0000 * FromLe(b[4..])
  {
    assert FromLe(b[1..]) == b[1] + 256 * FromLe(b[1..][1..]) && b[1..][1..] == b[2..];
    assert FromLe(b[2..]) == b[2] + 256 * FromLe(b[2..][1..]) && b[2..][1..] == b[3..];
    assert FromLe(b[3..]) == b[3] + 256 * FromLe(b[3..][1..]) && b[3..][1..] == b[4..];
  }

  /** Least significant byte first, as u32::to_le_bytes. */
  lemma Le32Bytes(n: u32)
    ensures var b := Le32(n);
            |b| == 4 && n == b[0] as int + 0x100 * (b[1] as int) + 0x1_0000 * (b[2] as int) + 0x100_0000 * (b[3] as int)
  {
    Capacities();
    LeRoundTrip(n, 4);
    hide Le;
    ReadsFour(Le32(n));
  }

  /** Least significant byte first, as u64::to_le_bytes; a negative number as its two's complement. */
  lemma Le64Bytes(n: u64)
    ensures var b := Le64(n);
            && |b| == 8
            && n == b[0] as int + 0x100 * (b[1] as int) + 0x1_0000 * (b[2] as int) + 0x100_0000 * (b[3] as int)
                    + 0x1_0000_0000 * (b[4] as int) + 0x100_0000_0000 * (b[5] as int)
                    + 0x1_0000_0000_0000 * (b[6] as int) + 0x100_0000_0000_0000 * (b[7] as int)
    ensures forall i: i64 | i == n || i == n - 0x1_0000_0000_0000_0000 :: LeI64(i) == Le64(n)
  {
    Capacities();
    LeRoundTrip(n, 8);
    hide Le;
    var b := Le64(n);
    ReadsFour(b);
    ReadsFour(b[4..]);
    assert b[4..][0] == b[4] && b[4..][1] == b[5] && b[4..][2] == b[6] && b[4..][3] == b[7];
    assert b[4..][4..] == [];
  }

  // ----- Concatenation of parts, as hashv consumes them -----

  function Concat(parts: seq<bytes>): bytes {
    if parts == [] then [] else parts[0] + Concat(parts[1..])
  }

  /** Equal concatenations of parts of pairwise equal width have equal parts, even when more
      bytes follow. */
  lemma {:induction false} ConcatInjective(p: seq<bytes>, x: bytes, q: seq<bytes>, y: bytes)
    requires |p| == |q| && forall i | 0 <= i < |p| :: |p[i]| == |q[i]|
    requires Concat(p) + x == Concat(q) + y
    ensures p == q && x == y
  {
    if p != [] {
      var restP, restQ := Concat(p[1..]) + x, Concat(q[1..]) + y;
      assert Concat(p) + x == p[0] + restP;
      assert Concat(q) + y == q[0] + restQ;
      PrefixSplit(p[0], restP, q[0], restQ);
      ConcatInjective(p[1..], x, q[1..], y);
      assert p == [p[0]] + p[1..] && q == [q[0]] + q[1..];
    } else {
      assert Concat(p) + x == x && Concat(q) + y == y;
    }
  }

  lemma PrefixSplit(a: bytes, x: bytes, b: bytes, y: bytes)
    requires |a| == |b| && a + x == b + y
    ensures a == b && x == y
  {
    assert a == (a + x)[..|a|] && b == (b + y)[..|b|];
    assert x == (a + x)[|a|..] && y == (b + y)[|b|..];
  }
}
