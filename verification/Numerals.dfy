/** How the clear-signing text writes numbers and bytes (contracts/auth/src/human_message.rs):
    decimal, lower-case hexadecimal and base58. Each spelling names one value only, and the base58
    encoder, multiplying in place in an array of forty-four digits, computes it. */
module Numerals {
  import opened Bytes

  type Radix = b: nat | b == 10 || b == 58 witness 10

  function Quotient(n: nat, base: Radix): (q: nat)
    ensures n > 0 ==> q < n
  {
    if base == 10 then n / 10 else n / 58
  }

  function Remainder(n: nat, base: Radix): (r: nat)
    ensures r < base && n == base * Quotient(n, base) + r
  {
    if base == 10 then n % 10 else n % 58
  }

  /** The digits of a number, lowest first, without leading zeros: zero has none. */
  function LowFirst(n: nat, base: Radix): (ds: seq<nat>)
    ensures forall i | 0 <= i < |ds| :: ds[i] < base
    ensures ds == [] <==> n == 0
    ensures ds != [] ==> ds[|ds| - 1] != 0
  {
    if n == 0 then [] else [Remainder(n, base)] + LowFirst(Quotient(n, base), base)
  }

  lemma {:induction false} DigitsDetermine(m: nat, n: nat, base: Radix)
    requires LowFirst(m, base) == LowFirst(n, base)
    ensures m == n
  {
    hide Quotient, Remainder;
    if m > 0 {
      assert LowFirst(m, base)[0] == LowFirst(n, base)[0];
      assert LowFirst(m, base)[1..] == LowFirst(n, base)[1..];
      DigitsDetermine(Quotient(m, base), Quotient(n, base), base);
    }
  }

  function Pow(base: nat, k: nat): nat {
    if k == 0 then 1 else base * Pow(base, k - 1)
  }

  lemma {:induction false} PowAdd(base: nat, j: nat, k: nat)
    ensures Pow(base, j + k) == Pow(base, j) * Pow(base, k)
  {
    if j > 0 {
      PowAdd(base, j - 1, k);
      assert Pow(base, j + k) == base * Pow(base, j - 1 + k);
      Associate(base, Pow(base, j - 1), Pow(base, k));
    }
  }

  lemma Associate(a: nat, b: nat, c: nat)
    ensures a * (b * c) == a * b * c
  {
  }

  lemma {:induction false} FewDigits(n: nat, base: Radix, k: nat)
    requires n < Pow(base, k)
    ensures |LowFirst(n, base)| <= k
  {
    hide Quotient, Remainder;
    if n > 0 {
      assert n == base * Quotient(n, base) + Remainder(n, base);
      assert Pow(base, k) == base * Pow(base, k - 1);
      assert base == 10 || base == 58;
      FewDigits(Quotient(n, base), base, k - 1);
    }
  }

  /** The digits spelled highest first. */
  function Spell(ds: seq<nat>, letter: nat --> byte): (b: bytes)
    requires forall i | 0 <= i < |ds| :: letter.requires(ds[i])
    ensures |b| == |ds| && forall i | 0 <= i < |ds| :: b[i] == letter(ds[|ds| - 1 - i])
  {
    seq(|ds|, i requires 0 <= i < |ds| => letter(ds[|ds| - 1 - i]))
  }

  lemma SpellCons(d: nat, ds: seq<nat>, letter: nat --> byte)
    requires letter.requires(d) && forall i | 0 <= i < |ds| :: letter.requires(ds[i])
    ensures Spell([d] + ds, letter) == Spell(ds, letter) + [letter(d)]
  {
  }

  // ----- Decimal -----

  function Digit(d: nat): byte
    requires d < 10
  {
    '0' as int + d
  }

  function Decimal(n: nat): bytes {
    if n == 0 then [Digit(0)] else Spell(LowFirst(n, 10), Digit)
  }

  lemma SpellingsDiffer(x: seq<nat>, y: seq<nat>, letter: nat --> byte)
    requires forall i | 0 <= i < |x| :: letter.requires(x[i])
    requires forall i | 0 <= i < |y| :: letter.requires(y[i])
    requires forall d: nat, e: nat | letter.requires(d) && letter.requires(e) && letter(d) == letter(e) :: d == e
    requires Spell(x, letter) == Spell(y, letter)
    ensures x == y
  {
    forall i | 0 <= i < |x|
      ensures x[i] == y[i]
    {
      assert Spell(x, letter)[|x| - 1 - i] == Spell(y, letter)[|x| - 1 - i];
    }
  }

  lemma DecimalStarts(n: nat)
    ensures |Decimal(n)| >= 1 && (Decimal(n)[0] == Digit(0) <==> n == 0)
  {
    var ds := LowFirst(n, 10);
    if n > 0 {
      assert Decimal(n)[0] == Digit(ds[|ds| - 1]);
    }
  }

  lemma DecimalDetermines(m: nat, n: nat)
    requires Decimal(m) == Decimal(n)
    ensures m == n
  {
    DecimalStarts(m);
    DecimalStarts(n);
    if m > 0 {
      SpellingsDiffer(LowFirst(m, 10), LowFirst(n, 10), Digit);
      DigitsDetermine(m, n, 10);
    }
  }

  lemma TenToTheTwenty()
    ensures Pow(10, 20) == 100_000_000_000_000_000_000
  {
    PowAdd(10, 10, 10);
    PowAdd(10, 5, 5);
    assert Pow(10, 2) == 100;
    assert Pow(10, 4) == 10_000;
  }

  lemma DecimalIsShort(n: u64)
    ensures 1 <= |Decimal(n)| <= 20
  {
    TenToTheTwenty();
    FewDigits(n, 10, 20);
    hide LowFirst, Pow;
  }

  lemma DecimalIsDigits(n: nat)
    ensures forall c | c in Decimal(n) :: '0' as int <= c <= '9' as int
  {
    var t := Decimal(n);
    forall i | 0 <= i < |t|
      ensures '0' as int <= t[i] <= '9' as int
    {
    }
  }

  // ----- Hexadecimal -----

  function HexDigit(d: nat): byte
    requires d < 16
  {
    if d < 10 then '0' as int + d else 'a' as int + (d - 10)
  }

  function Hex(b: bytes): (h: bytes)
    ensures |h| == 2 * |b|
    ensures forall c | c in h :: '0' as int <= c <= '9' as int || 'a' as int <= c <= 'f' as int
  {
    if b == [] then [] else [HexDigit(b[0] / 16), HexDigit(b[0] % 16)] + Hex(b[1..])
  }

  lemma {:induction false} HexDetermines(a: bytes, b: bytes)
    requires Hex(a) == Hex(b)
    ensures a == b
  {
    if a != [] {
      assert Hex(a)[0] == Hex(b)[0] && Hex(a)[1] == Hex(b)[1] && Hex(a)[2..] == Hex(b)[2..];
      assert a[0] == 16 * (a[0] / 16) + a[0] % 16 && b[0] == 16 * (b[0] / 16) + b[0] % 16;
      HexDetermines(a[1..], b[1..]);
      assert a == [a[0]] + a[1..] && b == [b[0]] + b[1..];
    }
  }

  // ----- Base58 -----

  const B58_DIGITS: string := "123456789"
  const B58_UPPER: string := "ABCDEFGHJKLMNPQRSTUVWXYZ"
  const B58_LOWER: string := "abcdefghijkmnopqrstuvwxyz"
  const B58_ALPHABET: string := B58_DIGITS + B58_UPPER + B58_LOWER

  /** The letter of a digit, by the runs of the alphabet between the letters it leaves out. */
  function B58Letter(d: nat): byte
    requires d < 58
  {
    if d < 9 then '1' as int + d
    else if d < 17 then 'A' as int + (d - 9)
    else if d < 22 then 'J' as int + (d - 17)
    else if d < 33 then 'P' as int + (d - 22)
    else if d < 44 then 'a' as int + (d - 33)
    else 'm' as int + (d - 44)
  }

  lemma LettersSpellTheAlphabet(d: nat)
    requires d < 58
    ensures |B58_ALPHABET| == 58 && B58Letter(d) == B58_ALPHABET[d] as int
  {
    if d < 9 {
      assert B58_ALPHABET[d] == B58_DIGITS[d];
    } else if d < 33 {
      assert B58_ALPHABET[d] == B58_UPPER[d - 9];
    } else {
      assert B58_ALPHABET[d] == B58_LOWER[d - 33];
    }
  }

  /** A byte string as a big-endian number. */
  function Big(b: bytes): nat {
    if b == [] then 0 else 256 * Big(b[..|b| - 1]) + b[|b| - 1]
  }

  lemma {:induction false} BigIsBounded(b: bytes)
    ensures Big(b) < Pow(256, |b|)
  {
    if b != [] {
      BigIsBounded(b[..|b| - 1]);
    }
  }

  lemma {:induction false} BigDetermines(a: bytes, b: bytes)
    requires |a| == |b| && Big(a) == Big(b)
    ensures a == b
  {
    var n := |a| - 1;
    if n >= 0 {
      BigDetermines(a[..n], b[..n]);
      assert a == a[..n] + [a[n]] && b == b[..n] + [b[n]];
    }
  }

  function LeadingZeros(b: bytes): (z: nat)
    ensures z <= |b| && (forall i | 0 <= i < z :: b[i] == 0) && (z < |b| ==> b[z] != 0)
  {
    if b != [] && b[0] == 0 then 1 + LeadingZeros(b[1..]) else 0
  }

  /** A 1 for every leading zero byte, then the rest as a number to the base 58. */
  function Base58(b: bytes): bytes {
    var z := LeadingZeros(b);
    seq(z, _ => B58Letter(0)) + Spell(LowFirst(Big(b[z..]), 58), B58Letter)
  }

  lemma Base58Starts(b: bytes)
    ensures var z, t := LeadingZeros(b), Base58(b);
            z <= |t| && t[z..] == Spell(LowFirst(Big(b[z..]), 58), B58Letter)
            && (forall i | 0 <= i < z :: t[i] == B58Letter(0)) && (z < |t| ==> t[z] != B58Letter(0))
  {
    var z, t, ds := LeadingZeros(b), Base58(b), LowFirst(Big(b[LeadingZeros(b)..]), 58);
    assert t[z..] == Spell(ds, B58Letter);
    if z < |t| {
      assert t[z] == B58Letter(ds[|ds| - 1]);
    }
  }

  lemma SameZeros(a: bytes, b: bytes)
    requires Base58(a) == Base58(b)
    ensures LeadingZeros(a) == LeadingZeros(b)
  {
    Base58Starts(a);
    Base58Starts(b);
    hide *;
  }

  lemma B58SpellingsDiffer(x: seq<nat>, y: seq<nat>)
    requires forall i | 0 <= i < |x| :: x[i] < 58
    requires forall i | 0 <= i < |y| :: y[i] < 58
    requires Spell(x, B58Letter) == Spell(y, B58Letter)
    ensures x == y
  {
    hide Spell;
    SpellingsDiffer(x, y, B58Letter);
  }

  /** Two strings of one length never share a base58 text. */
  lemma Base58Determines(a: bytes, b: bytes)
    requires |a| == |b| && Base58(a) == Base58(b)
    ensures a == b
  {
    SameZeros(a, b);
    var z := LeadingZeros(a);
    SameDigits(a, b, z);
    hide *;
    DigitsDetermine(Big(a[z..]), Big(b[z..]), 58);
    BigDetermines(a[z..], b[z..]);
    SamePrefix(a, b, z);
  }

  lemma SameDigits(a: bytes, b: bytes, z: nat)
    requires Base58(a) == Base58(b) && z == LeadingZeros(a) == LeadingZeros(b)
    ensures LowFirst(Big(a[z..]), 58) == LowFirst(Big(b[z..]), 58)
  {
    Base58Starts(a);
    Base58Starts(b);
    hide *;
    B58SpellingsDiffer(LowFirst(Big(a[z..]), 58), LowFirst(Big(b[z..]), 58));
  }

  lemma SamePrefix(a: bytes, b: bytes, z: nat)
    requires z <= |a| == |b| && a[z..] == b[z..] && forall i | 0 <= i < z :: a[i] == b[i] == 0
    ensures a == b
  {
    assert a == a[..z] + a[z..] && b == b[..z] + b[z..];
    assert a[..z] == b[..z];
  }

  lemma ElevenDigits()
    ensures Pow(58, 11) >= Pow(256, 8)
  {
    assert Pow(58, 11) == 24_986_644_000_165_537_792 by {
      assert Pow(58, 2) == 3_364;
      assert Pow(58, 4) == 11_316_496;
      assert Pow(58, 6) == 38_068_692_544;
      assert Pow(58, 8) == 128_063_081_718_016;
      assert Pow(58, 10) == 430_804_206_899_405_824;
    }
    assert Pow(256, 8) == 0x1_0000_0000_0000_0000 by {
      assert Pow(256, 2) == 0x1_0000;
      assert Pow(256, 4) == 0x1_0000_0000;
      assert Pow(256, 6) == 0x1_0000_0000_0000;
    }
  }

  lemma Squares(a: nat, b: nat)
    requires a >= b
    ensures a * a >= b * b
  {
    assert a * a >= a * b;
  }

  lemma Twice(j: nat, k: nat)
    requires Pow(58, j) >= Pow(256, k)
    ensures Pow(58, j + j) >= Pow(256, k + k)
  {
    PowAdd(58, j, j);
    PowAdd(256, k, k);
    Squares(Pow(58, j), Pow(256, k));
  }

  lemma FortyFourDigits()
    ensures Pow(58, 44) >= Pow(256, 32)
  {
    ElevenDigits();
    hide Pow;
    Twice(11, 8);
    Twice(22, 16);
  }

  /** Twelve digits more than bytes are enough for at most thirty-two bytes. */
  lemma {:induction false} DigitsSuffice(k: nat)
    requires k <= 32
    ensures Pow(58, k + 12) >= Pow(256, k)
    decreases 32 - k
  {
    if k == 32 {
      FortyFourDigits();
    } else {
      DigitsSuffice(k + 1);
      assert 58 * Pow(58, k + 12) >= 256 * Pow(256, k);
    }
  }

  lemma Base58Fits(b: bytes)
    requires |b| == 32
    ensures |Base58(b)| <= 44
    ensures LeadingZeros(b) + |LowFirst(Big(b[LeadingZeros(b)..]), 58)| <= 44
  {
    var z := LeadingZeros(b);
    BigIsBounded(b[z..]);
    DigitsSuffice(32 - z);
    FewDigits(Big(b[z..]), 58, 44 - z);
  }

  // ----- Reading a spelling -----

  /** What digits are worth, the highest first. */
  function Worth(ds: seq<nat>, base: nat): nat {
    if ds == [] then 0 else base * Worth(ds[..|ds| - 1], base) + ds[|ds| - 1]
  }

  function Flipped(ds: seq<nat>): (r: seq<nat>)
    ensures |r| == |ds| && forall i | 0 <= i < |ds| :: r[i] == ds[|ds| - 1 - i]
  {
    seq(|ds|, i requires 0 <= i < |ds| => ds[|ds| - 1 - i])
  }

  lemma {:induction false} FlippedIsWorth(n: nat, base: Radix)
    ensures Worth(Flipped(LowFirst(n, base)), base) == n
  {
    hide Quotient, Remainder;
    if n > 0 {
      var low := LowFirst(Quotient(n, base), base);
      FlippedIsWorth(Quotient(n, base), base);
      assert Flipped(LowFirst(n, base)) == Flipped(low) + [Remainder(n, base)];
      assert (Flipped(low) + [Remainder(n, base)])[..|low|] == Flipped(low);
    }
  }

  const DECIMAL_DIGITS: string := "0123456789"
  const HEX_DIGITS: string := "0123456789abcdef"

  lemma DigitsSpellTheRow(d: nat)
    requires d < 16
    ensures HexDigit(d) == HEX_DIGITS[d] as int && (d < 10 ==> Digit(d) == DECIMAL_DIGITS[d] as int)
  {
  }

  /** Decimal text is made of digits that are worth the number, the highest first. */
  lemma DecimalReads(n: nat) returns (ds: seq<nat>)
    ensures |ds| == |Decimal(n)| && Worth(ds, 10) == n
    ensures forall i | 0 <= i < |ds| :: ds[i] < 10 && Decimal(n)[i] == DECIMAL_DIGITS[ds[i]] as int
  {
    var low := LowFirst(n, 10);
    ds := if n == 0 then [0] else Flipped(low);
    FlippedIsWorth(n, 10);
    assert Worth([], 10) == 0 && [0][..0] == [];
    forall i | 0 <= i < |ds|
      ensures ds[i] < 10 && Decimal(n)[i] == DECIMAL_DIGITS[ds[i]] as int
    {
      DigitsSpellTheRow(ds[i]);
    }
  }

  /** Hexadecimal text has two digits a byte, the upper four bits first. */
  lemma {:induction false} HexReads(b: bytes, i: nat)
    requires i < |b|
    ensures Hex(b)[2 * i] == HEX_DIGITS[b[i] / 16] as int && Hex(b)[2 * i + 1] == HEX_DIGITS[b[i] % 16] as int
  {
    if i > 0 {
      HexReads(b[1..], i - 1);
      assert Hex(b)[2..] == Hex(b[1..]);
    } else {
      DigitsSpellTheRow(b[0] / 16);
      DigitsSpellTheRow(b[0] % 16);
    }
  }

  /** Base58 text is a 1 for every leading zero byte, and then letters of digits that are worth the bytes
      read as one number, the first digit not zero. */
  lemma Base58Reads(b: bytes) returns (z: nat, ds: seq<nat>)
    ensures z <= |b| && (forall i | 0 <= i < z :: b[i] == 0) && (z < |b| ==> b[z] != 0)
    ensures |Base58(b)| == z + |ds| && Worth(ds, 58) == Big(b[z..]) && (ds != [] ==> ds[0] != 0)
    ensures forall i | 0 <= i < z :: Base58(b)[i] == '1' as int
    ensures forall i | 0 <= i < |ds| :: ds[i] < 58 && Base58(b)[z + i] == B58Letter(ds[i]) == B58_ALPHABET[ds[i]] as int
  {
    z := LeadingZeros(b);
    var low := LowFirst(Big(b[z..]), 58);
    ds := Flipped(low);
    FlippedIsWorth(Big(b[z..]), 58);
    forall i | 0 <= i < |ds|
      ensures ds[i] < 58 && Base58(b)[z + i] == B58Letter(ds[i]) && B58Letter(ds[i]) == B58_ALPHABET[ds[i]] as int
    {
      LettersSpellTheAlphabet(ds[i]);
    }
  }

  // ----- The encoder as it runs -----

  /** How one digit of v enters 256 * v + b, with the carry from the digits below. */
  lemma DigitStep(rest: nat, carry: nat)
    requires rest > 0
    ensures var c := carry + Remainder(rest, 58) * 256;
            Remainder(256 * rest + carry, 58) == Remainder(c, 58)
            && Quotient(256 * rest + carry, 58) == 256 * Quotient(rest, 58) + Quotient(c, 58)
            && (carry < 256 ==> Quotient(c, 58) < 256)
  {
    var q, c := 256 * (rest / 58), carry + rest % 58 * 256;
    assert 256 * rest + carry == 58 * q + c;
  }

  /** The digits found so far, and what is left to do: `rest` is what remains of v above them. */
  ghost predicate Carries(total: seq<nat>, low: seq<nat>, rest: nat, carry: nat) {
    carry < 256 && total == low + LowFirst(256 * rest + carry, 58)
  }

  lemma LowestDigit(n: nat)
    requires n > 0
    ensures LowFirst(n, 58) == [Remainder(n, 58)] + LowFirst(Quotient(n, 58), 58)
  {
  }

  lemma Regroup(total: seq<nat>, low: seq<nat>, d: nat, high: seq<nat>)
    requires total == low + ([d] + high)
    ensures total == (low + [d]) + high
  {
  }

  lemma CarryStep(total: seq<nat>, low: seq<nat>, rest: nat, carry: nat)
    requires Carries(total, low, rest, carry) && LowFirst(rest, 58) != []
    ensures var d := LowFirst(rest, 58)[0]; var c := carry + d * 256;
            Carries(total, low + [Remainder(c, 58)], Quotient(rest, 58), Quotient(c, 58))
    ensures LowFirst(rest, 58)[1..] == LowFirst(Quotient(rest, 58), 58)
  {
    hide Quotient, Remainder, LowFirst;
    LowestDigit(rest);
    LowestDigit(256 * rest + carry);
    DigitStep(rest, carry);
    var c := carry + Remainder(rest, 58) * 256;
    Regroup(total, low, Remainder(c, 58), LowFirst(256 * Quotient(rest, 58) + Quotient(c, 58), 58));
  }

  lemma CarryStarts(v: nat, b: byte)
    ensures Carries(LowFirst(256 * v + b, 58), [], v, b)
  {
    var none: seq<nat> := [];
    assert none + LowFirst(256 * v + b, 58) == LowFirst(256 * v + b, 58);
  }

  lemma CarryEnds(total: seq<nat>, low: seq<nat>, rest: nat, carry: nat)
    requires Carries(total, low, rest, carry) && LowFirst(rest, 58) == []
    ensures total == low + LowFirst(carry, 58)
  {
  }

  /** The inner loop: the digits of v become the low ones of 256 * v + b, with a carry left over. */
  method MultiplyAdd(digits: array<nat>, len: nat, b: byte, ghost v: nat) returns (carry: nat)
    requires len <= digits.Length == 44 && digits[..len] == LowFirst(v, 58)
    modifies digits
    ensures LowFirst(256 * v + b, 58) == digits[..len] + LowFirst(carry, 58)
  {
    hide Quotient, Remainder, LowFirst, Carries;
    carry := b;
    ghost var rest: nat, total := v, LowFirst(256 * v + b, 58);
    ghost var low: seq<nat> := [];
    CarryStarts(v, b);
    for k := 0 to len
      invariant digits[..k] == low && digits[k..len] == LowFirst(rest, 58)
      invariant Carries(total, low, rest, carry)
    {
      assert digits[k..len][0] == digits[k] && digits[k..len][1..] == digits[k + 1..len];
      CarryStep(total, low, rest, carry);
      var c := carry + digits[k] * 256;
      carry, rest := Quotient(c, 58), Quotient(rest, 58);
      digits[k] := Remainder(c, 58);
      low := low + [digits[k]];
    }
    CarryEnds(total, low, rest, carry);
  }

  /** The carry's own digits follow. They never outgrow the array: the source's guard against that
      does not fire. */
  method PushCarry(digits: array<nat>, len: nat, rest: nat, ghost total: seq<nat>) returns (n: nat)
    requires len <= digits.Length == 44 && |total| <= 44 && total == digits[..len] + LowFirst(rest, 58)
    modifies digits
    ensures n <= 44 && digits[..n] == total
  {
    hide Quotient, Remainder;
    n := len;
    var carry := rest;
    ghost var low := digits[..len];
    while carry > 0
      invariant |low| == n <= 44 && total == low + LowFirst(carry, 58)
      invariant digits[..n] == low
    {
      PushStep(total, low, carry);
      low := low + [Remainder(carry, 58)];
      digits[n] := Remainder(carry, 58);
      n := n + 1;
      carry := Quotient(carry, 58);
    }
  }

  lemma PushStep(total: seq<nat>, low: seq<nat>, carry: nat)
    requires carry > 0 && total == low + LowFirst(carry, 58)
    ensures |low| < |total| && total == low + [Remainder(carry, 58)] + LowFirst(Quotient(carry, 58), 58)
  {
    hide Quotient, Remainder;
    LowestDigit(carry);
    hide LowFirst;
    Regroup(total, low, Remainder(carry, 58), LowFirst(Quotient(carry, 58), 58));
  }

  lemma MoreZeros(b: bytes, z: nat)
    requires z < |b| && b[z] == 0
    ensures LeadingZeros(b[z..]) == 1 + LeadingZeros(b[z + 1..])
  {
    assert b[z..][1..] == b[z + 1..];
  }

  lemma PrefixFits(b: bytes, i: nat)
    requires |b| == 32 && LeadingZeros(b) <= i <= 32
    ensures |LowFirst(Big(b[LeadingZeros(b)..i]), 58)| <= 44
  {
    var x := b[LeadingZeros(b)..i];
    BigIsBounded(x);
    DigitsSuffice(|x|);
    FewDigits(Big(x), 58, |x| + 12);
  }

  /** The text fits forty-four letters, whatever the bytes: nothing is ever cut off. */
  method EncodeBase58(input: Bytes32, out: array<byte>) returns (n: nat)
    requires out.Length == 44
    modifies out
    ensures n <= 44 && out[..n] == Base58(input)
  {
    hide LowFirst, Big, Pow;
    var zeros: nat := 0;
    assert input[0..] == input;
    while zeros < 32 && input[zeros] == 0
      invariant zeros <= 32 && LeadingZeros(input) == zeros + LeadingZeros(input[zeros..])
    {
      MoreZeros(input, zeros);
      zeros := zeros + 1;
    }
    assert LeadingZeros(input) == zeros;
    hide LeadingZeros;
    var digits := new nat[44](_ => 0);
    var len: nat := 0;
    assert LowFirst(Big(input[zeros..zeros]), 58) == [] by {
      assert input[zeros..zeros] == [];
      NoDigits();
    }
    for i := zeros to 32
      invariant len <= 44 && digits[..len] == LowFirst(Big(input[zeros..i]), 58)
    {
      PrefixFits(input, i + 1);
      BigStep(input, zeros, i);
      var carry := MultiplyAdd(digits, len, input[i], Big(input[zeros..i]));
      len := PushCarry(digits, len, carry, LowFirst(Big(input[zeros..i + 1]), 58));
    }
    assert input[zeros..32] == input[zeros..];
    n := WriteLetters(input, zeros, digits, len, out);
  }

  method WriteLetters(input: Bytes32, zeros: nat, digits: array<nat>, len: nat, out: array<byte>) returns (n: nat)
    requires out.Length == 44 && zeros == LeadingZeros(input)
    requires len <= digits.Length && digits[..len] == LowFirst(Big(input[zeros..]), 58)
    modifies out
    ensures n <= 44 && out[..n] == Base58(input)
  {
    Base58Fits(input);
    ghost var ds, text := digits[..len], Base58(input);
    LettersOf(input);
    hide LowFirst, Big, B58Letter, Base58, LeadingZeros;
    for i := 0 to zeros
      invariant forall k | 0 <= k < i :: out[k] == text[k]
    {
      out[i] := B58Letter(0);
    }
    for i := 0 to len
      invariant forall k | 0 <= k < zeros + i :: out[k] == text[k]
    {
      out[zeros + i] := B58Letter(digits[len - 1 - i]);
      assert digits[len - 1 - i] == ds[len - 1 - i];
    }
    n := zeros + len;
  }

  lemma LettersOf(b: bytes)
    ensures var z, ds, t := LeadingZeros(b), LowFirst(Big(b[LeadingZeros(b)..]), 58), Base58(b);
            |t| == z + |ds|
            && forall k | 0 <= k < |t| :: t[k] == if k < z then B58Letter(0) else B58Letter(ds[|t| - 1 - k])
  {
    hide LowFirst, Big, B58Letter;
  }

  lemma NoDigits()
    ensures LowFirst(Big([]), 58) == []
  {
  }

  lemma BigStep(b: bytes, z: nat, i: nat)
    requires z <= i < |b|
    ensures Big(b[z..i + 1]) == 256 * Big(b[z..i]) + b[i]
  {
    assert b[z..i + 1][..i - z] == b[z..i];
  }
}
