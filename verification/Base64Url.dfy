/** Strict base64url without padding: the decoder of contracts/oidc-verifier/src/jwt.rs and the
    32-byte encoder that it and contracts/auth/src/lib.rs both carry.

    The specification is the encoding of RFC 4648 section 5 with the padding left off. Shifts and
    masks of the source are written as divisions and remainders by powers of two. */
module Base64Url {
  import opened Bytes

  const UPPER: string := "ABCDEFGHIJKLMNOPQRSTUVWXYZ"
  const LOWER: string := "abcdefghijklmnopqrstuvwxyz"
  const DIGITS: string := "0123456789"
  const ALPHABET: string := UPPER + LOWER + DIGITS + "-_"

  type sextet = v: int | 0 <= v < 64

  /** The letter of a value, by the three runs of the alphabet. */
  function Letter(v: sextet): byte {
    if v < 26 then 'A' as int + v
    else if v < 52 then 'a' as int + (v - 26)
    else if v < 62 then '0' as int + (v - 52)
    else if v == 62 then '-' as int
    else '_' as int
  }

  lemma LettersSpellTheAlphabet(v: sextet)
    ensures |ALPHABET| == 64 && Letter(v) == ALPHABET[v] as int
  {
    if v < 26 {
      assert ALPHABET[v] == UPPER[v];
    } else if v < 52 {
      assert ALPHABET[v] == LOWER[v - 26];
    } else if v < 62 {
      assert ALPHABET[v] == DIGITS[v - 52];
    }
  }

  // ----- The encoding of RFC 4648 section 5 -----

  /** Three bytes, big-endian, as the 24-bit group of the encoding. */
  function Join3(x: int, y: int, z: int): int {
    x * 0x1_0000 + y * 0x100 + z
  }

  /** The four letters of a 24-bit group. */
  function Quad(n: int): (q: bytes)
    requires 0 <= n < 0x100_0000
    ensures |q| == 4
  {
    [Letter(n / 0x4_0000), Letter(n / 0x1000 % 64), Letter(n / 64 % 64), Letter(n % 64)]
  }

  function Encode(data: bytes): bytes {
    if |data| == 0 then []
    else if |data| == 1 then Quad(Join3(data[0], 0, 0))[..2]
    else if |data| == 2 then Quad(Join3(data[0], data[1], 0))[..3]
    else Quad(Join3(data[0], data[1], data[2])) + Encode(data[3..])
  }

  lemma {:induction false} EncodeFrom(data: bytes, g: nat)
    requires 3 * g <= |data|
    ensures 4 * g <= |Encode(data)| && Encode(data)[4 * g..] == Encode(data[3 * g..])
  {
    if g > 0 {
      EncodeFrom(data[3..], g - 1);
      hide Quad;
      assert Encode(data)[4..] == Encode(data[3..]);
      assert data[3..][3 * (g - 1)..] == data[3 * g..];
      hide Encode;
      assert Encode(data)[4..][4 * (g - 1)..] == Encode(data)[4 * g..];
    } else {
      assert data[0..] == data;
    }
  }

  /** The letters of the g-th group of bytes, bit by bit: each holds the next six bits, the highest
      first, and zeros where the bytes end. */
  lemma EncodedBits(data: bytes, g: nat)
    requires 3 * g < |data|
    ensures 4 * g <= |Encode(data)|
    ensures var d, e := data[3 * g..], Encode(data)[4 * g..];
            |e| >= 2 && e[0] == Letter(d[0] / 4)
            && if |d| == 1 then |e| == 2 && e[1] == Letter(d[0] % 4 * 16)
               else if |d| == 2 then
                 |e| == 3 && e[1] == Letter(d[0] % 4 * 16 + d[1] / 16) && e[2] == Letter(d[1] % 16 * 4)
               else
                 |e| >= 4 && e[1] == Letter(d[0] % 4 * 16 + d[1] / 16) && e[2] == Letter(d[1] % 16 * 4 + d[2] / 64)
                 && e[3] == Letter(d[2] % 64)
  {
    EncodeFrom(data, g);
    var d := data[3 * g..];
    GroupBits(d[0], if |d| > 1 then d[1] else 0, if |d| > 2 then d[2] else 0);
    hide Quad, Letter, Join3;
  }

  lemma GroupBits(x: byte, y: byte, z: byte)
    ensures Quad(Join3(x, y, z)) == [Letter(x / 4), Letter(x % 4 * 16 + y / 16), Letter(y % 16 * 4 + z / 64),
                                     Letter(z % 64)]
  {
    FirstTwo(x, y, z);
    LastTwo(x, y, z);
    hide Letter;
  }

  lemma FirstTwo(x: byte, y: byte, z: byte)
    ensures Join3(x, y, z) / 0x4_0000 == x / 4 && Join3(x, y, z) / 0x1000 % 64 == x % 4 * 16 + y / 16
  {
    var n, low := Join3(x, y, z), y % 16 * 0x100 + z;
    assert n == 0x1000 * (16 * x + y / 16) + low && 0 <= low < 0x1000;
    assert n / 0x1000 == 16 * x + y / 16;
  }

  lemma LastTwo(x: byte, y: byte, z: byte)
    ensures Join3(x, y, z) / 64 % 64 == y % 16 * 4 + z / 64 && Join3(x, y, z) % 64 == z % 64
  {
    var n := Join3(x, y, z);
    assert n == 64 * (1024 * x + 4 * y + z / 64) + z % 64;
    assert n / 64 == 1024 * x + 4 * y + z / 64;
    assert n / 64 == 64 * (16 * x + y / 16) + (y % 16 * 4 + z / 64);
  }

  // ----- Decoding -----

  /** b64url_val: the value of a letter, and 0xFF for a byte outside the alphabet. */
  function Value(c: byte): (v: byte)
    ensures v < 64 || v == 0xFF
  {
    if 'A' as int <= c <= 'Z' as int then c - 'A' as int
    else if 'a' as int <= c <= 'z' as int then c - 'a' as int + 26
    else if '0' as int <= c <= '9' as int then c - '0' as int + 52
    else if c == '-' as int then 62
    else if c == '_' as int then 63
    else 0xFF
  }

  /** The decoder looks letters up by the inverse of the encoder's table. */
  lemma ValueInvertsLetter(c: byte, v: sextet)
    ensures Value(c) == v <==> c == Letter(v)
  {
  }

  predicate Known(c: byte) {
    Value(c) != 0xFF
  }

  /** The first disjunct of the decoder's group test adds nothing to the other four. */
  lemma OrOfValues(a: bv8, b: bv8, c: bv8, d: bv8)
    requires a < 64 || a == 0xFF
    requires b < 64 || b == 0xFF
    requires c < 64 || c == 0xFF
    requires d < 64 || d == 0xFF
    ensures (a | b | c | d) == 0xFF <==> a == 0xFF || b == 0xFF || c == 0xFF || d == 0xFF
  {
    assert a < 64 && b < 64 && c < 64 && d < 64 ==> (a | b | c | d) < 64;
  }

  /** Four values as one 24-bit group. */
  function Join4(a: int, b: int, c: int, d: int): int {
    a * 0x4_0000 + b * 0x1000 + c * 64 + d
  }

  /** The three bytes of a 24-bit group. */
  function Triple(v: int): (t: bytes)
    requires 0 <= v < 0x100_0000
    ensures |t| == 3
  {
    [v / 0x1_0000, v / 0x100 % 256, v % 256]
  }

  function Prepend(head: bytes, tail: Option<bytes>): Option<bytes> {
    if tail.Some? then Some(head + tail.value) else None
  }

  /** The byte string that `src` canonically encodes, if there is one. */
  function Decode(src: bytes): Option<bytes> {
    if |src| == 0 then Some([])
    else if |src| == 1 then None
    else if |src| == 2 then DecodePair(src[0], src[1])
    else if |src| == 3 then DecodeThree(src[0], src[1], src[2])
    else if KnownQuad(src) then
      Prepend(Triple(Join4(Value(src[0]), Value(src[1]), Value(src[2]), Value(src[3]))), Decode(src[4..]))
    else None
  }

  /** Two letters end the input with one byte; the low four bits of the second must be zero. */
  function DecodePair(a: byte, b: byte): Option<bytes> {
    if Known(a) && Known(b) && Value(b) % 16 == 0 then Some([Value(a) * 4 + Value(b) / 16]) else None
  }

  /** Three letters end it with two bytes; the low two bits of the third must be zero. */
  function DecodeThree(a: byte, b: byte, c: byte): Option<bytes> {
    if Known(a) && Known(b) && Known(c) && Value(c) % 4 == 0
    then Some([Value(a) * 4 + Value(b) / 16, Value(b) % 16 * 16 + Value(c) / 4]) else None
  }

  predicate KnownQuad(src: bytes)
    requires |src| >= 4
  {
    Known(src[0]) && Known(src[1]) && Known(src[2]) && Known(src[3])
  }

  lemma LetterOfValue(c: byte)
    requires Known(c)
    ensures Value(c) < 64 && Letter(Value(c)) == c
  {
    ValueInvertsLetter(c, 0);
    ValueInvertsLetter(c, Value(c));
  }

  lemma Joins(src: bytes)
    ensures forall i | 0 <= i < |src| && Known(src[i]) :: Value(src[i]) < 64 && Letter(Value(src[i])) == src[i]
  {
    forall i | 0 <= i < |src| && Known(src[i])
      ensures Value(src[i]) < 64 && Letter(Value(src[i])) == src[i]
    {
      LetterOfValue(src[i]);
    }
  }

  // ----- The two views of a group -----

  lemma Div64(q: int, r: int)
    requires 0 <= r < 64
    ensures (q * 64 + r) / 64 == q && (q * 64 + r) % 64 == r
  {
  }

  lemma Div256(q: int, r: int)
    requires 0 <= r < 256
    ensures (q * 256 + r) / 256 == q && (q * 256 + r) % 256 == r
  {
  }

  lemma RepeatedDivision(n: nat)
    ensures n / 0x1000 == n / 64 / 64 && n / 0x4_0000 == n / 64 / 64 / 64
    ensures n / 0x1_0000 == n / 256 / 256
  {
  }

  /** A group of four values as letters and as bytes. */
  lemma GroupOfValues(a: sextet, b: sextet, c: sextet, d: sextet)
    ensures 0 <= Join4(a, b, c, d) < 0x100_0000
    ensures Quad(Join4(a, b, c, d)) == [Letter(a), Letter(b), Letter(c), Letter(d)]
  {
    RepeatedDivision(Join4(a, b, c, d));
    Div64((a as int * 64 + b) * 64 + c, d);
    Div64(a as int * 64 + b, c);
    Div64(a, b);
  }

  lemma GroupOfBytes(x: byte, y: byte, z: byte)
    ensures 0 <= Join3(x, y, z) < 0x100_0000
    ensures Triple(Join3(x, y, z)) == [x, y, z]
  {
    RepeatedDivision(Join3(x, y, z));
    Div256(x as int * 256 + y, z);
    Div256(x, y);
  }

  lemma Regroup4(a: sextet, b: sextet, c: sextet, d: sextet)
    ensures Join4(a, b, c, d) == Join3(a * 4 + b / 16, b % 16 * 16 + c / 4, c % 4 * 64 + d)
    ensures a * 4 + b / 16 < 256 && b % 16 * 16 + c / 4 < 256 && c % 4 * 64 + d < 256
  {
  }

  lemma Regroup3(x: byte, y: byte, z: byte)
    ensures Join3(x, y, z) == Join4(x / 4, x % 4 * 16 + y / 16, y % 16 * 4 + z / 64, z % 64)
    ensures x % 4 * 16 + y / 16 < 64 && y % 16 * 4 + z / 64 < 64
  {
  }

  /** The bytes of four values, and the letters of three bytes. */
  lemma TripleOfValues(a: sextet, b: sextet, c: sextet, d: sextet)
    ensures 0 <= Join4(a, b, c, d) < 0x100_0000
    ensures Triple(Join4(a, b, c, d)) == [a * 4 + b / 16, b % 16 * 16 + c / 4, c % 4 * 64 + d]
  {
    Regroup4(a, b, c, d);
    GroupOfBytes(a * 4 + b / 16, b % 16 * 16 + c / 4, c % 4 * 64 + d);
  }

  lemma QuadOfBytes(x: byte, y: byte, z: byte)
    ensures 0 <= Join3(x, y, z) < 0x100_0000
    ensures x % 4 * 16 + y / 16 < 64 && y % 16 * 4 + z / 64 < 64
    ensures Quad(Join3(x, y, z))
         == [Letter(x / 4), Letter(x % 4 * 16 + y / 16), Letter(y % 16 * 4 + z / 64), Letter(z % 64)]
  {
    Regroup3(x, y, z);
    GroupOfValues(x / 4, x % 4 * 16 + y / 16, y % 16 * 4 + z / 64, z % 64);
  }

  // ----- Round trips -----

  /** The letters of a group have the values that make it up. */
  lemma GroupRoundTrip(x: byte, y: byte, z: byte)
    ensures 0 <= Join3(x, y, z) < 0x100_0000
    ensures var q := Quad(Join3(x, y, z));
            KnownQuad(q) && Value(q[0]) == x / 4
            && Value(q[1]) == x % 4 * 16 + y / 16 && Value(q[2]) == y % 16 * 4 + z / 64 && Value(q[3]) == z % 64
            && Join4(Value(q[0]), Value(q[1]), Value(q[2]), Value(q[3])) == Join3(x, y, z)
            && Triple(Join3(x, y, z)) == [x, y, z]
  {
    QuadOfBytes(x, y, z);
    Regroup3(x, y, z);
    GroupOfBytes(x, y, z);
    var q := Quad(Join3(x, y, z));
    ValueInvertsLetter(q[0], x / 4);
    ValueInvertsLetter(q[1], x % 4 * 16 + y / 16);
    ValueInvertsLetter(q[2], y % 16 * 4 + z / 64);
    ValueInvertsLetter(q[3], z % 64);
  }

  lemma DecodeGroupOf(x: byte, y: byte, z: byte, tail: bytes)
    ensures 0 <= Join3(x, y, z) < 0x100_0000
    ensures Decode(Quad(Join3(x, y, z)) + tail) == Prepend([x, y, z], Decode(tail))
  {
    hide Letter;
    hide Value;
    GroupRoundTrip(x, y, z);
    var q := Quad(Join3(x, y, z));
    assert (q + tail)[4..] == tail;
    assert (q + tail)[0] == q[0] && (q + tail)[1] == q[1] && (q + tail)[2] == q[2] && (q + tail)[3] == q[3];
    assert KnownQuad(q + tail);
  }

  lemma DecodeOne(x: byte)
    ensures Decode(Encode([x])) == Some([x])
  {
    hide Quad;
    hide Value;
    hide Join3;
    hide Join4;
    hide Triple;
    GroupRoundTrip(x, 0, 0);
    var q := Quad(Join3(x, 0, 0));
    ShiftBack(x, 0);
    DecodeTail([q[0], q[1]], 0);
    assert [q[0], q[1]][0..] == [q[0], q[1]];
    assert Encode([x]) == [q[0], q[1]];
  }

  lemma DecodeTwo(x: byte, y: byte)
    ensures Decode(Encode([x, y])) == Some([x, y])
  {
    hide Quad;
    hide Value;
    hide Join3;
    hide Join4;
    hide Triple;
    GroupRoundTrip(x, y, 0);
    var q := Quad(Join3(x, y, 0));
    ShiftBack(x, y);
    DecodeTail([q[0], q[1], q[2]], 0);
    assert [q[0], q[1], q[2]][0..] == [q[0], q[1], q[2]];
    assert Encode([x, y]) == [q[0], q[1], q[2]];
  }

  lemma ShiftBack(x: byte, y: byte)
    ensures (x % 4 * 16 + y / 16) / 16 == x % 4 && (x % 4 * 16 + y / 16) % 16 == y / 16
    ensures y % 16 * 4 / 4 == y % 16 && y % 16 * 4 % 4 == 0
  {
  }

  /** Every byte string is decoded from its own encoding. */
  lemma {:induction false} DecodeEncode(d: bytes)
    ensures Decode(Encode(d)) == Some(d)
  {
    if |d| == 1 {
      DecodeOne(d[0]);
      assert d == [d[0]];
    } else if |d| == 2 {
      DecodeTwo(d[0], d[1]);
      assert d == [d[0], d[1]];
    } else if |d| >= 3 {
      DecodeGroupOf(d[0], d[1], d[2], Encode(d[3..]));
      DecodeEncode(d[3..]);
      assert d == [d[0], d[1], d[2]] + d[3..];
    }
  }

  /** The bytes of four values are encoded by the letters of those values. */
  lemma GroupReencodes(a: sextet, b: sextet, c: sextet, d: sextet)
    ensures 0 <= Join4(a, b, c, d) < 0x100_0000
    ensures var t := Triple(Join4(a, b, c, d));
            t == [a * 4 + b / 16, b % 16 * 16 + c / 4, c % 4 * 64 + d]
            && Join3(t[0], t[1], t[2]) == Join4(a, b, c, d)
    ensures Quad(Join4(a, b, c, d)) == [Letter(a), Letter(b), Letter(c), Letter(d)]
  {
    TripleOfValues(a, b, c, d);
    Regroup4(a, b, c, d);
    GroupOfValues(a, b, c, d);
  }

  lemma EncodesPair(a: byte, b: byte)
    requires DecodePair(a, b).Some?
    ensures Encode(DecodePair(a, b).value) == [a, b]
  {
    hide Letter;
    hide Value;
    hide Join4;
    hide Triple;
    hide Quad;
    LetterOfValue(a);
    LetterOfValue(b);
    ReencodesShort(Value(a), Value(b), 0);
  }

  lemma EncodesThree(a: byte, b: byte, c: byte)
    requires DecodeThree(a, b, c).Some?
    ensures Encode(DecodeThree(a, b, c).value) == [a, b, c]
  {
    hide Letter;
    hide Value;
    hide Join3;
    hide Quad;
    LetterOfValue(a);
    LetterOfValue(b);
    LetterOfValue(c);
    ReencodesShort(Value(a), Value(b), Value(c));
    var d := DecodeThree(a, b, c).value;
    assert d == [Value(a) * 4 + Value(b) / 16, Value(b) % 16 * 16 + Value(c) / 4];
  }

  lemma ReencodesShort(a: sextet, b: sextet, c: sextet)
    requires c % 4 == 0
    ensures var n := Join3(a * 4 + b / 16, b % 16 * 16 + c / 4, 0);
            0 <= n < 0x100_0000 && Quad(n)[..3] == [Letter(a), Letter(b), Letter(c)]
    ensures c == 0 && b % 16 == 0 ==>
              var n := Join3(a * 4 + b / 16, 0, 0);
              0 <= n < 0x100_0000 && Quad(n)[..2] == [Letter(a), Letter(b)]
  {
    hide Letter;
    hide Quad;
    Regroup4(a, b, c, 0);
    GroupOfValues(a, b, c, 0);
  }

  lemma EncodesQuad(src: bytes, tail: bytes)
    requires |src| >= 4 && KnownQuad(src)
    ensures var v := Join4(Value(src[0]), Value(src[1]), Value(src[2]), Value(src[3]));
            0 <= v < 0x100_0000 && Encode(Triple(v) + tail) == src[..4] + Encode(tail)
  {
    hide Letter;
    hide Value;
    Joins(src);
    GroupReencodes(Value(src[0]), Value(src[1]), Value(src[2]), Value(src[3]));
    var t := Triple(Join4(Value(src[0]), Value(src[1]), Value(src[2]), Value(src[3])));
    assert (t + tail)[3..] == tail;
  }

  /** What is accepted is the encoding of what is returned, so no second spelling is accepted. */
  lemma {:induction false} EncodeDecode(src: bytes)
    requires Decode(src).Some?
    ensures Encode(Decode(src).value) == src
  {
    hide Join4;
    hide Triple;
    hide Value;
    if |src| == 2 {
      EncodesPair(src[0], src[1]);
      assert src == [src[0], src[1]];
    } else if |src| == 3 {
      EncodesThree(src[0], src[1], src[2]);
      assert src == [src[0], src[1], src[2]];
    } else if |src| >= 4 {
      EncodeDecode(src[4..]);
      EncodesQuad(src, Decode(src[4..]).value);
      assert src == src[..4] + src[4..];
    }
  }

  /** Three quarters of the input, and no input of length 1 modulo 4. */
  lemma {:induction false} DecodedSize(src: bytes)
    ensures Decode(src).Some? ==>
              |src| % 4 != 1
              && |Decode(src).value| == |src| / 4 * 3 + if |src| % 4 == 0 then 0 else |src| % 4 - 1
  {
    hide Join4;
    hide Triple;
    hide Value;
    if |src| >= 4 {
      DecodedSize(src[4..]);
    }
  }

  /** The strict decoder accepts exactly the canonical encodings and returns what they encode. */
  lemma Canonical(src: bytes, d: bytes)
    ensures Decode(src) == Some(d) <==> Encode(d) == src
  {
    DecodeEncode(d);
    if Decode(src).Some? {
      EncodeDecode(src);
    }
  }

  /** Two byte strings never share an encoding. */
  lemma EncodeInjective(d: bytes, e: bytes)
    requires Encode(d) == Encode(e)
    ensures d == e
  {
    DecodeEncode(d);
    DecodeEncode(e);
  }

  // ----- The decoder as it runs -----

  lemma DecodeGroup(src: bytes, si: nat, done: bytes)
    requires si + 4 <= |src|
    ensures !(Known(src[si]) && Known(src[si + 1]) && Known(src[si + 2]) && Known(src[si + 3])) ==>
              Decode(src[si..]).None?
    ensures Known(src[si]) && Known(src[si + 1]) && Known(src[si + 2]) && Known(src[si + 3]) ==>
              var v := Join4(Value(src[si]), Value(src[si + 1]), Value(src[si + 2]), Value(src[si + 3]));
              0 <= v < 0x100_0000
              && Prepend(done, Decode(src[si..])) == Prepend(done + Triple(v), Decode(src[si + 4..]))
  {
    hide Letter;
    hide Value;
    var rest := src[si..];
    Joins(rest);
    assert rest[4..] == src[si + 4..];
    assert rest[0] == src[si] && rest[1] == src[si + 1] && rest[2] == src[si + 2] && rest[3] == src[si + 3];
    if KnownQuad(rest) && Decode(rest[4..]).Some? {
      var t := Triple(Join4(Value(rest[0]), Value(rest[1]), Value(rest[2]), Value(rest[3])));
      assert done + (t + Decode(rest[4..]).value) == (done + t) + Decode(rest[4..]).value;
    }
  }

  lemma DecodeTail(src: bytes, si: nat)
    requires si <= |src| < si + 4
    ensures si == |src| ==> Decode(src[si..]) == Some([])
    ensures si + 2 == |src| ==> Decode(src[si..]) == DecodePair(src[si], src[si + 1])
    ensures si + 3 == |src| ==> Decode(src[si..]) == DecodeThree(src[si], src[si + 1], src[si + 2])
  {
  }

  /** b64url_decode_into. The result is the length of the decoded prefix of `out`. */
  method DecodeInto(src: bytes, out: array<byte>) returns (r: Option<nat>)
    modifies out
    ensures r.Some? <==> src != [] && Decode(src).Some? && |Decode(src).value| <= out.Length
    ensures r.Some? ==> r.value <= out.Length && out[..r.value] == Decode(src).value
    ensures r.Some? ==> forall i | r.value <= i < out.Length :: out[i] == old(out[i])
  {
    hide Decode;
    hide Value;
    hide Join4;
    hide Triple;
    DecodedSize(src);
    var n := |src|;
    if n == 0 {
      return None;
    }
    var rem := n % 4;
    if rem == 1 {
      return None;
    }
    var fullGroups := n / 4;
    var extra := rem;
    var decodedLen := fullGroups * 3 + if extra == 0 then 0 else extra - 1;
    if decodedLen > out.Length {
      return None;
    }
    var oi, si := 0, 0;
    ghost var done: bytes := [];
    assert src[si..] == src && forall d: bytes :: [] + d == d;
    for g := 0 to fullGroups
      invariant oi == 3 * g == |done| && si == 4 * g
      invariant forall k | 0 <= k < oi :: out[k] == done[k]
      invariant Decode(src) == Prepend(done, Decode(src[si..]))
      invariant forall i | oi <= i < out.Length :: out[i] == old(out[i])
    {
      var a, b, c, d := Value(src[si]), Value(src[si + 1]), Value(src[si + 2]), Value(src[si + 3]);
      DecodeGroup(src, si, done);
      if a == 0xFF || b == 0xFF || c == 0xFF || d == 0xFF {
        return None;
      }
      var v := Triple(Join4(a, b, c, d));
      out[oi] := v[0];
      out[oi + 1] := v[1];
      out[oi + 2] := v[2];
      done := done + v;
      oi := oi + 3;
      si := si + 4;
    }
    ghost var tail: bytes := [];
    DecodeTail(src, si);
    if extra == 2 {
      var a, b := Value(src[si]), Value(src[si + 1]);
      if a == 0xFF || b == 0xFF {
        return None;
      }
      if b % 16 != 0 {
        return None;
      }
      out[oi] := a * 4 + b / 16;
      tail := [out[oi]];
      oi := oi + 1;
    } else if extra == 3 {
      var a, b, c := Value(src[si]), Value(src[si + 1]), Value(src[si + 2]);
      if a == 0xFF || b == 0xFF || c == 0xFF {
        return None;
      }
      if c % 4 != 0 {
        return None;
      }
      out[oi] := a * 4 + b / 16;
      out[oi + 1] := b % 16 * 16 + c / 4;
      tail := [out[oi], out[oi + 1]];
      oi := oi + 2;
    }
    assert Decode(src) == Some(done + tail);
    assert out[..oi] == done + tail;
    r := Some(oi);
  }

  // ----- The encoder as it runs -----

  lemma {:induction false} EncodeLength(d: bytes)
    ensures |Encode(d)| == |d| / 3 * 4 + if |d| % 3 == 0 then 0 else |d| % 3 + 1
  {
    hide Quad;
    if |d| >= 3 {
      EncodeLength(d[3..]);
    }
  }

  lemma EncodeGroup(input: bytes, i: nat, done: bytes)
    requires i + 3 <= |input|
    ensures 0 <= Join3(input[i], input[i + 1], input[i + 2]) < 0x100_0000
    ensures done + Encode(input[i..])
            == (done + Quad(Join3(input[i], input[i + 1], input[i + 2]))) + Encode(input[i + 3..])
  {
    assert input[i..][3..] == input[i + 3..];
  }

  lemma QuadMasked(n: int)
    requires 0 <= n < 0x100_0000
    ensures Quad(n) == [Letter(n / 0x4_0000 % 64), Letter(n / 0x1000 % 64), Letter(n / 64 % 64), Letter(n % 64)]
  {
  }

  lemma PairFields(x: byte, y: byte)
    ensures var n: int := x as int * 0x100 + y;
            n / 0x400 % 64 == x / 4 && n / 16 % 64 == x % 4 * 16 + y / 16 && n * 4 % 64 == y % 16 * 4
  {
    Div1024(x / 4, x % 4 * 0x100 + y);
    Div16(x as int * 16 + y / 16, y % 16);
    Div64(x / 4, x % 4 * 16 + y / 16);
    Div64(x as int * 16 + y / 16, y % 16 * 4);
  }

  lemma Div16(q: int, r: int)
    requires 0 <= r < 16
    ensures (q * 16 + r) / 16 == q
  {
  }

  lemma Div1024(q: int, r: int)
    requires 0 <= r < 0x400
    ensures (q * 0x400 + r) / 0x400 == q
  {
  }

  lemma EncodePair(x: byte, y: byte)
    ensures var n: int := x as int * 0x100 + y;
            Encode([x, y]) == [Letter(n / 0x400 % 64), Letter(n / 16 % 64), Letter(n * 4 % 64)]
  {
    hide Letter;
    PairFields(x, y);
    QuadOfBytes(x, y, 0);
  }

  /** encode_base64url_nopad_32, the same text in both crates. */
  method Encode32(input: Bytes32, out: array<byte>)
    requires out.Length == 43
    modifies out
    ensures out[..] == Encode(input)
  {
    hide Letter;
    hide Quad;
    hide Encode;
    var o, i := 0, 0;
    ghost var done: bytes := [];
    ghost var groups: nat := 0;
    while i + 3 <= 30
      invariant i == 3 * groups && o == 4 * groups == |done| && groups <= 10
      invariant forall k | 0 <= k < o :: out[k] == done[k]
      invariant Encode(input) == done + Encode(input[i..])
    {
      EncodeGroup(input, i, done);
      var n := Join3(input[i], input[i + 1], input[i + 2]);
      out[o] := Letter(n / 0x4_0000 % 64);
      out[o + 1] := Letter(n / 0x1000 % 64);
      out[o + 2] := Letter(n / 64 % 64);
      out[o + 3] := Letter(n % 64);
      QuadMasked(n);
      done := done + Quad(n);
      i := i + 3;
      o := o + 4;
      groups := groups + 1;
    }
    EncodePair(input[30], input[31]);
    assert input[30..] == [input[30], input[31]];
    var n: int := input[30] as int * 0x100 + input[31] as int;
    out[o] := Letter(n / 0x400 % 64);
    out[o + 1] := Letter(n / 16 % 64);
    out[o + 2] := Letter(n * 4 % 64);
    assert out[..] == done + Encode([input[30], input[31]]);
  }
}
