/** Splitting a compact JWS into its segments (contracts/oidc-verifier/src/jwt.rs), against the
    serialisation of RFC 7515 sections 3.1 and 7.1. */
module CompactJws {
  import opened Bytes

  const DOT: byte := '.' as int

  datatype Segments = Segments(header: bytes, payload: bytes, signature: bytes, signingInput: bytes)

  /** A segment holds at least one byte and no separator. */
  predicate IsSegment(s: bytes) {
    s != [] && DOT !in s
  }

  /** RFC 7515: the three segments joined by two dots. */
  function Join(header: bytes, payload: bytes, signature: bytes): bytes {
    header + [DOT] + payload + [DOT] + signature
  }

  predicate Splits(jwt: bytes, s: Segments) {
    && IsSegment(s.header) && IsSegment(s.payload) && IsSegment(s.signature)
    && jwt == Join(s.header, s.payload, s.signature)
    && s.signingInput == s.header + [DOT] + s.payload
  }

  predicate NoDot(jwt: bytes, lo: nat, hi: nat)
    requires hi <= |jwt|
  {
    forall i | lo <= i < hi :: jwt[i] != DOT
  }

  /** However an input is split, its dots are the two separators and no other byte. */
  lemma DotsAreSeparators(jwt: bytes, s: Segments)
    requires Splits(jwt, s)
    ensures var f, g := |s.header|, |s.header| + 1 + |s.payload|;
            0 < f && f + 1 < g && g + 1 < |jwt| && jwt[f] == DOT && jwt[g] == DOT
            && (forall i | 0 <= i < |jwt| :: jwt[i] == DOT <==> i == f || i == g)
            && s == Segments(jwt[..f], jwt[f + 1..g], jwt[g + 1..], jwt[..g])
  {
    var f, g := |s.header|, |s.header| + 1 + |s.payload|;
    assert jwt[f] == DOT && jwt[g] == DOT;
    assert s.header == jwt[..f] && s.payload == jwt[f + 1..g] && s.signature == jwt[g + 1..];
    assert forall i | 0 <= i < f :: jwt[i] == s.header[i];
    assert forall i | f < i < g :: jwt[i] == s.payload[i - f - 1];
    assert forall i | g < i < |jwt| :: jwt[i] == s.signature[i - g - 1];
  }

  /** Accepts exactly the compact serialisations, and returns the segments that join to the input. */
  method Split(jwt: bytes) returns (r: Option<Segments>)
    ensures r.Some? ==> Splits(jwt, r.value)
    ensures r.None? ==> forall s :: !Splits(jwt, s)
  {
    forall s | Splits(jwt, s)
      ensures var f, g := |s.header|, |s.header| + 1 + |s.payload|;
              0 < f && f + 1 < g && g + 1 < |jwt| && jwt[f] == DOT && jwt[g] == DOT
              && (forall i | 0 <= i < |jwt| :: jwt[i] == DOT <==> i == f || i == g)
    {
      DotsAreSeparators(jwt, s);
    }
    var first: Option<nat> := None;
    var second: Option<nat> := None;
    for i := 0 to |jwt|
      invariant first.None? ==> second.None? && NoDot(jwt, 0, i)
      invariant first.Some? ==> first.value < i && jwt[first.value] == DOT && NoDot(jwt, 0, first.value)
      invariant first.Some? && second.None? ==> NoDot(jwt, first.value + 1, i)
      invariant second.Some? ==> first.value < second.value < i && jwt[second.value] == DOT
                                 && NoDot(jwt, first.value + 1, second.value) && NoDot(jwt, second.value + 1, i)
    {
      if jwt[i] == DOT {
        if first.None? {
          first := Some(i);
        } else if second.None? {
          second := Some(i);
        } else {
          return None;
        }
      }
    }
    if first.None? || second.None? {
      return None;
    }
    var f, s := first.value, second.value;
    if f == 0 || s == f + 1 || s + 1 >= |jwt| {
      return None;
    }
    r := Some(Segments(jwt[..f], jwt[f + 1..s], jwt[s + 1..], jwt[..s]));
    assert jwt == Join(jwt[..f], jwt[f + 1..s], jwt[s + 1..]);
    assert jwt[..s] == jwt[..f] + [DOT] + jwt[f + 1..s];
  }

  /** An input has one reading, so splitting and joining are inverse bijections. */
  lemma SplitUnique(jwt: bytes, s: Segments, t: Segments)
    requires Splits(jwt, s) && Splits(jwt, t)
    ensures s == t
  {
    DotsAreSeparators(jwt, s);
    DotsAreSeparators(jwt, t);
  }
}
