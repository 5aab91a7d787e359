/** UTF-8 as section 3 of RFC 3629 defines it: strict decoding, no surrogates, no overlong forms. */
module Utf8 {
  import opened Results
  import opened Bytes
  import opened Text

  /** The continuation byte for the six bits at `shift` (a power of 64). */
  function Low(c: cp, shift: int): byte
    requires shift == 1 || shift == 64 || shift == 4096
  {
    var n: int := c;
    0x80 + n / shift % 64
  }

  function EncodePoint(c: cp): (r: bytes)
    requires IsScalar(c)
  {
    var n: int := c;
    if n < 0x80 then [n]
    else if n < 0x800 then [0xC0 + n / 64, Low(c, 1)]
    else if n < 0x10000 then [0xE0 + n / 4096, Low(c, 64), Low(c, 1)]
    else [0xF0 + n / 262144, Low(c, 4096), Low(c, 64), Low(c, 1)]
  }

  function Encode(t: text): bytes
    requires AllScalar(t)
  {
    if t == [] then [] else EncodePoint(t[0]) + Encode(t[1..])
  }

  predicate Continues(b: bytes, i: nat) { i < |b| && 0x80 <= b[i] < 0xC0 }

  /** The six payload bits of a continuation byte. */
  function Bits(b: bytes, i: nat): (r: int)
    requires Continues(b, i)
    ensures 0 <= r < 64
  {
    var x: int := b[i];
    x - 0x80
  }

  /** The first code point and the bytes it takes. */
  function DecodePoint(b: bytes): Option<(cp, nat)>
    requires b != []
  {
    var b0: int := b[0];
    if b0 < 0x80 then Some((b0, 1))
    else if 0xC2 <= b0 < 0xE0 && Continues(b, 1) then
      Some(((b0 - 0xC0) * 64 + Bits(b, 1), 2))
    else if 0xE0 <= b0 < 0xF0 && Continues(b, 1) && Continues(b, 2) then
      var c: int := (b0 - 0xE0) * 4096 + Bits(b, 1) * 64 + Bits(b, 2);
      if c < 0x800 || 0xD800 <= c < 0xE000 then None else Some((c, 3))
    else if 0xF0 <= b0 < 0xF5 && Continues(b, 1) && Continues(b, 2) && Continues(b, 3) then
      var c: int := (b0 - 0xF0) * 262144 + Bits(b, 1) * 4096 + Bits(b, 2) * 64 + Bits(b, 3);
      if c < 0x10000 || c >= 0x110000 then None else Some((c, 4))
    else None
  }

  function Decode(b: bytes): Option<text>
    decreases |b|
  {
    if b == [] then Some([])
    else match DecodePoint(b)
         case None => None
         case Some((c, n)) =>
           if n > |b| then None
           else match Decode(b[n..])
                case None => None
                case Some(t) => Some([c] + t)
  }

  lemma Sixes(n: int)
    requires 0 <= n
    ensures n == n / 64 * 64 + n / 1 % 64
    ensures n / 64 == n / 4096 * 64 + n / 64 % 64
    ensures n / 4096 == n / 262144 * 64 + n / 4096 % 64
  {
    assert n / 64 / 64 == n / 4096;
    assert n / 4096 / 64 == n / 262144;
  }

  /** Decoding looks only at the bytes of the point. */
  lemma DecodePointLocal(e: bytes, rest: bytes)
    requires e != [] && DecodePoint(e).Some? && DecodePoint(e).value.1 == |e|
    ensures DecodePoint(e + rest) == DecodePoint(e)
  {
    assert forall i :: 0 <= i < |e| ==> (e + rest)[i] == e[i];
  }

  lemma ShortPoint(c: cp)
    requires IsScalar(c) && c < 0x800
    ensures DecodePoint(EncodePoint(c)) == Some((c, |EncodePoint(c)|))
  {
    Sixes(c);
  }

  lemma LongPoint(c: cp)
    requires IsScalar(c) && 0x800 <= c
    ensures DecodePoint(EncodePoint(c)) == Some((c, |EncodePoint(c)|))
  {
    Sixes(c);
  }

  lemma PointRoundTrip(c: cp, rest: bytes)
    requires IsScalar(c)
    ensures DecodePoint(EncodePoint(c) + rest) == Some((c, |EncodePoint(c)|))
  {
    if c < 0x800 { ShortPoint(c); } else { LongPoint(c); }
    DecodePointLocal(EncodePoint(c), rest);
  }

  lemma JoinSixes(a: int, b: int, n: int)
    requires 0 <= b < 64 && n == a * 64 + b && 0 <= a
    ensures n / 64 == a && n % 64 == b
  {
  }

  ghost predicate Encodes(b: bytes, c: cp, n: nat) { 1 <= n <= |b| && IsScalar(c) && b[..n] == EncodePoint(c) }

  lemma PointOfTwo(b: bytes)
    requires b != [] && DecodePoint(b).Some? && DecodePoint(b).value.1 <= 2
    ensures Encodes(b, DecodePoint(b).value.0, DecodePoint(b).value.1)
  {
    var (c, n) := DecodePoint(b).value;
    var b0: int := b[0];
    if n == 2 { JoinSixes(b0 - 0xC0, Bits(b, 1), c); }
  }

  lemma PointOfThree(b: bytes)
    requires b != [] && DecodePoint(b).Some? && DecodePoint(b).value.1 == 3
    ensures Encodes(b, DecodePoint(b).value.0, 3)
  {
    var c, b0: int := DecodePoint(b).value.0, b[0];
    Sixes(c);
    JoinSixes((b0 - 0xE0) * 64 + Bits(b, 1), Bits(b, 2), c);
    JoinSixes(b0 - 0xE0, Bits(b, 1), (b0 - 0xE0) * 64 + Bits(b, 1));
  }

  lemma PointOfFour(b: bytes)
    requires b != [] && DecodePoint(b).Some? && DecodePoint(b).value.1 == 4
    ensures Encodes(b, DecodePoint(b).value.0, 4)
  {
    var c, b0: int := DecodePoint(b).value.0, b[0];
    var high := (b0 - 0xF0) * 64 + Bits(b, 1);
    var mid := high * 64 + Bits(b, 2);
    Sixes(c);
    JoinSixes(mid, Bits(b, 3), c);
    JoinSixes(high, Bits(b, 2), mid);
    JoinSixes(b0 - 0xF0, Bits(b, 1), high);
  }

  lemma PointUnique(b: bytes)
    requires b != [] && DecodePoint(b).Some?
    ensures Encodes(b, DecodePoint(b).value.0, DecodePoint(b).value.1)
  {
    var n := DecodePoint(b).value.1;
    if n <= 2 { PointOfTwo(b); } else if n == 3 { PointOfThree(b); } else { PointOfFour(b); }
  }

  lemma {:induction false} RoundTrip(t: text)
    requires AllScalar(t)
    ensures Decode(Encode(t)) == Some(t)
  {
    if t != [] {
      var e, rest := EncodePoint(t[0]), Encode(t[1..]);
      PointRoundTrip(t[0], rest);
      RoundTrip(t[1..]);
      assert (e + rest)[|e|..] == rest && Encode(t) == e + rest;
      assert [t[0]] + t[1..] == t;
    }
  }

  lemma PointThenRest(b: bytes, c: cp, n: nat, t: text)
    requires Encodes(b, c, n) && AllScalar(t) && Encode(t) == b[n..]
    ensures AllScalar([c] + t) && Encode([c] + t) == b
  {
    assert ([c] + t)[0] == c && ([c] + t)[1..] == t;
    assert b == b[..n] + b[n..];
  }

  /** Decoding accepts only what encoding produces. */
  lemma {:induction false} DecodeInverts(b: bytes)
    requires Decode(b).Some?
    ensures AllScalar(Decode(b).value) && Encode(Decode(b).value) == b
    decreases |b|
  {
    if b != [] {
      PointUnique(b);
      var (c, n) := DecodePoint(b).value;
      DecodeInverts(b[n..]);
      PointThenRest(b, c, n, Decode(b[n..]).value);
    }
  }

  /** Distinct strings have distinct encodings. */
  lemma EncodeInjective(a: text, b: text)
    requires AllScalar(a) && AllScalar(b) && Encode(a) == Encode(b)
    ensures a == b
  {
    RoundTrip(a);
    RoundTrip(b);
  }
}
