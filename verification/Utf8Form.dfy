/** UTF-8 without its arithmetic: the well-formed byte sequences, in the order of their code points. */
module Utf8Form {
  import opened Bytes
  import opened Text
  import opened Utf8

  /** The well-formed sequences, as table 3-7 of the Unicode Standard lists them. */
  predicate WellFormedPoint(b: bytes) {
    || (|b| == 1 && b[0] <= 0x7F)
    || (|b| == 2 && 0xC2 <= b[0] <= 0xDF && Tail(b[1]))
    || (|b| == 3 && b[0] == 0xE0 && 0xA0 <= b[1] <= 0xBF && Tail(b[2]))
    || (|b| == 3 && (0xE1 <= b[0] <= 0xEC || 0xEE <= b[0] <= 0xEF) && Tail(b[1]) && Tail(b[2]))
    || (|b| == 3 && b[0] == 0xED && 0x80 <= b[1] <= 0x9F && Tail(b[2]))
    || (|b| == 4 && b[0] == 0xF0 && 0x90 <= b[1] <= 0xBF && Tail(b[2]) && Tail(b[3]))
    || (|b| == 4 && 0xF1 <= b[0] <= 0xF3 && Tail(b[1]) && Tail(b[2]) && Tail(b[3]))
    || (|b| == 4 && b[0] == 0xF4 && 0x80 <= b[1] <= 0x8F && Tail(b[2]) && Tail(b[3]))
  }

  predicate Tail(c: byte) { 0x80 <= c <= 0xBF }

  lemma ShortIsWellFormed(c: cp)
    requires IsScalar(c) && c < 0x800
    ensures WellFormedPoint(EncodePoint(c))
  {
  }

  lemma ThreeIsWellFormed(c: cp)
    requires IsScalar(c) && 0x800 <= c < 0x10000
    ensures WellFormedPoint(EncodePoint(c))
  {
    var n: int := c;
    assert EncodePoint(c) == [0xE0 + n / 4096, 0x80 + n / 64 % 64, 0x80 + n / 1 % 64];
    assert n / 64 == n / 4096 * 64 + n / 64 % 64 by { Sixes(n); }
  }

  lemma FourIsWellFormed(c: cp)
    requires IsScalar(c) && 0x10000 <= c
    ensures WellFormedPoint(EncodePoint(c))
  {
    var n: int := c;
    assert EncodePoint(c) == [0xF0 + n / 262144, 0x80 + n / 4096 % 64, 0x80 + n / 64 % 64, 0x80 + n / 1 % 64];
    assert n / 4096 == n / 262144 * 64 + n / 4096 % 64 by { Sixes(n); }
  }

  /** Exactly these sequences encode a scalar value. */
  lemma PointsAreWellFormed(b: bytes)
    ensures WellFormedPoint(b) <==> exists c: cp :: IsScalar(c) && EncodePoint(c) == b
  {
    if c: cp :| IsScalar(c) && EncodePoint(c) == b {
      if c < 0x800 { ShortIsWellFormed(c); } else if c < 0x10000 { ThreeIsWellFormed(c); } else { FourIsWellFormed(c); }
    }
    if WellFormedPoint(b) {
      WellFormedDecodes(b);
      PointUnique(b);
      var c := DecodePoint(b).value.0;
      assert b[..|b|] == b;
      assert IsScalar(c) && EncodePoint(c) == b;
    }
  }

  lemma WellFormedDecodes(b: bytes)
    requires WellFormedPoint(b)
    ensures DecodePoint(b).Some? && DecodePoint(b).value.1 == |b|
  {
  }

  /** The sequences differ, first at a place where the one for the smaller value has the smaller byte. */
  ghost predicate DiffersAt(a: bytes, b: bytes, k: nat) {
    k < |a| && k < |b| && a[..k] == b[..k] && a[k] < b[k]
  }

  ghost predicate Differs(a: bytes, b: bytes) { exists k :: DiffersAt(a, b, k) }

  lemma LongerDiffers(c: cp, d: cp)
    requires IsScalar(c) && IsScalar(d) && c < d && |EncodePoint(c)| < |EncodePoint(d)|
    ensures DiffersAt(EncodePoint(c), EncodePoint(d), 0)
  {
    assert EncodePoint(c)[..0] == EncodePoint(d)[..0];
  }

  lemma TwoDiffers(c: cp, d: cp)
    requires 0x80 <= c < d < 0x800
    ensures Differs(EncodePoint(c), EncodePoint(d))
  {
    var m: int, n: int := c, d;
    var a, b := EncodePoint(c), EncodePoint(d);
    assert a[0] == 0xC0 + m / 64 && a[1] == 0x80 + m % 64 && b[0] == 0xC0 + n / 64 && b[1] == 0x80 + n % 64;
    if m / 64 < n / 64 { assert DiffersAt(a, b, 0); } else { assert a[..1] == b[..1] && DiffersAt(a, b, 1); }
  }

  lemma SplitAtSix(m: int, n: int)
    requires 0 <= m < n
    ensures m / 64 < n / 64 || (m / 64 == n / 64 && m % 64 < n % 64)
  {
  }

  lemma ThreeDiffers(c: cp, d: cp)
    requires IsScalar(c) && IsScalar(d) && 0x800 <= c < d < 0x10000
    ensures Differs(EncodePoint(c), EncodePoint(d))
  {
    var m: int, n: int := c, d;
    var a, b := EncodePoint(c), EncodePoint(d);
    Sixes(m);
    Sixes(n);
    assert a == [0xE0 + m / 4096, 0x80 + m / 64 % 64, 0x80 + m / 1 % 64];
    assert b == [0xE0 + n / 4096, 0x80 + n / 64 % 64, 0x80 + n / 1 % 64];
    SplitAtSix(m, n);
    if m / 64 < n / 64 {
      assert m / 64 / 64 == m / 4096 && n / 64 / 64 == n / 4096;
      SplitAtSix(m / 64, n / 64);
      if m / 4096 < n / 4096 { assert DiffersAt(a, b, 0); } else { assert a[..1] == b[..1] && DiffersAt(a, b, 1); }
    } else {
      assert a[..2] == b[..2] && DiffersAt(a, b, 2);
    }
  }

  lemma FourDiffers(c: cp, d: cp)
    requires IsScalar(c) && IsScalar(d) && 0x10000 <= c < d
    ensures Differs(EncodePoint(c), EncodePoint(d))
  {
    var m: int, n: int := c, d;
    var a, b := EncodePoint(c), EncodePoint(d);
    assert a == [0xF0 + m / 262144, 0x80 + m / 4096 % 64, 0x80 + m / 64 % 64, 0x80 + m / 1 % 64];
    assert b == [0xF0 + n / 262144, 0x80 + n / 4096 % 64, 0x80 + n / 64 % 64, 0x80 + n / 1 % 64];
    FourSteps(m, n);
    if m / 262144 < n / 262144 { assert DiffersAt(a, b, 0); }
    else if m / 4096 % 64 < n / 4096 % 64 { assert a[..1] == b[..1] && DiffersAt(a, b, 1); }
    else if m / 64 % 64 < n / 64 % 64 { assert a[..2] == b[..2] && DiffersAt(a, b, 2); }
    else { assert a[..3] == b[..3] && DiffersAt(a, b, 3); }
  }

  lemma FourSteps(m: int, n: int)
    requires 0 <= m < n
    ensures || m / 262144 < n / 262144
            || (m / 262144 == n / 262144
                && (|| m / 4096 % 64 < n / 4096 % 64
                    || (m / 4096 % 64 == n / 4096 % 64
                        && (|| m / 64 % 64 < n / 64 % 64
                            || (m / 64 % 64 == n / 64 % 64 && m % 64 < n % 64)))))
  {
    assert m / 64 / 64 == m / 4096 && n / 64 / 64 == n / 4096;
    assert m / 4096 / 64 == m / 262144 && n / 4096 / 64 == n / 262144;
    SplitAtSix(m, n);
    if m / 64 < n / 64 {
      SplitAtSix(m / 64, n / 64);
      if m / 4096 < n / 4096 { SplitAtSix(m / 4096, n / 4096); }
    }
  }

  lemma PointsDiffer(c: cp, d: cp)
    requires IsScalar(c) && IsScalar(d) && c < d
    ensures Differs(EncodePoint(c), EncodePoint(d))
  {
    if |EncodePoint(c)| < |EncodePoint(d)| { LongerDiffers(c, d); }
    else if d < 0x80 { assert EncodePoint(c)[..0] == EncodePoint(d)[..0]; assert DiffersAt(EncodePoint(c), EncodePoint(d), 0); }
    else if d < 0x800 { TwoDiffers(c, d); }
    else if d < 0x10000 { ThreeDiffers(c, d); }
    else { FourDiffers(c, d); }
  }

  lemma {:induction false} DiffersIsLess(a: bytes, b: bytes, k: nat, x: bytes, y: bytes)
    requires DiffersAt(a, b, k)
    ensures Less(a + x, b + y) && !Less(b + y, a + x)
    decreases k
  {
    assert (a + x)[0] == a[0] && (b + y)[0] == b[0];
    if k > 0 {
      assert a[..k][0] == a[0] && b[..k][0] == b[0];
      assert a[1..][..k - 1] == a[..k][1..] && b[1..][..k - 1] == b[..k][1..];
      assert (a + x)[1..] == a[1..] + x && (b + y)[1..] == b[1..] + y;
      DiffersIsLess(a[1..], b[1..], k - 1, x, y);
    }
  }

  lemma {:induction false} SamePrefixLess(p: bytes, x: bytes, y: bytes)
    ensures Less(p + x, p + y) <==> Less(x, y)
  {
    if p == [] {
      assert p + x == x && p + y == y;
    } else {
      assert (p + x)[1..] == p[1..] + x && (p + y)[1..] == p[1..] + y;
      SamePrefixLess(p[1..], x, y);
    }
  }

  /** The bytes stand in the order of the strings. With the well-formed sequences given, that leaves
      only one encoding. */
  lemma {:induction false} EncodeKeepsOrder(a: text, b: text)
    requires AllScalar(a) && AllScalar(b)
    ensures Less(Encode(a), Encode(b)) <==> Less(a, b)
    decreases |a|
  {
    if a != [] && b != [] {
      var x, y := Encode(a[1..]), Encode(b[1..]);
      if a[0] == b[0] {
        EncodeKeepsOrder(a[1..], b[1..]);
        SamePrefixLess(EncodePoint(a[0]), x, y);
      } else if a[0] < b[0] {
        PointsDiffer(a[0], b[0]);
        var k :| DiffersAt(EncodePoint(a[0]), EncodePoint(b[0]), k);
        DiffersIsLess(EncodePoint(a[0]), EncodePoint(b[0]), k, x, y);
      } else {
        PointsDiffer(b[0], a[0]);
        var k :| DiffersAt(EncodePoint(b[0]), EncodePoint(a[0]), k);
        DiffersIsLess(EncodePoint(b[0]), EncodePoint(a[0]), k, y, x);
      }
    }
  }
}
