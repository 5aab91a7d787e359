/** Python strings as code points, their ordering, and sorted key sequences. */
module Text {
  /** One element of a Python string, as its number; lone surrogates are possible. */
  type cp = int
  type text = seq<cp>

  /** A Dafny string as a Python one. */
  function Txt(s: string): text { seq(|s|, i requires 0 <= i < |s| => s[i] as int) }

  /** An ASCII digit. */
  predicate IsDigit(c: cp) { 48 <= c < 58 }

  /** No element twice. */
  predicate Distinct<T(==)>(s: seq<T>) { forall i, j :: 0 <= i < j < |s| ==> s[i] != s[j] }

  ghost function Elements<T>(s: seq<T>): set<T> { set x | x in s }

  /** A Unicode scalar value, which is what UTF-8 can encode. */
  predicate IsScalar(c: cp) { 0 <= c < 0xD800 || 0xE000 <= c < 0x110000 }

  /** What a Python string can hold. */
  predicate CodePoints(t: text) { forall i :: 0 <= i < |t| ==> 0 <= t[i] < 0x110000 }

  predicate AllScalar(t: text) { forall i :: 0 <= i < |t| ==> IsScalar(t[i]) }

  /** Python's `<` on strings. */
  predicate Less(a: text, b: text)
    decreases |a|
  {
    if b == [] then false
    else if a == [] then true
    else if a[0] != b[0] then a[0] < b[0]
    else Less(a[1..], b[1..])
  }

  lemma {:induction false} LessTotal(a: text, b: text)
    ensures a == b || Less(a, b) || Less(b, a)
    ensures !(Less(a, b) && Less(b, a)) && !Less(a, a)
    decreases |a|
  {
    if a != [] { LessTotal(a[1..], if b == [] then [] else b[1..]); }
    if a != [] && b != [] && a[0] == b[0] {
      assert a == [a[0]] + a[1..] && b == [b[0]] + b[1..];
      LessTotal(a[1..], b[1..]);
    }
    LessIrreflexive(a);
  }

  lemma {:induction false} LessIrreflexive(a: text)
    ensures !Less(a, a)
    decreases |a|
  {
    if a != [] { LessIrreflexive(a[1..]); }
  }

  lemma {:induction false} LessTransitive(a: text, b: text, c: text)
    requires Less(a, b) && Less(b, c)
    ensures Less(a, c)
    decreases |a|
  {
    if a != [] && a[0] == b[0] && b[0] == c[0] { LessTransitive(a[1..], b[1..], c[1..]); }
  }

  ghost predicate Least(m: text, s: set<text>) {
    m in s && forall k :: k in s ==> k == m || Less(m, k)
  }

  lemma {:induction false} LeastExists(s: set<text>)
    requires s != {}
    ensures exists m :: Least(m, s)
  {
    var k :| k in s;
    if s == {k} {
      assert Least(k, s);
    } else {
      var rest := s - {k};
      LeastExists(rest);
      var m :| Least(m, rest);
      LessTotal(k, m);
      if Less(k, m) {
        forall j | j in s ensures j == k || Less(k, j) {
          if j != k && j != m { LessTransitive(k, m, j); }
        }
        assert Least(k, s);
      } else {
        assert Least(m, s);
      }
    }
  }

  /** The elements of a set in ascending order, as `sorted` gives them. */
  ghost function Sorted(s: set<text>): (r: seq<text>)
    ensures |r| == |s| && (forall k :: k in r <==> k in s)
    ensures forall i, j :: 0 <= i < j < |r| ==> Less(r[i], r[j])
  {
    if s == {} then []
    else
      LeastExists(s);
      var m :| Least(m, s);
      [m] + Sorted(s - {m})
  }

  ghost predicate Ascending(r: seq<text>) {
    forall i, j :: 0 <= i < j < |r| ==> Less(r[i], r[j])
  }

  /** An ascending sequence is determined by its elements. */
  lemma {:induction false} AscendingUnique(a: seq<text>, b: seq<text>)
    requires Ascending(a) && Ascending(b) && forall k :: k in a <==> k in b
    ensures a == b
    decreases |a|
  {
    assert b != [] ==> b[0] in b;
    if a != [] {
      assert a[0] in b;
      var i :| 0 <= i < |b| && b[i] == a[0];
      assert b[0] in a;
      var j :| 0 <= j < |a| && a[j] == b[0];
      LessTotal(a[0], b[0]);
      assert a[0] == b[0];
      forall k ensures k in a[1..] <==> k in b[1..] {
        if k in a[1..] {
          var x :| 0 < x < |a| && a[x] == k;
          LessTotal(a[0], k);
          assert k in b;
        }
        if k in b[1..] {
          var x :| 0 < x < |b| && b[x] == k;
          LessTotal(b[0], k);
          assert k in a;
        }
      }
      AscendingUnique(a[1..], b[1..]);
    }
  }
}
