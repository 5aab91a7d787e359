/** The bytes that the file-reference inventory hashes, read from the front. */
module InventoryFormat {
  import opened Results
  import opened Bytes
  import opened Text
  import opened Utf8
  import opened Json
  import opened JsonParser
  import opened FileReferences

  /** A number in base 256, the most significant byte first. */
  function PlaceValue(b: bytes): nat {
    if b == [] then 0 else b[0] * Power256(|b| - 1) + PlaceValue(b[1..])
  }

  lemma {:induction false} PlaceValueSnoc(b: bytes, c: byte)
    ensures PlaceValue(b + [c]) == 256 * PlaceValue(b) + c
  {
    if b == [] {
      assert ([] + [c])[1..] == [] && Power256(0) == 1;
    } else {
      assert (b + [c])[1..] == b[1..] + [c];
      PlaceValueSnoc(b[1..], c);
    }
  }

  lemma {:induction false} BigEndianReads(n: nat, k: nat)
    requires n < Power256(k)
    ensures PlaceValue(BigEndian(n, k)) == n
    decreases k
  {
    if k > 0 {
      BigEndianReads(n / 256, k - 1);
      PlaceValueSnoc(BigEndian(n / 256, k - 1), n % 256);
    }
  }

  /** `p` is the encodings one after the other, each behind its length in eight bytes. */
  ghost predicate FramedAs(p: bytes, es: seq<bytes>) {
    if es == [] then p == []
    else
      && |p| >= 8 && PlaceValue(p[..8]) == |es[0]|
      && |p| >= 8 + |es[0]| && p[8..8 + |es[0]|] == es[0] && FramedAs(p[8 + |es[0]|..], es[1..])
  }

  lemma {:induction false} FramesAreFramed(es: seq<bytes>)
    requires Framable(es)
    ensures FramedAs(Frames(es), es)
  {
    if es != [] {
      assert es == [es[0]] + es[1..];
      FramesCons(es[0], es[1..]);
      FramesAreFramed(es[1..]);
      BigEndianReads(|es[0]|, 8);
      FrontOf(BigEndian(|es[0]|, 8), es[0], Frames(es[1..]));
    }
  }

  lemma FrontOf(a: bytes, e: bytes, rest: bytes)
    requires |a| == 8
    ensures var p := a + e + rest; p[..8] == a && p[8..8 + |e|] == e && p[8 + |e|..] == rest
  {
  }

  /** The three strings in NFC, as a JSON array without spaces. */
  ghost function Spelled(nfc: text -> text, r: Reference): text {
    Txt("[") + Quote(nfc(r.collection)) + Txt(",") + Quote(nfc(r.record)) + Txt(",") + Quote(nfc(r.file)) + Txt("]")
  }

  lemma ThreeJoined(a: text, b: text, c: text)
    ensures [91] + Join([a, b, c]) + [93] == [91] + a + [44] + b + [44] + c + [93]
  {
    assert [a, b, c][1..] == [b, c] && [b, c][1..] == [c];
    assert Join([b, c]) == b + [44] + c;
    assert Join([a, b, c]) == a + [44] + Join([b, c]);
  }

  lemma ThreePrinted(a: text, b: text, c: text)
    ensures Print(Arr([Str(a), Str(b), Str(c)])) == [91] + Quote(a) + [44] + Quote(b) + [44] + Quote(c) + [93]
  {
    var items := [Str(a), Str(b), Str(c)];
    assert seq(|items|, i requires 0 <= i < |items| => Print(items[i])) == [Quote(a), Quote(b), Quote(c)];
    ThreeJoined(Quote(a), Quote(b), Quote(c));
  }

  ghost predicate Scalars(nfc: text -> text, r: Reference) {
    AllScalar(nfc(r.collection)) && AllScalar(nfc(r.record)) && AllScalar(nfc(r.file))
  }

  lemma ReferenceNormal(nfc: text -> text, r: Reference)
    ensures Scalars(nfc, r) ==> Normalize(nfc, RefJson(r)) == Ok(Arr([Str(nfc(r.collection)), Str(nfc(r.record)), Str(nfc(r.file))]))
    ensures !Scalars(nfc, r) ==> Normalize(nfc, RefJson(r)).Err?
  {
    var items := [Str(r.collection), Str(r.record), Str(r.file)];
    assert RefJson(r).items == items;
    assert items[0] == Str(r.collection) && items[1] == Str(r.record) && items[2] == Str(r.file);
    if Scalars(nfc, r) {
      assert Normalize(nfc, RefJson(r)).value.items == [Str(nfc(r.collection)), Str(nfc(r.record)), Str(nfc(r.file))];
    } else {
      assert exists i :: 0 <= i < 3 && Normalize(nfc, items[i]).Err?;
    }
  }

  lemma ScalarsSpelled(nfc: text -> text, r: Reference)
    requires Scalars(nfc, r)
    ensures AllScalar(Spelled(nfc, r))
  {
    EscapeScalar(nfc(r.collection));
    EscapeScalar(nfc(r.record));
    EscapeScalar(nfc(r.file));
  }

  lemma PunctuationIs()
    ensures Txt("[") == [91] && Txt(",") == [44] && Txt("]") == [93]
  {
  }

  /** One reference is encoded exactly when UTF-8 can hold it. */
  lemma ReferenceBytes(nfc: text -> text, r: Reference)
    requires NfcLaw(nfc)
    ensures CanonicalBytes(nfc, RefJson(r)).Ok? <==> Scalars(nfc, r)
    ensures Scalars(nfc, r) ==> AllScalar(Spelled(nfc, r)) && CanonicalBytes(nfc, RefJson(r)) == Ok(Encode(Spelled(nfc, r)))
  {
    ReferenceNormal(nfc, r);
    if Scalars(nfc, r) {
      ScalarsSpelled(nfc, r);
      ThreePrinted(nfc(r.collection), nfc(r.record), nfc(r.file));
      PunctuationIs();
      assert Print(Normalize(nfc, RefJson(r)).value) == Spelled(nfc, r);
    }
  }

  const LABEL := "PPBASE-LOCAL-FILE-REFERENCES-V1"

  /** The label and a zero byte. */
  ghost predicate StartsWithLabel(p: bytes) {
    |p| >= 32 && p[31] == 0 && forall i :: 0 <= i < 31 ==> p[i] == LABEL[i] as int
  }

  /** UTF-8 can hold the references. */
  ghost predicate Encodable(nfc: text -> text, c: seq<Reference>) {
    forall i :: 0 <= i < |c| ==> Scalars(nfc, c[i]) && AllScalar(Spelled(nfc, c[i]))
  }

  ghost function SpelledAll(nfc: text -> text, c: seq<Reference>): (es: seq<bytes>)
    requires Encodable(nfc, c)
  {
    seq(|c|, i requires 0 <= i < |c| => Encode(Spelled(nfc, c[i])))
  }

  /** What is hashed for the references `c`. */
  ghost predicate Hashes(nfc: text -> text, p: bytes, c: seq<Reference>) {
    Encodable(nfc, c) && StartsWithLabel(p) && FramedAs(p[32..], SpelledAll(nfc, c))
  }

  lemma DomainIs()
    ensures |DOMAIN| == 32 && DOMAIN[31] == 0 && forall i :: 0 <= i < 31 ==> DOMAIN[i] == LABEL[i] as int
  {
  }

  lemma DomainStarts(rest: bytes)
    ensures StartsWithLabel(DOMAIN + rest) && (DOMAIN + rest)[32..] == rest
  {
    DomainIs();
    assert forall i :: 0 <= i < 32 ==> (DOMAIN + rest)[i] == DOMAIN[i];
  }

  lemma EncodedAreSpelled(nfc: text -> text, encode: Reference -> Option<bytes>, c: seq<Reference>)
    requires NfcLaw(nfc) && FileReferences.Encodes(nfc, encode) && EncodedAll(encode, c).Some?
    ensures Encodable(nfc, c) && EncodedAll(encode, c) == Some(SpelledAll(nfc, c)) && Framable(SpelledAll(nfc, c))
  {
    EncodingsFit(nfc, encode);
    EncodedFramable(encode, c);
    var es := EncodedAll(encode, c).value;
    forall i | 0 <= i < |c| ensures Scalars(nfc, c[i]) && AllScalar(Spelled(nfc, c[i])) && es[i] == Encode(Spelled(nfc, c[i])) {
      assert encode(c[i]) == Some(es[i]);
      ReferenceBytes(nfc, c[i]);
    }
    assert es == SpelledAll(nfc, c);
  }

  /** The inventory of any references: version 1, how many there are, and the digest of the sorted set in
      the framed form. */
  lemma InventoryMeans(
    nfc: text -> text, sha: bytes -> text, encode: Reference -> Option<bytes>, refs: seq<Reference>) returns (c: seq<Reference>, p: bytes)
    requires NfcLaw(nfc) && FileReferences.Encodes(nfc, encode) && AllOk(refs) && InventoryOf(sha, encode, refs).Some?
    ensures (forall r :: r in c <==> r in refs) && forall i, j :: 0 <= i < j < |c| ==> TupleLess(c[i], c[j])
    ensures Hashes(nfc, p, c) && InventoryOf(sha, encode, refs) == Some(Inventory(1, |c|, sha(p)))
  {
    c := Canonical(refs);
    CanonicalIsSortedSet(refs);
    EncodedAreSpelled(nfc, encode, c);
    var es := SpelledAll(nfc, c);
    p := DOMAIN + Frames(es);
    DomainStarts(Frames(es));
    FramesAreFramed(es);
  }

  function Composite(nfc: text -> text, r: Reference): Reference {
    Reference(nfc(r.collection), nfc(r.record), nfc(r.file))
  }

  function Composites(nfc: text -> text, c: seq<Reference>): (r: seq<Reference>)
    ensures |r| == |c| && forall i :: 0 <= i < |c| ==> r[i] == Composite(nfc, c[i])
  {
    seq(|c|, i requires 0 <= i < |c| => Composite(nfc, c[i]))
  }

  lemma SpellingTellsApart(nfc: text -> text, a: Reference, b: Reference)
    requires NfcLaw(nfc) && Scalars(nfc, a) && Scalars(nfc, b) && AllScalar(Spelled(nfc, a)) && AllScalar(Spelled(nfc, b))
    ensures Encode(Spelled(nfc, a)) == Encode(Spelled(nfc, b)) <==> Composite(nfc, a) == Composite(nfc, b)
  {
    ReferenceBytes(nfc, a);
    ReferenceBytes(nfc, b);
    ReferenceNormal(nfc, a);
    ReferenceNormal(nfc, b);
    if Encode(Spelled(nfc, a)) == Encode(Spelled(nfc, b)) {
      CanonicalInjective(nfc, RefJson(a), RefJson(b));
      var x, y := Composite(nfc, a), Composite(nfc, b);
      assert [Str(x.collection), Str(x.record), Str(x.file)] == [Str(y.collection), Str(y.record), Str(y.file)];
      ThreeSame(x, y);
    }
  }

  lemma ThreeSame(x: Reference, y: Reference)
    requires [Str(x.collection), Str(x.record), Str(x.file)] == [Str(y.collection), Str(y.record), Str(y.file)]
    ensures x == y
  {
    var s, t := [Str(x.collection), Str(x.record), Str(x.file)], [Str(y.collection), Str(y.record), Str(y.file)];
    assert s[0] == t[0] && s[1] == t[1] && s[2] == t[2];
  }

  lemma SpelledSame(nfc: text -> text, c: seq<Reference>, d: seq<Reference>)
    requires NfcLaw(nfc) && Encodable(nfc, c) && Encodable(nfc, d)
    ensures SpelledAll(nfc, c) == SpelledAll(nfc, d) <==> Composites(nfc, c) == Composites(nfc, d)
  {
    var x, y := SpelledAll(nfc, c), SpelledAll(nfc, d);
    if |c| == |d| {
      forall i | 0 <= i < |c| ensures x[i] == y[i] <==> Composites(nfc, c)[i] == Composites(nfc, d)[i] {
        SpellingTellsApart(nfc, c[i], d[i]);
      }
    }
  }

  /** Two inventories of any references are equal exactly when the sorted sets, brought to NFC element by
      element, are the same lists. */
  lemma InventoriesAgreeIff(nfc: text -> text, sha: bytes -> text, encode: Reference -> Option<bytes>, a: seq<Reference>, b: seq<Reference>)
    requires NfcLaw(nfc) && FileReferences.Encodes(nfc, encode)
    requires forall x: bytes, y: bytes :: sha(x) == sha(y) ==> x == y
    requires InventoryOf(sha, encode, a).Some? && InventoryOf(sha, encode, b).Some?
    ensures InventoryOf(sha, encode, a) == InventoryOf(sha, encode, b) <==>
            Composites(nfc, Canonical(a)) == Composites(nfc, Canonical(b))
  {
    var c, d := Canonical(a), Canonical(b);
    EncodedAreSpelled(nfc, encode, c);
    EncodedAreSpelled(nfc, encode, d);
    SpelledSame(nfc, c, d);
    var x, y := Frames(SpelledAll(nfc, c)), Frames(SpelledAll(nfc, d));
    assert (DOMAIN + x)[|DOMAIN|..] == x && (DOMAIN + y)[|DOMAIN|..] == y;
    if x == y { FramesInjective(SpelledAll(nfc, c), SpelledAll(nfc, d)); }
  }

  /** There is one unless some reference is beyond UTF-8 or longer than eight bytes can say. */
  lemma InventoryExists(nfc: text -> text, sha: bytes -> text, encode: Reference -> Option<bytes>, refs: seq<Reference>)
    requires NfcLaw(nfc) && FileReferences.Encodes(nfc, encode) && AllOk(refs)
    ensures InventoryOf(sha, encode, refs).Some? <==>
            forall r :: r in refs ==> Scalars(nfc, r) && AllScalar(Spelled(nfc, r)) && |Encode(Spelled(nfc, r))| < Power256(8)
  {
    CanonicalIsSortedSet(refs);
    EncodedWhenAll(encode, Canonical(refs));
    forall r | r in refs
      ensures encode(r).Some? <==> Scalars(nfc, r) && AllScalar(Spelled(nfc, r)) && |Encode(Spelled(nfc, r))| < Power256(8)
    {
      ReferenceBytes(nfc, r);
    }
  }

  lemma {:induction false} EncodedWhenAll(encode: Reference -> Option<bytes>, refs: seq<Reference>)
    ensures EncodedAll(encode, refs).Some? <==> forall r :: r in refs ==> encode(r).Some?
    decreases |refs|
  {
    if refs != [] {
      var k := |refs| - 1;
      EncodedWhenAll(encode, refs[..k]);
      assert refs == refs[..k] + [refs[k]];
    }
  }
}
