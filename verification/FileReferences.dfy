/** The inventory that compares restored file references with the archive's. */
module FileReferences {
  import opened Results
  import opened Bytes
  import opened Text
  import opened Ordering
  import opened Json
  import opened JsonParser

  datatype Reference = Reference(collection: text, record: text, file: text)

  predicate RefOk(r: Reference) { CodePoints(r.collection) && CodePoints(r.record) && CodePoints(r.file) }

  /** Python's `<` on the tuples. */
  predicate TupleLess(a: Reference, b: Reference) {
    if a.collection != b.collection then Less(a.collection, b.collection)
    else if a.record != b.record then Less(a.record, b.record)
    else Less(a.file, b.file)
  }

  /** The parts joined by something below every code point. */
  function SortKey(r: Reference): text { r.collection + ([-1] + (r.record + ([-1] + r.file))) }

  lemma {:induction false} KeyPart(a: text, x: text, b: text, y: text)
    requires CodePoints(a) && CodePoints(b)
    ensures Less(a + ([-1] + x), b + ([-1] + y)) <==> (if a != b then Less(a, b) else Less(x, y))
    ensures a + ([-1] + x) == b + ([-1] + y) <==> a == b && x == y
    decreases |a|
  {
    var s, t := a + ([-1] + x), b + ([-1] + y);
    LessIrreflexive(a);
    if a == [] && b == [] {
      assert s[1..] == x && t[1..] == y;
    } else if a != [] && b != [] {
      assert s[0] == a[0] && t[0] == b[0];
      assert s[1..] == a[1..] + ([-1] + x) && t[1..] == b[1..] + ([-1] + y);
      KeyPart(a[1..], x, b[1..], y);
      assert a == [a[0]] + a[1..] && b == [b[0]] + b[1..];
      assert s == [s[0]] + s[1..] && t == [t[0]] + t[1..];
    } else if a == [] {
      assert s[0] == -1 && t[0] == b[0];
    } else {
      assert t[0] == -1 && s[0] == a[0];
    }
  }

  /** Sorting by the key is sorting the tuples, and the key tells references apart. */
  lemma KeyIsTupleOrder(a: Reference, b: Reference)
    requires RefOk(a) && RefOk(b)
    ensures Less(SortKey(a), SortKey(b)) <==> TupleLess(a, b)
    ensures SortKey(a) == SortKey(b) <==> a == b
  {
    KeyPart(a.collection, a.record + ([-1] + a.file), b.collection, b.record + ([-1] + b.file));
    KeyPart(a.record, a.file, b.record, b.file);
  }

  function RefJson(r: Reference): Value { Arr([Str(r.collection), Str(r.record), Str(r.file)]) }

  const DOMAIN: bytes :=
    [0x50, 0x50, 0x42, 0x41, 0x53, 0x45, 0x2D, 0x4C, 0x4F, 0x43, 0x41, 0x4C, 0x2D, 0x46, 0x49, 0x4C, 0x45, 0x2D,
     0x52, 0x45, 0x46, 0x45, 0x52, 0x45, 0x4E, 0x43, 0x45, 0x53, 0x2D, 0x56, 0x31, 0x00]

  /** `n.to_bytes(k, "big")`, where it fits. */
  function BigEndian(n: nat, k: nat): (b: bytes)
    ensures |b| == k
  {
    if k == 0 then [] else BigEndian(n / 256, k - 1) + [n % 256]
  }

  function Power256(k: nat): nat { if k == 0 then 1 else 256 * Power256(k - 1) }

  lemma {:induction false} BigEndianInjective(m: nat, n: nat, k: nat)
    requires m < Power256(k) && n < Power256(k) && BigEndian(m, k) == BigEndian(n, k)
    ensures m == n
  {
    if k > 0 {
      var x, y := BigEndian(m, k), BigEndian(n, k);
      assert x[k - 1] == m % 256 && y[k - 1] == n % 256;
      assert x[..k - 1] == BigEndian(m / 256, k - 1) && y[..k - 1] == BigEndian(n / 256, k - 1);
      BigEndianInjective(m / 256, n / 256, k - 1);
    }
  }

  /** One encoded reference behind its length. */
  function Frame(e: bytes): bytes { BigEndian(|e|, 8) + e }

  function Frames(es: seq<bytes>): bytes {
    if es == [] then [] else Frames(es[..|es| - 1]) + Frame(es[|es| - 1])
  }

  lemma {:induction false} FramesCons(e: bytes, rest: seq<bytes>)
    ensures Frames([e] + rest) == Frame(e) + Frames(rest)
    decreases |rest|
  {
    if rest == [] {
      FramesSnoc([], e);
      assert [e] + rest == [] + [e];
    } else {
      var k := |rest| - 1;
      FramesCons(e, rest[..k]);
      FramesSnoc([e] + rest[..k], rest[k]);
      FramesSnoc(rest[..k], rest[k]);
      assert [e] + rest == [e] + rest[..k] + [rest[k]] && rest == rest[..k] + [rest[k]];
      Regrouped(Frame(e), Frames(rest[..k]), Frame(rest[k]));
    }
  }

  lemma FramesSnoc(es: seq<bytes>, e: bytes)
    ensures Frames(es + [e]) == Frames(es) + Frame(e)
  {
    assert (es + [e])[..|es|] == es;
  }

  lemma Regrouped(a: bytes, b: bytes, c: bytes)
    ensures (a + b) + c == a + (b + c)
  {
  }

  predicate Framable(es: seq<bytes>) { forall i :: 0 <= i < |es| ==> |es[i]| < Power256(8) }

  lemma FrameSplits(d: bytes, e: bytes, x: bytes, y: bytes)
    requires |d| < Power256(8) && |e| < Power256(8) && Frame(d) + x == Frame(e) + y
    ensures d == e && x == y
  {
    var s, t := Frame(d) + x, Frame(e) + y;
    assert s[..8] == BigEndian(|d|, 8) && t[..8] == BigEndian(|e|, 8);
    BigEndianInjective(|d|, |e|, 8);
    assert s[8..8 + |d|] == d && t[8..8 + |e|] == e;
    assert s[8 + |d|..] == x && t[8 + |e|..] == y;
  }

  /** Length prefixes make the concatenation unambiguous. */
  lemma {:induction false} FramesInjective(a: seq<bytes>, b: seq<bytes>)
    requires Framable(a) && Framable(b) && Frames(a) == Frames(b)
    ensures a == b
    decreases |a|
  {
    if a != [] { FramesCons(a[0], a[1..]); assert a == [a[0]] + a[1..]; }
    assert (a != [] ==> |Frames(a)| >= 8) && (a == [] ==> Frames(a) == []);
    if b != [] { FramesCons(b[0], b[1..]); assert b == [b[0]] + b[1..]; }
    assert (b != [] ==> |Frames(b)| >= 8) && (b == [] ==> Frames(b) == []);
    if a != [] && b != [] {
      FrameSplits(a[0], b[0], Frames(a[1..]), Frames(b[1..]));
      FramesInjective(a[1..], b[1..]);
    }
  }

  // Building the inventory

  datatype Inventory = Inventory(version: nat, count: nat, sha256: text)

  const VERSION: nat := 1

  /** `canonical_json_bytes(list(reference))`, whose length must fit its prefix. */
  ghost predicate Encodes(nfc: text -> text, encode: Reference -> Option<bytes>)
    requires NfcLaw(nfc)
  {
    forall r: Reference {:trigger encode(r)} ::
      encode(r) == match CanonicalBytes(nfc, RefJson(r))
                   case Err(_) => None
                   case Ok(e) => if |e| < Power256(8) then Some(e) else None
  }

  ghost function EncodedAll(encode: Reference -> Option<bytes>, refs: seq<Reference>): Option<seq<bytes>> {
    if refs == [] then Some([])
    else
      var k := |refs| - 1;
      match (EncodedAll(encode, refs[..k]), encode(refs[k]))
      case (Some(es), Some(e)) => Some(es + [e])
      case _ => None
  }

  /** `sorted(set(references))`. */
  ghost function Canonical(refs: seq<Reference>): seq<Reference> { Arranged(SortKey, refs) }

  ghost function Preimage(encode: Reference -> Option<bytes>, refs: seq<Reference>): Option<bytes> {
    match EncodedAll(encode, Canonical(refs)) case None => None case Some(es) => Some(DOMAIN + Frames(es))
  }

  ghost function InventoryOf(sha: bytes -> text, encode: Reference -> Option<bytes>, refs: seq<Reference>): Option<Inventory> {
    match Preimage(encode, refs) case None => None case Some(p) => Some(Inventory(VERSION, |Canonical(refs)|, sha(p)))
  }

  ghost predicate AllOk(refs: seq<Reference>) { forall r :: r in refs ==> RefOk(r) }

  lemma KeysDetermine(x: seq<Reference>, y: seq<Reference>)
    requires AllOk(x) && AllOk(y) && Keys(SortKey, x) == Keys(SortKey, y)
    ensures x == y
  {
    assert |x| == |Keys(SortKey, x)| == |y|;
    forall i | 0 <= i < |x| ensures x[i] == y[i] {
      assert Keys(SortKey, x)[i] == SortKey(x[i]) && Keys(SortKey, y)[i] == SortKey(y[i]);
      assert x[i] in x && y[i] in y;
      KeyIsTupleOrder(x[i], y[i]);
    }
  }

  lemma SameCanonical(a: seq<Reference>, b: seq<Reference>)
    requires AllOk(a) && AllOk(b) && forall r :: r in a <==> r in b
    ensures Canonical(a) == Canonical(b)
  {
    KeysFollow(a, b);
    KeysFollow(b, a);
    assert Elements(Keys(SortKey, a)) == Elements(Keys(SortKey, b));
    KeysDetermine(Canonical(a), Canonical(b));
  }

  lemma KeysFollow(a: seq<Reference>, b: seq<Reference>)
    requires forall r :: r in a ==> r in b
    ensures Elements(Keys(SortKey, a)) <= Elements(Keys(SortKey, b))
  {
    forall k | k in Elements(Keys(SortKey, a)) ensures k in Elements(Keys(SortKey, b)) {
      var i :| 0 <= i < |a| && Keys(SortKey, a)[i] == k;
      assert a[i] in b;
      var j :| 0 <= j < |b| && b[j] == a[i];
      assert Keys(SortKey, b)[j] == k;
    }
  }

  /** The canonical list holds each reference of the collection once, in tuple order. */
  lemma CanonicalIsSortedSet(refs: seq<Reference>)
    requires AllOk(refs)
    ensures forall r :: r in Canonical(refs) <==> r in refs
    ensures forall i, j :: 0 <= i < j < |Canonical(refs)| ==> TupleLess(Canonical(refs)[i], Canonical(refs)[j])
  {
    var c := Canonical(refs);
    var ks := Keys(SortKey, c);
    forall r | r in refs ensures r in c {
      var i :| 0 <= i < |refs| && refs[i] == r;
      assert Keys(SortKey, refs)[i] == SortKey(r);
      assert SortKey(r) in ks;
      var j :| 0 <= j < |ks| && ks[j] == SortKey(r);
      assert c[j] in c;
      KeyIsTupleOrder(c[j], r);
    }
    forall i, j | 0 <= i < j < |c| ensures TupleLess(c[i], c[j]) {
      assert c[i] in c && c[j] in c;
      assert Less(ks[i], ks[j]);
      KeyIsTupleOrder(c[i], c[j]);
    }
  }

  /** Every encoding fits its length prefix. */
  ghost predicate Fits(encode: Reference -> Option<bytes>) {
    forall r: Reference {:trigger encode(r)} :: encode(r).Some? ==> |encode(r).value| < Power256(8)
  }

  lemma EncodingsFit(nfc: text -> text, encode: Reference -> Option<bytes>)
    requires NfcLaw(nfc) && Encodes(nfc, encode)
    ensures Fits(encode)
  {
  }

  lemma {:induction false} EncodedFramable(encode: Reference -> Option<bytes>, refs: seq<Reference>)
    requires Fits(encode) && EncodedAll(encode, refs).Some?
    ensures var es := EncodedAll(encode, refs).value;
            Framable(es) && |es| == |refs| && forall i :: 0 <= i < |es| ==> encode(refs[i]) == Some(es[i])
    decreases |refs|
  {
    if refs != [] { EncodedFramable(encode, refs[..|refs| - 1]); }
  }

  /** References whose strings are in NFC. */
  ghost predicate Composed(nfc: text -> text, refs: seq<Reference>) {
    forall r :: r in refs ==> Normal(nfc, RefJson(r))
  }

  lemma EncodeTellsApart(nfc: text -> text, encode: Reference -> Option<bytes>, a: Reference, b: Reference)
    requires NfcLaw(nfc) && Encodes(nfc, encode) && Normal(nfc, RefJson(a)) && Normal(nfc, RefJson(b))
    requires encode(a).Some? && encode(a) == encode(b)
    ensures a == b
  {
    CanonicalInjective(nfc, RefJson(a), RefJson(b));
    NormalIsFixed(nfc, RefJson(a));
    NormalIsFixed(nfc, RefJson(b));
    assert RefJson(a).items[0] == Str(a.collection) && RefJson(b).items[0] == Str(b.collection);
    assert RefJson(a).items[1] == Str(a.record) && RefJson(b).items[1] == Str(b.record);
    assert RefJson(a).items[2] == Str(a.file) && RefJson(b).items[2] == Str(b.file);
  }

  /** Equal inventories mean equal sets of references, and the other way round. */
  lemma InventoriesAgreeIffSetsDo(
    nfc: text -> text, sha: bytes -> text, encode: Reference -> Option<bytes>, a: seq<Reference>, b: seq<Reference>)
    requires NfcLaw(nfc) && Encodes(nfc, encode) && AllOk(a) && AllOk(b) && Composed(nfc, a) && Composed(nfc, b)
    requires forall x: bytes, y: bytes :: sha(x) == sha(y) ==> x == y
    requires InventoryOf(sha, encode, a).Some? && InventoryOf(sha, encode, b).Some?
    ensures InventoryOf(sha, encode, a) == InventoryOf(sha, encode, b) <==> (forall r :: r in a <==> r in b)
  {
    var x, y := Canonical(a), Canonical(b);
    if forall r :: r in a <==> r in b { SameCanonical(a, b); }
    if InventoryOf(sha, encode, a) == InventoryOf(sha, encode, b) {
      var es, fs := EncodedAll(encode, x).value, EncodedAll(encode, y).value;
      EncodingsFit(nfc, encode);
      EncodedFramable(encode, x);
      EncodedFramable(encode, y);
      assert (DOMAIN + Frames(es))[|DOMAIN|..] == Frames(es) && (DOMAIN + Frames(fs))[|DOMAIN|..] == Frames(fs);
      FramesInjective(es, fs);
      CanonicalIsSortedSet(a);
      CanonicalIsSortedSet(b);
      forall i | 0 <= i < |x| ensures x[i] == y[i] {
        assert x[i] in x && y[i] in y;
        EncodeTellsApart(nfc, encode, x[i], y[i]);
      }
      assert x == y;
    }
  }

  /** `set(references)` as a list without repetitions. */
  method Deduplicate(refs: seq<Reference>) returns (unique: seq<Reference>)
    requires AllOk(refs)
    ensures Distinct(Keys(SortKey, unique)) && forall r :: r in unique <==> r in refs
  {
    unique := [];
    for i := 0 to |refs|
      invariant Distinct(unique) && (forall r :: r in unique <==> r in refs[..i])
    {
      if refs[i] !in unique { unique := unique + [refs[i]]; }
    }
    assert refs[..|refs|] == refs;
    forall i, j | 0 <= i < j < |unique| ensures Keys(SortKey, unique)[i] != Keys(SortKey, unique)[j] {
      assert unique[i] in refs && unique[j] in refs;
      KeyIsTupleOrder(unique[i], unique[j]);
    }
  }

  /** The digest loop; the hash object stands as the bytes it has absorbed. */
  method BuildFileReferenceInventory(sha: bytes -> text, encode: Reference -> Option<bytes>, refs: seq<Reference>)
    returns (r: Option<Inventory>)
    requires AllOk(refs)
    ensures r == InventoryOf(sha, encode, refs)
  {
    var unique := Deduplicate(refs);
    var canonical := SortBy(SortKey, unique);
    assert AllOk(unique);
    SameCanonical(unique, refs);
    r := Digest(sha, encode, canonical);
  }

  lemma EncodedSnoc(encode: Reference -> Option<bytes>, refs: seq<Reference>, i: nat, es: seq<bytes>)
    requires i < |refs| && EncodedAll(encode, refs[..i]) == Some(es)
    ensures EncodedAll(encode, refs[..i + 1]) ==
            match encode(refs[i]) case None => None case Some(e) => Some(es + [e])
  {
    assert refs[..i + 1][..i] == refs[..i];
  }

  method Digest(sha: bytes -> text, encode: Reference -> Option<bytes>, canonical: seq<Reference>) returns (r: Option<Inventory>)
    ensures r == match EncodedAll(encode, canonical)
                 case None => None
                 case Some(es) => Some(Inventory(VERSION, |canonical|, sha(DOMAIN + Frames(es))))
  {
    var digest := DOMAIN;
    ghost var es: seq<bytes> := [];
    assert DOMAIN + [] == DOMAIN;
    for i := 0 to |canonical|
      invariant EncodedAll(encode, canonical[..i]) == Some(es) && digest == DOMAIN + Frames(es)
    {
      EncodedSnoc(encode, canonical, i, es);
      var encoded := encode(canonical[i]);
      if encoded.None? {
        NothingEncoded(encode, canonical, i + 1);
        return None;
      }
      FramesSnoc(es, encoded.value);
      assert (DOMAIN + Frames(es)) + Frame(encoded.value) == DOMAIN + Frames(es + [encoded.value]);
      digest := digest + (BigEndian(|encoded.value|, 8) + encoded.value);
      es := es + [encoded.value];
    }
    assert canonical[..|canonical|] == canonical;
    return Some(Inventory(VERSION, |canonical|, sha(digest)));
  }

  lemma {:induction false} NothingEncoded(encode: Reference -> Option<bytes>, refs: seq<Reference>, n: nat)
    requires n <= |refs| && EncodedAll(encode, refs[..n]) == None
    ensures EncodedAll(encode, refs) == None
    decreases |refs|
  {
    if n < |refs| {
      var k := |refs| - 1;
      assert refs[..k][..n] == refs[..n];
      NothingEncoded(encode, refs[..k], n);
    } else {
      assert refs[..n] == refs;
    }
  }
}
