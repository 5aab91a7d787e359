/** What the encoder makes of a value before it prints it, and which values it takes. */
module JsonNormal {
  import opened Results
  import opened Text
  import opened Utf8
  import opened Json

  predicate NoSurrogates(t: text) {
    forall i :: 0 <= i < |t| ==> 0 <= t[i] < 0xD800 || 0xDFFF < t[i] < 0x110000
  }

  ghost predicate NamesKey(nfc: text -> text, fields: map<text, Value>, m: text) { exists k :: k in fields && nfc(k) == m }

  /** The same value with every string and key in NFC: integers of 64 bits, strings that UTF-8 can hold,
      no two keys that become one, nothing else. */
  ghost predicate Composes(nfc: text -> text, v: Value, n: Value)
    decreases v
  {
    match v
    case Null => n.Null?
    case Bool(b) => n == Bool(b)
    case Int(i) => n == Int(i) && -9223372036854775808 <= i <= 9223372036854775807
    case Str(s) => n == Str(nfc(s)) && NoSurrogates(nfc(s))
    case Arr(items) =>
      n.Arr? && |n.items| == |items| && forall i :: 0 <= i < |items| ==> Composes(nfc, items[i], n.items[i])
    case Obj(fields) =>
      && n.Obj? && (forall j, k :: j in fields && k in fields && nfc(j) == nfc(k) ==> j == k)
      && (forall m :: m in n.fields ==> NamesKey(nfc, fields, m))
      && forall k :: k in fields ==> NoSurrogates(nfc(k)) && nfc(k) in n.fields && Composes(nfc, fields[k], n.fields[nfc(k)])
    case _ => false
  }

  lemma {:induction false} NormalizeMeans(nfc: text -> text, v: Value, n: Value)
    ensures Normalize(nfc, v) == Ok(n) <==> Composes(nfc, v, n)
    decreases v
  {
    match v
    case Arr(items) => ItemsMean(nfc, items, n);
    case Obj(fields) => FieldsMean(nfc, fields, n);
    case _ =>
  }

  lemma {:induction false} ItemsMean(nfc: text -> text, items: seq<Value>, n: Value)
    ensures Normalize(nfc, Arr(items)) == Ok(n) <==> Composes(nfc, Arr(items), n)
    decreases Arr(items), 0
  {
    if n.Arr? && |n.items| == |items| {
      forall i | 0 <= i < |items| ensures Normalize(nfc, items[i]) == Ok(n.items[i]) <==> Composes(nfc, items[i], n.items[i]) {
        NormalizeMeans(nfc, items[i], n.items[i]);
      }
      if Composes(nfc, Arr(items), n) {
        forall i | 0 <= i < |items| ensures Normalize(nfc, items[i]) == Ok(n.items[i]) { assert Composes(nfc, items[i], n.items[i]); }
        assert Normalize(nfc, Arr(items)).value.items == n.items;
      }
    }
  }

  lemma {:induction false} FieldsMean(nfc: text -> text, fields: map<text, Value>, n: Value)
    ensures Normalize(nfc, Obj(fields)) == Ok(n) <==> Composes(nfc, Obj(fields), n)
    decreases Obj(fields), 0
  {
    if n.Obj? {
      forall k | k in fields && nfc(k) in n.fields
        ensures Normalize(nfc, fields[k]) == Ok(n.fields[nfc(k)]) <==> Composes(nfc, fields[k], n.fields[nfc(k)])
      {
        NormalizeMeans(nfc, fields[k], n.fields[nfc(k)]);
      }
      if Normalize(nfc, Obj(fields)) == Ok(n) { NormalComposes(nfc, fields, n); }
      if Composes(nfc, Obj(fields), n) {
        forall k | k in fields ensures Normalize(nfc, fields[k]) == Ok(n.fields[nfc(k)]) {
          assert Composes(nfc, fields[k], n.fields[nfc(k)]);
        }
        ComposedNormal(nfc, fields, n.fields);
      }
    }
  }

  lemma NormalObject(nfc: text -> text, fields: map<text, Value>, n: Value)
    requires Normalize(nfc, Obj(fields)) == Ok(n)
    ensures n.Obj? && forall m :: m in n.fields ==> NamesKey(nfc, fields, m)
    ensures forall k :: k in fields ==> NoSurrogates(nfc(k)) && nfc(k) in n.fields && Normalize(nfc, fields[k]) == Ok(n.fields[nfc(k)])
  {
    assert !KeysCollide(nfc, fields);
    var made := NormalFields(nfc, Obj(fields));
    assert n == Obj(made);
    forall m | m in made ensures NamesKey(nfc, fields, m) {}
    forall k | k in fields ensures NoSurrogates(nfc(k)) { assert AllScalar(nfc(k)); }
  }

  lemma ApartWhenNormal(nfc: text -> text, fields: map<text, Value>, n: Value)
    requires Normalize(nfc, Obj(fields)) == Ok(n)
    ensures forall j, k :: j in fields && k in fields && nfc(j) == nfc(k) ==> j == k
  {
    assert !KeysCollide(nfc, fields);
  }

  lemma NormalComposes(nfc: text -> text, fields: map<text, Value>, n: Value)
    requires Normalize(nfc, Obj(fields)) == Ok(n)
    requires n.Obj? && forall k :: k in fields && nfc(k) in n.fields ==>
               (Normalize(nfc, fields[k]) == Ok(n.fields[nfc(k)]) <==> Composes(nfc, fields[k], n.fields[nfc(k)]))
    ensures Composes(nfc, Obj(fields), n)
  {
    NormalObject(nfc, fields, n);
    ApartWhenNormal(nfc, fields, n);
  }

  lemma ComposedNormal(nfc: text -> text, fields: map<text, Value>, r: map<text, Value>)
    requires forall j, k :: j in fields && k in fields && nfc(j) == nfc(k) ==> j == k
    requires forall m :: m in r ==> NamesKey(nfc, fields, m)
    requires forall k :: k in fields ==> NoSurrogates(nfc(k)) && nfc(k) in r && Normalize(nfc, fields[k]) == Ok(r[nfc(k)])
    ensures Normalize(nfc, Obj(fields)) == Ok(Obj(r))
  {
    assert !KeysCollide(nfc, fields);
    assert forall k :: k in fields ==> AllScalar(nfc(k));
    var made := NormalFields(nfc, Obj(fields));
    forall m ensures m in made <==> m in r {
      if m in r { var k :| k in fields && nfc(k) == m; }
    }
    forall m | m in r ensures made[m] == r[m] { var k :| k in fields && nfc(k) == m; }
    assert made == r;
  }

  /** So canonical bytes are the printed form of the composed value, and exist exactly where it does. */
  lemma BytesMean(nfc: text -> text, v: Value)
    requires NfcLaw(nfc)
    ensures CanonicalBytes(nfc, v).Ok? <==> exists n :: Composes(nfc, v, n)
    ensures forall n :: Composes(nfc, v, n) ==> AllScalar(Print(n)) && CanonicalBytes(nfc, v) == Ok(Encode(Print(n)))
  {
    forall n | Composes(nfc, v, n) ensures Normalize(nfc, v) == Ok(n) && AllScalar(Print(n)) {
      NormalizeMeans(nfc, v, n);
      NormalizeIsNormal(nfc, v);
      PrintScalar(nfc, n);
    }
    if Normalize(nfc, v).Ok? { NormalizeMeans(nfc, v, Normalize(nfc, v).value); }
  }
}
