/** The two loops that fill a dictionary: normalising a mapping, and reading object pairs. */
module JsonLoops {
  import opened Results
  import opened Text
  import opened Json

  /** `order` lists the keys of a dictionary in the order it iterates them. */
  ghost predicate Iterates(order: seq<text>, fields: map<text, Value>) {
    Distinct(order) && Elements(order) == fields.Keys
  }

  /** What the loop has made of the keys it has passed. */
  ghost predicate Filled(nfc: text -> text, fields: map<text, Value>, passed: seq<text>, r: map<text, Value>) {
    && (forall k :: k in passed ==> k in fields && AllScalar(nfc(k)) && Normalize(nfc, fields[k]).Ok?
                                    && nfc(k) in r && r[nfc(k)] == Normalize(nfc, fields[k]).value)
    && (forall j :: j in r ==> exists k :: k in passed && j == nfc(k))
    && (forall j, k :: j in passed && k in passed && nfc(j) == nfc(k) ==> j == k)
  }

  /** `r` has the normal form of every member of `fields`, and nothing else. */
  ghost predicate Covers(nfc: text -> text, fields: map<text, Value>, r: map<text, Value>) {
    && (forall k :: k in fields ==> nfc(k) in r && Normalize(nfc, fields[k]) == Ok(r[nfc(k)]))
    && (forall j :: j in r ==> exists k :: k in fields && j == nfc(k))
  }

  lemma FilledCovers(nfc: text -> text, fields: map<text, Value>, order: seq<text>, r: map<text, Value>)
    requires Iterates(order, fields) && Filled(nfc, fields, order, r)
    ensures Covers(nfc, fields, r) && !KeysCollide(nfc, fields) && forall k :: k in fields ==> AllScalar(nfc(k))
  {
    assert forall k :: k in fields <==> k in Elements(order);
    forall j | j in r ensures exists k :: k in fields && j == nfc(k) {
      var k :| k in order && j == nfc(k);
      assert k in Elements(order);
    }
  }

  lemma CoversIsNormal(nfc: text -> text, fields: map<text, Value>, r: map<text, Value>)
    requires Covers(nfc, fields, r) && !KeysCollide(nfc, fields)
    ensures NormalFields(nfc, Obj(fields)) == r
  {
    var n := NormalFields(nfc, Obj(fields));
    forall j | j in r ensures j in n && n[j] == r[j] { var k :| k in fields && j == nfc(k); }
    forall j | j in n ensures j in r { var k :| k in fields && j == nfc(k); }
  }

  lemma FilledIsNormal(nfc: text -> text, fields: map<text, Value>, order: seq<text>, r: map<text, Value>)
    requires Iterates(order, fields) && Filled(nfc, fields, order, r)
    ensures Normalize(nfc, Obj(fields)) == Ok(Obj(r))
  {
    FilledCovers(nfc, fields, order, r);
    CoversIsNormal(nfc, fields, r);
  }

  lemma KeyRefused(nfc: text -> text, fields: map<text, Value>, k: text)
    requires k in fields && (!AllScalar(nfc(k)) || Normalize(nfc, fields[k]).Err? || exists j :: j in fields && j != k && nfc(j) == nfc(k))
    ensures Normalize(nfc, Obj(fields)).Err?
  {
    if j :| j in fields && j != k && nfc(j) == nfc(k) { assert KeysCollide(nfc, fields); }
  }

  /** The mapping branch of the normaliser. `normal` stands for the recursive call. */
  method NormalizeMapping(
    nfc: text -> text, fields: map<text, Value>, order: seq<text>, normal: Value -> Result<Value, JsonError>)
    returns (r: Result<map<text, Value>, JsonError>)
    requires Iterates(order, fields) && forall k :: k in fields ==> normal(fields[k]) == Normalize(nfc, fields[k])
    ensures r.Ok? <==> Normalize(nfc, Obj(fields)).Ok?
    ensures r.Ok? ==> Normalize(nfc, Obj(fields)) == Ok(Obj(r.value))
  {
    var normalized: map<text, Value> := map[];
    for i := 0 to |order|
      invariant Filled(nfc, fields, order[..i], normalized)
    {
      var raw := order[i];
      assert raw in Elements(order);
      var key := nfc(raw);
      if !AllScalar(key) { KeyRefused(nfc, fields, raw); return Err(InvalidUtf8); }
      if key in normalized {
        Collides(nfc, fields, order, i, normalized);
        KeyRefused(nfc, fields, raw);
        return Err(DuplicateKey);
      }
      var value := normal(fields[raw]);
      if value.Err? { KeyRefused(nfc, fields, raw); return Err(value.error); }
      FilledSnoc(nfc, fields, order, i, normalized);
      normalized := normalized[key := value.value];
    }
    assert order[..|order|] == order;
    FilledIsNormal(nfc, fields, order, normalized);
    return Ok(normalized);
  }

  lemma Collides(nfc: text -> text, fields: map<text, Value>, order: seq<text>, i: nat, r: map<text, Value>)
    requires Iterates(order, fields) && i < |order| && Filled(nfc, fields, order[..i], r) && nfc(order[i]) in r
    ensures exists j :: j in fields && j != order[i] && nfc(j) == nfc(order[i])
  {
    var j :| j in order[..i] && nfc(order[i]) == nfc(j);
    assert j in Elements(order);
  }

  lemma FilledSnoc(nfc: text -> text, fields: map<text, Value>, order: seq<text>, i: nat, r: map<text, Value>)
    requires i < |order| && order[i] in fields && Filled(nfc, fields, order[..i], r) && nfc(order[i]) !in r
    requires AllScalar(nfc(order[i])) && Normalize(nfc, fields[order[i]]).Ok?
    ensures Filled(nfc, fields, order[..i + 1], r[nfc(order[i]) := Normalize(nfc, fields[order[i]]).value])
  {
    assert order[..i + 1] == order[..i] + [order[i]];
  }

  /** The `object_pairs_hook`: a dictionary exactly when no key repeats. */
  method PairsWithoutDuplicates(pairs: seq<(text, Value)>) returns (r: Option<map<text, Value>>)
    ensures r.Some? <==> forall i, j :: 0 <= i < j < |pairs| ==> pairs[i].0 != pairs[j].0
    ensures r.Some? ==> (forall i :: 0 <= i < |pairs| ==> pairs[i].0 in r.value && r.value[pairs[i].0] == pairs[i].1)
                        && forall k :: k in r.value ==> exists i :: 0 <= i < |pairs| && pairs[i].0 == k
  {
    var result: map<text, Value> := map[];
    for n := 0 to |pairs|
      invariant forall i, j :: 0 <= i < j < n ==> pairs[i].0 != pairs[j].0
      invariant forall i :: 0 <= i < n ==> pairs[i].0 in result && result[pairs[i].0] == pairs[i].1
      invariant forall k :: k in result ==> exists i :: 0 <= i < n && pairs[i].0 == k
    {
      if pairs[n].0 in result { return None; }
      result := result[pairs[n].0 := pairs[n].1];
    }
    return Some(result);
  }
}
