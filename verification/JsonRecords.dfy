/** Objects with a fixed set of keys, and lists of them, as JSON values. */
module JsonRecords {
  import opened Results
  import opened Text
  import opened Json

  ghost function KeySet(keys: seq<string>): set<text> { set k | k in keys :: Txt(k) }

  /** The object with these keys and values, in the same order. */
  ghost function Record(keys: seq<string>, values: seq<Value>): Value
    requires |keys| == |values|
  {
    Obj(map t | t in KeySet(keys) :: values[Place(keys, t)])
  }

  ghost function Place(keys: seq<string>, t: text): (i: nat)
    requires t in KeySet(keys)
    ensures i < |keys| && Txt(keys[i]) == t
  {
    var k :| k in keys && Txt(k) == t;
    var i :| 0 <= i < |keys| && keys[i] == k;
    i
  }

  /** The values of an object that has exactly these keys. */
  ghost function Values(v: Value, keys: seq<string>): (r: Option<seq<Value>>)
    ensures r.Some? ==> |r.value| == |keys|
  {
    if v.Obj? && v.fields.Keys == KeySet(keys)
    then Some(seq(|keys|, i requires 0 <= i < |keys| => v.fields[Txt(keys[i])])) else None
  }

  lemma TxtInjective(a: string, b: string)
    requires Txt(a) == Txt(b)
    ensures a == b
  {
    assert |Txt(a)| == |a| && |Txt(b)| == |b|;
    forall i | 0 <= i < |a| ensures a[i] == b[i] {
      assert Txt(a)[i] == a[i] as int && Txt(b)[i] == b[i] as int;
    }
  }

  lemma RecordReads(keys: seq<string>, values: seq<Value>)
    requires |keys| == |values| && Distinct(keys)
    ensures Values(Record(keys, values), keys) == Some(values)
  {
    var fields := Record(keys, values).fields;
    assert fields.Keys == KeySet(keys);
    forall i | 0 <= i < |keys| ensures fields[Txt(keys[i])] == values[i] {
      assert keys[i] in keys;
      TxtInjective(keys[i], keys[Place(keys, Txt(keys[i]))]);
    }
    assert Values(Record(keys, values), keys).value == values;
  }

  ghost function Each<T(!new)>(f: T -> Value, xs: seq<T>): (r: seq<Value>)
    ensures |r| == |xs| && forall i :: 0 <= i < |xs| ==> r[i] == f(xs[i])
  {
    seq(|xs|, i requires 0 <= i < |xs| => f(xs[i]))
  }

  /** Every element read, or nothing. */
  ghost function ReadEach<T(!new)>(f: Value -> Option<T>, items: seq<Value>): (r: Option<seq<T>>)
    ensures r.Some? <==> forall i :: 0 <= i < |items| ==> f(items[i]).Some?
    ensures r.Some? ==> |r.value| == |items| && forall i :: 0 <= i < |items| ==> f(items[i]) == Some(r.value[i])
  {
    if forall i :: 0 <= i < |items| ==> f(items[i]).Some?
    then Some(seq(|items|, i requires 0 <= i < |items| => f(items[i]).value)) else None
  }

  ghost function ReadList<T(!new)>(f: Value -> Option<T>, v: Value): Option<seq<T>> {
    if v.Arr? then ReadEach(f, v.items) else None
  }

  lemma ListReads<T(!new)>(g: T -> Value, f: Value -> Option<T>, xs: seq<T>)
    requires forall x :: x in xs ==> f(g(x)) == Some(x)
    ensures ReadList(f, Arr(Each(g, xs))) == Some(xs)
  {
    var items := Each(g, xs);
    forall i | 0 <= i < |xs| ensures f(items[i]) == Some(xs[i]) { assert xs[i] in xs; }
    assert ReadEach(f, items).value == xs;
  }

  function AsText(v: Value): Option<text> { if v.Str? then Some(v.s) else None }
  function AsBool(v: Value): Option<bool> { if v.Bool? then Some(v.b) else None }
  function AsInt(v: Value): Option<int> { if v.Int? then Some(v.i) else None }
  function AsNat(v: Value): Option<nat> { if v.Int? && v.i >= 0 then Some(v.i) else None }

  /** A value or null. */
  function Nullable<T>(f: Value -> Option<T>, v: Value): Option<Option<T>> {
    if v.Null? then Some(None) else match f(v) case None => None case Some(x) => Some(Some(x))
  }

  function OrNull<T>(g: T -> Value, x: Option<T>): Value {
    match x case None => Null case Some(y) => g(y)
  }

  function TextJson(t: text): Value { Str(t) }
  function BoolJson(b: bool): Value { Bool(b) }
  function IntJson(i: int): Value { Int(i) }

  ghost function TextsJson(ts: seq<text>): Value { Arr(Each(TextJson, ts)) }
}
