/** Sequences in the order of a key, as `sorted(..., key=...)` gives them. */
module Ordering {
  import opened Text

  lemma SetSnoc(names: seq<text>)
    requires names != [] && Distinct(names)
    ensures var k := |names| - 1;
            Elements(names) == Elements(names[..k]) + {names[k]} && names[k] !in Elements(names[..k]) && Distinct(names[..k])
  {
  }

  function Keys<T>(key: T -> text, xs: seq<T>): (r: seq<text>)
    ensures |r| == |xs| && forall i :: 0 <= i < |xs| ==> r[i] == key(xs[i])
  {
    seq(|xs|, i requires 0 <= i < |xs| => key(xs[i]))
  }

  lemma KeysSnoc<T>(key: T -> text, xs: seq<T>)
    requires xs != [] && Distinct(Keys(key, xs))
    ensures var k, ns := |xs| - 1, Keys(key, xs);
            Keys(key, xs[..k]) == ns[..k] && Elements(ns) == Elements(ns[..k]) + {key(xs[k])} && key(xs[k]) !in Elements(ns[..k]) && Distinct(ns[..k])
  {
    assert Keys(key, xs[..|xs| - 1]) == Keys(key, xs)[..|xs| - 1];
    SetSnoc(Keys(key, xs));
  }

  lemma FindExists<T>(key: T -> text, xs: seq<T>, k: text)
    requires k in Elements(Keys(key, xs))
    ensures exists i :: 0 <= i < |xs| && key(xs[i]) == k
  {
    var i :| 0 <= i < |xs| && Keys(key, xs)[i] == k;
  }

  ghost function Keyed<T>(key: T -> text, xs: seq<T>, k: text): (x: T)
    requires k in Elements(Keys(key, xs))
    ensures x in xs && key(x) == k
  {
    FindExists(key, xs, k);
    var i :| 0 <= i < |xs| && key(xs[i]) == k;
    xs[i]
  }

  /** The elements in ascending order of their keys. */
  ghost function Arranged<T>(key: T -> text, xs: seq<T>): (r: seq<T>)
    ensures Keys(key, r) == Sorted(Elements(Keys(key, xs))) && forall x :: x in r ==> x in xs
  {
    var ks := Sorted(Elements(Keys(key, xs)));
    seq(|ks|, i requires 0 <= i < |ks| => assert ks[i] in ks; Keyed(key, xs, ks[i]))
  }

  lemma ArrangedApart<T>(key: T -> text, xs: seq<T>)
    ensures Distinct(Keys(key, Arranged(key, xs))) && Elements(Keys(key, Arranged(key, xs))) == Elements(Keys(key, xs))
  {
    var ks := Keys(key, Arranged(key, xs));
    forall i, j | 0 <= i < j < |ks| ensures ks[i] != ks[j] { LessIrreflexive(ks[i]); }
  }

  /** `name` put in its place among the names in ascending order. */
  method InsertName(sorted: seq<text>, name: text) returns (r: seq<text>)
    requires Ascending(sorted) && name !in sorted
    ensures Ascending(r) && Elements(r) == Elements(sorted) + {name}
  {
    var i := 0;
    while i < |sorted| && Less(sorted[i], name)
      invariant 0 <= i <= |sorted| && forall k :: 0 <= k < i ==> Less(sorted[k], name)
    {
      i := i + 1;
    }
    r := sorted[..i] + [name] + sorted[i..];
    if i < |sorted| { LessTotal(sorted[i], name); }
    forall k | i < k < |sorted| ensures Less(name, sorted[k]) {
      LessTransitive(name, sorted[i], sorted[k]);
    }
    assert r[i] == name;
    forall k | 0 <= k < |sorted| ensures sorted[k] in r {
      assert sorted[k] == r[if k < i then k else k + 1];
    }
  }

  method IndexBy<T(!new)>(key: T -> text, xs: seq<T>) returns (byKey: map<text, T>, names: seq<text>)
    requires Distinct(Keys(key, xs))
    ensures names == Sorted(Elements(Keys(key, xs)))
    ensures forall k :: k in names ==> k in byKey && byKey[k] in xs && key(byKey[k]) == k
  {
    byKey, names := map[], [];
    ghost var ks := Keys(key, xs);
    for i := 0 to |xs|
      invariant Ascending(names) && Elements(names) == byKey.Keys == Elements(ks[..i])
      invariant forall k :: k in byKey ==> byKey[k] in xs && key(byKey[k]) == k
    {
      SetSnoc(ks[..i + 1]);
      assert ks[..i + 1][..i] == ks[..i];
      assert key(xs[i]) !in Elements(names);
      names := InsertName(names, key(xs[i]));
      byKey := byKey[key(xs[i]) := xs[i]];
    }
    assert ks[..|xs|] == ks;
    assert forall n :: n in names <==> n in Elements(names);
    AscendingUnique(names, Sorted(Elements(ks)));
  }

  method Gather<T(!new)>(key: T -> text, xs: seq<T>, byKey: map<text, T>, names: seq<text>) returns (r: seq<T>)
    requires forall k :: k in names ==> k in byKey && byKey[k] in xs && key(byKey[k]) == k
    ensures |r| == |names| && forall j :: 0 <= j < |r| ==> r[j] in xs && key(r[j]) == names[j]
  {
    r := [];
    for i := 0 to |names|
      invariant |r| == i && forall j :: 0 <= j < i ==> r[j] in xs && key(r[j]) == names[j]
    {
      assert names[i] in names;
      r := r + [byKey[names[i]]];
    }
  }

  /** `sorted` by a key that no two elements share. */
  method SortBy<T(!new)>(key: T -> text, xs: seq<T>) returns (r: seq<T>)
    requires Distinct(Keys(key, xs))
    ensures r == Arranged(key, xs)
  {
    var byKey, names := IndexBy(key, xs);
    r := Gather(key, xs, byKey, names);
    OneArrangement(key, xs, r);
  }

  lemma OneArrangement<T>(key: T -> text, xs: seq<T>, r: seq<T>)
    requires Distinct(Keys(key, xs)) && |r| == |Sorted(Elements(Keys(key, xs)))|
    requires forall j :: 0 <= j < |r| ==> r[j] in xs && key(r[j]) == Sorted(Elements(Keys(key, xs)))[j]
    ensures r == Arranged(key, xs)
  {
    var want := Arranged(key, xs);
    forall j | 0 <= j < |r| ensures r[j] == want[j] {
      assert Keys(key, want)[j] == key(want[j]);
      assert want[j] in want;
      SameKey(key, xs, r[j], want[j]);
    }
  }

  lemma SameKey<T>(key: T -> text, xs: seq<T>, x: T, y: T)
    requires Distinct(Keys(key, xs)) && x in xs && y in xs && key(x) == key(y)
    ensures x == y
  {
    var i :| 0 <= i < |xs| && xs[i] == x;
    var j :| 0 <= j < |xs| && xs[j] == y;
    assert Keys(key, xs)[i] == Keys(key, xs)[j];
  }
}
