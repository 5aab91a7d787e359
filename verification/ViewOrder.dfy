/** The order in which views are created: dependencies first, ties by name. */
module ViewOrder {
  import opened Results
  import opened Text
  import opened Ordering
  import opened SchemaTypes

  type Catalog = map<text, ViewSpec>

  /** The dictionary of views by name; the last of two equal names stays. */
  function ByName(views: seq<ViewSpec>): (g: Catalog)
    ensures forall n :: n in g ==> g[n] in views && g[n].name == n
    ensures forall v :: v in views ==> v.name in g
  {
    if views == [] then map[]
    else
      var last := views[|views| - 1];
      ByName(views[..|views| - 1])[last.name := last]
  }

  /** The views `n` needs before it: not tables, and not itself. */
  function Needs(g: Catalog, n: text): set<text>
    requires n in g
  {
    set d | d in g[n].dependsOn && d in g && d != n
  }

  /** The view `n` names another view `d` among its dependencies. */
  predicate DependsOn(g: Catalog, n: text, d: text) { n in g && d in g[n].dependsOn && d in g && d != n }

  function Names(views: seq<ViewSpec>): set<text> {
    set v | v in views :: v.name
  }

  lemma NamesSnoc(views: seq<ViewSpec>, v: ViewSpec)
    ensures Names(views + [v]) == Names(views) + {v.name}
  {
  }

  ghost predicate Earlier(ordered: seq<ViewSpec>, i: nat, d: text)
    requires i <= |ordered|
  {
    exists j :: 0 <= j < i && ordered[j].name == d
  }

  /** Every view stands behind the views it needs. */
  ghost predicate DependenciesFirst(g: Catalog, ordered: seq<ViewSpec>) {
    forall i :: 0 <= i < |ordered| ==>
      ordered[i].name in g
      && forall d :: DependsOn(g, ordered[i].name, d) ==> Earlier(ordered, i, d)
  }

  lemma FirstIs(g: Catalog, ordered: seq<ViewSpec>, n: text, i: nat)
    requires n in g && i <= |ordered|
    ensures Needs(g, n) <= Names(ordered[..i]) <==>
            forall d :: DependsOn(g, n, d) ==> Earlier(ordered, i, d)
  {
    forall d ensures d in Names(ordered[..i]) <==> Earlier(ordered, i, d) {
      if j :| 0 <= j < i && ordered[j].name == d { assert ordered[..i][j] in ordered[..i]; }
      if d in Names(ordered[..i]) {
        var v :| v in ordered[..i] && v.name == d;
        var j :| 0 <= j < i && ordered[..i][j] == v;
        assert ordered[j].name == d;
      }
    }
  }

  /** The views of `names`, each once and as the catalog has it. */
  ghost predicate Lists(g: Catalog, ordered: seq<ViewSpec>, names: set<text>) {
    && Names(ordered) == names <= g.Keys && |ordered| == |names|
    && forall v :: v in ordered ==> v == g[v.name]
  }

  /** `c` walks along needs and comes back to its start. */
  ghost predicate Cycle(g: Catalog, c: seq<text>) {
    && |c| >= 2 && c[0] == c[|c| - 1]
    && Walk(g, c)
  }

  ghost predicate Walk(g: Catalog, c: seq<text>) {
    forall i :: 0 <= i < |c| - 1 ==> DependsOn(g, c[i], c[i + 1])
  }

  /** One pass over the pending names: what can be placed is, the rest stays pending. */
  function Pass(g: Catalog, pending: seq<text>, ordered: seq<ViewSpec>, still: seq<text>): (r: (seq<ViewSpec>, seq<text>))
    requires forall n :: n in pending || n in still ==> n in g
    ensures |r.0| + |r.1| == |ordered| + |still| + |pending| && |r.0| >= |ordered|
    ensures forall n :: n in r.1 ==> n in g
    decreases pending
  {
    if pending == [] then (ordered, still)
    else if Needs(g, pending[0]) <= Names(ordered) then Pass(g, pending[1..], ordered + [g[pending[0]]], still)
    else Pass(g, pending[1..], ordered, still + [pending[0]])
  }

  lemma HeadOf(pending: seq<text>)
    requires pending != [] && Distinct(pending)
    ensures Elements(pending) == Elements(pending[1..]) + {pending[0]} && pending[0] !in Elements(pending[1..])
    ensures Distinct(pending[1..])
  {
  }

  lemma TailOf(still: seq<text>, n: text)
    requires Distinct(still) && n !in Elements(still)
    ensures Elements(still + [n]) == Elements(still) + {n} && Distinct(still + [n])
  {
  }

  /** What every step of a pass keeps: order, and every view placed, put off or still to look at. */
  ghost predicate Splits(g: Catalog, ordered: seq<ViewSpec>, still: seq<text>, pending: seq<text>) {
    && Lists(g, ordered, Names(ordered)) && DependenciesFirst(g, ordered)
    && Distinct(still) && Distinct(pending)
    && Elements(still) !! Elements(pending) && (Elements(still) + Elements(pending)) !! Names(ordered)
    && Elements(still) + Elements(pending) + Names(ordered) == g.Keys
  }

  lemma Place(g: Catalog, ordered: seq<ViewSpec>, n: text)
    requires Lists(g, ordered, Names(ordered)) && DependenciesFirst(g, ordered)
    requires n in g && g[n].name == n && n !in Names(ordered) && Needs(g, n) <= Names(ordered)
    ensures Lists(g, ordered + [g[n]], Names(ordered + [g[n]])) && DependenciesFirst(g, ordered + [g[n]])
    ensures Names(ordered + [g[n]]) == Names(ordered) + {n}
  {
    var more := ordered + [g[n]];
    NamesSnoc(ordered, g[n]);
    forall i, d | 0 <= i < |more| && DependsOn(g, more[i].name, d) ensures Earlier(more, i, d) {
      if i == |ordered| { FirstIs(g, ordered, n, i); assert ordered[..i] == ordered; }
      var j :| 0 <= j < i && ordered[j].name == d;
      assert more[j].name == d;
    }
  }

  lemma SplitsPlaced(g: Catalog, ordered: seq<ViewSpec>, still: seq<text>, pending: seq<text>)
    requires pending != [] && pending[0] in g && g[pending[0]].name == pending[0]
    requires Splits(g, ordered, still, pending) && Needs(g, pending[0]) <= Names(ordered)
    ensures Splits(g, ordered + [g[pending[0]]], still, pending[1..])
  {
    HeadOf(pending);
    Place(g, ordered, pending[0]);
    Moved(g.Keys, Elements(still), Elements(pending), Elements(pending[1..]), Names(ordered), pending[0]);
  }

  lemma Moved(all: set<text>, still: set<text>, pending: set<text>, rest: set<text>, placed: set<text>, n: text)
    requires pending == rest + {n} && n !in rest && still !! pending && (still + pending) !! placed
    requires still + pending + placed == all
    ensures still !! rest && (still + rest) !! (placed + {n}) && still + rest + (placed + {n}) == all
  {
  }

  lemma SplitsPutOff(g: Catalog, ordered: seq<ViewSpec>, still: seq<text>, pending: seq<text>)
    requires pending != [] && Splits(g, ordered, still, pending)
    ensures Splits(g, ordered, still + [pending[0]], pending[1..])
  {
    HeadOf(pending);
    assert pending[0] in Elements(pending);
    TailOf(still, pending[0]);
  }

  /** Every name in `still` misses something that is not placed. */
  ghost predicate Stuck(g: Catalog, ordered: seq<ViewSpec>, still: seq<text>) {
    forall n :: n in still ==> n in g && !(Needs(g, n) <= Names(ordered))
  }

  /** What a pass keeps; `before` is how many views were placed when it began. */
  ghost predicate Passing(g: Catalog, pending: seq<text>, ordered: seq<ViewSpec>, still: seq<text>, before: nat) {
    Splits(g, ordered, still, pending) && before <= |ordered| && (before == |ordered| ==> Stuck(g, ordered, still))
  }

  lemma PassMoves(g: Catalog, pending: seq<text>, ordered: seq<ViewSpec>, still: seq<text>, before: nat)
    requires WellNamed(g) && Passing(g, pending, ordered, still, before) && pending != []
    ensures pending[0] in g
    ensures if Needs(g, pending[0]) <= Names(ordered)
            then Passing(g, pending[1..], ordered + [g[pending[0]]], still, before)
            else Passing(g, pending[1..], ordered, still + [pending[0]], before)
  {
    assert pending[0] in Elements(pending);
    if Needs(g, pending[0]) <= Names(ordered) { SplitsPlaced(g, ordered, still, pending); }
    else { SplitsPutOff(g, ordered, still, pending); }
  }

  lemma PendingKnown(g: Catalog, pending: seq<text>, ordered: seq<ViewSpec>, still: seq<text>)
    requires Splits(g, ordered, still, pending)
    ensures forall n :: n in pending || n in still ==> n in g
  {
    assert forall n :: n in pending ==> n in Elements(pending);
    assert forall n :: n in still ==> n in Elements(still);
  }

  /** A pass keeps the split, and one that places nothing has found a stuck set. */
  lemma {:induction false} PassKeeps(g: Catalog, pending: seq<text>, ordered: seq<ViewSpec>, still: seq<text>, before: nat)
    requires WellNamed(g) && Passing(g, pending, ordered, still, before)
    ensures forall n :: n in pending || n in still ==> n in g
    ensures var (o, s) := Pass(g, pending, ordered, still);
            && Splits(g, o, s, []) && (|o| == before ==> Stuck(g, o, s))
    decreases pending
  {
    PendingKnown(g, pending, ordered, still);
    if pending != [] {
      var n := pending[0];
      PassMoves(g, pending, ordered, still, before);
      if Needs(g, n) <= Names(ordered) {
        PassKeeps(g, pending[1..], ordered + [g[n]], still, before);
      } else {
        PassKeeps(g, pending[1..], ordered, still + [n], before);
      }
    }
  }

  /** Passes until nothing is pending, or until one places nothing. */
  function Passes(g: Catalog, pending: seq<text>, ordered: seq<ViewSpec>): Result<seq<ViewSpec>, set<text>>
    requires forall n :: n in pending ==> n in g
    decreases |pending|
  {
    if pending == [] then Ok(ordered)
    else
      var (o, s) := Pass(g, pending, ordered, []);
      if |o| == |ordered| then Err(set n | n in s) else Passes(g, s, o)
  }

  /** The creation order of a catalog, or the names a dependency cycle holds up. */
  ghost function Order(g: Catalog): Result<seq<ViewSpec>, set<text>> {
    Passes(g, Sorted(g.Keys), [])
  }

  ghost predicate WellNamed(g: Catalog) { forall n :: n in g ==> g[n].name == n }

  ghost predicate HeldUpBy(g: Catalog, names: set<text>, n: text) { exists d :: d in names && DependsOn(g, n, d) }

  /** Each held-up view needs another held-up view. */
  ghost predicate HeldUp(g: Catalog, names: set<text>) {
    names != {} && names <= g.Keys && forall n :: n in names ==> HeldUpBy(g, names, n)
  }

  lemma StuckHoldsUp(g: Catalog, ordered: seq<ViewSpec>, still: seq<text>)
    requires Splits(g, ordered, still, []) && Stuck(g, ordered, still) && still != []
    ensures HeldUp(g, Elements(still))
  {
    assert still[0] in Elements(still);
    forall n | n in Elements(still) ensures HeldUpBy(g, Elements(still), n) {
      var d :| d in Needs(g, n) && d !in Names(ordered);
      assert d in Elements(still) && DependsOn(g, n, d);
    }
  }

  lemma {:induction false} PassesSound(g: Catalog, pending: seq<text>, ordered: seq<ViewSpec>)
    requires WellNamed(g) && Splits(g, ordered, [], pending)
    ensures forall n :: n in pending ==> n in g
    ensures match Passes(g, pending, ordered)
            case Ok(r) => Lists(g, r, g.Keys) && DependenciesFirst(g, r)
            case Err(names) => HeldUp(g, names)
    decreases |pending|
  {
    assert forall n :: n in pending ==> n in Elements(pending);
    if pending != [] {
      PassKeeps(g, pending, ordered, [], |ordered|);
      var (o, s) := Pass(g, pending, ordered, []);
      if |o| == |ordered| {
        StuckHoldsUp(g, o, s);
        assert Elements(s) == set n | n in s;
      } else {
        SplitsTurn(g, o, s);
        PassesSound(g, s, o);
      }
    }
  }

  lemma SplitsTurn(g: Catalog, ordered: seq<ViewSpec>, still: seq<text>)
    requires Splits(g, ordered, still, [])
    ensures Splits(g, ordered, [], still)
  {
  }

  lemma SplitsAtStart(g: Catalog)
    ensures Splits(g, [], [], Sorted(g.Keys))
  {
    SortedApart(g.Keys);
    NoViews(g);
  }

  lemma NoViews(g: Catalog)
    ensures Names([]) == {} && Lists(g, [], Names([])) && DependenciesFirst(g, []) && Elements<text>([]) == {} && Distinct<text>([])
  {
  }

  lemma SortedApart(keys: set<text>)
    ensures Distinct(Sorted(keys)) && Elements(Sorted(keys)) == keys
  {
    var p := Sorted(keys);
    forall i, j | 0 <= i < j < |p| ensures p[i] != p[j] { LessIrreflexive(p[i]); }
  }

  /** Needs never grow along a dependency-first order, so a walk cannot come back. */
  lemma {:induction false} WalkDescends(g: Catalog, ordered: seq<ViewSpec>, c: seq<text>, i: nat)
    requires WellNamed(g) && Lists(g, ordered, g.Keys) && DependenciesFirst(g, ordered)
    requires Walk(g, c) && |c| >= 2 && i < |ordered| && ordered[i].name == c[0]
    ensures exists j :: 0 <= j < i && ordered[j].name == c[|c| - 1]
    decreases |c|
  {
    assert DependsOn(g, c[0], c[1]);
    var k :| 0 <= k < i && ordered[k].name == c[1];
    if |c| > 2 {
      forall x | 0 <= x < |c[1..]| - 1 ensures DependsOn(g, c[1..][x], c[1..][x + 1]) {
        assert DependsOn(g, c[x + 1], c[x + 2]);
      }
      WalkDescends(g, ordered, c[1..], k);
    }
  }

  lemma {:induction false} DistinctNames(g: Catalog, ordered: seq<ViewSpec>, names: set<text>)
    requires Lists(g, ordered, names)
    ensures forall i, j :: 0 <= i < j < |ordered| ==> ordered[i].name != ordered[j].name
    decreases |ordered|
  {
    if ordered != [] {
      var n := |ordered| - 1;
      var less, last := ordered[..n], ordered[n];
      assert ordered == less + [last];
      NamesSnoc(less, last);
      NamesBound(less);
      assert last.name !in Names(less);
      assert forall v :: v in less ==> v in ordered;
      DistinctNames(g, less, Names(less));
      forall i | 0 <= i < n ensures ordered[i].name != last.name {
        assert ordered[i] in less;
      }
      forall i, j | 0 <= i < j < |ordered| ensures ordered[i].name != ordered[j].name {
        if j < n { assert ordered[i] == less[i] && ordered[j] == less[j]; }
      }
    }
  }

  lemma {:induction false} NamesBound(views: seq<ViewSpec>)
    ensures |Names(views)| <= |views|
    decreases |views|
  {
    if views != [] {
      var n := |views| - 1;
      NamesBound(views[..n]);
      assert views == views[..n] + [views[n]];
      NamesSnoc(views[..n], views[n]);
    }
  }

  lemma NoCycleWhenOrdered(g: Catalog, ordered: seq<ViewSpec>, c: seq<text>)
    requires WellNamed(g) && Lists(g, ordered, g.Keys) && DependenciesFirst(g, ordered)
    ensures !Cycle(g, c)
  {
    if Cycle(g, c) {
      assert DependsOn(g, c[0], c[1]);
      assert c[0] in Names(ordered);
      var v :| v in ordered && v.name == c[0];
      var i :| 0 <= i < |ordered| && ordered[i] == v;
      WalkDescends(g, ordered, c, i);
      DistinctNames(g, ordered, g.Keys);
    }
  }

  ghost function HolderOf(g: Catalog, names: set<text>, n: text): (d: text)
    requires HeldUp(g, names) && n in names
    ensures d in names && DependsOn(g, n, d)
  {
    assert HeldUpBy(g, names, n);
    var d :| d in names && DependsOn(g, n, d); d
  }

  ghost function SomeName(g: Catalog, names: set<text>): (n: text)
    requires HeldUp(g, names)
    ensures n in names
  {
    var n :| n in names; n
  }

  /** Inside a held-up set one can walk on for as long as one likes. */
  lemma {:induction false} WalkOn(g: Catalog, names: set<text>, n: nat) returns (c: seq<text>)
    requires HeldUp(g, names)
    ensures |c| == n + 1 && Walk(g, c) && forall x :: x in c ==> x in names
  {
    if n == 0 {
      c := [SomeName(g, names)];
    } else {
      var before := WalkOn(g, names, n - 1);
      assert before[n - 1] in before;
      var d := HolderOf(g, names, before[n - 1]);
      WalkSnoc(g, before, d);
      c := before + [d];
    }
  }

  lemma WalkSnoc(g: Catalog, c: seq<text>, d: text)
    requires c != [] && Walk(g, c) && DependsOn(g, c[|c| - 1], d)
    ensures Walk(g, c + [d])
  {
    forall i | 0 <= i < |c| ensures DependsOn(g, (c + [d])[i], (c + [d])[i + 1]) {
      if i < |c| - 1 { assert DependsOn(g, c[i], c[i + 1]); }
    }
  }

  lemma {:induction false} Pigeonhole(c: seq<text>, names: set<text>)
    requires (forall x :: x in c ==> x in names) && |c| > |names|
    ensures exists i, j :: 0 <= i < j < |c| && c[i] == c[j]
    decreases |c|
  {
    var n := |c| - 1;
    if i :| 0 <= i < n && c[i] == c[n] {
    } else {
      forall x | x in c[..n] ensures x in names - {c[n]} {
        var i :| 0 <= i < n && c[i] == x;
        assert c[i] in c;
      }
      assert c[n] in c;
      Pigeonhole(c[..n], names - {c[n]});
      var i, j :| 0 <= i < j < n && c[..n][i] == c[..n][j];
      assert c[i] == c[j];
    }
  }

  lemma HeldUpHasCycle(g: Catalog, names: set<text>)
    requires HeldUp(g, names)
    ensures exists c :: Cycle(g, c)
  {
    var c := WalkOn(g, names, |names|);
    Pigeonhole(c, names);
    var i, j :| 0 <= i < j < |c| && c[i] == c[j];
    PartOfWalk(g, c, i, j + 1);
    assert Cycle(g, c[i..j + 1]);
  }

  lemma PartOfWalk(g: Catalog, c: seq<text>, i: nat, j: nat)
    requires Walk(g, c) && i < j <= |c|
    ensures Walk(g, c[i..j])
  {
    var part := c[i..j];
    forall x | 0 <= x < |part| - 1 ensures DependsOn(g, part[x], part[x + 1]) {
      assert DependsOn(g, c[i + x], c[i + x + 1]);
    }
  }

  /** An order is found exactly when the needs have no cycle; then every view is listed once,
      behind all it needs. What is reported otherwise is a set of views holding each other up. */
  lemma OrderMeaning(g: Catalog)
    requires WellNamed(g)
    ensures Order(g).Ok? <==> forall c :: !Cycle(g, c)
    ensures Order(g).Ok? ==> Lists(g, Order(g).value, g.Keys) && DependenciesFirst(g, Order(g).value)
    ensures Order(g).Err? ==> HeldUp(g, Order(g).error)
  {
    SplitsAtStart(g);
    PassesSound(g, Sorted(g.Keys), []);
    match Order(g)
    case Ok(r) => forall c ensures !Cycle(g, c) { NoCycleWhenOrdered(g, r, c); }
    case Err(names) => HeldUpHasCycle(g, names);
  }

  ghost predicate OneEach(views: seq<ViewSpec>) {
    forall i, j :: 0 <= i < j < |views| ==> views[i].name != views[j].name
  }

  lemma {:induction false} ByNameHolds(views: seq<ViewSpec>, v: ViewSpec)
    requires OneEach(views) && v in views
    ensures v.name in ByName(views) && ByName(views)[v.name] == v
  {
    var i :| 0 <= i < |views| && views[i] == v;
    var w := ByName(views)[v.name];
    assert w in views;
    var j :| 0 <= j < |views| && views[j] == w;
  }

  /** The order depends on which views there are, not on how they are listed. */
  lemma OrderIgnoresListing(a: seq<ViewSpec>, b: seq<ViewSpec>)
    requires OneEach(a) && OneEach(b) && forall v :: v in a <==> v in b
    ensures Order(ByName(a)) == Order(ByName(b))
  {
    forall n ensures n in ByName(a) <==> n in ByName(b) {
      if n in ByName(a) { assert ByName(a)[n] in a; }
      if n in ByName(b) { assert ByName(b)[n] in b; }
    }
    forall n | n in ByName(a) ensures ByName(a)[n] == ByName(b)[n] {
      assert ByName(a)[n] in b;
      ByNameHolds(b, ByName(a)[n]);
    }
    assert ByName(a) == ByName(b);
  }

  /** The dictionary by name, and its names in ascending order. */
  method Index(views: seq<ViewSpec>) returns (byName: Catalog, pending: seq<text>)
    ensures byName == ByName(views) && pending == Sorted(byName.Keys)
  {
    byName, pending := map[], [];
    for i := 0 to |views|
      invariant byName == ByName(views[..i])
      invariant Ascending(pending) && Elements(pending) == byName.Keys
    {
      assert views[..i + 1][..i] == views[..i];
      if views[i].name !in byName {
        assert views[i].name !in Elements(pending);
        pending := InsertName(pending, views[i].name);
      }
      byName := byName[views[i].name := views[i]];
    }
    assert views[..|views|] == views;
    assert forall n :: n in pending <==> n in Elements(pending);
    AscendingUnique(pending, Sorted(byName.Keys));
  }

  /** One pass: what has all its needs is placed, the rest stays pending. */
  method PlacePass(byName: Catalog, pending: seq<text>, before: seq<ViewSpec>, placedBefore: set<text>)
    returns (ordered: seq<ViewSpec>, placed: set<text>, still: seq<text>, progressed: bool)
    requires (forall n :: n in pending ==> n in byName) && placedBefore == Names(before)
    requires WellNamed(byName)
    ensures (ordered, still) == Pass(byName, pending, before, [])
    ensures placed == Names(ordered) && (progressed <==> |ordered| > |before|)
  {
    ordered, placed, still, progressed := before, placedBefore, [], false;
    for k := 0 to |pending|
      invariant forall n :: n in still ==> n in byName
      invariant placed == Names(ordered) && |before| <= |ordered| && (progressed <==> |ordered| > |before|)
      invariant Pass(byName, pending[k..], ordered, still) == Pass(byName, pending, before, [])
    {
      var name := pending[k];
      assert pending[k..][0] == name && pending[k..][1..] == pending[k + 1..];
      var deps := set dep | dep in byName[name].dependsOn && dep in byName && dep != name;
      if deps <= placed {
        NamesSnoc(ordered, byName[name]);
        ordered := ordered + [byName[name]];
        placed := placed + {name};
        progressed := true;
      } else {
        still := still + [name];
      }
    }
  }

  /** The multi-pass sort of the rebuild. */
  method OrderViews(views: seq<ViewSpec>) returns (r: Result<seq<ViewSpec>, set<text>>)
    ensures r == Order(ByName(views))
  {
    var byName, pending := Index(views);
    var ordered: seq<ViewSpec> := [];
    var placed: set<text> := {};
    while pending != []
      invariant forall n :: n in pending ==> n in byName
      invariant placed == Names(ordered)
      invariant Passes(byName, pending, ordered) == Order(byName)
      decreases |pending|
    {
      var still, progressed;
      ordered, placed, still, progressed := PlacePass(byName, pending, ordered, placed);
      if !progressed { return Err(set n | n in still); }
      pending := still;
    }
    return Ok(ordered);
  }
}
