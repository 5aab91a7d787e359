/** The exact order in which views are created: by the pass that places them, ties by name. */
module ViewRanks {
  import opened Text
  import opened SchemaTypes
  import opened ViewOrder

  /** The first pass in which `n` can follow `d`: the same one if `d` comes earlier by name, else the next. */
  function Follows(rank: map<text, nat>, n: text, d: text): nat
    requires d in rank
  {
    rank[d] + if Less(n, d) then 1 else 0
  }

  ghost predicate Delayed(g: Catalog, rank: map<text, nat>, n: text)
    requires rank.Keys == g.Keys && n in g
  {
    exists d :: DependsOn(g, n, d) && Follows(rank, n, d) == rank[n]
  }

  /** A view's rank is the first pass in which it can follow everything it depends on. */
  ghost predicate Ranks(g: Catalog, rank: map<text, nat>) {
    && rank.Keys == g.Keys
    && (forall n, d :: DependsOn(g, n, d) ==> Follows(rank, n, d) <= rank[n])
    && forall n :: n in g && rank[n] > 0 ==> Delayed(g, rank, n)
  }

  ghost predicate Before(rank: map<text, nat>, a: text, b: text)
    requires a in rank && b in rank
  {
    rank[a] < rank[b] || (rank[a] == rank[b] && Less(a, b))
  }

  /** By rank, and by name within a rank. */
  ghost predicate RankedOrder(g: Catalog, rank: map<text, nat>, ordered: seq<ViewSpec>)
    requires rank.Keys == g.Keys
  {
    && (forall i :: 0 <= i < |ordered| ==> ordered[i].name in g)
    && forall i, j :: 0 <= i < j < |ordered| ==> Before(rank, ordered[i].name, ordered[j].name)
  }

  /** Inside pass `p`: what has rank `p` is placed as far as the pass has come, what has more is put off. */
  ghost predicate InPass(g: Catalog, rank: map<text, nat>, p: nat, pending: seq<text>, ordered: seq<ViewSpec>, still: seq<text>) {
    && Ranks(g, rank) && WellNamed(g) && RankedOrder(g, rank, ordered) && Ascending(pending) && Ascending(still)
    && (forall n :: n in Names(ordered) <==> n in g && (rank[n] < p || (rank[n] == p && n !in pending)))
    && (forall n :: n in pending ==> n in g && rank[n] >= p)
    && (forall n :: n in still <==> n in g && rank[n] > p && n !in pending)
    && forall n, m :: n in g && rank[n] >= p && n !in pending && m in pending ==> Less(n, m)
  }

  lemma ReadyAtRank(g: Catalog, rank: map<text, nat>, p: nat, pending: seq<text>, ordered: seq<ViewSpec>, still: seq<text>)
    requires InPass(g, rank, p, pending, ordered, still) && pending != []
    ensures pending[0] in g && (Needs(g, pending[0]) <= Names(ordered) <==> rank[pending[0]] == p)
  {
    var n := pending[0];
    assert n in pending;
    if rank[n] == p {
      forall d | d in Needs(g, n) ensures d in Names(ordered) {
        assert DependsOn(g, n, d);
        LessTotal(n, d);
        if d in pending { FirstIsLeast(pending, d); }
      }
    } else {
      assert Delayed(g, rank, n);
      var d :| DependsOn(g, n, d) && Follows(rank, n, d) == rank[n];
      LessTotal(n, d);
      assert d in Needs(g, n);
      assert rank[d] == p ==> Less(n, d);
      assert d !in Names(ordered);
    }
  }

  lemma FirstIsLeast(names: seq<text>, d: text)
    requires Ascending(names) && d in names
    ensures d == names[0] || Less(names[0], d)
  {
    var i :| 0 <= i < |names| && names[i] == d;
  }

  lemma RestAscends(names: seq<text>)
    requires Ascending(names) && names != []
    ensures Ascending(names[1..]) && names[0] !in names[1..]
    ensures forall m :: m in names[1..] ==> Less(names[0], m)
    ensures forall m :: m in names <==> m == names[0] || m in names[1..]
  {
    LessIrreflexive(names[0]);
    forall m | m in names[1..] ensures Less(names[0], m) {
      var i :| 0 <= i < |names[1..]| && names[1..][i] == m;
      assert names[i + 1] == m;
    }
    assert names == [names[0]] + names[1..];
  }

  lemma AscendsOn(names: seq<text>, n: text)
    requires Ascending(names) && forall m :: m in names ==> Less(m, n)
    ensures Ascending(names + [n])
  {
    forall i, j | 0 <= i < j < |names + [n]| ensures Less((names + [n])[i], (names + [n])[j]) {
      assert names[i] in names;
    }
  }

  lemma PlacedNext(g: Catalog, rank: map<text, nat>, p: nat, pending: seq<text>, ordered: seq<ViewSpec>, still: seq<text>)
    requires InPass(g, rank, p, pending, ordered, still) && pending != [] && pending[0] in g && rank[pending[0]] == p
    ensures InPass(g, rank, p, pending[1..], ordered + [g[pending[0]]], still)
  {
    var n := pending[0];
    RestAscends(pending);
    NamesSnoc(ordered, g[n]);
    forall i | 0 <= i < |ordered| ensures Before(rank, ordered[i].name, n) {
      assert ordered[i] in ordered;
      assert ordered[i].name in Names(ordered);
    }
  }

  lemma PutOffNext(g: Catalog, rank: map<text, nat>, p: nat, pending: seq<text>, ordered: seq<ViewSpec>, still: seq<text>)
    requires InPass(g, rank, p, pending, ordered, still) && pending != [] && pending[0] in g && rank[pending[0]] > p
    ensures InPass(g, rank, p, pending[1..], ordered, still + [pending[0]])
  {
    RestAscends(pending);
    assert pending[0] in pending;
    AscendsOn(still, pending[0]);
  }

  lemma {:induction false} PassPlacesRank(
    g: Catalog, rank: map<text, nat>, p: nat, pending: seq<text>, ordered: seq<ViewSpec>, still: seq<text>)
    requires InPass(g, rank, p, pending, ordered, still)
    ensures forall n :: n in pending || n in still ==> n in g
    ensures var (o, s) := Pass(g, pending, ordered, still); InPass(g, rank, p, [], o, s)
    decreases pending
  {
    if pending != [] {
      var n := pending[0];
      ReadyAtRank(g, rank, p, pending, ordered, still);
      assert n in pending;
      if rank[n] == p {
        PlacedNext(g, rank, p, pending, ordered, still);
        PassPlacesRank(g, rank, p, pending[1..], ordered + [g[n]], still);
      } else {
        PutOffNext(g, rank, p, pending, ordered, still);
        PassPlacesRank(g, rank, p, pending[1..], ordered, still + [n]);
      }
    }
  }

  /** Below every rank that occurs all ranks occur. */
  lemma {:induction false} RankOccurs(g: Catalog, rank: map<text, nat>, p: nat, n: text)
    requires Ranks(g, rank) && n in g && rank[n] >= p
    ensures exists m :: m in g && rank[m] == p
    decreases rank[n], |Smaller(g, n)|
  {
    if rank[n] > p {
      assert Delayed(g, rank, n);
      var d :| DependsOn(g, n, d) && Follows(rank, n, d) == rank[n];
      if !Less(n, d) {
        LessTotal(n, d);
        SmallerShrinks(g, d, n);
      }
      RankOccurs(g, rank, p, d);
    }
  }

  ghost function Smaller(g: Catalog, n: text): set<text> { set m | m in g && Less(m, n) }

  lemma SmallerShrinks(g: Catalog, d: text, n: text)
    requires d in g && Less(d, n)
    ensures |Smaller(g, d)| < |Smaller(g, n)|
  {
    LessIrreflexive(d);
    forall m | m in Smaller(g, d) ensures m in Smaller(g, n) { LessTransitive(m, d, n); }
    assert d in Smaller(g, n) && d !in Smaller(g, d);
    SubsetSmaller(Smaller(g, d), Smaller(g, n) - {d});
  }

  lemma {:induction false} SubsetSmaller(a: set<text>, b: set<text>)
    requires a <= b
    ensures |a| <= |b|
  {
    if x :| x in a { SubsetSmaller(a - {x}, b - {x}); }
  }

  /** Where pass `p` begins: lower ranks are placed, the others are pending. */
  ghost predicate PassStart(g: Catalog, rank: map<text, nat>, p: nat, pending: seq<text>, ordered: seq<ViewSpec>) {
    && Ranks(g, rank) && WellNamed(g) && RankedOrder(g, rank, ordered) && Ascending(pending)
    && (forall n :: n in Names(ordered) <==> n in g && rank[n] < p)
    && forall n :: n in pending <==> n in g && rank[n] >= p
  }

  lemma StartIsInPass(g: Catalog, rank: map<text, nat>, p: nat, pending: seq<text>, ordered: seq<ViewSpec>)
    requires PassStart(g, rank, p, pending, ordered)
    ensures InPass(g, rank, p, pending, ordered, [])
  {
  }

  lemma NextPass(g: Catalog, rank: map<text, nat>, p: nat, ordered: seq<ViewSpec>, still: seq<text>)
    requires InPass(g, rank, p, [], ordered, still)
    ensures PassStart(g, rank, p + 1, still, ordered)
  {
  }

  lemma {:induction false} PassExtends(g: Catalog, pending: seq<text>, ordered: seq<ViewSpec>, still: seq<text>)
    requires forall n :: n in pending || n in still ==> n in g
    ensures ordered <= Pass(g, pending, ordered, still).0
    decreases pending
  {
    if pending != [] {
      assert pending[0] in pending;
      if Needs(g, pending[0]) <= Names(ordered) { PassExtends(g, pending[1..], ordered + [g[pending[0]]], still); }
      else { PassExtends(g, pending[1..], ordered, still + [pending[0]]); }
    }
  }

  lemma PassPlacesSome(g: Catalog, rank: map<text, nat>, p: nat, pending: seq<text>, ordered: seq<ViewSpec>)
    requires PassStart(g, rank, p, pending, ordered) && pending != []
    ensures forall n :: n in pending ==> n in g
    ensures var (o, s) := Pass(g, pending, ordered, []); |o| > |ordered| && PassStart(g, rank, p + 1, s, o)
  {
    StartIsInPass(g, rank, p, pending, ordered);
    PassPlacesRank(g, rank, p, pending, ordered, []);
    var (o, s) := Pass(g, pending, ordered, []);
    NextPass(g, rank, p, o, s);
    PassExtends(g, pending, ordered, []);
    assert pending[0] in pending;
    RankOccurs(g, rank, p, pending[0]);
    var m :| m in g && rank[m] == p;
    assert m in Names(o) && m !in Names(ordered);
  }

  lemma {:induction false} PassesRanked(g: Catalog, rank: map<text, nat>, p: nat, pending: seq<text>, ordered: seq<ViewSpec>)
    requires PassStart(g, rank, p, pending, ordered)
    ensures forall n :: n in pending ==> n in g
    ensures Passes(g, pending, ordered).Ok? && RankedOrder(g, rank, Passes(g, pending, ordered).value)
    decreases |pending|
  {
    if pending != [] {
      PassPlacesSome(g, rank, p, pending, ordered);
      var (o, s) := Pass(g, pending, ordered, []);
      PassesRanked(g, rank, p + 1, s, o);
    }
  }

  // Ranks exist exactly where there is an order

  /** The largest of the first passes in which `n` can follow one of `ds`. */
  ghost function Latest(rank: map<text, nat>, n: text, ds: set<text>): (r: nat)
    requires ds <= rank.Keys
    ensures forall d :: d in ds ==> Follows(rank, n, d) <= r
    ensures r > 0 ==> exists d :: d in ds && Follows(rank, n, d) == r
  {
    if ds == {} then 0
    else
      var d :| d in ds;
      var rest := Latest(rank, n, ds - {d});
      if rest <= Follows(rank, n, d) then Follows(rank, n, d) else rest
  }

  /** Ranks of the views listed so far. */
  ghost predicate RanksSoFar(g: Catalog, rank: map<text, nat>, ordered: seq<ViewSpec>) {
    && rank.Keys == Names(ordered) <= g.Keys
    && (forall n, d :: n in rank && DependsOn(g, n, d) ==> d in rank && Follows(rank, n, d) <= rank[n])
    && forall n :: n in rank && rank[n] > 0 ==> exists d :: DependsOn(g, n, d) && d in rank && Follows(rank, n, d) == rank[n]
  }

  lemma {:induction false} RanksOf(g: Catalog, ordered: seq<ViewSpec>) returns (rank: map<text, nat>)
    requires WellNamed(g) && DependenciesFirst(g, ordered) && forall i, j :: 0 <= i < j < |ordered| ==> ordered[i].name != ordered[j].name
    ensures RanksSoFar(g, rank, ordered)
    decreases |ordered|
  {
    if ordered == [] {
      rank := map[];
    } else {
      var k := |ordered| - 1;
      var n := ordered[k].name;
      var less := ordered[..k];
      LessOrdered(g, ordered);
      var before := RanksOf(g, less);
      assert ordered == less + [ordered[k]];
      NamesSnoc(less, ordered[k]);
      FirstIs(g, ordered, n, k);
      LastIsNew(ordered);
      rank := before[n := Latest(before, n, Needs(g, n))];
      RankAdded(g, before, less, n, rank);
    }
  }

  lemma LastIsNew(ordered: seq<ViewSpec>)
    requires ordered != [] && forall i, j :: 0 <= i < j < |ordered| ==> ordered[i].name != ordered[j].name
    ensures ordered[|ordered| - 1].name !in Names(ordered[..|ordered| - 1])
  {
  }

  lemma LessOrdered(g: Catalog, ordered: seq<ViewSpec>)
    requires ordered != [] && DependenciesFirst(g, ordered)
    ensures DependenciesFirst(g, ordered[..|ordered| - 1])
  {
    var less := ordered[..|ordered| - 1];
    forall i, d | 0 <= i < |less| && DependsOn(g, less[i].name, d) ensures Earlier(less, i, d) {
      assert Earlier(ordered, i, d);
      var j :| 0 <= j < i && ordered[j].name == d;
      assert less[j].name == d;
    }
  }

  lemma RankAdded(g: Catalog, before: map<text, nat>, less: seq<ViewSpec>, n: text, rank: map<text, nat>)
    requires RanksSoFar(g, before, less) && n in g && n !in before && Needs(g, n) <= before.Keys
    requires rank == before[n := Latest(before, n, Needs(g, n))]
    ensures (forall m, d :: m in rank && DependsOn(g, m, d) ==> d in rank && Follows(rank, m, d) <= rank[m])
    ensures forall m :: m in rank && rank[m] > 0 ==> exists d :: DependsOn(g, m, d) && d in rank && Follows(rank, m, d) == rank[m]
  {
    forall m | m in rank && rank[m] > 0 ensures exists d :: DependsOn(g, m, d) && d in rank && Follows(rank, m, d) == rank[m] {
      if m == n {
        var d :| d in Needs(g, n) && Follows(before, n, d) == rank[n];
        assert DependsOn(g, n, d) && Follows(rank, n, d) == rank[n];
      } else {
        var d :| DependsOn(g, m, d) && d in before && Follows(before, m, d) == before[m];
        assert Follows(rank, m, d) == rank[m];
      }
    }
    forall m, d | m in rank && DependsOn(g, m, d) ensures d in rank && Follows(rank, m, d) <= rank[m] {
      if m == n { assert d in Needs(g, n); }
    }
  }

  lemma FirstPass(g: Catalog, rank: map<text, nat>)
    requires WellNamed(g) && Ranks(g, rank)
    ensures PassStart(g, rank, 0, Sorted(g.Keys), [])
  {
    SortedApart(g.Keys);
  }

  lemma RankedIsOrder(g: Catalog, rank: map<text, nat>)
    requires WellNamed(g) && Ranks(g, rank)
    ensures Order(g).Ok? && RankedOrder(g, rank, Order(g).value)
  {
    FirstPass(g, rank);
    PassesRanked(g, rank, 0, Sorted(g.Keys), []);
  }

  lemma AllRanked(g: Catalog, rank: map<text, nat>, ordered: seq<ViewSpec>)
    requires RanksSoFar(g, rank, ordered) && Names(ordered) == g.Keys
    ensures Ranks(g, rank)
  {
    forall n | n in g && rank[n] > 0 ensures Delayed(g, rank, n) {}
  }

  lemma RanksExist(g: Catalog) returns (rank: map<text, nat>)
    requires WellNamed(g) && Order(g).Ok?
    ensures Ranks(g, rank)
  {
    OrderMeaning(g);
    DistinctNames(g, Order(g).value, g.Keys);
    rank := RanksOf(g, Order(g).value);
    AllRanked(g, rank, Order(g).value);
  }

  /** The creation order exactly: there is one if and only if the views have ranks, and then it is every
      view once, by rank and within a rank by name. */
  lemma OrderIsRanked(g: Catalog)
    requires WellNamed(g)
    ensures Order(g).Ok? <==> exists rank :: Ranks(g, rank)
    ensures Order(g).Ok? ==> Lists(g, Order(g).value, g.Keys)
    ensures forall rank :: Ranks(g, rank) ==> RankedOrder(g, rank, Order(g).value)
  {
    OrderMeaning(g);
    forall rank | Ranks(g, rank) ensures Order(g).Ok? && RankedOrder(g, rank, Order(g).value) { RankedIsOrder(g, rank); }
    if Order(g).Ok? { var rank := RanksExist(g); }
  }
}
