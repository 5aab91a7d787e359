/** Which archives a rebuild accepts, and as which database. */
module RebuildMeaning {
  import opened Results
  import opened Bytes
  import opened Text
  import opened Ordering
  import opened CopySegments
  import opened SchemaTypes
  import opened SchemaContract
  import opened SchemaBytes
  import opened ViewOrder
  import opened NativeDatabase
  import opened NativeRebuild
  import opened NativeArchive

  lemma RunLast(server: Server, read: Reads, db: Database, script: seq<Stmt>, last: Stmt, e: Database)
    requires Run(server, read, db, script + [last]) == Some(e)
    ensures Run(server, read, db, script).Some?
    ensures Apply(server, read, Run(server, read, db, script).value, last) == Some(e)
  {
    assert (script + [last])[..|script|] == script;
  }

  // What has happened once the statements of one kind have run

  ghost predicate TablesMade(ts: seq<TableSpec>, e: Database) {
    && e.indexes == map[] && e.views == map[] && e.tables.Keys == Elements(Keys(TableKey, ts))
    && forall t :: t in ts ==> t.name in e.tables && e.tables[t.name] == Table(t, [])
  }

  lemma {:induction false} TablesRan(server: Server, read: Reads, ts: seq<TableSpec>, e: Database)
    requires Distinct(Keys(TableKey, ts)) && Run(server, read, EMPTY, CreateTables(ts)) == Some(e)
    ensures TablesMade(ts, e)
    decreases |ts|
  {
    if ts != [] {
      var k := |ts| - 1;
      KeysSnoc(TableKey, ts);
      assert CreateTables(ts) == CreateTables(ts[..k]) + [CreateTable(ts[k])];
      RunLast(server, read, EMPTY, CreateTables(ts[..k]), CreateTable(ts[k]), e);
      TablesRan(server, read, ts[..k], Run(server, read, EMPTY, CreateTables(ts[..k])).value);
      OneMoreTable(ts, Run(server, read, EMPTY, CreateTables(ts[..k])).value, e);
    } else {
      NoTables(ts);
    }
  }

  lemma NoTables(ts: seq<TableSpec>)
    requires ts == []
    ensures TablesMade(ts, EMPTY)
  {
    assert Elements(Keys(TableKey, ts)) == {};
  }

  lemma OneMoreTable(ts: seq<TableSpec>, m: Database, e: Database)
    requires ts != [] && Distinct(Keys(TableKey, ts)) && TablesMade(ts[..|ts| - 1], m)
    requires e == m.(tables := m.tables[ts[|ts| - 1].name := Table(ts[|ts| - 1], [])])
    ensures TablesMade(ts, e)
  {
    var k := |ts| - 1;
    KeysSnoc(TableKey, ts);
    assert ts == ts[..k] + [ts[k]];
    forall t | t in ts ensures t.name in e.tables && e.tables[t.name] == Table(t, []) {
      if t in ts[..k] { NameInKeys(TableKey, ts[..k], t); }
    }
  }

  lemma NameInKeys<T>(key: T -> text, xs: seq<T>, x: T)
    requires x in xs
    ensures key(x) in Elements(Keys(key, xs))
  {
    var i :| 0 <= i < |xs| && xs[i] == x;
    assert Keys(key, xs)[i] == key(x);
  }

  /** The segment's rows are in its table, as many as it says, and the server takes them. */
  ghost predicate Delivered(server: Server, read: Reads, e: Database, g: CopySegment) {
    && Imported(read, e, g) && server.fits(e.tables[g.table].spec, e.tables[g.table].rows)
  }

  ghost predicate RowsCopied(server: Server, read: Reads, d: Database, gs: seq<CopySegment>, e: Database) {
    && e.indexes == d.indexes && e.views == d.views && e.tables.Keys == d.tables.Keys
    && (forall n :: n in d.tables ==> e.tables[n].spec == d.tables[n].spec)
    && (forall n :: n in d.tables && n !in Elements(Keys(SegmentKey, gs)) ==> e.tables[n] == d.tables[n])
    && forall g :: g in gs ==> Delivered(server, read, e, g)
  }

  lemma {:induction false} ImportsRan(server: Server, read: Reads, d: Database, gs: seq<CopySegment>, e: Database)
    requires Distinct(Keys(SegmentKey, gs)) && Run(server, read, d, Imports(gs)) == Some(e)
    requires forall n :: n in d.tables ==> d.tables[n].rows == []
    ensures RowsCopied(server, read, d, gs, e)
    decreases |gs|
  {
    if gs != [] {
      var k := |gs| - 1;
      KeysSnoc(SegmentKey, gs);
      assert Imports(gs) == Imports(gs[..k]) + [Import(gs[k])];
      RunLast(server, read, d, Imports(gs[..k]), Import(gs[k]), e);
      var m := Run(server, read, d, Imports(gs[..k])).value;
      ImportsRan(server, read, d, gs[..k], m);
      assert gs == gs[..k] + [gs[k]];
      LastDelivered(server, read, m, gs[k], e);
      forall g | g in gs ensures Delivered(server, read, e, g) {
        if g in gs[..k] { NameInKeys(SegmentKey, gs[..k], g); }
      }
    }
  }

  lemma LastDelivered(server: Server, read: Reads, m: Database, g: CopySegment, e: Database)
    requires Apply(server, read, m, Import(g)) == Some(e) && (g.table in m.tables ==> m.tables[g.table].rows == [])
    ensures Delivered(server, read, e, g) && e.indexes == m.indexes && e.views == m.views && e.tables.Keys == m.tables.Keys
    ensures forall n :: n in m.tables ==> e.tables[n].spec == m.tables[n].spec && (n != g.table ==> e.tables[n] == m.tables[n])
  {
    assert [] + Lines(read(g).value) == Lines(read(g).value);
  }

  ghost predicate Indexed(server: Server, e: Database, i: IndexSpec) {
    i.name in e.indexes && e.indexes[i.name] == i && IndexLive(server, e, i) && i.name !in e.tables && i.name !in e.views
  }

  lemma {:induction false} IndexesRan(server: Server, read: Reads, d: Database, ns: seq<IndexSpec>, e: Database)
    requires Distinct(Keys(IndexKey, ns)) && d.indexes == map[] && Run(server, read, d, CreateIndexes(ns)) == Some(e)
    ensures e.tables == d.tables && e.views == d.views && e.indexes.Keys == Elements(Keys(IndexKey, ns))
    ensures forall i :: i in ns ==> Indexed(server, e, i)
    decreases |ns|
  {
    if ns != [] {
      var k := |ns| - 1;
      KeysSnoc(IndexKey, ns);
      assert CreateIndexes(ns) == CreateIndexes(ns[..k]) + [CreateIndex(ns[k])];
      RunLast(server, read, d, CreateIndexes(ns[..k]), CreateIndex(ns[k]), e);
      IndexesRan(server, read, d, ns[..k], Run(server, read, d, CreateIndexes(ns[..k])).value);
      assert ns == ns[..k] + [ns[k]];
      forall i | i in ns ensures Indexed(server, e, i) {
        if i in ns[..k] { NameInKeys(IndexKey, ns[..k], i); }
      }
    } else {
      assert Elements(Keys(IndexKey, ns)) == {};
    }
  }

  /** The view is there as the server prints it back, and what it depends on is there without it. */
  ghost predicate Viewed(server: Server, e: Database, v: ViewSpec) {
    && v.name in e.views && e.views[v.name] == v.(definition := server.deparse(v.definition))
    && DepsPresent(e, v) && v.name !in v.dependsOn && v.name !in e.tables && v.name !in e.indexes
  }

  lemma {:induction false} ViewsRan(server: Server, read: Reads, d: Database, vs: seq<ViewSpec>, e: Database)
    requires Distinct(Keys(ViewKey, vs)) && d.views == map[] && Run(server, read, d, CreateViews(vs)) == Some(e)
    ensures e.tables == d.tables && e.indexes == d.indexes && e.views.Keys == Elements(Keys(ViewKey, vs))
    ensures forall v :: v in vs ==> Viewed(server, e, v)
    decreases |vs|
  {
    if vs != [] {
      var k := |vs| - 1;
      KeysSnoc(ViewKey, vs);
      assert CreateViews(vs) == CreateViews(vs[..k]) + [CreateView(vs[k])];
      RunLast(server, read, d, CreateViews(vs[..k]), CreateView(vs[k]), e);
      var m := Run(server, read, d, CreateViews(vs[..k])).value;
      ViewsRan(server, read, d, vs[..k], m);
      assert vs == vs[..k] + [vs[k]];
      forall v | v in vs ensures Viewed(server, e, v) {
        if v in vs[..k] { NameInKeys(ViewKey, vs[..k], v); assert Viewed(server, m, v); }
      }
    } else {
      assert Elements(Keys(ViewKey, vs)) == {};
    }
  }

  // The whole rebuild

  lemma Stages(server: Server, read: Reads, a: seq<Stmt>, b: seq<Stmt>, c: seq<Stmt>, d: seq<Stmt>, e: Database)
    returns (d1: Database, d2: Database, d3: Database)
    requires Run(server, read, EMPTY, a + b + c + d) == Some(e)
    ensures Run(server, read, EMPTY, a) == Some(d1) && Run(server, read, d1, b) == Some(d2)
    ensures Run(server, read, d2, c) == Some(d3) && Run(server, read, d3, d) == Some(e)
  {
    RunConcat(server, read, EMPTY, a + b + c, d);
    RunConcat(server, read, EMPTY, a + b, c);
    RunConcat(server, read, EMPTY, a, b);
    d1 := Run(server, read, EMPTY, a).value;
    d2 := Run(server, read, d1, b).value;
    d3 := Run(server, read, d2, c).value;
  }

  lemma ArrangedAll<T>(key: T -> text, xs: seq<T>)
    requires Distinct(Keys(key, xs))
    ensures forall x :: x in xs <==> x in Arranged(key, xs)
  {
    var r := Arranged(key, xs);
    ArrangedApart(key, xs);
    forall x | x in xs ensures x in r {
      NameInKeys(key, xs, x);
      assert key(x) in Elements(Keys(key, r));
      var j :| 0 <= j < |r| && Keys(key, r)[j] == key(x);
      assert r[j] in xs;
      SameKeySame(key, xs, x, r[j]);
    }
  }

  lemma SameKeySame<T>(key: T -> text, xs: seq<T>, x: T, y: T)
    requires Distinct(Keys(key, xs)) && x in xs && y in xs && key(x) == key(y)
    ensures x == y
  {
    var i :| 0 <= i < |xs| && xs[i] == x;
    var j :| 0 <= j < |xs| && xs[j] == y;
    assert Keys(key, xs)[i] == Keys(key, xs)[j];
  }

  /** No name twice among the tables, the indexes, the views or the segments, and a segment for every table. */
  ghost predicate OncePerName(s: DatabaseSchema) {
    && NamesApart(s) && Distinct(Keys(ViewKey, s.views)) && Distinct(Keys(SegmentKey, s.segments))
    && Elements(Keys(SegmentKey, s.segments)) == Elements(Keys(TableKey, s.tables))
  }

  lemma ViewsListed(s: DatabaseSchema, vs: seq<ViewSpec>)
    requires Distinct(Keys(ViewKey, s.views)) && Order(ByName(s.views)) == Ok(vs)
    ensures Distinct(Keys(ViewKey, vs)) && (forall v :: v in vs <==> v in s.views)
    ensures OneEach(s.views) && Elements(Keys(ViewKey, vs)) == Elements(Keys(ViewKey, s.views))
    ensures forall c :: !Cycle(ByName(s.views), c)
  {
    var g := ByName(s.views);
    OrderMeaning(g);
    DistinctNames(g, vs, g.Keys);
    forall i, j | 0 <= i < j < |s.views| ensures s.views[i].name != s.views[j].name {
      assert Keys(ViewKey, s.views)[i] != Keys(ViewKey, s.views)[j];
    }
    forall v | v in s.views ensures v in vs {
      ByNameHolds(s.views, v);
      assert v.name in Names(vs);
    }
    forall v | v in vs ensures v in s.views { assert v.name in Names(vs); }
    SameElements(vs, s.views);
  }

  lemma SameElements(a: seq<ViewSpec>, b: seq<ViewSpec>)
    requires forall v :: v in a <==> v in b
    ensures Elements(Keys(ViewKey, a)) == Elements(Keys(ViewKey, b))
  {
    NamesAreKeys(a);
    NamesAreKeys(b);
    assert Names(a) == Names(b);
  }

  /** What the four groups of statements leave, as far as the names go. */
  ghost predicate Built(server: Server, read: Reads, s: DatabaseSchema, db: Database) {
    && db.tables.Keys == Elements(Keys(TableKey, s.tables)) && db.indexes.Keys == Elements(Keys(IndexKey, s.indexes))
    && db.views.Keys == Elements(Keys(ViewKey, s.views))
    && (forall t :: t in s.tables ==> t.name in db.tables && db.tables[t.name].spec == t)
    && (forall g :: g in s.segments ==> Delivered(server, read, db, g))
    && (forall i :: i in s.indexes ==> BuiltIndex(server, db, i))
    && (forall v :: v in s.views ==> Viewed(server, db, v))
    && forall c :: !Cycle(ByName(s.views), c)
  }

  ghost predicate BuiltIndex(server: Server, e: Database, i: IndexSpec) {
    i.name in e.indexes && e.indexes[i.name] == i && IndexLive(server, e, i) && i.name !in e.tables
  }

  lemma ScriptBuilds(server: Server, read: Reads, s: DatabaseSchema, db: Database)
    requires OncePerName(s) && Script(s).Some? && Run(server, read, EMPTY, Script(s).value) == Some(db)
    ensures Built(server, read, s, db)
  {
    var vs := Order(ByName(s.views)).value;
    var ts, ns := Arranged(TableKey, s.tables), Arranged(IndexKey, s.indexes);
    var d1, d2, d3 := Stages(server, read, CreateTables(ts), Imports(s.segments), CreateIndexes(ns), CreateViews(vs), db);
    ArrangedApart(TableKey, s.tables);
    ArrangedAll(TableKey, s.tables);
    ArrangedApart(IndexKey, s.indexes);
    ArrangedAll(IndexKey, s.indexes);
    ViewsListed(s, vs);
    TablesRan(server, read, ts, d1);
    NoRows(ts, d1);
    ImportsRan(server, read, d1, s.segments, d2);
    IndexesRan(server, read, d2, ns, d3);
    ViewsRan(server, read, d3, vs, db);
    DeliveredStays(server, read, s, d2, db);
    IndexedStays(server, s, d3, db);
  }

  lemma NoRows(ts: seq<TableSpec>, d: Database)
    requires TablesMade(ts, d)
    ensures forall n :: n in d.tables ==> d.tables[n].rows == []
  {
    forall n | n in d.tables ensures d.tables[n].rows == [] {
      var i :| 0 <= i < |ts| && Keys(TableKey, ts)[i] == n;
      assert ts[i] in ts;
    }
  }

  lemma DeliveredStays(server: Server, read: Reads, s: DatabaseSchema, d: Database, e: Database)
    requires e.tables == d.tables && forall g :: g in s.segments ==> Delivered(server, read, d, g)
    ensures forall g :: g in s.segments ==> Delivered(server, read, e, g)
  {
    forall g | g in s.segments ensures Delivered(server, read, e, g) { assert Delivered(server, read, d, g); }
  }

  lemma IndexedStays(server: Server, s: DatabaseSchema, d: Database, e: Database)
    requires e.tables == d.tables && e.indexes == d.indexes
    requires (forall i :: i in s.indexes <==> i in Arranged(IndexKey, s.indexes)) && forall i :: i in Arranged(IndexKey, s.indexes) ==> Indexed(server, d, i)
    ensures forall i :: i in s.indexes ==> BuiltIndex(server, e, i)
  {
    forall i | i in s.indexes ensures BuiltIndex(server, e, i) { assert Indexed(server, d, i); }
  }

  lemma TablesMatch(server: Server, read: Reads, s: DatabaseSchema, db: Database)
    requires OncePerName(s) && Built(server, read, s, db)
    ensures forall t :: t in s.tables <==> t.name in db.tables && db.tables[t.name].spec == t
    ensures forall n :: n in db.tables ==> db.tables[n].spec.name == n && TableLive(server, db.tables[n])
  {
    forall n | n in db.tables
      ensures db.tables[n].spec.name == n && TableLive(server, db.tables[n]) && db.tables[n].spec in s.tables
    {
      var i :| 0 <= i < |s.tables| && Keys(TableKey, s.tables)[i] == n;
      assert s.tables[i] in s.tables;
      var j :| 0 <= j < |s.segments| && Keys(SegmentKey, s.segments)[j] == n;
      assert s.segments[j] in s.segments;
      assert Delivered(server, read, db, s.segments[j]);
      LinesAreOneLine(read(s.segments[j]).value);
    }
  }

  lemma {:induction false} LinesAreOneLine(b: bytes)
    ensures forall i :: 0 <= i < |Lines(b)| ==> OneLine(Lines(b)[i])
    decreases |b|
  {
    if b != [] {
      var k := LineEnd(b);
      if k < |b| { LinesAreOneLine(b[k + 1..]); }
    }
  }

  lemma IndexesMatch(server: Server, read: Reads, s: DatabaseSchema, db: Database)
    requires OncePerName(s) && Built(server, read, s, db)
    ensures forall i :: i in s.indexes <==> i.name in db.indexes && db.indexes[i.name] == i
    ensures forall n :: n in db.indexes ==> db.indexes[n].name == n && IndexLive(server, db, db.indexes[n]) && n !in db.tables
  {
    forall n | n in db.indexes
      ensures db.indexes[n].name == n && IndexLive(server, db, db.indexes[n]) && n !in db.tables && db.indexes[n] in s.indexes
    {
      var i :| 0 <= i < |s.indexes| && Keys(IndexKey, s.indexes)[i] == n;
      assert s.indexes[i] in s.indexes;
      assert BuiltIndex(server, db, s.indexes[i]);
    }
    forall i | i in s.indexes ensures i.name in db.indexes && db.indexes[i.name] == i { assert BuiltIndex(server, db, i); }
  }

  lemma ViewsMatch(server: Server, read: Reads, s: DatabaseSchema, db: Database)
    requires OncePerName(s) && Built(server, read, s, db) && db.views.Values == Expected(s.views)
    ensures forall v :: v in s.views <==> v.name in db.views && db.views[v.name] == v
    ensures forall n :: n in db.views ==> db.views[n].name == n && ViewLive(server, db, db.views[n]) && n !in db.tables && n !in db.indexes
  {
    forall n | n in db.views
      ensures db.views[n].name == n && ViewLive(server, db, db.views[n]) && n !in db.tables && n !in db.indexes && db.views[n] in s.views
    {
      var i :| 0 <= i < |s.views| && Keys(ViewKey, s.views)[i] == n;
      var v := s.views[i];
      assert v in s.views && Viewed(server, db, v);
      assert db.views[n] in db.views.Values;
      SameKeySame(ViewKey, s.views, v, db.views[n]);
    }
    forall v | v in s.views ensures v.name in db.views && db.views[v.name] == v {
      assert Viewed(server, db, v) && db.views[v.name] in s.views;
      SameKeySame(ViewKey, s.views, v, db.views[v.name]);
    }
  }

  /** The database is one the server would hold, with what the archive says in it and nothing else, row
      by row. */
  ghost predicate Matches(server: Server, read: Reads, s: DatabaseSchema, db: Database) {
    Live(server, db) && Snapshot(s, db) && forall g :: g in s.segments ==> Imported(read, db, g)
  }

  /** The database matches the archive: that is when a rebuild of the archive succeeds, and what it makes. */
  lemma RebuildMeans(server: Server, read: Reads, s: DatabaseSchema, db: Database)
    requires OncePerName(s)
    ensures Rebuilt(server, read, s) == Some(db) <==> Matches(server, read, s, db)
  {
    if Rebuilt(server, read, s) == Some(db) { RebuiltIsLive(server, read, s, db); }
    if Matches(server, read, s, db) {
      TableKeysOf(s, db);
      OneEachView(s);
      RebuildGivesBack(server, read, db, s);
      VerifiedAsSnapshot(server, s, db);
    }
  }

  lemma OneEachView(s: DatabaseSchema)
    requires Distinct(Keys(ViewKey, s.views))
    ensures OneEach(s.views)
  {
    forall i, j | 0 <= i < j < |s.views| ensures s.views[i].name != s.views[j].name {
      assert Keys(ViewKey, s.views)[i] != Keys(ViewKey, s.views)[j];
    }
  }

  lemma AllMatch(server: Server, read: Reads, s: DatabaseSchema, db: Database)
    requires OncePerName(s) && Built(server, read, s, db) && db.views.Values == Expected(s.views)
    ensures Snapshot(s, db) && ByName(s.views) == db.views
  {
    TablesMatch(server, read, s, db);
    IndexesMatch(server, read, s, db);
    ViewsMatch(server, read, s, db);
    OneEachView(s);
    CatalogOf(s, db);
  }

  lemma BuiltIsLive(server: Server, read: Reads, s: DatabaseSchema, db: Database)
    requires OncePerName(s) && Built(server, read, s, db) && db.views.Values == Expected(s.views)
    ensures Live(server, db)
  {
    TablesMatch(server, read, s, db);
    IndexesMatch(server, read, s, db);
    ViewsMatch(server, read, s, db);
    NoCycles(server, read, s, db);
  }

  lemma NoCycles(server: Server, read: Reads, s: DatabaseSchema, db: Database)
    requires OncePerName(s) && Built(server, read, s, db) && db.views.Values == Expected(s.views)
    ensures forall c :: !Cycle(db.views, c)
  {
    AllMatch(server, read, s, db);
  }

  lemma RebuiltIsLive(server: Server, read: Reads, s: DatabaseSchema, db: Database)
    requires OncePerName(s) && Rebuilt(server, read, s) == Some(db)
    ensures Matches(server, read, s, db)
  {
    ScriptBuilds(server, read, s, db);
    AllMatch(server, read, s, db);
    BuiltIsLive(server, read, s, db);
    forall g | g in s.segments ensures Imported(read, db, g) { assert Delivered(server, read, db, g); }
  }

  /** A constructed schema in which every table is exported. */
  lemma AcceptedOncePerName(s: DatabaseSchema)
    requires SchemaOk(s) && EveryTableExported(s)
    ensures OncePerName(s)
  {
    assert Keys(TableKey, s.tables) == TableNames(s) && Keys(SegmentKey, s.segments) == SegmentTables(s);
    assert Keys(IndexKey, s.indexes) == IndexNames(s) && Keys(ViewKey, s.views) == ViewNames(s);
    forall n ensures n in Elements(SegmentTables(s)) <==> n in Elements(TableNames(s)) {
      assert n in Elements(TableNames(s)) <==> n in TableNames(s);
    }
  }

  ghost predicate HasSegmentNamed(s: DatabaseSchema, n: text) { exists g :: g in s.segments && g.table == n }

  ghost predicate HasTableNamed(s: DatabaseSchema, n: text) { exists t :: t in s.tables && t.name == n }

  /** Every table has a segment and every segment a table. */
  ghost predicate Complete(s: DatabaseSchema) {
    && (forall t :: t in s.tables ==> HasSegmentNamed(s, t.name))
    && forall g :: g in s.segments ==> HasTableNamed(s, g.table)
  }

  lemma ExportedIsComplete(s: DatabaseSchema)
    ensures EveryTableExported(s) <==> Complete(s)
  {
    TableListed(s);
    if EveryTableExported(s) {
      forall t | t in s.tables ensures HasSegmentNamed(s, t.name) {
        var j :| 0 <= j < |SegmentTables(s)| && SegmentTables(s)[j] == t.name;
        assert s.segments[j] in s.segments;
      }
      forall g | g in s.segments ensures HasTableNamed(s, g.table) {
        var j :| 0 <= j < |TableNames(s)| && TableNames(s)[j] == g.table;
        assert s.tables[j] in s.tables;
      }
    }
    if Complete(s) {
      forall n | n in TableNames(s) ensures n in SegmentTables(s) {
        var j :| 0 <= j < |TableNames(s)| && TableNames(s)[j] == n;
        assert s.tables[j] in s.tables;
      }
      forall n | n in SegmentTables(s) ensures n in TableNames(s) {
        var j :| 0 <= j < |SegmentTables(s)| && SegmentTables(s)[j] == n;
        assert s.segments[j] in s.segments;
      }
    }
  }

  lemma TableListed(s: DatabaseSchema)
    ensures forall t :: t in s.tables ==> t.name in TableNames(s)
    ensures forall g :: g in s.segments ==> g.table in SegmentTables(s)
  {
    forall t | t in s.tables ensures t.name in TableNames(s) {
      var i :| 0 <= i < |s.tables| && s.tables[i] == t;
      assert TableNames(s)[i] == t.name;
    }
    forall g | g in s.segments ensures g.table in SegmentTables(s) {
      var i :| 0 <= i < |s.segments| && s.segments[i] == g;
      assert SegmentTables(s)[i] == g.table;
    }
  }

  /** What the destructive restore puts in place: exactly under a well-formed identifier and a complete
      archive, the one database that holds what the archive says, with the identifier as its marker. */
  lemma ReplacementMeans(server: Server, read: Reads, s: DatabaseSchema, restoreId: text, db: Database)
    requires SchemaOk(s)
    ensures Replacement(server, read, s, restoreId) == Some(State(db, Some(restoreId))) <==>
            HexId(restoreId) && Complete(s) && Matches(server, read, s, db)
  {
    ExportedIsComplete(s);
    if EveryTableExported(s) {
      AcceptedOncePerName(s);
      RebuildMeans(server, read, s, db);
    }
    ReplacementIs(server, read, s, restoreId, db);
  }

  lemma ReplacementIs(server: Server, read: Reads, s: DatabaseSchema, restoreId: text, db: Database)
    ensures Replacement(server, read, s, restoreId) == Some(State(db, Some(restoreId))) <==>
            HexId(restoreId) && EveryTableExported(s) && Rebuilt(server, read, s) == Some(db)
  {
  }
}
