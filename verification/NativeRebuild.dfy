/** Rebuilding an archive of a live database gives that database. */
module NativeRebuild {
  import opened Results
  import opened Bytes
  import opened Text
  import opened Ordering
  import opened CopySegments
  import opened SchemaTypes
  import opened ViewOrder
  import opened NativeDatabase

  type Reads = CopySegment -> Option<bytes>

  function CreateTables(ts: seq<TableSpec>): (r: seq<Stmt>) { seq(|ts|, i requires 0 <= i < |ts| => CreateTable(ts[i])) }
  function Imports(gs: seq<CopySegment>): (r: seq<Stmt>) { seq(|gs|, i requires 0 <= i < |gs| => Import(gs[i])) }
  function CreateIndexes(ns: seq<IndexSpec>): (r: seq<Stmt>) { seq(|ns|, i requires 0 <= i < |ns| => CreateIndex(ns[i])) }
  function CreateViews(vs: seq<ViewSpec>): (r: seq<Stmt>) { seq(|vs|, i requires 0 <= i < |vs| => CreateView(vs[i])) }

  /** The database as it is while it is rebuilt: tables in `made` exist, those in `filled` have
      their rows, and only the named indexes and views are there. */
  ghost function Stage(db: Database, made: set<text>, filled: set<text>, indexes: set<text>, views: set<text>): Database {
    Database(map n | n in db.tables && n in made :: if n in filled then db.tables[n] else Table(db.tables[n].spec, []),
             map n | n in db.indexes && n in indexes :: db.indexes[n],
             map n | n in db.views && n in views :: db.views[n])
  }

  /** A statement that adds `name` to what is there. */
  lemma TableStep(server: Server, read: Reads, db: Database, made: set<text>, name: text)
    requires name in db.tables && name !in made && db.tables[name].spec.name == name
    ensures Apply(server, read, Stage(db, made, {}, {}, {}), CreateTable(db.tables[name].spec))
         == Some(Stage(db, made + {name}, {}, {}, {}))
  {
    var d := Stage(db, made, {}, {}, {});
    assert d.tables[name := Table(db.tables[name].spec, [])] == Stage(db, made + {name}, {}, {}, {}).tables;
  }

  ghost predicate Imported(read: Reads, db: Database, g: CopySegment) {
    && g.table in db.tables && g.columns == db.tables[g.table].spec.ColumnNames()
    && g.rowCount == |db.tables[g.table].rows| && read(g).Some? && Lines(read(g).value) == db.tables[g.table].rows
  }

  lemma ImportStep(server: Server, read: Reads, db: Database, filled: set<text>, g: CopySegment)
    requires Imported(read, db, g) && TableLive(server, db.tables[g.table]) && g.table !in filled
    ensures Apply(server, read, Stage(db, db.tables.Keys, filled, {}, {}), Import(g))
         == Some(Stage(db, db.tables.Keys, filled + {g.table}, {}, {}))
  {
    var d := Stage(db, db.tables.Keys, filled, {}, {});
    var rows := db.tables[g.table].rows;
    assert d.tables[g.table].rows + rows == rows;
    assert d.tables[g.table := db.tables[g.table]] == Stage(db, db.tables.Keys, filled + {g.table}, {}, {}).tables;
  }

  lemma IndexStep(server: Server, read: Reads, db: Database, indexes: set<text>, name: text)
    requires Live(server, db) && name in db.indexes && name !in indexes
    ensures Apply(server, read, Stage(db, db.tables.Keys, db.tables.Keys, indexes, {}), CreateIndex(db.indexes[name]))
         == Some(Stage(db, db.tables.Keys, db.tables.Keys, indexes + {name}, {}))
  {
    var d := Stage(db, db.tables.Keys, db.tables.Keys, indexes, {});
    assert IndexLive(server, db, db.indexes[name]);
    assert d.tables == db.tables;
    assert d.indexes[name := db.indexes[name]] == Stage(db, db.tables.Keys, db.tables.Keys, indexes + {name}, {}).indexes;
  }

  lemma ViewStep(server: Server, read: Reads, db: Database, views: set<text>, name: text)
    requires Live(server, db) && name in db.views && name !in views && Needs(db.views, name) <= views
    ensures Apply(server, read, Stage(db, db.tables.Keys, db.tables.Keys, db.indexes.Keys, views), CreateView(db.views[name]))
         == Some(Stage(db, db.tables.Keys, db.tables.Keys, db.indexes.Keys, views + {name}))
  {
    var v := db.views[name];
    var d := Stage(db, db.tables.Keys, db.tables.Keys, db.indexes.Keys, views);
    assert ViewLive(server, db, v);
    forall dep | dep in v.dependsOn ensures dep in d.tables || dep in d.views {
      if dep !in db.tables { assert dep in Needs(db.views, name); }
    }
    assert v.(definition := server.deparse(v.definition)) == v;
    assert d.views[name := v] == Stage(db, db.tables.Keys, db.tables.Keys, db.indexes.Keys, views + {name}).views;
  }

  function TableKey(t: TableSpec): text { t.name }
  function IndexKey(i: IndexSpec): text { i.name }
  function ViewKey(v: ViewSpec): text { v.name }
  function SegmentKey(g: CopySegment): text { g.table }

  lemma {:induction false} RunTables(server: Server, read: Reads, db: Database, ts: seq<TableSpec>)
    requires Distinct(Keys(TableKey, ts))
    requires forall t :: t in ts ==> t.name in db.tables && db.tables[t.name].spec == t
    ensures Run(server, read, EMPTY, CreateTables(ts)) == Some(Stage(db, Elements(Keys(TableKey, ts)), {}, {}, {}))
    decreases |ts|
  {
    if ts != [] {
      var k := |ts| - 1;
      KeysSnoc(TableKey, ts);
      assert CreateTables(ts)[..k] == CreateTables(ts[..k]);
      RunTables(server, read, db, ts[..k]);
      assert ts[k] in ts;
      TableStep(server, read, db, Elements(Keys(TableKey, ts[..k])), ts[k].name);
    }
  }

  lemma {:induction false} RunImports(server: Server, read: Reads, db: Database, gs: seq<CopySegment>)
    requires Distinct(Keys(SegmentKey, gs)) && Live(server, db) && forall g :: g in gs ==> Imported(read, db, g)
    ensures Run(server, read, Stage(db, db.tables.Keys, {}, {}, {}), Imports(gs))
         == Some(Stage(db, db.tables.Keys, Elements(Keys(SegmentKey, gs)), {}, {}))
    decreases |gs|
  {
    if gs != [] {
      var k := |gs| - 1;
      KeysSnoc(SegmentKey, gs);
      assert Imports(gs)[..k] == Imports(gs[..k]);
      RunImports(server, read, db, gs[..k]);
      assert gs[k] in gs;
      assert TableLive(server, db.tables[gs[k].table]);
      ImportStep(server, read, db, Elements(Keys(SegmentKey, gs[..k])), gs[k]);
    } else {
      assert Elements(Keys(SegmentKey, gs)) == {};
    }
  }

  lemma {:induction false} RunIndexes(server: Server, read: Reads, db: Database, ns: seq<IndexSpec>)
    requires Distinct(Keys(IndexKey, ns)) && Live(server, db)
    requires forall i :: i in ns ==> i.name in db.indexes && db.indexes[i.name] == i
    ensures Run(server, read, Stage(db, db.tables.Keys, db.tables.Keys, {}, {}), CreateIndexes(ns))
         == Some(Stage(db, db.tables.Keys, db.tables.Keys, Elements(Keys(IndexKey, ns)), {}))
    decreases |ns|
  {
    if ns != [] {
      var k := |ns| - 1;
      KeysSnoc(IndexKey, ns);
      assert CreateIndexes(ns)[..k] == CreateIndexes(ns[..k]);
      RunIndexes(server, read, db, ns[..k]);
      assert ns[k] in ns;
      IndexStep(server, read, db, Elements(Keys(IndexKey, ns[..k])), ns[k].name);
    }
  }

  lemma DependenciesFirstSnoc(g: Catalog, vs: seq<ViewSpec>)
    requires vs != [] && DependenciesFirst(g, vs)
    ensures var k := |vs| - 1; DependenciesFirst(g, vs[..k]) && vs[k].name in g && Needs(g, vs[k].name) <= Names(vs[..k])
  {
    var k := |vs| - 1;
    forall i, d | 0 <= i < k && DependsOn(g, vs[..k][i].name, d) ensures Earlier(vs[..k], i, d) {
      var j :| 0 <= j < i && vs[j].name == d;
      assert vs[..k][j].name == d;
    }
    FirstIs(g, vs, vs[k].name, k);
  }

  lemma {:induction false} RunViews(server: Server, read: Reads, db: Database, vs: seq<ViewSpec>)
    requires Distinct(Keys(ViewKey, vs)) && Live(server, db)
    requires (forall v :: v in vs ==> v.name in db.views && db.views[v.name] == v) && DependenciesFirst(db.views, vs)
    ensures Run(server, read, Stage(db, db.tables.Keys, db.tables.Keys, db.indexes.Keys, {}), CreateViews(vs))
         == Some(Stage(db, db.tables.Keys, db.tables.Keys, db.indexes.Keys, Elements(Keys(ViewKey, vs))))
    decreases |vs|
  {
    if vs != [] {
      var k := |vs| - 1;
      KeysSnoc(ViewKey, vs);
      assert CreateViews(vs)[..k] == CreateViews(vs[..k]);
      DependenciesFirstSnoc(db.views, vs);
      RunViews(server, read, db, vs[..k]);
      assert vs[k] in vs;
      NamesAreKeys(vs[..k]);
      ViewStep(server, read, db, Elements(Keys(ViewKey, vs[..k])), vs[k].name);
    }
  }

  lemma NamesAreKeys(vs: seq<ViewSpec>)
    ensures Names(vs) == Elements(Keys(ViewKey, vs))
  {
    forall n ensures n in Names(vs) <==> n in Elements(Keys(ViewKey, vs)) {
      if n in Names(vs) {
        var v :| v in vs && v.name == n;
        var i :| 0 <= i < |vs| && vs[i] == v;
        assert Keys(ViewKey, vs)[i] == n;
      }
      if n in Elements(Keys(ViewKey, vs)) {
        var i :| 0 <= i < |vs| && Keys(ViewKey, vs)[i] == n;
        assert vs[i] in vs;
      }
    }
  }

  // The order of the statements

  /** The statements of a rebuild: tables by name, segments as recorded, indexes by name, views
      behind what they need. */
  ghost function Script(s: DatabaseSchema): Option<seq<Stmt>> {
    match Order(ByName(s.views))
    case Err(_) => None
    case Ok(vs) => Some(CreateTables(Arranged(TableKey, s.tables)) + Imports(s.segments)
                        + CreateIndexes(Arranged(IndexKey, s.indexes)) + CreateViews(vs))
  }

  lemma TableKeysOf(s: DatabaseSchema, db: Database)
    requires Snapshot(s, db) && forall n :: n in db.tables ==> db.tables[n].spec.name == n
    ensures Elements(Keys(TableKey, s.tables)) == db.tables.Keys
  {
    forall n ensures n in Elements(Keys(TableKey, s.tables)) <==> n in db.tables {
      if n in db.tables {
        assert db.tables[n].spec in s.tables;
        var i :| 0 <= i < |s.tables| && s.tables[i] == db.tables[n].spec;
        assert Keys(TableKey, s.tables)[i] == n;
      }
      if n in Elements(Keys(TableKey, s.tables)) { assert Keyed(TableKey, s.tables, n) in s.tables; }
    }
  }

  lemma IndexKeysOf(s: DatabaseSchema, db: Database)
    requires Snapshot(s, db) && forall n :: n in db.indexes ==> db.indexes[n].name == n
    ensures Elements(Keys(IndexKey, s.indexes)) == db.indexes.Keys
  {
    forall n ensures n in Elements(Keys(IndexKey, s.indexes)) <==> n in db.indexes {
      if n in db.indexes {
        assert db.indexes[n] in s.indexes;
        var i :| 0 <= i < |s.indexes| && s.indexes[i] == db.indexes[n];
        assert Keys(IndexKey, s.indexes)[i] == n;
      }
      if n in Elements(Keys(IndexKey, s.indexes)) { assert Keyed(IndexKey, s.indexes, n) in s.indexes; }
    }
  }

  lemma CatalogOf(s: DatabaseSchema, db: Database)
    requires Snapshot(s, db) && OneEach(s.views) && forall n :: n in db.views ==> db.views[n].name == n
    ensures ByName(s.views) == db.views
  {
    forall n ensures n in ByName(s.views) <==> n in db.views {
      if n in db.views { assert db.views[n] in s.views; }
      if n in ByName(s.views) { assert ByName(s.views)[n] in s.views; }
    }
    forall n | n in db.views ensures ByName(s.views)[n] == db.views[n] {
      assert db.views[n] in s.views;
      ByNameHolds(s.views, db.views[n]);
    }
  }

  /** A view order exists, lists every view once and puts it behind what it needs. */
  lemma ViewsInOrder(s: DatabaseSchema, db: Database)
    requires Snapshot(s, db) && OneEach(s.views) && (forall n :: n in db.views ==> db.views[n].name == n)
    requires forall c :: !Cycle(db.views, c)
    ensures Order(ByName(s.views)).Ok?
    ensures var vs := Order(ByName(s.views)).value;
            && DependenciesFirst(db.views, vs) && Distinct(Keys(ViewKey, vs)) && Elements(Keys(ViewKey, vs)) == db.views.Keys
            && forall v :: v in vs ==> v.name in db.views && db.views[v.name] == v
  {
    CatalogOf(s, db);
    OrderMeaning(db.views);
    var vs := Order(db.views).value;
    DistinctNames(db.views, vs, db.views.Keys);
    NamesAreKeys(vs);
    forall v | v in vs ensures v.name in db.views { assert v.name in Names(vs); }
  }

  lemma RunThrough(server: Server, read: Reads, a: seq<Stmt>, b: seq<Stmt>, c: seq<Stmt>, d: seq<Stmt>,
                   d1: Database, d2: Database, d3: Database, d4: Database)
    requires Run(server, read, EMPTY, a) == Some(d1) && Run(server, read, d1, b) == Some(d2)
    requires Run(server, read, d2, c) == Some(d3) && Run(server, read, d3, d) == Some(d4)
    ensures Run(server, read, EMPTY, a + b + c + d) == Some(d4)
  {
    RunConcat(server, read, EMPTY, a, b);
    RunConcat(server, read, EMPTY, a + b, c);
    RunConcat(server, read, EMPTY, a + b + c, d);
  }

  /** One segment per table of the database, each reading as the table's rows. */
  ghost predicate SegmentsHold(read: Reads, db: Database, gs: seq<CopySegment>) {
    && Distinct(Keys(SegmentKey, gs)) && Elements(Keys(SegmentKey, gs)) == db.tables.Keys
    && forall g :: g in gs ==> Imported(read, db, g)
  }

  /** Rebuilding a snapshot of a live database, from segments that read as its rows, succeeds at
      every statement and ends in that database: tables, rows in order, indexes and views. */
  lemma RebuildGivesBack(server: Server, read: Reads, db: Database, s: DatabaseSchema)
    requires Live(server, db) && Snapshot(s, db) && OneEach(s.views) && SegmentsHold(read, db, s.segments)
    ensures Script(s).Some? && Run(server, read, EMPTY, Script(s).value) == Some(db)
  {
    TableKeysOf(s, db);
    IndexKeysOf(s, db);
    ViewsInOrder(s, db);
    var vs := Order(ByName(s.views)).value;
    var ts, ns := Arranged(TableKey, s.tables), Arranged(IndexKey, s.indexes);
    ArrangedApart(TableKey, s.tables);
    ArrangedApart(IndexKey, s.indexes);
    var ks := db.tables.Keys;
    RunTables(server, read, db, ts);
    RunImports(server, read, db, s.segments);
    RunIndexes(server, read, db, ns);
    RunViews(server, read, db, vs);
    StageEnds(db);
    RunThrough(server, read, CreateTables(ts), Imports(s.segments), CreateIndexes(ns), CreateViews(vs),
               Stage(db, ks, {}, {}, {}), Stage(db, ks, ks, {}, {}), Stage(db, ks, ks, db.indexes.Keys, {}), db);
  }

  lemma StageEnds(db: Database)
    ensures Stage(db, db.tables.Keys, db.tables.Keys, db.indexes.Keys, db.views.Keys) == db
  {
  }
}
