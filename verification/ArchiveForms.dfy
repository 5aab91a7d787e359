/** Export and restore end to end: which databases come back, and two that do not. */
module ArchiveForms {
  import opened Results
  import opened Bytes
  import opened Text
  import opened Codec
  import opened CopySegments
  import opened CopyWriter
  import opened SqlLexer
  import opened SqlFragment
  import opened SchemaTypes
  import opened SchemaContract
  import opened SchemaBytes
  import opened SchemaLoads
  import opened SchemaForms
  import opened NativeDatabase
  import opened NativeRebuild
  import opened NativeArchive

  /** The strings a database is made of are in NFC, and the recorded migration files stay apart in it. */
  ghost predicate Restorable(nfc: text -> text, s: DatabaseSchema) {
    && (forall t, c :: t in s.tables && c in t.columns ==> ComposedColumn(nfc, c) == c)
    && (forall v :: v in s.views ==> nfc(v.definition) == v.definition)
    && (forall i :: i in s.indexes ==> MapText(nfc, i.where) == i.where)
    && Distinct(MigrationFiles(Composed(nfc, s)))
  }

  lemma RestorableIsKept(nfc: text -> text, s: DatabaseSchema)
    requires Restorable(nfc, s)
    ensures Composed(nfc, s) == s.(migrations := Composed(nfc, s).migrations)
  {
    var c := Composed(nfc, s);
    forall i | 0 <= i < |s.tables| ensures c.tables[i] == s.tables[i] {
      assert s.tables[i] in s.tables;
      assert ComposedTable(nfc, s.tables[i]).columns == s.tables[i].columns;
    }
    forall i | 0 <= i < |s.views| ensures c.views[i] == s.views[i] { assert s.views[i] in s.views; }
    forall i | 0 <= i < |s.indexes| ensures c.indexes[i] == s.indexes[i] { assert s.indexes[i] in s.indexes; }
    assert c.tables == s.tables && c.views == s.views && c.indexes == s.indexes;
  }

  /** A schema with other migrations, files apart, passes every check as well. */
  lemma OtherMigrations(rules: Rules, s: DatabaseSchema, ms: seq<MigrationSpec>)
    requires Made(rules, s) && (forall m :: m in ms ==> MigrationOk(m)) && Distinct(MigrationFiles(s.(migrations := ms)))
    ensures Made(rules, s.(migrations := ms))
  {
    var t := s.(migrations := ms);
    assert TableNames(t) == TableNames(s) && ViewNames(t) == ViewNames(s) && IndexNames(t) == IndexNames(s);
    assert SegmentTables(t) == SegmentTables(s);
    forall i | i in t.indexes ensures IndexFits(t, i) { assert IndexFits(s, i); }
    forall g | g in t.segments ensures ColumnsOf(t, g.table, g.columns) { assert ColumnsOf(s, g.table, g.columns); }
    CapturedIsFixed(rules, t);
  }

  lemma RestorableLoads(nfc: text -> text, rules: Rules, s: DatabaseSchema)
    requires Nfc(nfc) && Made(rules, s) && Restorable(nfc, s)
    ensures Made(rules, Composed(nfc, s))
  {
    RestorableIsKept(nfc, s);
    var ms := Composed(nfc, s).migrations;
    forall m | m in ms ensures MigrationOk(m) {
      var i :| 0 <= i < |ms| && ms[i] == m;
      assert s.migrations[i] in s.migrations;
    }
    OtherMigrations(rules, s, ms);
  }

  lemma TableCameBack(server: Server, s: DatabaseSchema, db: Database, t: TableSpec, u: TableSpec)
    requires Live(server, db) && Snapshot(s, db) && t in s.tables && t.name == u.name
    requires u in TableSpecs(db)
    ensures t == u
  {
    var n :| n in db.tables && db.tables[n].spec == u;
  }

  lemma ViewCameBack(server: Server, s: DatabaseSchema, db: Database, v: ViewSpec, u: ViewSpec)
    requires Live(server, db) && Snapshot(s, db) && v in s.views && v.name == u.name
    requires u in db.views.Values
    ensures v == u
  {
    var n :| n in db.views && db.views[n] == u;
  }

  lemma IndexCameBack(server: Server, s: DatabaseSchema, db: Database, i: IndexSpec, u: IndexSpec)
    requires Live(server, db) && Snapshot(s, db) && i in s.indexes && i.name == u.name
    requires u in db.indexes.Values
    ensures i == u
  {
    var n :| n in db.indexes && db.indexes[n] == u;
  }

  /** A text that comes back behind its normal form and a trim was its own normal form. */
  lemma TrimmedBack(nfc: text -> text, tables: Unicode, t: text)
    requires Nfc(nfc) && NfcFronts(nfc) && Trim(tables, nfc(t)) == t
    ensures nfc(t) == t
  {
    TrimIsFront(tables, nfc(t));
    assert nfc(t)[..|t|] == t;
  }

  lemma TablesCameBack(nfc: text -> text, server: Server, s: DatabaseSchema, db: Database)
    requires Live(server, db) && Snapshot(s, db)
    requires forall t :: t in Composed(nfc, s).tables ==> t in TableSpecs(db)
    ensures forall t, c :: t in s.tables && c in t.columns ==> ComposedColumn(nfc, c) == c
  {
    forall t, c | t in s.tables && c in t.columns ensures ComposedColumn(nfc, c) == c {
      var i :| 0 <= i < |s.tables| && s.tables[i] == t;
      var u := Composed(nfc, s).tables[i];
      assert u in Composed(nfc, s).tables;
      TableCameBack(server, s, db, t, u);
      var j :| 0 <= j < |t.columns| && t.columns[j] == c;
      assert u.columns[j] == ComposedColumn(nfc, c);
    }
  }

  /** The captured form of a predicate: the end cut off. */
  function Cut(tables: Unicode, where: Option<text>): Option<text> {
    match where case None => None case Some(p) => Some(Trim(tables, p))
  }

  /** `l` is what construction makes of the composed schema. */
  ghost predicate Reread(nfc: text -> text, tables: Unicode, s: DatabaseSchema, l: DatabaseSchema) {
    && l.tables == Composed(nfc, s).tables && l.migrations == Composed(nfc, s).migrations
    && Distinct(MigrationFiles(l)) && |l.views| == |s.views| && |l.indexes| == |s.indexes|
    && (forall i :: 0 <= i < |l.views| ==>
          l.views[i] == s.views[i].(definition := Trim(tables, nfc(s.views[i].definition))))
    && (forall i :: 0 <= i < |l.indexes| ==>
          l.indexes[i] == s.indexes[i].(where := Cut(tables, MapText(nfc, s.indexes[i].where))))
  }

  lemma ViewIsCut(rules: Rules, v: ViewSpec)
    requires MakeView(rules, v).Some?
    ensures MakeView(rules, v).value == v.(definition := Trim(rules.tables, v.definition))
  {
  }

  lemma IndexIsCut(rules: Rules, i: IndexSpec)
    requires MakeIndex(rules, i).Some?
    ensures MakeIndex(rules, i).value == i.(where := Cut(rules.tables, i.where))
  {
  }

  lemma LoadedIsReread(nfc: text -> text, rules: Rules, s: DatabaseSchema, l: DatabaseSchema)
    requires MakeSchema(rules, Composed(nfc, s)) == Some(l)
    ensures Reread(nfc, rules.tables, s, l)
  {
    var c := Composed(nfc, s);
    forall i | 0 <= i < |l.views|
      ensures l.views[i] == s.views[i].(definition := Trim(rules.tables, nfc(s.views[i].definition)))
    {
      assert c.views[i] in c.views;
      ViewIsCut(rules, c.views[i]);
    }
    forall i | 0 <= i < |l.indexes|
      ensures l.indexes[i] == s.indexes[i].(where := Cut(rules.tables, MapText(nfc, s.indexes[i].where)))
    {
      assert c.indexes[i] in c.indexes;
      IndexIsCut(rules, c.indexes[i]);
    }
  }

  lemma ViewsCameBack(nfc: text -> text, tables: Unicode, server: Server, s: DatabaseSchema, l: DatabaseSchema, db: Database)
    requires Nfc(nfc) && NfcFronts(nfc) && Reread(nfc, tables, s, l) && Live(server, db) && Snapshot(s, db)
    requires forall v :: v in l.views ==> v in db.views.Values
    ensures forall v :: v in s.views ==> nfc(v.definition) == v.definition
  {
    forall v | v in s.views ensures nfc(v.definition) == v.definition {
      var i :| 0 <= i < |s.views| && s.views[i] == v;
      assert l.views[i] in l.views;
      ViewCameBack(server, s, db, v, l.views[i]);
      TrimmedBack(nfc, tables, v.definition);
    }
  }

  lemma IndexesCameBack(nfc: text -> text, tables: Unicode, server: Server, s: DatabaseSchema, l: DatabaseSchema, db: Database)
    requires Nfc(nfc) && NfcFronts(nfc) && Reread(nfc, tables, s, l) && Live(server, db) && Snapshot(s, db)
    requires forall i :: i in l.indexes ==> i in db.indexes.Values
    ensures forall i :: i in s.indexes ==> MapText(nfc, i.where) == i.where
  {
    forall x | x in s.indexes ensures MapText(nfc, x.where) == x.where {
      var i :| 0 <= i < |s.indexes| && s.indexes[i] == x;
      assert l.indexes[i] in l.indexes;
      IndexCameBack(server, s, db, x, l.indexes[i]);
      if x.where.Some? { TrimmedBack(nfc, tables, x.where.value); }
    }
  }

  lemma VerifiedHolds(l: DatabaseSchema, db: Database)
    requires Verified(l, db)
    ensures forall t :: t in l.tables ==> t in TableSpecs(db)
    ensures forall v :: v in l.views ==> v in db.views.Values
    ensures forall i :: i in l.indexes ==> i in db.indexes.Values
  {
    forall t | t in l.tables ensures t in TableSpecs(db) { assert t in Expected(l.tables); }
    forall v | v in l.views ensures v in db.views.Values { assert v in Expected(l.views); }
    forall i | i in l.indexes ensures i in db.indexes.Values { assert i in Expected(l.indexes); }
  }

  lemma CameBackOnlyIf(nfc: text -> text, tables: Unicode, server: Server, s: DatabaseSchema, l: DatabaseSchema, db: Database)
    requires Nfc(nfc) && NfcFronts(nfc) && Reread(nfc, tables, s, l) && Live(server, db) && Snapshot(s, db) && Verified(l, db)
    ensures Restorable(nfc, s)
  {
    VerifiedHolds(l, db);
    TablesCameBack(nfc, server, s, db);
    ViewsCameBack(nfc, tables, server, s, l, db);
    IndexesCameBack(nfc, tables, server, s, l, db);
    assert MigrationFiles(l) == MigrationFiles(Composed(nfc, s));
  }

  /** The schema loads, and rebuilding it gives the database back. */
  ghost predicate ComesBack(server: Server, read: Reads, loaded: Option<DatabaseSchema>, db: Database) {
    loaded.Some? && Rebuilt(server, read, loaded.value) == Some(db)
  }

  lemma RebuildIgnoresMigrations(server: Server, read: Reads, s: DatabaseSchema, ms: seq<MigrationSpec>)
    ensures Rebuilt(server, read, s.(migrations := ms)) == Rebuilt(server, read, s)
    ensures EveryTableExported(s.(migrations := ms)) == EveryTableExported(s)
  {
    var t := s.(migrations := ms);
    assert TableNames(t) == TableNames(s) && SegmentTables(t) == SegmentTables(s);
    assert Script(t) == Script(s);
  }

  lemma RebuiltIsVerified(server: Server, read: Reads, l: DatabaseSchema, db: Database)
    requires Rebuilt(server, read, l) == Some(db)
    ensures Verified(l, db)
  {
  }

  /** The archive that a restorable schema leaves gives what the schema itself would. */
  lemma RestorableComesBack(
    nfc: text -> text, rules: Rules, server: Server, read: Reads, s: DatabaseSchema, l: Option<DatabaseSchema>, db: Database)
    requires Nfc(nfc) && Made(rules, s) && Restorable(nfc, s) && l == MakeSchema(rules, Composed(nfc, s))
    requires EveryTableExported(s) && Rebuilt(server, read, s) == Some(db)
    ensures l.Some? && EveryTableExported(l.value) && Rebuilt(server, read, l.value) == Some(db)
  {
    RestorableLoads(nfc, rules, s);
    RestorableIsKept(nfc, s);
    RebuildIgnoresMigrations(server, read, s, Composed(nfc, s).migrations);
  }

  /** And only such an archive does. */
  lemma OnlyRestorableComesBack(
    nfc: text -> text, rules: Rules, server: Server, read: Reads, s: DatabaseSchema, l: DatabaseSchema, db: Database)
    requires Nfc(nfc) && NfcFronts(nfc) && MakeSchema(rules, Composed(nfc, s)) == Some(l)
    requires Live(server, db) && Snapshot(s, db) && Rebuilt(server, read, l) == Some(db)
    ensures Restorable(nfc, s)
  {
    RebuiltIsVerified(server, read, l, db);
    LoadedIsReread(nfc, rules, s, l);
    CameBackOnlyIf(nfc, rules.tables, server, s, l, db);
  }

  lemma ComesBackIff(
    nfc: text -> text, rules: Rules, server: Server, read: Reads, s: DatabaseSchema, loaded: Option<DatabaseSchema>, db: Database)
    requires Nfc(nfc) && NfcFronts(nfc) && Made(rules, s) && Live(server, db) && Snapshot(s, db)
    requires EveryTableExported(s) && Rebuilt(server, read, s) == Some(db)
    requires var made := MakeSchema(rules, Composed(nfc, s));
             loaded == if made.Some? && EveryTableExported(made.value) then made else None
    ensures ComesBack(server, read, loaded, db) <==> Restorable(nfc, s)
  {
    if Restorable(nfc, s) { RestorableComesBack(nfc, rules, server, read, s, MakeSchema(rules, Composed(nfc, s)), db); }
    if ComesBack(server, read, loaded, db) { OnlyRestorableComesBack(nfc, rules, server, read, s, loaded.value, db); }
  }

  /** End to end: when an export of a live database has succeeded, restoring its `schema.json` and
      `data.copy` gives exactly that database if and only if the strings the database is made of are in
      NFC and the migration files stay apart; the schema itself comes back if and only if every string
      of it is in NFC. */
  lemma EndToEnd<C(!new), D(!new)>(
    nfc: text -> text, rules: Rules, z: Zlib<C, D>, sha: bytes -> text, server: Server, db: Database,
    raw: DatabaseSchema, s: DatabaseSchema, outs: seq<TableStream>, streams: seq<bytes>, payload: bytes)
    requires Nfc(nfc) && NfcFronts(nfc) && TableLaw(rules.tables) && Live(server, db)
    requires MakeSchema(rules, raw) == Some(s) && Snapshot(s, db) && Exported(z, sha, db, s, outs, streams)
    requires ToCanonicalBytes(nfc, s) == Ok(payload)
    ensures FromArchiveBytes(nfc, rules, payload) == Some(s) <==> Storable(nfc, s)
    ensures var file := Concat(streams);
            var read := ReadOf(z, sha, file, |file|, DEFAULT_MAX_RATIO);
            ComesBack(server, read, FromArchiveBytes(nfc, rules, payload), db) <==> Restorable(nfc, s)
  {
    var read := ReadOf(z, sha, Concat(streams), |Concat(streams)|, DEFAULT_MAX_RATIO);
    ConstructionIsIdempotent(rules, raw);
    RoundTripIffStorable(nfc, rules, raw);
    ExportRebuilds(z, sha, server, db, s, outs, streams);
    LoadsComposed(nfc, rules, s, payload);
    ComesBackIff(nfc, rules, server, read, s, FromArchiveBytes(nfc, rules, payload), db);
  }
}
