/** Which schemas are constructed, stated without the checks that construct them. */
module SchemaMeaning {
  import opened Results
  import opened Text
  import opened Json
  import opened CopySegments
  import opened SqlLexer
  import opened SqlMeaning
  import opened SchemaTypes
  import opened SchemaContract
  import opened SchemaAccepts

  /** Sixty-four digits as hexadecimal digests are written. */
  predicate PlainDigest(t: text) {
    |t| == 64 && forall i :: 0 <= i < |t| ==> 48 <= t[i] <= 57 || 97 <= t[i] <= 102
  }

  predicate PlainMigration(m: MigrationSpec) {
    |m.file| > 0 && |m.applied| > 0 && (m.sha.Some? ==> PlainDigest(m.sha.value))
  }

  predicate PlainSegment(g: CopySegment) {
    && PlainName(g.table) && g.columns != [] && PlainNames(g.columns)
    && PlainDigest(g.compressedSha) && PlainDigest(g.uncompressedSha)
  }

  lemma MigrationIsPlain(m: MigrationSpec)
    ensures MigrationOk(m) <==> PlainMigration(m)
  {
  }

  lemma SegmentIsPlain(g: CopySegment)
    ensures SegmentOk(g) <==> PlainSegment(g)
  {
    NameIsPlain(g.table);
    ListIsPlain(g.columns);
    assert (forall i :: 0 <= i < |g.columns| ==> IsIdentifier(g.columns[i])) <==> (forall n :: n in g.columns ==> IsIdentifier(n));
  }

  ghost predicate IsTable(s: DatabaseSchema, name: text) { exists i :: 0 <= i < |s.tables| && s.tables[i].name == name }

  ghost predicate IsView(s: DatabaseSchema, name: text) { exists i :: 0 <= i < |s.views| && s.views[i].name == name }

  /** No two of the same name. */
  ghost predicate NamedApart(s: DatabaseSchema) {
    && (forall i, j :: 0 <= i < j < |s.tables| ==> s.tables[i].name != s.tables[j].name)
    && (forall i, j :: 0 <= i < j < |s.views| ==> s.views[i].name != s.views[j].name)
    && (forall i, j :: 0 <= i < j < |s.indexes| ==> s.indexes[i].name != s.indexes[j].name)
    && (forall i, j :: 0 <= i < j < |s.migrations| ==> s.migrations[i].file != s.migrations[j].file)
    && (forall i, j :: 0 <= i < j < |s.segments| ==> s.segments[i].table != s.segments[j].table)
  }

  lemma NamedApartIs(s: DatabaseSchema)
    ensures NamedApart(s) <==>
            && Distinct(TableNames(s)) && Distinct(ViewNames(s)) && Distinct(IndexNames(s))
            && Distinct(MigrationFiles(s)) && Distinct(SegmentTables(s))
  {
    assert forall i :: 0 <= i < |s.views| ==> ViewNames(s)[i] == s.views[i].name;
    assert forall i :: 0 <= i < |s.indexes| ==> IndexNames(s)[i] == s.indexes[i].name;
    assert forall i :: 0 <= i < |s.migrations| ==> MigrationFiles(s)[i] == s.migrations[i].file;
  }

  /** The index is on columns of the table `t`. */
  ghost predicate Indexes(t: TableSpec, i: IndexSpec) {
    && t.name == i.table && (forall k :: 0 <= k < |i.keys| ==> HasColumn(t, i.keys[k].column))
    && forall k :: 0 <= k < |i.included| ==> HasColumn(t, i.included[k])
  }

  /** The segment has the columns of the table `t`, in their order. */
  ghost predicate CopiesTable(t: TableSpec, g: CopySegment) {
    && t.name == g.table && |g.columns| == |t.columns|
    && forall k :: 0 <= k < |g.columns| ==> g.columns[k] == t.columns[k].name
  }

  ghost predicate SomeIndexed(s: DatabaseSchema, i: IndexSpec) { exists t :: t in s.tables && Indexes(t, i) }

  ghost predicate SomeCopied(s: DatabaseSchema, g: CopySegment) { exists t :: t in s.tables && CopiesTable(t, g) }

  lemma NameListed(s: DatabaseSchema, name: text)
    ensures name in TableNames(s) <==> IsTable(s, name)
    ensures name in ViewNames(s) <==> IsView(s, name)
  {
    if IsTable(s, name) {
      var i :| 0 <= i < |s.tables| && s.tables[i].name == name;
      assert TableNames(s)[i] == name;
    }
    if IsView(s, name) {
      var i :| 0 <= i < |s.views| && s.views[i].name == name;
      assert ViewNames(s)[i] == name;
    }
    assert forall i :: 0 <= i < |s.views| ==> ViewNames(s)[i] == s.views[i].name;
  }

  lemma ColumnListed(t: TableSpec, name: text)
    ensures name in t.ColumnNames() <==> HasColumn(t, name)
  {
    WithinIsAllColumns(t, [name]);
    assert name in [name] && [name][0] == name;
  }

  lemma IndexedIs(s: DatabaseSchema, i: IndexSpec)
    ensures IndexFits(s, i) <==> SomeIndexed(s, i)
  {
    forall t | t in s.tables
      ensures (t.name == i.table && Within(i.included, t.ColumnNames()) && forall k :: k in i.keys ==> k.column in t.ColumnNames())
              <==> Indexes(t, i)
    {
      WithinIsAllColumns(t, i.included);
      KeysListed(t, i.keys);
    }
  }

  lemma KeysListed(t: TableSpec, keys: seq<IndexKeySpec>)
    ensures (forall k :: k in keys ==> k.column in t.ColumnNames()) <==>
            (forall k :: 0 <= k < |keys| ==> HasColumn(t, keys[k].column))
  {
    forall k | k in keys ensures k.column in t.ColumnNames() <==> HasColumn(t, k.column) { ColumnListed(t, k.column); }
    forall i | 0 <= i < |keys| ensures keys[i] in keys {}
  }

  lemma CopiedIs(s: DatabaseSchema, g: CopySegment)
    ensures ColumnsOf(s, g.table, g.columns) <==> SomeCopied(s, g)
  {
    forall t | t in s.tables ensures (t.name == g.table && t.ColumnNames() == g.columns) <==> CopiesTable(t, g) {
      if CopiesTable(t, g) { assert t.ColumnNames() == g.columns; }
    }
  }

  /** The parts refer to one another as they must, and the segments tile the data within the ratio and
      the 64 GiB that an archive may unpack to. */
  ghost predicate Coherent(s: DatabaseSchema) {
    && (s.contractVersion == Int(1) || s.contractVersion == Bool(true))
    && (s.systemSchemaVersion == Int(1) || s.systemSchemaVersion == Bool(true))
    && NamedApart(s)
    && (forall v, d :: v in s.views && d in v.dependsOn ==> IsTable(s, d) || IsView(s, d))
    && (forall i :: i in s.indexes ==> SomeIndexed(s, i))
    && Tiles(s.segments, 0, s.dataCopySize) && TotalPlain(s.segments) <= 68719476736
    && (forall g :: g in s.segments ==> g.uncompressedSize <= g.compressedSize * 200)
    && forall g :: g in s.segments ==> SomeCopied(s, g)
  }

  lemma CoherentIs(s: DatabaseSchema)
    ensures SchemaOk(s) <==> Coherent(s)
  {
    NamedApartIs(s);
    forall v, d | v in s.views && d in v.dependsOn
      ensures d in TableNames(s) || d in ViewNames(s) <==> IsTable(s, d) || IsView(s, d) { NameListed(s, d); }
    forall i | i in s.indexes ensures IndexFits(s, i) <==> SomeIndexed(s, i) { IndexedIs(s, i); }
    forall g | g in s.segments ensures ColumnsOf(s, g.table, g.columns) <==> SomeCopied(s, g) { CopiedIs(s, g); }
  }

  ghost predicate PlainParts(tables: Unicode, s: DatabaseSchema) {
    && (forall t :: t in s.tables ==> PlainTable(tables, t))
    && (forall m :: m in s.migrations ==> PlainMigration(m))
    && forall g :: g in s.segments ==> PlainSegment(g)
  }

  /** The view as given, with its definition cut as the check cuts it. */
  ghost predicate ViewBecomes(rules: Rules, v: ViewSpec, made: ViewSpec) {
    && PlainName(v.name) && PlainNames(v.dependsOn) && made == v.(definition := made.definition)
    && Passes(rules.tables, rules.words, v.definition, true, made.definition)
  }

  ghost predicate IndexBecomes(rules: Rules, i: IndexSpec, made: IndexSpec) {
    PlainIndex(i) && made == i.(where := made.where) && Captures(rules, i.where, made.where)
  }

  ghost predicate Becomes(rules: Rules, raw: DatabaseSchema, s: DatabaseSchema) {
    && s == raw.(views := s.views, indexes := s.indexes)
    && |s.views| == |raw.views| && (forall i :: 0 <= i < |s.views| ==> ViewBecomes(rules, raw.views[i], s.views[i]))
    && |s.indexes| == |raw.indexes| && forall i :: 0 <= i < |s.indexes| ==> IndexBecomes(rules, raw.indexes[i], s.indexes[i])
  }

  ghost predicate PartsOk(rules: Rules, raw: DatabaseSchema) {
    && (forall t :: t in raw.tables ==> TableOk(rules.tables, t))
    && (forall m :: m in raw.migrations ==> MigrationOk(m)) && forall g :: g in raw.segments ==> SegmentOk(g)
  }

  ghost predicate Makes(rules: Rules, raw: DatabaseSchema, s: DatabaseSchema) {
    && s == raw.(views := s.views, indexes := s.indexes)
    && |s.views| == |raw.views| && (forall i :: 0 <= i < |s.views| ==> MakeView(rules, raw.views[i]) == Some(s.views[i]))
    && |s.indexes| == |raw.indexes| && forall i :: 0 <= i < |s.indexes| ==> MakeIndex(rules, raw.indexes[i]) == Some(s.indexes[i])
  }

  lemma MadeMakes(rules: Rules, raw: DatabaseSchema, s: DatabaseSchema)
    requires MakeSchema(rules, raw) == Some(s)
    ensures PartsOk(rules, raw) && Makes(rules, raw, s) && SchemaOk(s)
  {
    forall i | 0 <= i < |raw.views| ensures MakeView(rules, raw.views[i]).Some? { assert raw.views[i] in raw.views; }
    forall i | 0 <= i < |raw.indexes| ensures MakeIndex(rules, raw.indexes[i]).Some? { assert raw.indexes[i] in raw.indexes; }
  }

  lemma MakesMade(rules: Rules, raw: DatabaseSchema, s: DatabaseSchema)
    requires PartsOk(rules, raw) && Makes(rules, raw, s) && SchemaOk(s)
    ensures MakeSchema(rules, raw) == Some(s)
  {
    var made := MakeSchema(rules, raw);
    forall v | v in raw.views ensures MakeView(rules, v).Some? { var i :| 0 <= i < |raw.views| && raw.views[i] == v; }
    forall x | x in raw.indexes ensures MakeIndex(rules, x).Some? { var i :| 0 <= i < |raw.indexes| && raw.indexes[i] == x; }
    var views := seq(|raw.views|, i requires 0 <= i < |raw.views| => (assert raw.views[i] in raw.views; MakeView(rules, raw.views[i]).value));
    var indexes := seq(|raw.indexes|, i requires 0 <= i < |raw.indexes| => (assert raw.indexes[i] in raw.indexes; MakeIndex(rules, raw.indexes[i]).value));
    assert views == s.views && indexes == s.indexes;
    assert raw.(views := views, indexes := indexes) == s;
  }

  /** A schema is constructed exactly when every part is plain, the parts fit together, every view passes
      as a query and every predicate as an expression; and it differs from what was given only in the cut
      ends of those texts. */
  lemma SchemaMeans(rules: Rules, raw: DatabaseSchema, s: DatabaseSchema)
    requires TableLaw(rules.tables)
    ensures MakeSchema(rules, raw) == Some(s) <==> PlainParts(rules.tables, raw) && Becomes(rules, raw, s) && Coherent(s)
  {
    PartsMean(rules, raw);
    BecomesIs(rules, raw, s);
    CoherentIs(s);
    if MakeSchema(rules, raw) == Some(s) { MadeMakes(rules, raw, s); }
    if PartsOk(rules, raw) && Makes(rules, raw, s) && SchemaOk(s) { MakesMade(rules, raw, s); }
  }

  lemma PartsMean(rules: Rules, raw: DatabaseSchema)
    ensures PartsOk(rules, raw) <==> PlainParts(rules.tables, raw)
  {
    forall t | t in raw.tables ensures TableOk(rules.tables, t) <==> PlainTable(rules.tables, t) { TableMeans(rules.tables, t); }
    forall m | m in raw.migrations ensures MigrationOk(m) <==> PlainMigration(m) { MigrationIsPlain(m); }
    forall g | g in raw.segments ensures SegmentOk(g) <==> PlainSegment(g) { SegmentIsPlain(g); }
  }

  lemma BecomesIs(rules: Rules, raw: DatabaseSchema, s: DatabaseSchema)
    requires TableLaw(rules.tables)
    ensures Makes(rules, raw, s) <==> Becomes(rules, raw, s)
  {
    if |s.views| == |raw.views| {
      forall i | 0 <= i < |s.views|
        ensures MakeView(rules, raw.views[i]) == Some(s.views[i]) <==> ViewBecomes(rules, raw.views[i], s.views[i])
      {
        ViewMeans(rules, raw.views[i], s.views[i]);
      }
    }
    if |s.indexes| == |raw.indexes| {
      forall i | 0 <= i < |s.indexes|
        ensures MakeIndex(rules, raw.indexes[i]) == Some(s.indexes[i]) <==> IndexBecomes(rules, raw.indexes[i], s.indexes[i])
      {
        IndexMeans(rules, raw.indexes[i], s.indexes[i]);
      }
    }
  }
}
