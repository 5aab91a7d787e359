/** Which JSON values load, and as which parts of a schema. */
module SchemaReads {
  import opened Results
  import opened Text
  import opened Json
  import opened JsonRecords
  import opened CopySegments
  import opened SchemaTypes
  import opened SchemaJson
  import opened SchemaDictionary

  lemma ValuesIsRecord(v: Value, keys: seq<string>, f: seq<Value>)
    requires |f| == |keys| && Distinct(keys)
    ensures Values(v, keys) == Some(f) <==> v == Record(keys, f)
  {
    RecordReads(keys, f);
    if Values(v, keys) == Some(f) {
      forall t | t in KeySet(keys) ensures v.fields[t] == Record(keys, f).fields[t] {
        var i := Place(keys, t);
        assert f[i] == v.fields[Txt(keys[i])];
      }
      assert v.fields == Record(keys, f).fields;
    }
  }

  lemma {:induction false} SubsetOfSameSize(a: set<text>, b: set<text>)
    requires a <= b && |a| == |b|
    ensures a == b
  {
    if x :| x in a { SubsetOfSameSize(a - {x}, b - {x}); }
  }

  /** A dictionary with these entries, and no other value, is the record. */
  lemma DictionaryIsRecord(v: Value, keys: seq<string>, f: seq<Value>, entries: seq<(string, Value)>)
    requires |keys| == |f| == |entries| && Distinct(keys)
    requires forall i :: 0 <= i < |entries| ==> entries[i] == (keys[i], f[i])
    ensures Dictionary(v, entries) <==> Values(v, keys) == Some(f)
  {
    ValuesIsRecord(v, keys, f);
    RecordIs(keys, f, entries);
    if Dictionary(v, entries) {
      KeyCount(keys);
      FieldCount(v.fields);
      forall t | t in KeySet(keys) ensures t in v.fields.Keys {
        var i := Place(keys, t);
        assert entries[i] == (keys[i], f[i]);
      }
      SubsetOfSameSize(KeySet(keys), v.fields.Keys);
      assert Values(v, keys).value == f;
    }
  }

  lemma ListMeans<T(!new)>(g: T -> Value, f: Value -> Option<T>, v: Value, xs: seq<T>)
    requires forall u, x {:trigger f(u), g(x)} :: f(u) == Some(x) <==> u == g(x)
    ensures ReadList(f, v) == Some(xs) <==> v == Arr(Each(g, xs))
  {
    if ReadList(f, v) == Some(xs) {
      forall i | 0 <= i < |xs| ensures v.items[i] == Each(g, xs)[i] {
        assert f(v.items[i]) == Some(xs[i]) && Each(g, xs)[i] == g(xs[i]);
      }
      assert v.items == Each(g, xs);
    }
    forall x | x in xs ensures f(g(x)) == Some(x) { assert g(x) == g(x); }
    ListReads(g, f, xs);
  }

  lemma TextsMean(v: Value, ts: seq<text>)
    ensures ReadTexts(v) == Some(ts) <==> v == Listing(ts)
  {
    ListMeans(TextJson, AsText, v, ts);
    TextsAre(ts);
  }

  lemma NullableText(v: Value, x: Option<text>)
    ensures Nullable(AsText, v) == Some(x) <==> v == TextOrNull(x)
  {
  }

  lemma ColumnMeans(v: Value, c: ColumnSpec)
    ensures ReadColumn(v) == Some(c) <==> Dictionary(v, [
              ("name", Str(c.name)), ("type", Str(c.kind)), ("nullable", Bool(c.nullable)), ("default", TextOrNull(c.default))])
  {
    var f := [Str(c.name), Str(c.kind), Bool(c.nullable), TextOrNull(c.default)];
    KeysApart();
    DictionaryIsRecord(v, COLUMN_KEYS, f, [
      ("name", Str(c.name)), ("type", Str(c.kind)), ("nullable", Bool(c.nullable)), ("default", TextOrNull(c.default))]);
    if Values(v, COLUMN_KEYS).Some? { ColumnFieldsMean(v, Values(v, COLUMN_KEYS).value, c, f); }
  }

  lemma ColumnFieldsMean(v: Value, x: seq<Value>, c: ColumnSpec, f: seq<Value>)
    requires Values(v, COLUMN_KEYS) == Some(x) && f == [Str(c.name), Str(c.kind), Bool(c.nullable), TextOrNull(c.default)]
    ensures ReadColumn(v) == Some(c) <==> x == f
  {
    NullableText(x[3], c.default);
    assert x == f <==> x[0] == f[0] && x[1] == f[1] && x[2] == f[2] && x[3] == f[3];
  }

  lemma KeyMeans(v: Value, k: IndexKeySpec)
    ensures ReadKey(v) == Some(k) <==> Dictionary(v, [
              ("column", Str(k.column)), ("descending", Bool(k.descending)),
              ("nulls_first", if k.nullsFirst.Some? then Bool(k.nullsFirst.value) else Null)])
  {
    var third := if k.nullsFirst.Some? then Bool(k.nullsFirst.value) else Null;
    KeysApart();
    DictionaryIsRecord(v, KEY_KEYS, [Str(k.column), Bool(k.descending), third],
      [("column", Str(k.column)), ("descending", Bool(k.descending)), ("nulls_first", third)]);
    if Values(v, KEY_KEYS).Some? { KeyFieldsMean(v, Values(v, KEY_KEYS).value, k); }
  }

  lemma KeyFieldsMean(v: Value, x: seq<Value>, k: IndexKeySpec)
    requires Values(v, KEY_KEYS) == Some(x)
    ensures ReadKey(v) == Some(k) <==>
            x == [Str(k.column), Bool(k.descending), if k.nullsFirst.Some? then Bool(k.nullsFirst.value) else Null]
  {
    var f := [Str(k.column), Bool(k.descending), if k.nullsFirst.Some? then Bool(k.nullsFirst.value) else Null];
    assert x == f <==> x[0] == f[0] && x[1] == f[1] && x[2] == f[2];
  }

  lemma ViewMeans(v: Value, w: ViewSpec)
    ensures ReadView(v) == Some(w) <==>
            Dictionary(v, [("name", Str(w.name)), ("definition", Str(w.definition)), ("depends_on", Listing(w.dependsOn))])
  {
    var f := [Str(w.name), Str(w.definition), Listing(w.dependsOn)];
    KeysApart();
    DictionaryIsRecord(v, VIEW_KEYS, f,
      [("name", Str(w.name)), ("definition", Str(w.definition)), ("depends_on", Listing(w.dependsOn))]);
    if Values(v, VIEW_KEYS).Some? { ViewFieldsMean(v, Values(v, VIEW_KEYS).value, w, f); }
  }

  lemma ViewFieldsMean(v: Value, x: seq<Value>, w: ViewSpec, f: seq<Value>)
    requires Values(v, VIEW_KEYS) == Some(x) && f == [Str(w.name), Str(w.definition), Listing(w.dependsOn)]
    ensures ReadView(v) == Some(w) <==> x == f
  {
    TextsMean(x[2], w.dependsOn);
    assert x == f <==> x[0] == f[0] && x[1] == f[1] && x[2] == f[2];
  }

  lemma MigrationMeans(v: Value, m: MigrationSpec)
    ensures ReadMigration(v) == Some(m) <==>
            Dictionary(v, [("file", Str(m.file)), ("sha256", TextOrNull(m.sha)), ("applied", Str(m.applied))])
  {
    var f := [Str(m.file), TextOrNull(m.sha), Str(m.applied)];
    KeysApart();
    DictionaryIsRecord(v, MIGRATION_KEYS, f, [("file", Str(m.file)), ("sha256", TextOrNull(m.sha)), ("applied", Str(m.applied))]);
    match Values(v, MIGRATION_KEYS)
    case None =>
    case Some(x) =>
      NullableText(x[1], m.sha);
      assert x == f <==> x[0] == f[0] && x[1] == f[1] && x[2] == f[2];
  }

  ghost function SegmentValues(g: CopySegment): (f: seq<Value>)
    ensures |f| == 9
  {
    [Str(g.table), Listing(g.columns), Int(g.offset), Int(g.compressedSize), Str(g.compressedSha),
     Int(g.uncompressedSize), Str(g.uncompressedSha), Int(g.rowCount), Str(Txt("zlib"))]
  }

  lemma SegmentFieldsMean(x: seq<Value>, g: CopySegment)
    requires |x| == 9
    ensures SegmentFrom(x) == Some(g) <==> x == SegmentValues(g)
  {
    TextsMean(x[1], g.columns);
    var f := SegmentValues(g);
    assert x == f <==> forall i :: 0 <= i < 9 ==> x[i] == f[i];
  }

  lemma SegmentMeans(v: Value, g: CopySegment)
    ensures ReadSegment(v) == Some(g) <==> Dictionary(v, [
              ("table", Str(g.table)), ("columns", Listing(g.columns)), ("offset", Int(g.offset)),
              ("compressed_size", Int(g.compressedSize)), ("compressed_sha256", Str(g.compressedSha)),
              ("uncompressed_size", Int(g.uncompressedSize)), ("uncompressed_sha256", Str(g.uncompressedSha)),
              ("row_count", Int(g.rowCount)), ("compression", Str(Txt("zlib")))])
  {
    KeysApart();
    DictionaryIsRecord(v, SEGMENT_KEYS, SegmentValues(g), [
      ("table", Str(g.table)), ("columns", Listing(g.columns)), ("offset", Int(g.offset)),
      ("compressed_size", Int(g.compressedSize)), ("compressed_sha256", Str(g.compressedSha)),
      ("uncompressed_size", Int(g.uncompressedSize)), ("uncompressed_sha256", Str(g.uncompressedSha)),
      ("row_count", Int(g.rowCount)), ("compression", Str(Txt("zlib")))]);
    SegmentReadsFields(v, g);
  }

  lemma SegmentReadsFields(v: Value, g: CopySegment)
    ensures ReadSegment(v) == Some(g) <==> Values(v, SEGMENT_KEYS) == Some(SegmentValues(g))
  {
    if Values(v, SEGMENT_KEYS).Some? { SegmentFieldsMean(Values(v, SEGMENT_KEYS).value, g); }
  }

  // What the loader merely iterates

  /** The lists of names; an empty string or an empty dictionary passes for no list. */
  ghost predicate UniquesAs(v: Value, uniques: seq<seq<text>>) {
    v == Arr(Each(Listing, uniques)) || (uniques == [] && (v == Str([]) || v == Obj(map[])))
  }

  /** The names; a string passes for its characters and a dictionary for its keys. */
  ghost predicate IncludedAs(v: Value, names: seq<text>) {
    || v == Listing(names)
    || (v.Str? && |names| == |v.s| && forall i :: 0 <= i < |names| ==> names[i] == [v.s[i]])
    || (v.Obj? && names == Sorted(v.fields.Keys))
  }

  lemma NoListInText(items: seq<Value>, uniques: seq<seq<text>>)
    requires forall i :: 0 <= i < |items| ==> items[i].Str?
    ensures ReadEach(ReadTexts, items) == Some(uniques) <==> items == [] && uniques == []
  {
    if items != [] { assert ReadTexts(items[0]).None?; }
  }

  lemma UniquesMean(v: Value, uniques: seq<seq<text>>)
    ensures ReadUniques(v) == Some(uniques) <==> UniquesAs(v, uniques)
  {
    match v
    case Arr(items) => ListsMean(v, uniques);
    case Str(s) => NoListInText(Iterate(v).value, uniques);
    case Obj(fields) => NoListInKeys(fields, uniques);
    case _ =>
  }

  lemma ListsMean(v: Value, uniques: seq<seq<text>>)
    ensures ReadList(ReadTexts, v) == Some(uniques) <==> v == Arr(Each(Listing, uniques))
  {
    forall u, ts ensures ReadTexts(u) == Some(ts) <==> u == Listing(ts) { TextsMean(u, ts); }
    ListMeans(Listing, ReadTexts, v, uniques);
  }

  lemma NoListInKeys(fields: map<text, Value>, uniques: seq<seq<text>>)
    ensures ReadUniques(Obj(fields)) == Some(uniques) <==> fields == map[] && uniques == []
  {
    NoListInText(Iterate(Obj(fields)).value, uniques);
    assert |Sorted(fields.Keys)| == 0 <==> fields == map[];
  }

  lemma EachTextOf(ts: seq<text>, names: seq<text>)
    ensures ReadEach(AsText, Each(TextJson, ts)) == Some(names) <==> names == ts
  {
    if ReadEach(AsText, Each(TextJson, ts)) == Some(names) {
      assert forall i :: 0 <= i < |ts| ==> AsText(Each(TextJson, ts)[i]) == Some(names[i]);
    }
    ListReads(TextJson, AsText, ts);
  }

  lemma IncludedMeans(v: Value, names: seq<text>)
    ensures ReadIncluded(v) == Some(names) <==> IncludedAs(v, names)
  {
    match v
    case Arr(items) => TextsMean(v, names);
    case Str(s) =>
      var ts := seq(|s|, i requires 0 <= i < |s| => [s[i]]);
      assert Iterate(v).value == Each(TextJson, ts);
      EachTextOf(ts, names);
    case Obj(fields) => EachTextOf(Sorted(fields.Keys), names);
    case _ =>
  }

  // Tables, indexes and the whole

  ghost predicate TableAs(v: Value, t: TableSpec) {
    exists u :: UniquesAs(u, t.uniques) && TableWith(v, t, u)
  }

  /** The dictionary of the table with `u` as its `unique_constraints`. */
  ghost predicate TableWith(v: Value, t: TableSpec, u: Value) {
    Dictionary(v, [
      ("name", Str(t.name)), ("kind", Str(t.kind)), ("columns", Arr(Each(ColumnJson, t.columns))),
      ("primary_key", Listing(t.primaryKey)), ("unique_constraints", u)])
  }

  ghost function TableValues(t: TableSpec, u: Value): (f: seq<Value>)
    ensures |f| == 5
  {
    [Str(t.name), Str(t.kind), Arr(Each(ColumnJson, t.columns)), Listing(t.primaryKey), u]
  }

  lemma TableWithIs(v: Value, t: TableSpec, u: Value)
    ensures TableWith(v, t, u) <==> Values(v, TABLE_KEYS) == Some(TableValues(t, u))
  {
    KeysApart();
    DictionaryIsRecord(v, TABLE_KEYS, TableValues(t, u), [
      ("name", Str(t.name)), ("kind", Str(t.kind)), ("columns", Arr(Each(ColumnJson, t.columns))),
      ("primary_key", Listing(t.primaryKey)), ("unique_constraints", u)]);
  }

  lemma ColumnsMean(v: Value, cs: seq<ColumnSpec>)
    ensures ReadList(ReadColumn, v) == Some(cs) <==> v == Arr(Each(ColumnJson, cs))
  {
    forall u, c {:trigger ReadColumn(u), ColumnJson(c)} ensures ReadColumn(u) == Some(c) <==> u == ColumnJson(c) {
      ColumnMeans(u, c);
      ColumnDictionary(c);
      if u == ColumnJson(c) { ColumnReads(c); }
      if ReadColumn(u) == Some(c) { ColumnExact(u, c); }
    }
    ListMeans(ColumnJson, ReadColumn, v, cs);
  }

  lemma ColumnExact(v: Value, c: ColumnSpec)
    requires ReadColumn(v) == Some(c)
    ensures v == ColumnJson(c)
  {
    var f := [Str(c.name), Str(c.kind), Bool(c.nullable), OrNull(TextJson, c.default)];
    KeysApart();
    var x := Values(v, COLUMN_KEYS).value;
    NullableText(x[3], c.default);
    assert x == f;
    ValuesIsRecord(v, COLUMN_KEYS, f);
  }

  lemma TableFieldsMean(x: seq<Value>, t: TableSpec)
    requires |x| == 5
    ensures TableFrom(x) == Some(t) <==> x == TableValues(t, x[4]) && UniquesAs(x[4], t.uniques)
  {
    ColumnsMean(x[2], t.columns);
    TextsMean(x[3], t.primaryKey);
    UniquesMean(x[4], t.uniques);
    var f := TableValues(t, x[4]);
    assert x == f <==> forall i :: 0 <= i < 5 ==> x[i] == f[i];
  }

  /** A value loads as a table exactly when it is the table's dictionary, up to what is merely iterated. */
  lemma TableMeans(v: Value, t: TableSpec)
    ensures ReadTable(v) == Some(t) <==> TableAs(v, t)
  {
    if TableAs(v, t) {
      var u :| UniquesAs(u, t.uniques) && TableWith(v, t, u);
      TableWithIs(v, t, u);
      TableFieldsMean(TableValues(t, u), t);
    }
    if ReadTable(v) == Some(t) {
      var x := Values(v, TABLE_KEYS).value;
      TableFieldsMean(x, t);
      TableWithIs(v, t, x[4]);
    }
  }

  ghost predicate IndexAs(v: Value, i: IndexSpec) {
    exists u :: IncludedAs(u, i.included) && IndexWith(v, i, u)
  }

  /** The dictionary of the index with `u` as its `included`. */
  ghost predicate IndexWith(v: Value, i: IndexSpec, u: Value) {
    Dictionary(v, [
      ("name", Str(i.name)), ("table", Str(i.table)), ("method", Str(i.access)), ("unique", Bool(i.unique)),
      ("nulls_not_distinct", Bool(i.nullsNotDistinct)), ("keys", Arr(Each(KeyJson, i.keys))),
      ("included", u), ("predicate", TextOrNull(i.where))])
  }

  ghost function IndexValues(i: IndexSpec, u: Value): (f: seq<Value>)
    ensures |f| == 8
  {
    [Str(i.name), Str(i.table), Str(i.access), Bool(i.unique), Bool(i.nullsNotDistinct), Arr(Each(KeyJson, i.keys)), u,
     TextOrNull(i.where)]
  }

  lemma IndexWithIs(v: Value, i: IndexSpec, u: Value)
    ensures IndexWith(v, i, u) <==> Values(v, INDEX_KEYS) == Some(IndexValues(i, u))
  {
    KeysApart();
    DictionaryIsRecord(v, INDEX_KEYS, IndexValues(i, u), [
      ("name", Str(i.name)), ("table", Str(i.table)), ("method", Str(i.access)), ("unique", Bool(i.unique)),
      ("nulls_not_distinct", Bool(i.nullsNotDistinct)), ("keys", Arr(Each(KeyJson, i.keys))),
      ("included", u), ("predicate", TextOrNull(i.where))]);
  }

  lemma KeysMean(v: Value, ks: seq<IndexKeySpec>)
    ensures ReadList(ReadKey, v) == Some(ks) <==> v == Arr(Each(KeyJson, ks))
  {
    forall u, k {:trigger ReadKey(u), KeyJson(k)} ensures ReadKey(u) == Some(k) <==> u == KeyJson(k) {
      if u == KeyJson(k) { KeyReads(k); }
      if ReadKey(u) == Some(k) { KeyExact(u, k); }
    }
    ListMeans(KeyJson, ReadKey, v, ks);
  }

  lemma KeyExact(v: Value, k: IndexKeySpec)
    requires ReadKey(v) == Some(k)
    ensures v == KeyJson(k)
  {
    var f := [Str(k.column), Bool(k.descending), OrNull(BoolJson, k.nullsFirst)];
    KeysApart();
    assert Values(v, KEY_KEYS).value == f;
    ValuesIsRecord(v, KEY_KEYS, f);
  }

  lemma IndexFieldsMean(x: seq<Value>, i: IndexSpec)
    requires |x| == 8
    ensures IndexFrom(x) == Some(i) <==> x == IndexValues(i, x[6]) && IncludedAs(x[6], i.included)
  {
    KeysMean(x[5], i.keys);
    IncludedMeans(x[6], i.included);
    NullableText(x[7], i.where);
    var f := IndexValues(i, x[6]);
    assert x == f <==> forall j :: 0 <= j < 8 ==> x[j] == f[j];
  }

  lemma IndexMeans(v: Value, i: IndexSpec)
    ensures ReadIndex(v) == Some(i) <==> IndexAs(v, i)
  {
    if IndexAs(v, i) {
      var u :| IncludedAs(u, i.included) && IndexWith(v, i, u);
      IndexWithIs(v, i, u);
      IndexFieldsMean(IndexValues(i, u), i);
    }
    if ReadIndex(v) == Some(i) {
      var x := Values(v, INDEX_KEYS).value;
      IndexFieldsMean(x, i);
      IndexWithIs(v, i, x[6]);
    }
  }

  ghost predicate TablesAs(v: Value, ts: seq<TableSpec>) {
    v.Arr? && |v.items| == |ts| && forall i :: 0 <= i < |ts| ==> TableAs(v.items[i], ts[i])
  }

  ghost predicate IndexesAs(v: Value, ns: seq<IndexSpec>) {
    v.Arr? && |v.items| == |ns| && forall i :: 0 <= i < |ns| ==> IndexAs(v.items[i], ns[i])
  }

  lemma ListReadsEach<T(!new)>(f: Value -> Option<T>, v: Value, xs: seq<T>)
    ensures ReadList(f, v) == Some(xs) <==>
            v.Arr? && |v.items| == |xs| && forall i :: 0 <= i < |xs| ==> f(v.items[i]) == Some(xs[i])
  {
    if v.Arr? && |v.items| == |xs| && forall i :: 0 <= i < |xs| ==> f(v.items[i]) == Some(xs[i]) {
      assert ReadEach(f, v.items).value == xs;
    }
  }

  lemma TablesMean(v: Value, ts: seq<TableSpec>)
    ensures ReadList(ReadTable, v) == Some(ts) <==> TablesAs(v, ts)
  {
    ListReadsEach(ReadTable, v, ts);
    if v.Arr? && |v.items| == |ts| {
      forall i | 0 <= i < |ts| ensures ReadTable(v.items[i]) == Some(ts[i]) <==> TableAs(v.items[i], ts[i]) { TableMeans(v.items[i], ts[i]); }
    }
  }

  lemma IndexesMean(v: Value, ns: seq<IndexSpec>)
    ensures ReadList(ReadIndex, v) == Some(ns) <==> IndexesAs(v, ns)
  {
    ListReadsEach(ReadIndex, v, ns);
    if v.Arr? && |v.items| == |ns| {
      forall i | 0 <= i < |ns| ensures ReadIndex(v.items[i]) == Some(ns[i]) <==> IndexAs(v.items[i], ns[i]) { IndexMeans(v.items[i], ns[i]); }
    }
  }

  lemma ViewsMean(v: Value, vs: seq<ViewSpec>)
    ensures ReadList(ReadView, v) == Some(vs) <==> v == Arr(Each(ViewJson, vs))
  {
    forall u, w {:trigger ReadView(u), ViewJson(w)} ensures ReadView(u) == Some(w) <==> u == ViewJson(w) {
      if u == ViewJson(w) { ViewReads(w); }
      if ReadView(u) == Some(w) { ViewExact(u, w); }
    }
    ListMeans(ViewJson, ReadView, v, vs);
  }

  lemma ViewExact(v: Value, w: ViewSpec)
    requires ReadView(v) == Some(w)
    ensures v == ViewJson(w)
  {
    var f := [Str(w.name), Str(w.definition), TextsJson(w.dependsOn)];
    KeysApart();
    TextsMean(Values(v, VIEW_KEYS).value[2], w.dependsOn);
    TextsAre(w.dependsOn);
    assert Values(v, VIEW_KEYS).value == f;
    ValuesIsRecord(v, VIEW_KEYS, f);
  }

  lemma MigrationsMean(v: Value, ms: seq<MigrationSpec>)
    ensures ReadList(ReadMigration, v) == Some(ms) <==> v == Arr(Each(MigrationJson, ms))
  {
    forall u, m {:trigger ReadMigration(u), MigrationJson(m)} ensures ReadMigration(u) == Some(m) <==> u == MigrationJson(m) {
      if u == MigrationJson(m) { MigrationReads(m); }
      if ReadMigration(u) == Some(m) { MigrationExact(u, m); }
    }
    ListMeans(MigrationJson, ReadMigration, v, ms);
  }

  lemma MigrationExact(v: Value, m: MigrationSpec)
    requires ReadMigration(v) == Some(m)
    ensures v == MigrationJson(m)
  {
    var f := [Str(m.file), OrNull(TextJson, m.sha), Str(m.applied)];
    KeysApart();
    NullableText(Values(v, MIGRATION_KEYS).value[1], m.sha);
    assert Values(v, MIGRATION_KEYS).value == f;
    ValuesIsRecord(v, MIGRATION_KEYS, f);
  }

  lemma SegmentsMean(v: Value, gs: seq<CopySegment>)
    ensures ReadList(ReadSegment, v) == Some(gs) <==> v == Arr(Each(SegmentJson, gs))
  {
    forall u, g {:trigger ReadSegment(u), SegmentJson(g)} ensures ReadSegment(u) == Some(g) <==> u == SegmentJson(g) {
      if u == SegmentJson(g) { SegmentReads(g); }
      if ReadSegment(u) == Some(g) { SegmentExact(u, g); }
    }
    ListMeans(SegmentJson, ReadSegment, v, gs);
  }

  lemma SegmentExact(v: Value, g: CopySegment)
    requires ReadSegment(v) == Some(g)
    ensures v == SegmentJson(g)
  {
    KeysApart();
    SegmentReadsFields(v, g);
    TextsAre(g.columns);
    assert SegmentValues(g) == SegmentFields(g);
    ValuesIsRecord(v, SEGMENT_KEYS, SegmentFields(g));
  }

  /** The dictionary of a schema: exactly ten entries, with the tables and indexes up to what is merely
      iterated. */
  ghost predicate SchemaAs(v: Value, s: DatabaseSchema) {
    exists tables, indexes :: TablesAs(tables, s.tables) && IndexesAs(indexes, s.indexes) && SchemaWith(v, s, tables, indexes)
  }

  ghost predicate SchemaWith(v: Value, s: DatabaseSchema, tables: Value, indexes: Value) {
    Dictionary(v, [
      ("contract_version", s.contractVersion), ("copy_settings", CopySettings()), ("data_copy_size", Int(s.dataCopySize)),
      ("indexes", indexes), ("migrations", Arr(Each(MigrationJson, s.migrations))),
      ("segments", Arr(Each(SegmentJson, s.segments))),
      ("source_postgres_version", if s.sourcePostgresVersion.Some? then Int(s.sourcePostgresVersion.value) else Null),
      ("system_schema_version", s.systemSchemaVersion), ("tables", tables), ("views", Arr(Each(ViewJson, s.views)))])
  }

  ghost function SchemaValues(s: DatabaseSchema, tables: Value, indexes: Value): (f: seq<Value>)
    ensures |f| == 10
  {
    [s.contractVersion, CopySettings(), Int(s.dataCopySize), indexes, Arr(Each(MigrationJson, s.migrations)),
     Arr(Each(SegmentJson, s.segments)),
     if s.sourcePostgresVersion.Some? then Int(s.sourcePostgresVersion.value) else Null,
     s.systemSchemaVersion, tables, Arr(Each(ViewJson, s.views))]
  }

  lemma SchemaWithIs(v: Value, s: DatabaseSchema, tables: Value, indexes: Value)
    ensures SchemaWith(v, s, tables, indexes) <==> Values(v, SCHEMA_KEYS) == Some(SchemaValues(s, tables, indexes))
  {
    KeysApart();
    DictionaryIsRecord(v, SCHEMA_KEYS, SchemaValues(s, tables, indexes), [
      ("contract_version", s.contractVersion), ("copy_settings", CopySettings()), ("data_copy_size", Int(s.dataCopySize)),
      ("indexes", indexes), ("migrations", Arr(Each(MigrationJson, s.migrations))),
      ("segments", Arr(Each(SegmentJson, s.segments))),
      ("source_postgres_version", if s.sourcePostgresVersion.Some? then Int(s.sourcePostgresVersion.value) else Null),
      ("system_schema_version", s.systemSchemaVersion), ("tables", tables), ("views", Arr(Each(ViewJson, s.views)))]);
  }

  lemma SchemaFieldsMean(x: seq<Value>, s: DatabaseSchema)
    requires |x| == 10
    ensures SchemaFrom(x) == Some(s) <==>
            x == SchemaValues(s, x[8], x[3]) && TablesAs(x[8], s.tables) && IndexesAs(x[3], s.indexes)
  {
    IndexesMean(x[3], s.indexes);
    MigrationsMean(x[4], s.migrations);
    SegmentsMean(x[5], s.segments);
    TablesMean(x[8], s.tables);
    ViewsMean(x[9], s.views);
    var f := SchemaValues(s, x[8], x[3]);
    assert x == f <==> forall i :: 0 <= i < 10 ==> x[i] == f[i];
  }

  /** A JSON value is read as a schema exactly when it is the schema's dictionary: no entry more, none
      less, and every one of its type. */
  lemma SchemaReadsAs(v: Value, s: DatabaseSchema)
    ensures ReadSchema(v) == Some(s) <==> SchemaAs(v, s)
  {
    if SchemaAs(v, s) {
      var tables, indexes :| TablesAs(tables, s.tables) && IndexesAs(indexes, s.indexes) && SchemaWith(v, s, tables, indexes);
      SchemaWithIs(v, s, tables, indexes);
      SchemaFieldsMean(SchemaValues(s, tables, indexes), s);
    }
    if ReadSchema(v) == Some(s) {
      var x := Values(v, SCHEMA_KEYS).value;
      SchemaFieldsMean(x, s);
      SchemaWithIs(v, s, x[8], x[3]);
    }
  }
}
