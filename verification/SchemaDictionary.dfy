/** The dictionaries of `schema.json`, entry by entry. */
module SchemaDictionary {
  import opened Results
  import opened Text
  import opened Json
  import opened JsonRecords
  import opened CopySegments
  import opened SchemaTypes
  import opened SchemaJson

  /** A dictionary with exactly these entries. */
  ghost predicate Dictionary(v: Value, entries: seq<(string, Value)>) {
    && v.Obj? && |v.fields| == |entries|
    && forall i :: 0 <= i < |entries| ==> Txt(entries[i].0) in v.fields && v.fields[Txt(entries[i].0)] == entries[i].1
  }

  ghost function TextOrNull(x: Option<text>): Value { if x.Some? then Str(x.value) else Null }

  ghost function Listing(ts: seq<text>): Value { Arr(seq(|ts|, i requires 0 <= i < |ts| => Str(ts[i]))) }

  lemma {:induction false} KeyCount(keys: seq<string>)
    requires Distinct(keys)
    ensures |KeySet(keys)| == |keys|
  {
    if keys != [] {
      var k := |keys| - 1;
      KeyCount(keys[..k]);
      assert keys == keys[..k] + [keys[k]];
      KeySetSnoc(keys[..k], keys[k]);
    } else {
      assert KeySet(keys) == {};
    }
  }

  lemma KeySetSnoc(keys: seq<string>, key: string)
    requires key !in keys
    ensures KeySet(keys + [key]) == KeySet(keys) + {Txt(key)} && Txt(key) !in KeySet(keys)
  {
    if Txt(key) in KeySet(keys) {
      var k :| k in keys && Txt(k) == Txt(key);
      TxtInjective(k, key);
    }
    assert key in keys + [key];
  }

  lemma FieldCount(fields: map<text, Value>)
    ensures |fields| == |fields.Keys|
  {
  }

  lemma RecordIs(keys: seq<string>, values: seq<Value>, entries: seq<(string, Value)>)
    requires |keys| == |values| == |entries| && Distinct(keys)
    requires forall i :: 0 <= i < |entries| ==> entries[i] == (keys[i], values[i])
    ensures Dictionary(Record(keys, values), entries)
  {
    RecordReads(keys, values);
    KeyCount(keys);
    var v := Record(keys, values);
    assert v.fields.Keys == KeySet(keys);
    FieldCount(v.fields);
    forall i | 0 <= i < |entries| ensures Txt(entries[i].0) in v.fields && v.fields[Txt(entries[i].0)] == entries[i].1 {
      assert keys[i] in keys;
      assert Values(v, keys).value[i] == v.fields[Txt(keys[i])];
    }
  }

  lemma TextsAre(ts: seq<text>)
    ensures TextsJson(ts) == Listing(ts)
  {
    assert Each(TextJson, ts) == seq(|ts|, i requires 0 <= i < |ts| => Str(ts[i]));
  }

  lemma ColumnDictionary(c: ColumnSpec)
    ensures Dictionary(ColumnJson(c), [
              ("name", Str(c.name)), ("type", Str(c.kind)), ("nullable", Bool(c.nullable)), ("default", TextOrNull(c.default))])
  {
    KeysApart();
    RecordIs(COLUMN_KEYS, [Str(c.name), Str(c.kind), Bool(c.nullable), OrNull(TextJson, c.default)], [
      ("name", Str(c.name)), ("type", Str(c.kind)), ("nullable", Bool(c.nullable)), ("default", TextOrNull(c.default))]);
  }

  lemma TableDictionary(t: TableSpec)
    ensures Dictionary(TableJson(t), [
              ("name", Str(t.name)), ("kind", Str(t.kind)), ("columns", Arr(Each(ColumnJson, t.columns))),
              ("primary_key", Listing(t.primaryKey)), ("unique_constraints", Arr(Each(Listing, t.uniques)))])
  {
    KeysApart();
    TextsAre(t.primaryKey);
    forall u | u in t.uniques ensures TextsJson(u) == Listing(u) { TextsAre(u); }
    assert Each(TextsJson, t.uniques) == Each(Listing, t.uniques);
    RecordIs(TABLE_KEYS, TableFields(t), [
      ("name", Str(t.name)), ("kind", Str(t.kind)), ("columns", Arr(Each(ColumnJson, t.columns))),
      ("primary_key", Listing(t.primaryKey)), ("unique_constraints", Arr(Each(Listing, t.uniques)))]);
  }

  lemma KeyDictionary(k: IndexKeySpec)
    ensures Dictionary(KeyJson(k), [
              ("column", Str(k.column)), ("descending", Bool(k.descending)),
              ("nulls_first", if k.nullsFirst.Some? then Bool(k.nullsFirst.value) else Null)])
  {
    KeysApart();
    RecordIs(KEY_KEYS, [Str(k.column), Bool(k.descending), OrNull(BoolJson, k.nullsFirst)], [
      ("column", Str(k.column)), ("descending", Bool(k.descending)),
      ("nulls_first", if k.nullsFirst.Some? then Bool(k.nullsFirst.value) else Null)]);
  }

  lemma IndexDictionary(i: IndexSpec)
    ensures Dictionary(IndexJson(i), [
              ("name", Str(i.name)), ("table", Str(i.table)), ("method", Str(i.access)), ("unique", Bool(i.unique)),
              ("nulls_not_distinct", Bool(i.nullsNotDistinct)), ("keys", Arr(Each(KeyJson, i.keys))),
              ("included", Listing(i.included)), ("predicate", TextOrNull(i.where))])
  {
    KeysApart();
    TextsAre(i.included);
    RecordIs(INDEX_KEYS, IndexFields(i), [
      ("name", Str(i.name)), ("table", Str(i.table)), ("method", Str(i.access)), ("unique", Bool(i.unique)),
      ("nulls_not_distinct", Bool(i.nullsNotDistinct)), ("keys", Arr(Each(KeyJson, i.keys))),
      ("included", Listing(i.included)), ("predicate", TextOrNull(i.where))]);
  }

  lemma ViewDictionary(v: ViewSpec)
    ensures Dictionary(ViewJson(v), [("name", Str(v.name)), ("definition", Str(v.definition)), ("depends_on", Listing(v.dependsOn))])
  {
    KeysApart();
    TextsAre(v.dependsOn);
    RecordIs(VIEW_KEYS, [Str(v.name), Str(v.definition), TextsJson(v.dependsOn)],
      [("name", Str(v.name)), ("definition", Str(v.definition)), ("depends_on", Listing(v.dependsOn))]);
  }

  lemma MigrationDictionary(m: MigrationSpec)
    ensures Dictionary(MigrationJson(m), [("file", Str(m.file)), ("sha256", TextOrNull(m.sha)), ("applied", Str(m.applied))])
  {
    KeysApart();
    RecordIs(MIGRATION_KEYS, [Str(m.file), OrNull(TextJson, m.sha), Str(m.applied)],
      [("file", Str(m.file)), ("sha256", TextOrNull(m.sha)), ("applied", Str(m.applied))]);
  }

  lemma SegmentDictionary(g: CopySegment)
    ensures Dictionary(SegmentJson(g), [
              ("table", Str(g.table)), ("columns", Listing(g.columns)), ("offset", Int(g.offset)),
              ("compressed_size", Int(g.compressedSize)), ("compressed_sha256", Str(g.compressedSha)),
              ("uncompressed_size", Int(g.uncompressedSize)), ("uncompressed_sha256", Str(g.uncompressedSha)),
              ("row_count", Int(g.rowCount)), ("compression", Str(Txt("zlib")))])
  {
    KeysApart();
    TextsAre(g.columns);
    RecordIs(SEGMENT_KEYS, SegmentFields(g), [
      ("table", Str(g.table)), ("columns", Listing(g.columns)), ("offset", Int(g.offset)),
      ("compressed_size", Int(g.compressedSize)), ("compressed_sha256", Str(g.compressedSha)),
      ("uncompressed_size", Int(g.uncompressedSize)), ("uncompressed_sha256", Str(g.uncompressedSha)),
      ("row_count", Int(g.rowCount)), ("compression", Str(Txt("zlib")))]);
  }

  lemma CopySettingsDictionary()
    ensures Dictionary(CopySettings(), [
              ("format", Str(Txt("text"))), ("encoding", Str(Txt("UTF8"))), ("date_style", Str(Txt("ISO"))),
              ("time_zone", Str(Txt("UTC"))), ("interval_style", Str(Txt("postgres")))])
  {
    assert Distinct(COPY_KEYS);
    RecordIs(COPY_KEYS,
      [Str(Txt("text")), Str(Txt("UTF8")), Str(Txt("ISO")), Str(Txt("UTC")), Str(Txt("postgres"))], [
      ("format", Str(Txt("text"))), ("encoding", Str(Txt("UTF8"))), ("date_style", Str(Txt("ISO"))),
      ("time_zone", Str(Txt("UTC"))), ("interval_style", Str(Txt("postgres")))]);
  }

  /** `schema.json` has these ten entries; the lists hold the dictionaries above, in order. */
  lemma SchemaIsDictionary(s: DatabaseSchema)
    ensures Dictionary(SchemaToJson(s), [
              ("contract_version", s.contractVersion), ("copy_settings", CopySettings()), ("data_copy_size", Int(s.dataCopySize)),
              ("indexes", Arr(Each(IndexJson, s.indexes))), ("migrations", Arr(Each(MigrationJson, s.migrations))),
              ("segments", Arr(Each(SegmentJson, s.segments))),
              ("source_postgres_version", if s.sourcePostgresVersion.Some? then Int(s.sourcePostgresVersion.value) else Null),
              ("system_schema_version", s.systemSchemaVersion), ("tables", Arr(Each(TableJson, s.tables))),
              ("views", Arr(Each(ViewJson, s.views)))])
  {
    KeysApart();
    RecordIs(SCHEMA_KEYS, SchemaFields(s), [
      ("contract_version", s.contractVersion), ("copy_settings", CopySettings()), ("data_copy_size", Int(s.dataCopySize)),
      ("indexes", Arr(Each(IndexJson, s.indexes))), ("migrations", Arr(Each(MigrationJson, s.migrations))),
      ("segments", Arr(Each(SegmentJson, s.segments))),
      ("source_postgres_version", if s.sourcePostgresVersion.Some? then Int(s.sourcePostgresVersion.value) else Null),
      ("system_schema_version", s.systemSchemaVersion), ("tables", Arr(Each(TableJson, s.tables))),
      ("views", Arr(Each(ViewJson, s.views)))]);
  }
}
