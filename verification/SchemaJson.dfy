/** Loading and writing `schema.json`. */
module SchemaJson {
  import opened Results
  import opened Text
  import opened Json
  import opened JsonRecords
  import opened CopySegments
  import opened SqlLexer
  import opened SchemaTypes
  import opened SchemaContract

  const COLUMN_KEYS: seq<string> := ["name", "type", "nullable", "default"]
  const TABLE_KEYS: seq<string> := ["name", "kind", "columns", "primary_key", "unique_constraints"]
  const KEY_KEYS: seq<string> := ["column", "descending", "nulls_first"]
  const INDEX_KEYS: seq<string> :=
    ["name", "table", "method", "unique", "nulls_not_distinct", "keys", "included", "predicate"]
  const VIEW_KEYS: seq<string> := ["name", "definition", "depends_on"]
  const MIGRATION_KEYS: seq<string> := ["file", "sha256", "applied"]
  const SEGMENT_KEYS: seq<string> :=
    ["table", "columns", "offset", "compressed_size", "compressed_sha256", "uncompressed_size",
     "uncompressed_sha256", "row_count", "compression"]
  const COPY_KEYS: seq<string> := ["format", "encoding", "date_style", "time_zone", "interval_style"]
  const SCHEMA_KEYS: seq<string> :=
    ["contract_version", "copy_settings", "data_copy_size", "indexes", "migrations", "segments",
     "source_postgres_version", "system_schema_version", "tables", "views"]

  const ZLIB: text := Txt("zlib")

  ghost function CopySettings(): Value {
    Record(COPY_KEYS, [Str(Txt("text")), Str(Txt("UTF8")), Str(Txt("ISO")), Str(Txt("UTC")), Str(Txt("postgres"))])
  }

  // Writing

  ghost function ColumnJson(c: ColumnSpec): Value {
    Record(COLUMN_KEYS, [Str(c.name), Str(c.kind), Bool(c.nullable), OrNull(TextJson, c.default)])
  }

  ghost function TableFields(t: TableSpec): seq<Value> {
    [Str(t.name), Str(t.kind), Arr(Each(ColumnJson, t.columns)), TextsJson(t.primaryKey),
     Arr(Each(TextsJson, t.uniques))]
  }

  ghost function TableJson(t: TableSpec): Value { Record(TABLE_KEYS, TableFields(t)) }

  ghost function KeyJson(k: IndexKeySpec): Value {
    Record(KEY_KEYS, [Str(k.column), Bool(k.descending), OrNull(BoolJson, k.nullsFirst)])
  }

  ghost function IndexFields(i: IndexSpec): seq<Value> {
    [Str(i.name), Str(i.table), Str(i.access), Bool(i.unique), Bool(i.nullsNotDistinct),
     Arr(Each(KeyJson, i.keys)), TextsJson(i.included), OrNull(TextJson, i.where)]
  }

  ghost function IndexJson(i: IndexSpec): Value { Record(INDEX_KEYS, IndexFields(i)) }

  ghost function ViewJson(v: ViewSpec): Value {
    Record(VIEW_KEYS, [Str(v.name), Str(v.definition), TextsJson(v.dependsOn)])
  }

  ghost function MigrationJson(m: MigrationSpec): Value {
    Record(MIGRATION_KEYS, [Str(m.file), OrNull(TextJson, m.sha), Str(m.applied)])
  }

  ghost function SegmentFields(s: CopySegment): seq<Value> {
    [Str(s.table), TextsJson(s.columns), Int(s.offset), Int(s.compressedSize), Str(s.compressedSha),
     Int(s.uncompressedSize), Str(s.uncompressedSha), Int(s.rowCount), Str(ZLIB)]
  }

  ghost function SegmentJson(s: CopySegment): Value { Record(SEGMENT_KEYS, SegmentFields(s)) }

  ghost function SchemaFields(s: DatabaseSchema): seq<Value> {
    [s.contractVersion, CopySettings(), Int(s.dataCopySize), Arr(Each(IndexJson, s.indexes)),
     Arr(Each(MigrationJson, s.migrations)), Arr(Each(SegmentJson, s.segments)), OrNull(IntJson, s.sourcePostgresVersion),
     s.systemSchemaVersion, Arr(Each(TableJson, s.tables)), Arr(Each(ViewJson, s.views))]
  }

  ghost function SchemaToJson(s: DatabaseSchema): Value { Record(SCHEMA_KEYS, SchemaFields(s)) }

  // Reading

  /** What iterating a JSON value yields: items, characters, or keys. */
  ghost function Iterate(v: Value): Option<seq<Value>> {
    match v
    case Arr(items) => Some(items)
    case Str(s) => Some(seq(|s|, i requires 0 <= i < |s| => Str([s[i]])))
    case Obj(fields) => Some(Each(TextJson, Sorted(fields.Keys)))
    case _ => None
  }

  ghost function ReadTexts(v: Value): Option<seq<text>> { ReadList(AsText, v) }

  ghost function ReadColumn(v: Value): Option<ColumnSpec> {
    match Values(v, COLUMN_KEYS)
    case None => None
    case Some(f) =>
      match (AsText(f[0]), AsText(f[1]), AsBool(f[2]), Nullable(AsText, f[3]))
      case (Some(name), Some(kind), Some(nullable), Some(default)) => Some(ColumnSpec(name, kind, nullable, default))
      case _ => None
  }

  ghost function ReadUniques(v: Value): Option<seq<seq<text>>> {
    match Iterate(v) case None => None case Some(items) => ReadEach(ReadTexts, items)
  }

  ghost function TableFrom(f: seq<Value>): Option<TableSpec>
    requires |f| == |TABLE_KEYS|
  {
    match (AsText(f[0]), AsText(f[1]), ReadList(ReadColumn, f[2]), ReadTexts(f[3]), ReadUniques(f[4]))
    case (Some(name), Some(kind), Some(columns), Some(pk), Some(uniques)) =>
      Some(TableSpec(name, kind, columns, pk, uniques))
    case _ => None
  }

  ghost function ReadTable(v: Value): Option<TableSpec> {
    match Values(v, TABLE_KEYS) case None => None case Some(f) => TableFrom(f)
  }

  ghost function ReadKey(v: Value): Option<IndexKeySpec> {
    match Values(v, KEY_KEYS)
    case None => None
    case Some(f) =>
      match (AsText(f[0]), AsBool(f[1]), Nullable(AsBool, f[2]))
      case (Some(column), Some(descending), Some(nullsFirst)) => Some(IndexKeySpec(column, descending, nullsFirst))
      case _ => None
  }

  ghost function ReadIncluded(v: Value): Option<seq<text>> {
    match Iterate(v) case None => None case Some(items) => ReadEach(AsText, items)
  }

  ghost function IndexFrom(f: seq<Value>): Option<IndexSpec>
    requires |f| == |INDEX_KEYS|
  {
    match (AsText(f[0]), AsText(f[1]), AsText(f[2]), AsBool(f[3]), AsBool(f[4]))
    case (Some(name), Some(table), Some(access), Some(unique), Some(nullsNotDistinct)) => (
      match (ReadList(ReadKey, f[5]), ReadIncluded(f[6]), Nullable(AsText, f[7]))
      case (Some(keys), Some(included), Some(where)) =>
        Some(IndexSpec(name, table, access, unique, nullsNotDistinct, keys, included, where))
      case _ => None)
    case _ => None
  }

  ghost function ReadIndex(v: Value): Option<IndexSpec> {
    match Values(v, INDEX_KEYS) case None => None case Some(f) => IndexFrom(f)
  }

  ghost function ReadView(v: Value): Option<ViewSpec> {
    match Values(v, VIEW_KEYS)
    case None => None
    case Some(f) =>
      match (AsText(f[0]), AsText(f[1]), ReadTexts(f[2]))
      case (Some(name), Some(definition), Some(deps)) => Some(ViewSpec(name, definition, deps))
      case _ => None
  }

  ghost function ReadMigration(v: Value): Option<MigrationSpec> {
    match Values(v, MIGRATION_KEYS)
    case None => None
    case Some(f) =>
      match (AsText(f[0]), Nullable(AsText, f[1]), AsText(f[2]))
      case (Some(file), Some(sha), Some(applied)) => Some(MigrationSpec(file, sha, applied))
      case _ => None
  }

  ghost function SegmentFrom(f: seq<Value>): Option<CopySegment>
    requires |f| == |SEGMENT_KEYS|
  {
    if f[8] != Str(ZLIB) then None
    else
      match (AsText(f[0]), ReadTexts(f[1]), AsNat(f[2]), AsNat(f[3]), AsText(f[4]))
      case (Some(table), Some(columns), Some(offset), Some(packed), Some(packedSha)) => (
        match (AsNat(f[5]), AsText(f[6]), AsNat(f[7]))
        case (Some(plain), Some(plainSha), Some(rows)) =>
          Some(CopySegment(table, columns, offset, packed, packedSha, plain, plainSha, rows))
        case _ => None)
      case _ => None
  }

  ghost function ReadSegment(v: Value): Option<CopySegment> {
    match Values(v, SEGMENT_KEYS) case None => None case Some(f) => SegmentFrom(f)
  }

  ghost function SchemaFrom(f: seq<Value>): Option<DatabaseSchema>
    requires |f| == |SCHEMA_KEYS|
  {
    if f[1] != CopySettings() then None
    else
      match (AsNat(f[2]), ReadList(ReadIndex, f[3]), ReadList(ReadMigration, f[4]), ReadList(ReadSegment, f[5]))
      case (Some(size), Some(indexes), Some(migrations), Some(segments)) => (
        match (Nullable(AsInt, f[6]), ReadList(ReadTable, f[8]), ReadList(ReadView, f[9]))
        case (Some(postgres), Some(tables), Some(views)) =>
          Some(DatabaseSchema(tables, views, indexes, migrations, segments, size, postgres, f[0], f[7]))
        case _ => None)
      case _ => None
  }

  ghost function ReadSchema(v: Value): Option<DatabaseSchema> {
    match Values(v, SCHEMA_KEYS) case None => None case Some(f) => SchemaFrom(f)
  }

  ghost function SchemaFromJson(rules: Rules, v: Value): Option<DatabaseSchema> {
    match ReadSchema(v) case None => None case Some(raw) => MakeSchema(rules, raw)
  }

  // Round trip

  lemma TextsRead(ts: seq<text>)
    ensures ReadTexts(TextsJson(ts)) == Some(ts)
  {
    ListReads(TextJson, AsText, ts);
  }

  lemma ColumnReads(c: ColumnSpec)
    ensures ReadColumn(ColumnJson(c)) == Some(c)
  {
    var f := [Str(c.name), Str(c.kind), Bool(c.nullable), OrNull(TextJson, c.default)];
    KeysApart();
    RecordReads(COLUMN_KEYS, f);
  }

  lemma TableReads(t: TableSpec)
    ensures ReadTable(TableJson(t)) == Some(t)
  {
    forall c | c in t.columns ensures ReadColumn(ColumnJson(c)) == Some(c) { ColumnReads(c); }
    ListReads(ColumnJson, ReadColumn, t.columns);
    TextsRead(t.primaryKey);
    forall u | u in t.uniques ensures ReadTexts(TextsJson(u)) == Some(u) { TextsRead(u); }
    ListReads(TextsJson, ReadTexts, t.uniques);
    assert TableFrom(TableFields(t)) == Some(t);
    KeysApart();
    RecordReads(TABLE_KEYS, TableFields(t));
  }

  lemma KeyReads(k: IndexKeySpec)
    ensures ReadKey(KeyJson(k)) == Some(k)
  {
    RecordReads(KEY_KEYS, [Str(k.column), Bool(k.descending), OrNull(BoolJson, k.nullsFirst)]);
  }

  lemma IndexFieldsRead(i: IndexSpec)
    ensures IndexFrom(IndexFields(i)) == Some(i)
  {
    forall k | k in i.keys ensures ReadKey(KeyJson(k)) == Some(k) { KeyReads(k); }
    ListReads(KeyJson, ReadKey, i.keys);
    TextsRead(i.included);
  }

  lemma IndexReads(i: IndexSpec)
    ensures ReadIndex(IndexJson(i)) == Some(i)
  {
    IndexFieldsRead(i);
    KeysApart();
    RecordReads(INDEX_KEYS, IndexFields(i));
  }

  lemma ViewReads(v: ViewSpec)
    ensures ReadView(ViewJson(v)) == Some(v)
  {
    RecordReads(VIEW_KEYS, [Str(v.name), Str(v.definition), TextsJson(v.dependsOn)]);
    TextsRead(v.dependsOn);
  }

  lemma MigrationReads(m: MigrationSpec)
    ensures ReadMigration(MigrationJson(m)) == Some(m)
  {
    RecordReads(MIGRATION_KEYS, [Str(m.file), OrNull(TextJson, m.sha), Str(m.applied)]);
  }

  lemma SegmentReads(s: CopySegment)
    ensures ReadSegment(SegmentJson(s)) == Some(s)
  {
    TextsRead(s.columns);
    assert SegmentFrom(SegmentFields(s)) == Some(s);
    KeysApart();
    RecordReads(SEGMENT_KEYS, SegmentFields(s));
  }

  lemma KeysApart()
    ensures Distinct(TABLE_KEYS) && Distinct(INDEX_KEYS) && Distinct(SEGMENT_KEYS) && Distinct(SCHEMA_KEYS)
    ensures Distinct(COLUMN_KEYS) && Distinct(KEY_KEYS) && Distinct(VIEW_KEYS) && Distinct(MIGRATION_KEYS)
  {
  }

  /** The lists of a schema, read back one by one. */
  lemma ListsRead(s: DatabaseSchema)
    ensures ReadList(ReadIndex, Arr(Each(IndexJson, s.indexes))) == Some(s.indexes)
    ensures ReadList(ReadMigration, Arr(Each(MigrationJson, s.migrations))) == Some(s.migrations)
    ensures ReadList(ReadSegment, Arr(Each(SegmentJson, s.segments))) == Some(s.segments)
    ensures ReadList(ReadTable, Arr(Each(TableJson, s.tables))) == Some(s.tables)
    ensures ReadList(ReadView, Arr(Each(ViewJson, s.views))) == Some(s.views)
  {
    forall i | i in s.indexes ensures ReadIndex(IndexJson(i)) == Some(i) { IndexReads(i); }
    ListReads(IndexJson, ReadIndex, s.indexes);
    forall m | m in s.migrations ensures ReadMigration(MigrationJson(m)) == Some(m) { MigrationReads(m); }
    ListReads(MigrationJson, ReadMigration, s.migrations);
    forall g | g in s.segments ensures ReadSegment(SegmentJson(g)) == Some(g) { SegmentReads(g); }
    ListReads(SegmentJson, ReadSegment, s.segments);
    forall t | t in s.tables ensures ReadTable(TableJson(t)) == Some(t) { TableReads(t); }
    ListReads(TableJson, ReadTable, s.tables);
    forall v | v in s.views ensures ReadView(ViewJson(v)) == Some(v) { ViewReads(v); }
    ListReads(ViewJson, ReadView, s.views);
  }

  lemma SchemaReads(s: DatabaseSchema)
    ensures ReadSchema(SchemaToJson(s)) == Some(s)
  {
    ListsRead(s);
    assert SchemaFrom(SchemaFields(s)) == Some(s);
    KeysApart();
    RecordReads(SCHEMA_KEYS, SchemaFields(s));
  }

  /** Any constructed schema comes back from its dictionary unchanged. */
  lemma DictRoundTrip(rules: Rules, raw: DatabaseSchema)
    requires TableLaw(rules.tables) && MakeSchema(rules, raw).Some?
    ensures SchemaFromJson(rules, SchemaToJson(MakeSchema(rules, raw).value)) == MakeSchema(rules, raw)
  {
    ConstructionIsIdempotent(rules, raw);
    SchemaReads(MakeSchema(rules, raw).value);
  }
}
