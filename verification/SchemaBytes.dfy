/** The canonical bytes of `schema.json`: loading them gives the schema back. */
module SchemaBytes {
  import opened Results
  import opened Bytes
  import opened Text
  import opened Json
  import opened JsonParser
  import opened JsonRecords
  import opened CopySegments
  import opened SqlLexer
  import opened SchemaTypes
  import opened SchemaContract
  import opened SchemaJson

  predicate AllAscii(t: text) { forall i :: 0 <= i < |t| ==> 0 <= t[i] < 128 }

  /** Unicode: a text without characters beyond ASCII is in NFC. */
  ghost predicate NfcKeepsAscii(nfc: text -> text) {
    forall t: text {:trigger nfc(t)} :: AllAscii(t) ==> nfc(t) == t
  }

  /** Unicode: no character disappears. */
  ghost predicate NfcKeepsInk(nfc: text -> text) {
    forall t: text {:trigger nfc(t)} :: nfc(t) == [] ==> t == []
  }

  predicate AsciiString(s: string) { forall i :: 0 <= i < |s| ==> s[i] as int < 128 }

  /** A string that normalisation leaves alone and UTF-8 can encode. */
  ghost predicate Stable(nfc: text -> text, t: text) { nfc(t) == t && AllScalar(t) }

  predicate InRange(i: int) { INT_MIN <= i <= INT_MAX }

  ghost predicate StorableColumn(nfc: text -> text, c: ColumnSpec) {
    Stable(nfc, c.kind) && (c.default.Some? ==> Stable(nfc, c.default.value))
  }

  ghost predicate StorableTable(nfc: text -> text, t: TableSpec) {
    Stable(nfc, t.kind) && forall c :: c in t.columns ==> StorableColumn(nfc, c)
  }

  ghost predicate StorableIndex(nfc: text -> text, i: IndexSpec) {
    Stable(nfc, i.access) && (i.where.Some? ==> Stable(nfc, i.where.value))
  }

  ghost predicate StorableMigration(nfc: text -> text, m: MigrationSpec) {
    Stable(nfc, m.file) && Stable(nfc, m.applied)
  }

  predicate StorableSegment(g: CopySegment) {
    InRange(g.offset) && InRange(g.compressedSize) && InRange(g.uncompressedSize) && InRange(g.rowCount)
  }

  /** The integers of the schema fit, and its free strings are in NFC. Names and digests are ASCII. */
  ghost predicate Storable(nfc: text -> text, s: DatabaseSchema) {
    && InRange(s.dataCopySize) && (s.sourcePostgresVersion.Some? ==> InRange(s.sourcePostgresVersion.value))
    && (forall t :: t in s.tables ==> StorableTable(nfc, t)) && (forall g :: g in s.segments ==> StorableSegment(g))
    && (forall v :: v in s.views ==> Stable(nfc, v.definition))
    && (forall i :: i in s.indexes ==> StorableIndex(nfc, i))
    && (forall m :: m in s.migrations ==> StorableMigration(nfc, m))
  }

  lemma KeysAreAscii()
    ensures forall k :: k in COLUMN_KEYS || k in TABLE_KEYS || k in KEY_KEYS ==> AsciiString(k)
    ensures forall k :: k in VIEW_KEYS || k in MIGRATION_KEYS || k in COPY_KEYS ==> AsciiString(k)
  {
  }

  lemma MoreKeysAreAscii()
    ensures forall k :: k in INDEX_KEYS || k in SEGMENT_KEYS ==> AsciiString(k)
  {
    IndexKeysAreAscii();
    SegmentKeysAreAscii();
  }

  lemma IndexKeysAreAscii()
    ensures forall k :: k in INDEX_KEYS ==> AsciiString(k)
  {
  }

  lemma SegmentKeysAreAscii()
    ensures forall k :: k in SEGMENT_KEYS ==> AsciiString(k)
  {
  }

  lemma SchemaKeysAreAscii()
    ensures forall k :: k in SCHEMA_KEYS ==> AsciiString(k)
  {
    FirstKeysAreAscii();
    LastKeysAreAscii();
    assert forall k :: k in SCHEMA_KEYS ==> k in SCHEMA_KEYS[..5] || k in SCHEMA_KEYS[5..];
  }

  lemma FirstKeysAreAscii()
    ensures forall k :: k in SCHEMA_KEYS[..5] ==> AsciiString(k)
  {
  }

  lemma LastKeysAreAscii()
    ensures forall k :: k in SCHEMA_KEYS[5..] ==> AsciiString(k)
  {
  }

  lemma ZlibIsAscii()
    ensures AllAscii(ZLIB)
  {
  }

  /** The laws of NFC this file uses. */
  ghost predicate Nfc(nfc: text -> text) { NfcLaw(nfc) && NfcKeepsAscii(nfc) && NfcKeepsInk(nfc) }

  lemma AsciiIsStable(nfc: text -> text, t: text)
    requires Nfc(nfc) && AllAscii(t)
    ensures Stable(nfc, t)
  {
  }

  lemma IdentifierStable(nfc: text -> text, t: text)
    requires Nfc(nfc) && IsIdentifier(t)
    ensures Stable(nfc, t)
  {
    AsciiIsStable(nfc, t);
  }

  ghost predicate AllNormal(nfc: text -> text, values: seq<Value>) {
    forall i :: 0 <= i < |values| ==> Normal(nfc, values[i])
  }

  lemma RecordIsNormal(nfc: text -> text, keys: seq<string>, values: seq<Value>)
    requires Nfc(nfc) && |keys| == |values| && AllNormal(nfc, values)
    requires forall k :: k in keys ==> AsciiString(k)
    ensures Normal(nfc, Record(keys, values))
  {
    forall t | t in KeySet(keys) ensures Stable(nfc, t) {
      var k :| k in keys && Txt(k) == t;
      assert forall i :: 0 <= i < |t| ==> t[i] == k[i] as int;
      AsciiIsStable(nfc, t);
    }
  }

  lemma TextsAreNormal(nfc: text -> text, ts: seq<text>)
    requires Nfc(nfc) && forall t :: t in ts ==> IsIdentifier(t)
    ensures Normal(nfc, TextsJson(ts))
  {
    forall i | 0 <= i < |ts| ensures Normal(nfc, Str(ts[i])) {
      assert ts[i] in ts;
      IdentifierStable(nfc, ts[i]);
    }
  }

  lemma ListIsNormal<T(!new)>(nfc: text -> text, g: T -> Value, xs: seq<T>)
    requires forall x :: x in xs ==> Normal(nfc, g(x))
    ensures Normal(nfc, Arr(Each(g, xs)))
  {
    forall i | 0 <= i < |xs| ensures Normal(nfc, g(xs[i])) { assert xs[i] in xs; }
  }

  lemma ColumnIsNormal(nfc: text -> text, c: ColumnSpec)
    requires Nfc(nfc) && IsIdentifier(c.name) && StorableColumn(nfc, c)
    ensures Normal(nfc, ColumnJson(c))
  {
    IdentifierStable(nfc, c.name);
    KeysAreAscii();
    RecordIsNormal(nfc, COLUMN_KEYS, [Str(c.name), Str(c.kind), Bool(c.nullable), OrNull(TextJson, c.default)]);
  }

  lemma TableIsNormal(nfc: text -> text, tables: Unicode, t: TableSpec)
    requires Nfc(nfc) && TableOk(tables, t) && StorableTable(nfc, t)
    ensures Normal(nfc, TableJson(t))
  {
    IdentifierStable(nfc, t.name);
    forall c | c in t.columns ensures Normal(nfc, ColumnJson(c)) { ColumnIsNormal(nfc, c); }
    ListIsNormal(nfc, ColumnJson, t.columns);
    TextsAreNormal(nfc, t.primaryKey);
    forall u | u in t.uniques ensures Normal(nfc, TextsJson(u)) { TextsAreNormal(nfc, u); }
    ListIsNormal(nfc, TextsJson, t.uniques);
    KeysAreAscii();
    RecordIsNormal(nfc, TABLE_KEYS, TableFields(t));
  }

  lemma KeyIsNormal(nfc: text -> text, k: IndexKeySpec)
    requires Nfc(nfc) && IsIdentifier(k.column)
    ensures Normal(nfc, KeyJson(k))
  {
    IdentifierStable(nfc, k.column);
    KeysAreAscii();
    RecordIsNormal(nfc, KEY_KEYS, [Str(k.column), Bool(k.descending), OrNull(BoolJson, k.nullsFirst)]);
  }

  lemma IndexIsNormal(nfc: text -> text, i: IndexSpec)
    requires Nfc(nfc) && IndexOk(i) && StorableIndex(nfc, i)
    ensures Normal(nfc, IndexJson(i))
  {
    IdentifierStable(nfc, i.name);
    IdentifierStable(nfc, i.table);
    forall k | k in i.keys ensures Normal(nfc, KeyJson(k)) { KeyIsNormal(nfc, k); }
    ListIsNormal(nfc, KeyJson, i.keys);
    TextsAreNormal(nfc, i.included);
    MoreKeysAreAscii();
    RecordIsNormal(nfc, INDEX_KEYS, IndexFields(i));
  }

  lemma ViewIsNormal(nfc: text -> text, v: ViewSpec)
    requires Nfc(nfc) && IsIdentifier(v.name) && NameList(v.dependsOn) && Stable(nfc, v.definition)
    ensures Normal(nfc, ViewJson(v))
  {
    IdentifierStable(nfc, v.name);
    TextsAreNormal(nfc, v.dependsOn);
    KeysAreAscii();
    RecordIsNormal(nfc, VIEW_KEYS, [Str(v.name), Str(v.definition), TextsJson(v.dependsOn)]);
  }

  lemma MigrationIsNormal(nfc: text -> text, m: MigrationSpec)
    requires Nfc(nfc) && MigrationOk(m) && StorableMigration(nfc, m)
    ensures Normal(nfc, MigrationJson(m))
  {
    if m.sha.Some? { AsciiIsStable(nfc, m.sha.value); }
    KeysAreAscii();
    RecordIsNormal(nfc, MIGRATION_KEYS, [Str(m.file), OrNull(TextJson, m.sha), Str(m.applied)]);
  }

  lemma SegmentIsNormal(nfc: text -> text, g: CopySegment)
    requires Nfc(nfc) && SegmentOk(g) && StorableSegment(g)
    ensures Normal(nfc, SegmentJson(g))
  {
    IdentifierStable(nfc, g.table);
    TextsAreNormal(nfc, g.columns);
    AsciiIsStable(nfc, g.compressedSha);
    AsciiIsStable(nfc, g.uncompressedSha);
    MoreKeysAreAscii();
    ZlibIsAscii();
    AsciiIsStable(nfc, ZLIB);
    RecordIsNormal(nfc, SEGMENT_KEYS, SegmentFields(g));
  }

  lemma CopySettingsAreNormal(nfc: text -> text)
    requires Nfc(nfc)
    ensures Normal(nfc, CopySettings())
  {
    AsciiIsStable(nfc, Txt("text"));
    AsciiIsStable(nfc, Txt("UTF8"));
    AsciiIsStable(nfc, Txt("ISO"));
    AsciiIsStable(nfc, Txt("UTC"));
    AsciiIsStable(nfc, Txt("postgres"));
    KeysAreAscii();
    RecordIsNormal(nfc, COPY_KEYS,
                   [Str(Txt("text")), Str(Txt("UTF8")), Str(Txt("ISO")), Str(Txt("UTC")), Str(Txt("postgres"))]);
  }

  lemma TablesAreNormal(nfc: text -> text, tables: Unicode, s: DatabaseSchema)
    requires Nfc(nfc) && Storable(nfc, s) && forall t :: t in s.tables ==> TableOk(tables, t)
    ensures Normal(nfc, Arr(Each(TableJson, s.tables)))
  {
    forall t | t in s.tables ensures Normal(nfc, TableJson(t)) { TableIsNormal(nfc, tables, t); }
    ListIsNormal(nfc, TableJson, s.tables);
  }

  lemma ViewsAreNormal(nfc: text -> text, rules: Rules, s: DatabaseSchema)
    requires Nfc(nfc) && Storable(nfc, s) && Captured(rules, s)
    ensures Normal(nfc, Arr(Each(ViewJson, s.views))) && Normal(nfc, Arr(Each(IndexJson, s.indexes)))
  {
    forall v | v in s.views ensures Normal(nfc, ViewJson(v)) {
      assert MakeView(rules, v).Some?;
      ViewIsNormal(nfc, v);
    }
    ListIsNormal(nfc, ViewJson, s.views);
    forall i | i in s.indexes ensures Normal(nfc, IndexJson(i)) {
      assert MakeIndex(rules, i).Some?;
      IndexIsNormal(nfc, i);
    }
    ListIsNormal(nfc, IndexJson, s.indexes);
  }

  lemma FilesAreNormal(nfc: text -> text, s: DatabaseSchema)
    requires Nfc(nfc) && Storable(nfc, s)
    requires (forall m :: m in s.migrations ==> MigrationOk(m)) && (forall g :: g in s.segments ==> SegmentOk(g))
    ensures Normal(nfc, Arr(Each(MigrationJson, s.migrations))) && Normal(nfc, Arr(Each(SegmentJson, s.segments)))
  {
    forall m | m in s.migrations ensures Normal(nfc, MigrationJson(m)) { MigrationIsNormal(nfc, m); }
    ListIsNormal(nfc, MigrationJson, s.migrations);
    forall g | g in s.segments ensures Normal(nfc, SegmentJson(g)) { SegmentIsNormal(nfc, g); }
    ListIsNormal(nfc, SegmentJson, s.segments);
  }

  lemma FieldsAreNormal(nfc: text -> text, s: DatabaseSchema)
    requires Storable(nfc, s) && IsOne(s.contractVersion) && IsOne(s.systemSchemaVersion) && Normal(nfc, CopySettings())
    requires Normal(nfc, Arr(Each(TableJson, s.tables)))
    requires Normal(nfc, Arr(Each(ViewJson, s.views))) && Normal(nfc, Arr(Each(IndexJson, s.indexes)))
    requires Normal(nfc, Arr(Each(MigrationJson, s.migrations))) && Normal(nfc, Arr(Each(SegmentJson, s.segments)))
    ensures AllNormal(nfc, SchemaFields(s))
  {
    assert Normal(nfc, OrNull(IntJson, s.sourcePostgresVersion));
  }

  lemma SchemaIsNormal(nfc: text -> text, rules: Rules, s: DatabaseSchema)
    requires Nfc(nfc) && MakeSchema(rules, s) == Some(s) && Captured(rules, s) && Storable(nfc, s)
    ensures Normal(nfc, SchemaToJson(s))
  {
    TablesAreNormal(nfc, rules.tables, s);
    ViewsAreNormal(nfc, rules, s);
    FilesAreNormal(nfc, s);
    CopySettingsAreNormal(nfc);
    FieldsAreNormal(nfc, s);
    SchemaKeysAreAscii();
    RecordIsNormal(nfc, SCHEMA_KEYS, SchemaFields(s));
  }

  ghost function ToCanonicalBytes(nfc: text -> text, s: DatabaseSchema): Result<bytes, JsonError>
    requires NfcLaw(nfc)
  {
    CanonicalBytes(nfc, SchemaToJson(s))
  }

  ghost function FromCanonicalBytes(nfc: text -> text, rules: Rules, payload: bytes): Option<DatabaseSchema>
    requires NfcLaw(nfc)
  {
    match ParseCanonical(nfc, payload) case Err(_) => None case Ok(v) => SchemaFromJson(rules, v)
  }

  /** A constructed schema whose strings are in NFC has canonical bytes, and loading them gives an
      equal schema: every check that ran when it was captured passes again with the same text. */
  lemma SchemaRoundTrip(nfc: text -> text, rules: Rules, raw: DatabaseSchema)
    requires Nfc(nfc) && TableLaw(rules.tables) && MakeSchema(rules, raw).Some?
    requires Storable(nfc, MakeSchema(rules, raw).value)
    ensures var s := MakeSchema(rules, raw).value;
            && ToCanonicalBytes(nfc, s).Ok?
            && FromCanonicalBytes(nfc, rules, ToCanonicalBytes(nfc, s).value) == Some(s)
  {
    var s := MakeSchema(rules, raw).value;
    ConstructionIsIdempotent(rules, raw);
    SchemaIsNormal(nfc, rules, s);
    NormalIsFixed(nfc, SchemaToJson(s));
    CanonicalRoundTrip(nfc, SchemaToJson(s));
    SchemaReads(s);
  }

  /** The completeness rule of a restorable archive. */
  predicate EveryTableExported(s: DatabaseSchema) {
    (forall t :: t in TableNames(s) ==> t in SegmentTables(s)) && (forall g :: g in SegmentTables(s) ==> g in TableNames(s))
  }

  ghost function FromArchiveBytes(nfc: text -> text, rules: Rules, payload: bytes): Option<DatabaseSchema>
    requires NfcLaw(nfc)
  {
    match FromCanonicalBytes(nfc, rules, payload)
    case None => None
    case Some(s) => if EveryTableExported(s) then Some(s) else None
  }

  /** The one segment of a table, with the table's columns. */
  ghost predicate SegmentFor(s: DatabaseSchema, t: TableSpec, j: int) {
    0 <= j < |s.segments| && s.segments[j].table == t.name && s.segments[j].columns == t.ColumnNames()
  }

  ghost predicate HasSegment(s: DatabaseSchema, t: TableSpec) { exists j :: SegmentFor(s, t, j) }

  lemma SameNameSameTable(s: DatabaseSchema, t: TableSpec, u: TableSpec)
    requires Distinct(TableNames(s)) && t in s.tables && u in s.tables && t.name == u.name
    ensures t == u
  {
    var i :| 0 <= i < |s.tables| && s.tables[i] == t;
    var k :| 0 <= k < |s.tables| && s.tables[k] == u;
    assert TableNames(s)[i] == TableNames(s)[k];
  }

  lemma SegmentOfTable(s: DatabaseSchema, t: TableSpec)
    requires Distinct(TableNames(s)) && t in s.tables && t.name in SegmentTables(s)
    requires forall g :: g in s.segments ==> ColumnsOf(s, g.table, g.columns)
    ensures HasSegment(s, t)
  {
    var j :| 0 <= j < |SegmentTables(s)| && SegmentTables(s)[j] == t.name;
    var g := s.segments[j];
    assert g in s.segments;
    var u :| u in s.tables && u.name == g.table && u.ColumnNames() == g.columns;
    SameNameSameTable(s, t, u);
    assert SegmentFor(s, t, j);
  }

  /** In an accepted archive the segments and the tables correspond one to one, with the same
      columns in the same order. */
  lemma SegmentsCoverTables(s: DatabaseSchema)
    requires SchemaOk(s) && EveryTableExported(s)
    ensures |s.segments| == |s.tables|
    ensures forall t :: t in s.tables ==> HasSegment(s, t)
    ensures forall j, k :: 0 <= j < k < |s.segments| ==> s.segments[j].table != s.segments[k].table
  {
    SameLength(TableNames(s), SegmentTables(s));
    forall t | t in s.tables ensures HasSegment(s, t) {
      var i :| 0 <= i < |s.tables| && s.tables[i] == t;
      assert TableNames(s)[i] in TableNames(s);
      SegmentOfTable(s, t);
    }
    forall j, k | 0 <= j < k < |s.segments| ensures s.segments[j].table != s.segments[k].table {
      assert SegmentTables(s)[j] != SegmentTables(s)[k];
    }
  }

  lemma {:induction false} DistinctCount(a: seq<text>)
    requires Distinct(a)
    ensures |set x | x in a| == |a|
  {
    if a != [] {
      var n := |a| - 1;
      DistinctCount(a[..n]);
      assert (set x | x in a) == (set x | x in a[..n]) + {a[n]};
    }
  }

  lemma SameLength(a: seq<text>, b: seq<text>)
    requires Distinct(a) && Distinct(b) && (forall x :: x in a ==> x in b) && (forall x :: x in b ==> x in a)
    ensures |a| == |b|
  {
    DistinctCount(a);
    DistinctCount(b);
    assert (set x | x in a) == (set x | x in b);
  }
}
