/** `schema.json`: what its specs allow, and how they become JSON and come back. */
module SchemaContract {
  import opened Results
  import opened Text
  import opened Json
  import opened CopySegments
  import opened SqlWords
  import opened SqlLexer
  import opened SqlFragment
  import opened SchemaTypes

  // The closed grammar

  const TABLE_KINDS: set<string> := {"system", "base", "auth"}
  const INDEX_METHODS: set<string> := {"btree", "hash", "gin", "brin", "spgist"}
  const SCALAR_TYPES: set<string> := {
    "text", "integer", "bigint", "smallint", "double precision", "real", "boolean", "timestamp with time zone",
    "jsonb", "json"
  }
  const ALLOWED_DEFAULTS: set<string> := {
    "''::text", "''::character varying", "0", "'0'::double precision", "false", "now()", "'{}'::text[]",
    "'{}'::character varying[]", "'null'::jsonb", "'[]'::jsonb", "'{}'::jsonb", "'{\"lat\": 0, \"lon\": 0}'::jsonb",
    "'base'::character varying"
  }
  const TEXT_TYPE: text := Txt("text")
  const VARCHAR_TYPE: text := Txt("character varying")

  predicate Listed(t: text, words: set<string>) { t in TextSet(words) }

  /** `(digits)`. */
  predicate LengthGroup(tables: Unicode, t: text) {
    |t| >= 3 && t[0] == 40 && t[|t| - 1] == 41 && forall i :: 1 <= i < |t| - 1 ==> tables.isDecimal(t[i])
  }

  predicate Sized(tables: Unicode, base: text, t: text) { base <= t && LengthGroup(tables, t[|base|..]) }

  predicate ArrayType(tables: Unicode, t: text) {
    && |t| >= 2 && t[|t| - 2..] == Txt("[]")
    && var base := t[..|t| - 2];
       base == TEXT_TYPE || base == VARCHAR_TYPE || Sized(tables, TEXT_TYPE, base) || Sized(tables, VARCHAR_TYPE, base)
  }

  predicate ColumnType(tables: Unicode, t: text) {
    Listed(t, SCALAR_TYPES) || Sized(tables, VARCHAR_TYPE, t) || ArrayType(tables, t)
  }

  predicate ColumnOk(tables: Unicode, c: ColumnSpec) {
    IsIdentifier(c.name) && ColumnType(tables, c.kind) && (c.default.Some? ==> Listed(c.default.value, ALLOWED_DEFAULTS))
  }

  /** An array of distinct identifiers. */
  predicate NameList(names: seq<text>) { (forall n :: n in names ==> IsIdentifier(n)) && Distinct(names) }

  predicate Within(names: seq<text>, known: seq<text>) { forall n :: n in names ==> n in known }

  predicate TableOk(tables: Unicode, t: TableSpec) {
    && IsIdentifier(t.name) && Listed(t.kind, TABLE_KINDS)
    && t.columns != [] && (forall c :: c in t.columns ==> ColumnOk(tables, c)) && Distinct(t.ColumnNames())
    && NameList(t.primaryKey) && Within(t.primaryKey, t.ColumnNames())
    && forall u :: u in t.uniques ==> NameList(u) && Within(u, t.ColumnNames())
  }

  predicate IndexOk(i: IndexSpec) {
    && IsIdentifier(i.name) && IsIdentifier(i.table) && Listed(i.access, INDEX_METHODS)
    && i.keys != [] && (forall k :: k in i.keys ==> IsIdentifier(k.column)) && NameList(i.included)
  }

  predicate HexDigest(t: text) {
    |t| == 64 && forall i :: 0 <= i < 64 ==> IsDigit(t[i]) || 97 <= t[i] <= 102
  }

  predicate MigrationOk(m: MigrationSpec) {
    m.file != [] && m.applied != [] && (m.sha.Some? ==> HexDigest(m.sha.value))
  }

  predicate SegmentOk(s: CopySegment) {
    IsIdentifier(s.table) && ValidColumns(s.columns) && HexDigest(s.compressedSha) && HexDigest(s.uncompressedSha)
  }

  // Construction: the checks, with views and predicates replaced by what the SQL check returns

  datatype Rules = Rules(tables: Unicode, words: Words)

  function MakeView(rules: Rules, v: ViewSpec): Option<ViewSpec> {
    match Validated(rules.tables, rules.words, v.definition, true)
    case None => None
    case Some(d) => if IsIdentifier(v.name) && NameList(v.dependsOn) then Some(v.(definition := d)) else None
  }

  function MakeIndex(rules: Rules, i: IndexSpec): Option<IndexSpec> {
    if !IndexOk(i) then None
    else if i.where.None? then Some(i)
    else match Validated(rules.tables, rules.words, i.where.value, false)
         case None => None
         case Some(p) => Some(i.(where := Some(p)))
  }

  function TableNames(s: DatabaseSchema): (r: seq<text>)
    ensures |r| == |s.tables| && forall i :: 0 <= i < |r| ==> r[i] == s.tables[i].name
  {
    seq(|s.tables|, i requires 0 <= i < |s.tables| => s.tables[i].name)
  }

  function ViewNames(s: DatabaseSchema): seq<text> {
    seq(|s.views|, i requires 0 <= i < |s.views| => s.views[i].name)
  }

  function IndexNames(s: DatabaseSchema): seq<text> {
    seq(|s.indexes|, i requires 0 <= i < |s.indexes| => s.indexes[i].name)
  }

  function MigrationFiles(s: DatabaseSchema): seq<text> {
    seq(|s.migrations|, i requires 0 <= i < |s.migrations| => s.migrations[i].file)
  }

  function SegmentTables(s: DatabaseSchema): (r: seq<text>)
    ensures |r| == |s.segments| && forall i :: 0 <= i < |r| ==> r[i] == s.segments[i].table
  {
    seq(|s.segments|, i requires 0 <= i < |s.segments| => s.segments[i].table)
  }

  /** A table of that name has these columns in this order. */
  ghost predicate ColumnsOf(s: DatabaseSchema, table: text, columns: seq<text>) {
    exists t :: t in s.tables && t.name == table && t.ColumnNames() == columns
  }

  ghost predicate IndexFits(s: DatabaseSchema, i: IndexSpec) {
    exists t :: t in s.tables && t.name == i.table && Within(i.included, t.ColumnNames())
                && forall k :: k in i.keys ==> k.column in t.ColumnNames()
  }

  /** Python's `== 1`, which `true` passes too. */
  predicate IsOne(v: Value) { v == Int(1) || v == Bool(true) }

  ghost predicate SchemaOk(s: DatabaseSchema) {
    && IsOne(s.contractVersion) && IsOne(s.systemSchemaVersion)
    && Distinct(TableNames(s)) && Distinct(ViewNames(s)) && Distinct(IndexNames(s)) && Distinct(MigrationFiles(s))
    && (forall v, d :: v in s.views && d in v.dependsOn ==> d in TableNames(s) || d in ViewNames(s))
    && (forall i :: i in s.indexes ==> IndexFits(s, i))
    && SoundLayout(s.segments, s.dataCopySize, DEFAULT_MAX_TOTAL, DEFAULT_MAX_RATIO)
    && Distinct(SegmentTables(s))
    && forall g :: g in s.segments ==> ColumnsOf(s, g.table, g.columns)
  }

  ghost function MakeSchema(rules: Rules, raw: DatabaseSchema): (r: Option<DatabaseSchema>) {
    if && (forall t :: t in raw.tables ==> TableOk(rules.tables, t))
       && (forall v :: v in raw.views ==> MakeView(rules, v).Some?)
       && (forall i :: i in raw.indexes ==> MakeIndex(rules, i).Some?)
       && (forall m :: m in raw.migrations ==> MigrationOk(m))
       && (forall g :: g in raw.segments ==> SegmentOk(g))
    then
      var s := raw.(
        views := seq(|raw.views|, i requires 0 <= i < |raw.views| => MakeView(rules, raw.views[i]).value),
        indexes := seq(|raw.indexes|, i requires 0 <= i < |raw.indexes| => MakeIndex(rules, raw.indexes[i]).value));
      if SchemaOk(s) then Some(s) else None
    else None
  }

  lemma ViewFixed(rules: Rules, raw: ViewSpec)
    requires TableLaw(rules.tables) && MakeView(rules, raw).Some?
    ensures MakeView(rules, MakeView(rules, raw).value) == MakeView(rules, raw)
  {
    ValidationIsIdempotent(rules.tables, rules.words, raw.definition, true);
  }

  lemma IndexFixed(rules: Rules, raw: IndexSpec)
    requires TableLaw(rules.tables) && MakeIndex(rules, raw).Some?
    ensures MakeIndex(rules, MakeIndex(rules, raw).value) == MakeIndex(rules, raw)
  {
    if raw.where.Some? { ValidationIsIdempotent(rules.tables, rules.words, raw.where.value, false); }
  }

  /** Views and predicates that pass their check unchanged. */
  ghost predicate Captured(rules: Rules, s: DatabaseSchema) {
    && (forall v :: v in s.views ==> MakeView(rules, v) == Some(v))
    && (forall i :: i in s.indexes ==> MakeIndex(rules, i) == Some(i))
  }

  /** Every check passes again on a constructed schema, and gives back the captured text. */
  lemma ConstructionIsIdempotent(rules: Rules, raw: DatabaseSchema)
    requires TableLaw(rules.tables) && MakeSchema(rules, raw).Some?
    ensures Captured(rules, MakeSchema(rules, raw).value)
    ensures MakeSchema(rules, MakeSchema(rules, raw).value) == MakeSchema(rules, raw)
  {
    var s := MakeSchema(rules, raw).value;
    forall i | 0 <= i < |s.views| ensures MakeView(rules, s.views[i]) == Some(s.views[i]) {
      assert raw.views[i] in raw.views;
      ViewFixed(rules, raw.views[i]);
    }
    forall i | 0 <= i < |s.indexes| ensures MakeIndex(rules, s.indexes[i]) == Some(s.indexes[i]) {
      assert raw.indexes[i] in raw.indexes;
      IndexFixed(rules, raw.indexes[i]);
    }
    CapturedIsFixed(rules, s);
  }

  lemma CapturedIsFixed(rules: Rules, s: DatabaseSchema)
    requires Captured(rules, s) && SchemaOk(s)
    requires forall t :: t in s.tables ==> TableOk(rules.tables, t)
    requires forall m :: m in s.migrations ==> MigrationOk(m)
    requires forall g :: g in s.segments ==> SegmentOk(g)
    ensures MakeSchema(rules, s) == Some(s)
  {
    var views := seq(|s.views|, i requires 0 <= i < |s.views| => (assert s.views[i] in s.views; MakeView(rules, s.views[i]).value));
    var indexes := seq(|s.indexes|, i requires 0 <= i < |s.indexes| => (assert s.indexes[i] in s.indexes; MakeIndex(rules, s.indexes[i]).value));
    forall i | 0 <= i < |views| ensures views[i] == s.views[i] { assert s.views[i] in s.views; }
    forall i | 0 <= i < |indexes| ensures indexes[i] == s.indexes[i] { assert s.indexes[i] in s.indexes; }
    assert views == s.views && indexes == s.indexes;
    assert s.(views := views, indexes := indexes) == s;
  }
}
