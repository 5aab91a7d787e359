/** What a stored schema comes back as: itself with every free string in NFC. */
module SchemaForms {
  import opened Results
  import opened Bytes
  import opened Text
  import opened Json
  import opened JsonParser
  import opened JsonRecords
  import opened CopySegments
  import opened SqlLexer
  import opened SchemaTypes
  import opened SchemaContract
  import opened SchemaJson
  import opened SchemaBytes

  function MapText(nfc: text -> text, t: Option<text>): Option<text> {
    match t case None => None case Some(x) => Some(nfc(x))
  }

  function ComposedColumn(nfc: text -> text, c: ColumnSpec): ColumnSpec {
    c.(kind := nfc(c.kind), default := MapText(nfc, c.default))
  }

  function ComposedTable(nfc: text -> text, t: TableSpec): TableSpec {
    t.(columns := seq(|t.columns|, i requires 0 <= i < |t.columns| => ComposedColumn(nfc, t.columns[i])))
  }

  function ComposedView(nfc: text -> text, v: ViewSpec): ViewSpec { v.(definition := nfc(v.definition)) }

  function ComposedIndex(nfc: text -> text, i: IndexSpec): IndexSpec { i.(where := MapText(nfc, i.where)) }

  function ComposedMigration(nfc: text -> text, m: MigrationSpec): MigrationSpec {
    m.(file := nfc(m.file), applied := nfc(m.applied))
  }

  /** The schema with its free strings in NFC; every other string of a constructed schema is ASCII. */
  function Composed(nfc: text -> text, s: DatabaseSchema): DatabaseSchema {
    s.(tables := seq(|s.tables|, i requires 0 <= i < |s.tables| => ComposedTable(nfc, s.tables[i])),
       views := seq(|s.views|, i requires 0 <= i < |s.views| => ComposedView(nfc, s.views[i])),
       indexes := seq(|s.indexes|, i requires 0 <= i < |s.indexes| => ComposedIndex(nfc, s.indexes[i])),
       migrations := seq(|s.migrations|, i requires 0 <= i < |s.migrations| => ComposedMigration(nfc, s.migrations[i])))
  }

  // The normal form of a schema's JSON is the JSON of the composed schema

  /** `v` normalises to `n`, or is refused because `n` is no value that can be stored. */
  ghost predicate Turns(nfc: text -> text, v: Value, n: Value) {
    if Normal(nfc, n) then Normalize(nfc, v) == Ok(n) else Normalize(nfc, v).Err?
  }

  lemma TextTurns(nfc: text -> text, t: text)
    requires NfcLaw(nfc)
    ensures Turns(nfc, Str(t), Str(nfc(t)))
  {
  }

  lemma NormalTurns(nfc: text -> text, v: Value)
    requires Normal(nfc, v)
    ensures Turns(nfc, v, v)
  {
    NormalIsFixed(nfc, v);
  }

  lemma ListTurns(nfc: text -> text, vs: seq<Value>, ns: seq<Value>)
    requires |vs| == |ns| && forall i :: 0 <= i < |vs| ==> Turns(nfc, vs[i], ns[i])
    ensures Turns(nfc, Arr(vs), Arr(ns))
  {
    if Normal(nfc, Arr(ns)) {
      forall i | 0 <= i < |vs| ensures Normalize(nfc, vs[i]) == Ok(ns[i]) { assert Turns(nfc, vs[i], ns[i]); }
      assert Normalize(nfc, Arr(vs)).value.items == ns;
    } else {
      var i :| 0 <= i < |ns| && !Normal(nfc, ns[i]);
      assert Turns(nfc, vs[i], ns[i]);
    }
  }

  lemma FieldsNormalize(nfc: text -> text, vs: map<text, Value>, ns: map<text, Value>)
    requires vs.Keys == ns.Keys && (forall k :: k in vs ==> nfc(k) == k && AllScalar(k))
    requires forall k :: k in vs ==> Normalize(nfc, vs[k]) == Ok(ns[k])
    ensures Normalize(nfc, Obj(vs)) == Ok(Obj(ns))
  {
    assert !KeysCollide(nfc, vs);
    assert NormalFields(nfc, Obj(vs)) == ns;
  }

  lemma FieldRefused(nfc: text -> text, vs: map<text, Value>, k: text)
    requires k in vs && Normalize(nfc, vs[k]).Err?
    ensures Normalize(nfc, Obj(vs)).Err?
  {
  }

  lemma FieldsTurn(nfc: text -> text, vs: map<text, Value>, ns: map<text, Value>)
    requires vs.Keys == ns.Keys && (forall k :: k in vs ==> Stable(nfc, k) && Turns(nfc, vs[k], ns[k]))
    ensures Turns(nfc, Obj(vs), Obj(ns))
  {
    if Normal(nfc, Obj(ns)) {
      forall k | k in vs ensures Normalize(nfc, vs[k]) == Ok(ns[k]) { assert Turns(nfc, vs[k], ns[k]); }
      FieldsNormalize(nfc, vs, ns);
    } else {
      forall k | k in ns ensures Stable(nfc, k) { assert k in vs; }
      var k :| k in ns && !Normal(nfc, ns[k]);
      assert Turns(nfc, vs[k], ns[k]);
      FieldRefused(nfc, vs, k);
    }
  }

  lemma RecordTurns(nfc: text -> text, keys: seq<string>, vs: seq<Value>, ns: seq<Value>)
    requires Nfc(nfc) && |keys| == |vs| == |ns| && (forall k :: k in keys ==> AsciiString(k))
    requires forall i :: 0 <= i < |vs| ==> Turns(nfc, vs[i], ns[i])
    ensures Turns(nfc, Record(keys, vs), Record(keys, ns))
  {
    var fs, gs := Record(keys, vs).fields, Record(keys, ns).fields;
    forall t | t in fs ensures Stable(nfc, t) && Turns(nfc, fs[t], gs[t]) {
      var i := Place(keys, t);
      assert keys[i] in keys;
      assert forall j :: 0 <= j < |t| ==> t[j] == keys[i][j] as int;
      AsciiIsStable(nfc, t);
    }
    FieldsTurn(nfc, fs, gs);
  }

  lemma ListedIsAscii(t: text, words: set<string>)
    requires Listed(t, words) && forall w :: w in words ==> AsciiString(w)
    ensures AllAscii(t)
  {
    var w :| w in words && Txt(w) == t;
    assert forall i :: 0 <= i < |t| ==> t[i] == w[i] as int;
  }

  lemma ListsAreAscii()
    ensures forall w :: w in TABLE_KINDS || w in INDEX_METHODS ==> AsciiString(w)
  {
  }

  lemma WordTurns(nfc: text -> text, t: text, words: set<string>)
    requires Nfc(nfc) && Listed(t, words) && forall w :: w in words ==> AsciiString(w)
    ensures Turns(nfc, Str(t), Str(t))
  {
    ListedIsAscii(t, words);
    AsciiIsStable(nfc, t);
  }

  function ColumnFields(c: ColumnSpec): seq<Value> {
    [Str(c.name), Str(c.kind), Bool(c.nullable), OrNull(TextJson, c.default)]
  }

  lemma ColumnTurns(nfc: text -> text, tables: Unicode, c: ColumnSpec)
    requires Nfc(nfc) && ColumnOk(tables, c)
    ensures Turns(nfc, ColumnJson(c), ColumnJson(ComposedColumn(nfc, c)))
  {
    IdentifierStable(nfc, c.name);
    TextTurns(nfc, c.kind);
    if c.default.Some? { TextTurns(nfc, c.default.value); }
    KeysAreAscii();
    RecordTurns(nfc, COLUMN_KEYS, ColumnFields(c), ColumnFields(ComposedColumn(nfc, c)));
  }

  lemma ColumnsTurn(nfc: text -> text, tables: Unicode, cs: seq<ColumnSpec>, ds: seq<ColumnSpec>)
    requires Nfc(nfc) && (forall c :: c in cs ==> ColumnOk(tables, c))
    requires |ds| == |cs| && forall i :: 0 <= i < |cs| ==> ds[i] == ComposedColumn(nfc, cs[i])
    ensures Turns(nfc, Arr(Each(ColumnJson, cs)), Arr(Each(ColumnJson, ds)))
  {
    forall i | 0 <= i < |cs| ensures Turns(nfc, ColumnJson(cs[i]), ColumnJson(ds[i])) {
      assert cs[i] in cs;
      ColumnTurns(nfc, tables, cs[i]);
    }
    ListTurns(nfc, Each(ColumnJson, cs), Each(ColumnJson, ds));
  }

  lemma NamesTurn(nfc: text -> text, names: seq<text>)
    requires Nfc(nfc) && forall n :: n in names ==> IsIdentifier(n)
    ensures Turns(nfc, TextsJson(names), TextsJson(names))
  {
    TextsAreNormal(nfc, names);
    NormalTurns(nfc, TextsJson(names));
  }

  lemma UniquesTurn(nfc: text -> text, us: seq<seq<text>>)
    requires Nfc(nfc) && forall u :: u in us ==> NameList(u)
    ensures Turns(nfc, Arr(Each(TextsJson, us)), Arr(Each(TextsJson, us)))
  {
    forall u | u in us ensures Normal(nfc, TextsJson(u)) { TextsAreNormal(nfc, u); }
    ListIsNormal(nfc, TextsJson, us);
    NormalTurns(nfc, Arr(Each(TextsJson, us)));
  }

  /** Field by field. */
  ghost predicate AllTurn(nfc: text -> text, vs: seq<Value>, ns: seq<Value>) {
    |vs| == |ns| && forall i :: 0 <= i < |vs| ==> Turns(nfc, vs[i], ns[i])
  }

  lemma FiveTurn(nfc: text -> text, a: Value, b: Value, c: Value, d: Value, e: Value,
                 v: Value, w: Value, x: Value, y: Value, z: Value)
    requires Turns(nfc, a, v) && Turns(nfc, b, w) && Turns(nfc, c, x) && Turns(nfc, d, y) && Turns(nfc, e, z)
    ensures AllTurn(nfc, [a, b, c, d, e], [v, w, x, y, z])
  {
  }

  lemma AllTurnConcat(nfc: text -> text, vs: seq<Value>, ns: seq<Value>, ws: seq<Value>, ms: seq<Value>)
    requires AllTurn(nfc, vs, ns) && AllTurn(nfc, ws, ms)
    ensures AllTurn(nfc, vs + ws, ns + ms)
  {
  }

  lemma TablePartsTurn(nfc: text -> text, tables: Unicode, t: TableSpec)
    requires Nfc(nfc) && TableOk(tables, t)
    ensures Turns(nfc, Str(t.name), Str(t.name)) && Turns(nfc, Str(t.kind), Str(t.kind))
    ensures Turns(nfc, Arr(Each(ColumnJson, t.columns)), Arr(Each(ColumnJson, ComposedTable(nfc, t).columns)))
    ensures Turns(nfc, TextsJson(t.primaryKey), TextsJson(t.primaryKey))
    ensures Turns(nfc, Arr(Each(TextsJson, t.uniques)), Arr(Each(TextsJson, t.uniques)))
  {
    IdentifierStable(nfc, t.name);
    ListsAreAscii();
    WordTurns(nfc, t.kind, TABLE_KINDS);
    ColumnsTurn(nfc, tables, t.columns, ComposedTable(nfc, t).columns);
    NamesTurn(nfc, t.primaryKey);
    UniquesTurn(nfc, t.uniques);
  }

  lemma TableFieldsTurn(nfc: text -> text, tables: Unicode, t: TableSpec)
    requires Nfc(nfc) && TableOk(tables, t)
    ensures AllTurn(nfc, TableFields(t), TableFields(ComposedTable(nfc, t)))
  {
    TablePartsTurn(nfc, tables, t);
    var name, kind, pk, uniques := Str(t.name), Str(t.kind), TextsJson(t.primaryKey), Arr(Each(TextsJson, t.uniques));
    FiveTurn(nfc, name, kind, Arr(Each(ColumnJson, t.columns)), pk, uniques,
             name, kind, Arr(Each(ColumnJson, ComposedTable(nfc, t).columns)), pk, uniques);
  }

  lemma TableTurns(nfc: text -> text, tables: Unicode, t: TableSpec)
    requires Nfc(nfc) && TableOk(tables, t)
    ensures Turns(nfc, TableJson(t), TableJson(ComposedTable(nfc, t)))
  {
    TableFieldsTurn(nfc, tables, t);
    KeysAreAscii();
    RecordTurns(nfc, TABLE_KEYS, TableFields(t), TableFields(ComposedTable(nfc, t)));
  }

  lemma ViewTurns(nfc: text -> text, v: ViewSpec)
    requires Nfc(nfc) && IsIdentifier(v.name) && NameList(v.dependsOn)
    ensures Turns(nfc, ViewJson(v), ViewJson(ComposedView(nfc, v)))
  {
    IdentifierStable(nfc, v.name);
    TextTurns(nfc, v.definition);
    NamesTurn(nfc, v.dependsOn);
    KeysAreAscii();
    RecordTurns(nfc, VIEW_KEYS, [Str(v.name), Str(v.definition), TextsJson(v.dependsOn)],
                [Str(v.name), Str(nfc(v.definition)), TextsJson(v.dependsOn)]);
  }

  lemma IndexPartsTurn(nfc: text -> text, i: IndexSpec)
    requires Nfc(nfc) && IndexOk(i)
    ensures Turns(nfc, Str(i.name), Str(i.name)) && Turns(nfc, Str(i.table), Str(i.table))
    ensures Turns(nfc, Str(i.access), Str(i.access)) && Turns(nfc, TextsJson(i.included), TextsJson(i.included))
    ensures Turns(nfc, Arr(Each(KeyJson, i.keys)), Arr(Each(KeyJson, i.keys)))
    ensures Turns(nfc, OrNull(TextJson, i.where), OrNull(TextJson, MapText(nfc, i.where)))
  {
    IdentifierStable(nfc, i.name);
    IdentifierStable(nfc, i.table);
    ListsAreAscii();
    WordTurns(nfc, i.access, INDEX_METHODS);
    forall k | k in i.keys ensures Normal(nfc, KeyJson(k)) { KeyIsNormal(nfc, k); }
    ListIsNormal(nfc, KeyJson, i.keys);
    NormalTurns(nfc, Arr(Each(KeyJson, i.keys)));
    NamesTurn(nfc, i.included);
    if i.where.Some? { TextTurns(nfc, i.where.value); }
  }

  lemma BoolTurns(nfc: text -> text, b: bool)
    ensures Turns(nfc, Bool(b), Bool(b))
  {
  }

  lemma EightTurn(nfc: text -> text, a: Value, b: Value, c: Value, d: Value, e: Value, f: Value, g: Value, h: Value, n: Value)
    requires Turns(nfc, a, a) && Turns(nfc, b, b) && Turns(nfc, c, c) && Turns(nfc, d, d) && Turns(nfc, e, e)
    requires Turns(nfc, f, f) && Turns(nfc, g, g) && Turns(nfc, h, n)
    ensures AllTurn(nfc, [a, b, c, d, e, f, g, h], [a, b, c, d, e, f, g, n])
  {
    FiveTurn(nfc, a, b, c, d, e, a, b, c, d, e);
    ThreeTurn(nfc, f, g, h, n);
    AllTurnConcat(nfc, [a, b, c, d, e], [a, b, c, d, e], [f, g, h], [f, g, n]);
    EightOf(a, b, c, d, e, f, g, h);
    EightOf(a, b, c, d, e, f, g, n);
  }

  lemma ThreeTurn(nfc: text -> text, f: Value, g: Value, h: Value, n: Value)
    requires Turns(nfc, f, f) && Turns(nfc, g, g) && Turns(nfc, h, n)
    ensures AllTurn(nfc, [f, g, h], [f, g, n])
  {
  }

  lemma EightOf(a: Value, b: Value, c: Value, d: Value, e: Value, f: Value, g: Value, h: Value)
    ensures [a, b, c, d, e] + [f, g, h] == [a, b, c, d, e, f, g, h]
  {
  }

  lemma IndexFieldsTurn(nfc: text -> text, i: IndexSpec)
    requires Nfc(nfc) && IndexOk(i)
    ensures AllTurn(nfc, IndexFields(i), IndexFields(ComposedIndex(nfc, i)))
  {
    IndexPartsTurn(nfc, i);
    BoolTurns(nfc, i.unique);
    BoolTurns(nfc, i.nullsNotDistinct);
    EightTurn(nfc, Str(i.name), Str(i.table), Str(i.access), Bool(i.unique), Bool(i.nullsNotDistinct),
              Arr(Each(KeyJson, i.keys)), TextsJson(i.included), OrNull(TextJson, i.where), OrNull(TextJson, MapText(nfc, i.where)));
  }

  lemma IndexTurns(nfc: text -> text, i: IndexSpec)
    requires Nfc(nfc) && IndexOk(i)
    ensures Turns(nfc, IndexJson(i), IndexJson(ComposedIndex(nfc, i)))
  {
    IndexFieldsTurn(nfc, i);
    MoreKeysAreAscii();
    RecordTurns(nfc, INDEX_KEYS, IndexFields(i), IndexFields(ComposedIndex(nfc, i)));
  }

  lemma MigrationTurns(nfc: text -> text, m: MigrationSpec)
    requires Nfc(nfc) && MigrationOk(m)
    ensures Turns(nfc, MigrationJson(m), MigrationJson(ComposedMigration(nfc, m)))
  {
    if m.sha.Some? { AsciiIsStable(nfc, m.sha.value); }
    TextTurns(nfc, m.file);
    TextTurns(nfc, m.applied);
    KeysAreAscii();
    RecordTurns(nfc, MIGRATION_KEYS, [Str(m.file), OrNull(TextJson, m.sha), Str(m.applied)],
                [Str(nfc(m.file)), OrNull(TextJson, m.sha), Str(nfc(m.applied))]);
  }

  lemma SegmentTurns(nfc: text -> text, g: CopySegment)
    requires Nfc(nfc) && SegmentOk(g)
    ensures Turns(nfc, SegmentJson(g), SegmentJson(g))
  {
    IdentifierStable(nfc, g.table);
    NamesTurn(nfc, g.columns);
    AsciiIsStable(nfc, g.compressedSha);
    AsciiIsStable(nfc, g.uncompressedSha);
    ZlibIsAscii();
    AsciiIsStable(nfc, ZLIB);
    MoreKeysAreAscii();
    RecordTurns(nfc, SEGMENT_KEYS, SegmentFields(g), SegmentFields(g));
  }

  lemma TablesTurn(nfc: text -> text, tables: Unicode, s: DatabaseSchema)
    requires Nfc(nfc) && forall t :: t in s.tables ==> TableOk(tables, t)
    ensures Turns(nfc, Arr(Each(TableJson, s.tables)), Arr(Each(TableJson, Composed(nfc, s).tables)))
  {
    var ts := Composed(nfc, s).tables;
    forall i | 0 <= i < |ts| ensures Turns(nfc, TableJson(s.tables[i]), TableJson(ts[i])) {
      assert s.tables[i] in s.tables;
      TableTurns(nfc, tables, s.tables[i]);
    }
    ListTurns(nfc, Each(TableJson, s.tables), Each(TableJson, ts));
  }

  lemma ViewsTurn(nfc: text -> text, rules: Rules, s: DatabaseSchema)
    requires Nfc(nfc) && Captured(rules, s)
    ensures Turns(nfc, Arr(Each(ViewJson, s.views)), Arr(Each(ViewJson, Composed(nfc, s).views)))
  {
    var vs := Composed(nfc, s).views;
    forall i | 0 <= i < |vs| ensures Turns(nfc, ViewJson(s.views[i]), ViewJson(vs[i])) {
      assert s.views[i] in s.views;
      ViewTurns(nfc, s.views[i]);
    }
    ListTurns(nfc, Each(ViewJson, s.views), Each(ViewJson, vs));
  }

  lemma IndexesTurn(nfc: text -> text, rules: Rules, s: DatabaseSchema)
    requires Nfc(nfc) && Captured(rules, s)
    ensures Turns(nfc, Arr(Each(IndexJson, s.indexes)), Arr(Each(IndexJson, Composed(nfc, s).indexes)))
  {
    var ns := Composed(nfc, s).indexes;
    forall i | 0 <= i < |ns| ensures Turns(nfc, IndexJson(s.indexes[i]), IndexJson(ns[i])) {
      assert s.indexes[i] in s.indexes;
      IndexTurns(nfc, s.indexes[i]);
    }
    ListTurns(nfc, Each(IndexJson, s.indexes), Each(IndexJson, ns));
  }

  lemma MigrationsTurn(nfc: text -> text, s: DatabaseSchema)
    requires Nfc(nfc) && forall m :: m in s.migrations ==> MigrationOk(m)
    ensures Turns(nfc, Arr(Each(MigrationJson, s.migrations)), Arr(Each(MigrationJson, Composed(nfc, s).migrations)))
  {
    var ms := Composed(nfc, s).migrations;
    forall i | 0 <= i < |ms| ensures Turns(nfc, MigrationJson(s.migrations[i]), MigrationJson(ms[i])) {
      assert s.migrations[i] in s.migrations;
      MigrationTurns(nfc, s.migrations[i]);
    }
    ListTurns(nfc, Each(MigrationJson, s.migrations), Each(MigrationJson, ms));
  }

  lemma SegmentsTurn(nfc: text -> text, s: DatabaseSchema)
    requires Nfc(nfc) && forall g :: g in s.segments ==> SegmentOk(g)
    ensures Turns(nfc, Arr(Each(SegmentJson, s.segments)), Arr(Each(SegmentJson, s.segments)))
  {
    var gs := s.segments;
    forall i | 0 <= i < |gs| ensures Turns(nfc, SegmentJson(gs[i]), SegmentJson(gs[i])) {
      assert gs[i] in gs;
      SegmentTurns(nfc, gs[i]);
    }
    ListTurns(nfc, Each(SegmentJson, gs), Each(SegmentJson, gs));
  }

  /** A made schema: every check passes on it and changes nothing. */
  ghost predicate Made(rules: Rules, s: DatabaseSchema) { MakeSchema(rules, s) == Some(s) && Captured(rules, s) }

  lemma SchemaTurns(nfc: text -> text, rules: Rules, s: DatabaseSchema)
    requires Nfc(nfc) && Made(rules, s)
    ensures Turns(nfc, SchemaToJson(s), SchemaToJson(Composed(nfc, s)))
  {
    TablesTurn(nfc, rules.tables, s);
    ViewsTurn(nfc, rules, s);
    IndexesTurn(nfc, rules, s);
    MigrationsTurn(nfc, s);
    SegmentsTurn(nfc, s);
    CopySettingsAreNormal(nfc);
    NormalTurns(nfc, CopySettings());
    PartsTurn(nfc, s);
    SchemaKeysAreAscii();
    RecordTurns(nfc, SCHEMA_KEYS, SchemaFields(s), SchemaFields(Composed(nfc, s)));
  }

  lemma NumbersTurn(nfc: text -> text, s: DatabaseSchema)
    requires IsOne(s.contractVersion) && IsOne(s.systemSchemaVersion)
    ensures Turns(nfc, s.contractVersion, s.contractVersion) && Turns(nfc, s.systemSchemaVersion, s.systemSchemaVersion)
    ensures Turns(nfc, Int(s.dataCopySize), Int(s.dataCopySize))
    ensures Turns(nfc, OrNull(IntJson, s.sourcePostgresVersion), OrNull(IntJson, s.sourcePostgresVersion))
  {
  }

  lemma PartsTurn(nfc: text -> text, s: DatabaseSchema)
    requires var c := Composed(nfc, s);
             && Turns(nfc, Arr(Each(TableJson, s.tables)), Arr(Each(TableJson, c.tables)))
             && Turns(nfc, Arr(Each(ViewJson, s.views)), Arr(Each(ViewJson, c.views)))
             && Turns(nfc, Arr(Each(IndexJson, s.indexes)), Arr(Each(IndexJson, c.indexes)))
             && Turns(nfc, Arr(Each(MigrationJson, s.migrations)), Arr(Each(MigrationJson, c.migrations)))
             && Turns(nfc, Arr(Each(SegmentJson, s.segments)), Arr(Each(SegmentJson, s.segments)))
    requires Turns(nfc, CopySettings(), CopySettings()) && IsOne(s.contractVersion) && IsOne(s.systemSchemaVersion)
    ensures AllTurn(nfc, SchemaFields(s), SchemaFields(Composed(nfc, s)))
  {
    NumbersTurn(nfc, s);
    var c := Composed(nfc, s);
    var size, gs, pg := Int(s.dataCopySize), Arr(Each(SegmentJson, s.segments)), OrNull(IntJson, s.sourcePostgresVersion);
    SplitsTurn(nfc, s.contractVersion, CopySettings(), size, gs, pg, s.systemSchemaVersion,
               Arr(Each(IndexJson, s.indexes)), Arr(Each(MigrationJson, s.migrations)),
               Arr(Each(TableJson, s.tables)), Arr(Each(ViewJson, s.views)),
               Arr(Each(IndexJson, c.indexes)), Arr(Each(MigrationJson, c.migrations)),
               Arr(Each(TableJson, c.tables)), Arr(Each(ViewJson, c.views)));
  }

  lemma SplitsTurn(nfc: text -> text, version: Value, settings: Value, size: Value, gs: Value, pg: Value, system: Value,
                   a: Value, b: Value, c: Value, d: Value, w: Value, x: Value, y: Value, z: Value)
    requires Turns(nfc, a, w) && Turns(nfc, b, x) && Turns(nfc, c, y) && Turns(nfc, d, z)
    requires Turns(nfc, version, version) && Turns(nfc, settings, settings) && Turns(nfc, size, size)
    requires Turns(nfc, gs, gs) && Turns(nfc, pg, pg) && Turns(nfc, system, system)
    ensures AllTurn(nfc, [version, settings, size, a, b, gs, pg, system, c, d],
                         [version, settings, size, w, x, gs, pg, system, y, z])
  {
    FiveTurn(nfc, version, settings, size, a, b, version, settings, size, w, x);
    FiveTurn(nfc, gs, pg, system, c, d, gs, pg, system, y, z);
    AllTurnConcat(nfc, [version, settings, size, a, b], [version, settings, size, w, x],
                  [gs, pg, system, c, d], [gs, pg, system, y, z]);
    TenOf(version, settings, size, a, b, gs, pg, system, c, d);
    TenOf(version, settings, size, w, x, gs, pg, system, y, z);
  }

  lemma TenOf(a: Value, b: Value, c: Value, d: Value, e: Value, f: Value, g: Value, h: Value, i: Value, j: Value)
    ensures [a, b, c, d, e] + [f, g, h, i, j] == [a, b, c, d, e, f, g, h, i, j]
  {
  }

  /** What the bytes of a schema load as: the schema with its strings in NFC, checked once more. */
  lemma LoadsComposed(nfc: text -> text, rules: Rules, s: DatabaseSchema, payload: bytes)
    requires Nfc(nfc) && Made(rules, s) && ToCanonicalBytes(nfc, s) == Ok(payload)
    ensures FromCanonicalBytes(nfc, rules, payload) == MakeSchema(rules, Composed(nfc, s))
  {
    SchemaTurns(nfc, rules, s);
    CanonicalRoundTrip(nfc, SchemaToJson(s));
    SchemaReads(Composed(nfc, s));
  }

  /** A made schema has bytes as soon as its composed form is one that can be stored. */
  lemma ComposedIsStored(nfc: text -> text, rules: Rules, s: DatabaseSchema)
    requires Nfc(nfc) && Made(rules, s) && Made(rules, Composed(nfc, s)) && Storable(nfc, Composed(nfc, s))
    ensures ToCanonicalBytes(nfc, s).Ok?
  {
    SchemaTurns(nfc, rules, s);
    SchemaIsNormal(nfc, rules, Composed(nfc, s));
    CanonicalRoundTrip(nfc, SchemaToJson(s));
  }

  /** A schema that is stored without complaint, and what loading it gives. */
  ghost predicate LoadsAs(nfc: text -> text, rules: Rules, s: DatabaseSchema, t: DatabaseSchema)
    requires NfcLaw(nfc)
  {
    ToCanonicalBytes(nfc, s).Ok? && FromCanonicalBytes(nfc, rules, ToCanonicalBytes(nfc, s).value) == Some(t)
  }

  lemma LoadsAsComposed(nfc: text -> text, rules: Rules, s: DatabaseSchema, t: DatabaseSchema)
    requires Nfc(nfc) && Made(rules, s) && t == Composed(nfc, s) && Made(rules, t) && Storable(nfc, t)
    ensures LoadsAs(nfc, rules, s, t)
  {
    ComposedIsStored(nfc, rules, s);
    LoadsComposed(nfc, rules, s, ToCanonicalBytes(nfc, s).value);
  }
}
