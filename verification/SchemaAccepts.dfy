/** Which indexes and views of a schema are constructed, and as what. */
module SchemaAccepts {
  import opened Results
  import opened Text
  import opened CopySegments
  import opened SqlLexer
  import opened SqlFragment
  import opened SqlMeaning
  import opened SchemaTypes
  import opened SchemaContract

  /** Letters, digits and underscores, at most 63, and no digit first. */
  predicate PlainName(t: text) {
    && 1 <= |t| <= 63 && !(48 <= t[0] <= 57)
    && forall i :: 0 <= i < |t| ==> 48 <= t[i] <= 57 || 65 <= t[i] <= 90 || t[i] == 95 || 97 <= t[i] <= 122
  }

  lemma NameIsPlain(t: text)
    ensures IsIdentifier(t) <==> PlainName(t)
  {
  }

  predicate PlainNames(names: seq<text>) {
    && (forall i :: 0 <= i < |names| ==> PlainName(names[i]))
    && forall i, j :: 0 <= i < j < |names| ==> names[i] != names[j]
  }

  lemma ListIsPlain(names: seq<text>)
    ensures NameList(names) <==> PlainNames(names)
  {
    if NameList(names) {
      forall i | 0 <= i < |names| ensures PlainName(names[i]) { assert names[i] in names; NameIsPlain(names[i]); }
    }
    if PlainNames(names) {
      forall n | n in names ensures IsIdentifier(n) { NameIsPlain(n); }
    }
  }

  /** A supported method, some key, and plain names everywhere. */
  ghost predicate PlainIndex(i: IndexSpec) {
    && PlainName(i.name) && PlainName(i.table) && PlainNames(i.included) && i.keys != []
    && (forall k :: 0 <= k < |i.keys| ==> PlainName(i.keys[k].column))
    && (i.access == Txt("btree") || i.access == Txt("hash") || i.access == Txt("gin") || i.access == Txt("brin")
        || i.access == Txt("spgist"))
  }

  lemma MethodIsListed(t: text)
    ensures Listed(t, INDEX_METHODS) <==>
            t == Txt("btree") || t == Txt("hash") || t == Txt("gin") || t == Txt("brin") || t == Txt("spgist")
  {
    assert "btree" in INDEX_METHODS && "hash" in INDEX_METHODS && "gin" in INDEX_METHODS;
    assert "brin" in INDEX_METHODS && "spgist" in INDEX_METHODS;
  }

  lemma IndexIsPlain(i: IndexSpec)
    ensures IndexOk(i) <==> PlainIndex(i)
  {
    NameIsPlain(i.name);
    NameIsPlain(i.table);
    ListIsPlain(i.included);
    MethodIsListed(i.access);
    if IndexOk(i) {
      forall k | 0 <= k < |i.keys| ensures PlainName(i.keys[k].column) {
        assert i.keys[k] in i.keys;
        NameIsPlain(i.keys[k].column);
      }
    }
    if PlainIndex(i) {
      forall k | k in i.keys ensures IsIdentifier(k.column) { NameIsPlain(k.column); }
    }
  }

  lemma PartialIndex(rules: Rules, i: IndexSpec, p: text)
    requires i.where.Some? && IndexOk(i)
    ensures MakeIndex(rules, i) == Some(i.(where := Some(p))) <==>
            Validated(rules.tables, rules.words, i.where.value, false) == Some(p)
    ensures MakeIndex(rules, i).Some? ==> MakeIndex(rules, i).value.where.Some?
    ensures MakeIndex(rules, i).Some? ==> MakeIndex(rules, i).value == i.(where := MakeIndex(rules, i).value.where)
  {
    assert i.(where := Some(p)).where == Some(p);
  }

  /** What the predicate becomes. */
  ghost predicate Captures(rules: Rules, where: Option<text>, made: Option<text>) {
    match (where, made)
    case (None, None) => true
    case (Some(value), Some(t)) => Passes(rules.tables, rules.words, value, false, t)
    case _ => false
  }

  /** An index is constructed exactly when its names are plain and its predicate, if it has one, passes the
      check as an expression; and then only the end of the predicate is cut off. */
  lemma IndexMeans(rules: Rules, i: IndexSpec, made: IndexSpec)
    requires TableLaw(rules.tables)
    ensures MakeIndex(rules, i) == Some(made) <==>
            PlainIndex(i) && made == i.(where := made.where) && Captures(rules, i.where, made.where)
  {
    IndexIsPlain(i);
    if IndexOk(i) && i.where.Some? {
      if made.where.Some? {
        PartialIndex(rules, i, made.where.value);
        AcceptedMeans(rules.tables, rules.words, i.where.value, false, made.where.value);
      } else {
        PartialIndex(rules, i, []);
      }
    }
  }

  /** A view is constructed exactly when its names are plain and its definition passes the check as a query. */
  lemma ViewMeans(rules: Rules, v: ViewSpec, made: ViewSpec)
    requires TableLaw(rules.tables)
    ensures MakeView(rules, v) == Some(made) <==>
            && PlainName(v.name) && PlainNames(v.dependsOn) && made == v.(definition := made.definition)
            && Passes(rules.tables, rules.words, v.definition, true, made.definition)
  {
    NameIsPlain(v.name);
    ListIsPlain(v.dependsOn);
    AcceptedMeans(rules.tables, rules.words, v.definition, true, made.definition);
    match Validated(rules.tables, rules.words, v.definition, true)
    case Some(p) => AcceptedMeans(rules.tables, rules.words, v.definition, true, p);
    case None =>
  }

  // Tables

  ghost predicate MeasuredBy(tables: Unicode, t: text, name: text, n: text, rest: text) {
    n != [] && (forall i :: 0 <= i < |n| ==> tables.isDecimal(n[i])) && t == name + ([40] + n + [41]) + rest
  }

  /** A number in parentheses after the type's name. */
  ghost predicate Measured(tables: Unicode, t: text, name: text, rest: text) {
    exists n: text :: MeasuredBy(tables, t, name, n, rest)
  }

  lemma GroupIs(tables: Unicode, g: text)
    requires LengthGroup(tables, g)
    ensures var n := g[1..|g| - 1]; n != [] && (forall i :: 0 <= i < |n| ==> tables.isDecimal(n[i])) && g == [40] + n + [41]
  {
  }

  lemma SizedIsMeasured(tables: Unicode, base: text, t: text)
    ensures Sized(tables, base, t) <==> Measured(tables, t, base, [])
  {
    if Sized(tables, base, t) {
      var g := t[|base|..];
      GroupIs(tables, g);
      assert t == base + g + [];
      assert MeasuredBy(tables, t, base, g[1..|g| - 1], []);
    }
    if n: text :| MeasuredBy(tables, t, base, n, []) {
      assert t[|base|..] == [40] + n + [41];
    }
  }

  lemma MeasuredTail(tables: Unicode, t: text, name: text, rest: text)
    ensures Measured(tables, t + rest, name, rest) <==> Measured(tables, t, name, [])
  {
    if n: text :| MeasuredBy(tables, t, name, n, []) {
      assert MeasuredBy(tables, t + rest, name, n, rest);
    }
    if n: text :| MeasuredBy(tables, t + rest, name, n, rest) {
      SameEnd(t, name + ([40] + n + [41]), rest);
      assert MeasuredBy(tables, t, name, n, []);
    }
  }

  lemma SameEnd(a: text, b: text, c: text)
    requires a + c == b + c
    ensures a == b
  {
    assert |a| == |b| && (a + c)[..|a|] == a && (b + c)[..|b|] == b;
  }

  predicate ScalarName(t: text) {
    || t == Txt("text") || t == Txt("integer") || t == Txt("bigint") || t == Txt("smallint") || t == Txt("double precision")
    || t == Txt("real") || t == Txt("boolean") || t == Txt("timestamp with time zone") || t == Txt("jsonb") || t == Txt("json")
  }

  lemma ScalarIsListed(t: text)
    ensures Listed(t, SCALAR_TYPES) <==> ScalarName(t)
  {
    assert "text" in SCALAR_TYPES && "integer" in SCALAR_TYPES && "bigint" in SCALAR_TYPES && "smallint" in SCALAR_TYPES;
    assert "double precision" in SCALAR_TYPES && "real" in SCALAR_TYPES && "boolean" in SCALAR_TYPES;
    assert "timestamp with time zone" in SCALAR_TYPES && "jsonb" in SCALAR_TYPES && "json" in SCALAR_TYPES;
  }

  /** The column types PPBase emits: a scalar one, a bounded string, or an array of strings. */
  ghost predicate PlainType(tables: Unicode, t: text) {
    || ScalarName(t) || Measured(tables, t, Txt("character varying"), [])
    || t == Txt("text[]") || t == Txt("character varying[]")
    || Measured(tables, t, Txt("text"), [91, 93]) || Measured(tables, t, Txt("character varying"), [91, 93])
  }

  lemma Brackets()
    ensures Txt("[]") == [91, 93] && Txt("text[]") == TEXT_TYPE + [91, 93] && Txt("character varying[]") == VARCHAR_TYPE + [91, 93]
  {
  }

  lemma ArrayIsPlain(tables: Unicode, t: text)
    ensures ArrayType(tables, t) <==>
            || t == Txt("text[]") || t == Txt("character varying[]")
            || Measured(tables, t, TEXT_TYPE, [91, 93]) || Measured(tables, t, VARCHAR_TYPE, [91, 93])
  {
    Brackets();
    if |t| >= 2 && t[|t| - 2..] == [91, 93] {
      var base := t[..|t| - 2];
      assert t == base + [91, 93];
      SizedIsMeasured(tables, TEXT_TYPE, base);
      SizedIsMeasured(tables, VARCHAR_TYPE, base);
      MeasuredTail(tables, base, TEXT_TYPE, [91, 93]);
      MeasuredTail(tables, base, VARCHAR_TYPE, [91, 93]);
      if base + [91, 93] == TEXT_TYPE + [91, 93] { SameEnd(base, TEXT_TYPE, [91, 93]); }
      if base + [91, 93] == VARCHAR_TYPE + [91, 93] { SameEnd(base, VARCHAR_TYPE, [91, 93]); }
    }
  }

  lemma TypeIsPlain(tables: Unicode, t: text)
    ensures ColumnType(tables, t) <==> PlainType(tables, t)
  {
    ScalarIsListed(t);
    SizedIsMeasured(tables, VARCHAR_TYPE, t);
    ArrayIsPlain(tables, t);
  }

  predicate PlainDefault(t: text) {
    || t == Txt("''::text") || t == Txt("''::character varying") || t == Txt("0") || t == Txt("'0'::double precision")
    || t == Txt("false") || t == Txt("now()") || t == Txt("'{}'::text[]") || t == Txt("'{}'::character varying[]")
    || t == Txt("'null'::jsonb") || t == Txt("'[]'::jsonb") || t == Txt("'{}'::jsonb")
    || t == Txt("'{\"lat\": 0, \"lon\": 0}'::jsonb") || t == Txt("'base'::character varying")
  }

  lemma DefaultIsListed(t: text)
    ensures Listed(t, ALLOWED_DEFAULTS) <==> PlainDefault(t)
  {
    assert "''::text" in ALLOWED_DEFAULTS && "''::character varying" in ALLOWED_DEFAULTS && "0" in ALLOWED_DEFAULTS;
    assert "'0'::double precision" in ALLOWED_DEFAULTS && "false" in ALLOWED_DEFAULTS && "now()" in ALLOWED_DEFAULTS;
    assert "'{}'::text[]" in ALLOWED_DEFAULTS && "'{}'::character varying[]" in ALLOWED_DEFAULTS;
    assert "'null'::jsonb" in ALLOWED_DEFAULTS && "'[]'::jsonb" in ALLOWED_DEFAULTS && "'{}'::jsonb" in ALLOWED_DEFAULTS;
    assert "'{\"lat\": 0, \"lon\": 0}'::jsonb" in ALLOWED_DEFAULTS && "'base'::character varying" in ALLOWED_DEFAULTS;
  }

  ghost predicate HasColumn(t: TableSpec, name: text) { exists i :: 0 <= i < |t.columns| && t.columns[i].name == name }

  ghost predicate AllColumns(t: TableSpec, names: seq<text>) { forall i :: 0 <= i < |names| ==> HasColumn(t, names[i]) }

  lemma WithinIsAllColumns(t: TableSpec, names: seq<text>)
    ensures Within(names, t.ColumnNames()) <==> AllColumns(t, names)
  {
    if Within(names, t.ColumnNames()) {
      forall i | 0 <= i < |names| ensures HasColumn(t, names[i]) {
        assert names[i] in names;
        var k :| 0 <= k < |t.ColumnNames()| && t.ColumnNames()[k] == names[i];
        assert t.columns[k].name == names[i];
      }
    }
    if AllColumns(t, names) {
      forall n | n in names ensures n in t.ColumnNames() {
        var i :| 0 <= i < |names| && names[i] == n;
        var k :| 0 <= k < |t.columns| && t.columns[k].name == names[i];
        assert t.ColumnNames()[k] == n;
      }
    }
  }

  ghost predicate PlainColumn(tables: Unicode, c: ColumnSpec) {
    PlainName(c.name) && PlainType(tables, c.kind) && (c.default.Some? ==> PlainDefault(c.default.value))
  }

  /** A table of one of the three kinds, whose columns are distinct and whose keys are made of them. */
  ghost predicate PlainTable(tables: Unicode, t: TableSpec) {
    && PlainName(t.name) && (t.kind == Txt("system") || t.kind == Txt("base") || t.kind == Txt("auth"))
    && t.columns != [] && (forall i :: 0 <= i < |t.columns| ==> PlainColumn(tables, t.columns[i]))
    && (forall i, j :: 0 <= i < j < |t.columns| ==> t.columns[i].name != t.columns[j].name)
    && PlainNames(t.primaryKey) && AllColumns(t, t.primaryKey)
    && forall i :: 0 <= i < |t.uniques| ==> PlainNames(t.uniques[i]) && AllColumns(t, t.uniques[i])
  }

  lemma KindIsListed(t: text)
    ensures Listed(t, TABLE_KINDS) <==> t == Txt("system") || t == Txt("base") || t == Txt("auth")
  {
    assert "system" in TABLE_KINDS && "base" in TABLE_KINDS && "auth" in TABLE_KINDS;
  }

  lemma ColumnIsPlain(tables: Unicode, c: ColumnSpec)
    ensures ColumnOk(tables, c) <==> PlainColumn(tables, c)
  {
    NameIsPlain(c.name);
    TypeIsPlain(tables, c.kind);
    if c.default.Some? { DefaultIsListed(c.default.value); }
  }

  lemma KeysArePlain(t: TableSpec)
    ensures (forall u :: u in t.uniques ==> NameList(u) && Within(u, t.ColumnNames())) <==>
            (forall i :: 0 <= i < |t.uniques| ==> PlainNames(t.uniques[i]) && AllColumns(t, t.uniques[i]))
  {
    forall u | u in t.uniques ensures NameList(u) && Within(u, t.ColumnNames()) <==> PlainNames(u) && AllColumns(t, u) {
      ListIsPlain(u);
      WithinIsAllColumns(t, u);
    }
    forall i | 0 <= i < |t.uniques| ensures t.uniques[i] in t.uniques {}
  }

  lemma ColumnsArePlain(tables: Unicode, t: TableSpec)
    ensures (forall c :: c in t.columns ==> ColumnOk(tables, c)) <==>
            (forall i :: 0 <= i < |t.columns| ==> PlainColumn(tables, t.columns[i]))
    ensures Distinct(t.ColumnNames()) <==> forall i, j :: 0 <= i < j < |t.columns| ==> t.columns[i].name != t.columns[j].name
  {
    forall c | c in t.columns ensures ColumnOk(tables, c) <==> PlainColumn(tables, c) { ColumnIsPlain(tables, c); }
    forall i | 0 <= i < |t.columns| ensures t.columns[i] in t.columns {}
    var names := t.ColumnNames();
    assert forall i :: 0 <= i < |names| ==> names[i] == t.columns[i].name;
  }

  lemma TableMeans(tables: Unicode, t: TableSpec)
    ensures TableOk(tables, t) <==> PlainTable(tables, t)
  {
    NameIsPlain(t.name);
    KindIsListed(t.kind);
    ColumnsArePlain(tables, t);
    ListIsPlain(t.primaryKey);
    WithinIsAllColumns(t, t.primaryKey);
    KeysArePlain(t);
  }
}
