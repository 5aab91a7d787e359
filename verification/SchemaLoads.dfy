/** What a loaded schema is known to be: exactly the schemas that survive storing are loaded. */
module SchemaLoads {
  import opened Results
  import opened Bytes
  import opened Text
  import opened Json
  import opened JsonParser
  import opened JsonRecords
  import opened SqlLexer
  import opened SqlFragment
  import opened SchemaTypes
  import opened SchemaContract
  import opened SchemaJson
  import opened SchemaBytes

  /** Unicode: every front of a text in NFC is in NFC. */
  ghost predicate NfcFronts(nfc: text -> text) {
    forall t: text, k: int {:trigger nfc(t[..k])} :: 0 <= k <= |t| && nfc(t) == t ==> nfc(t[..k]) == t[..k]
  }

  lemma FrontStable(nfc: text -> text, t: text, front: text)
    requires NfcFronts(nfc) && Stable(nfc, t) && front <= t
    ensures Stable(nfc, front)
  {
    assert front == t[..|front|];
  }

  lemma ValuesAreNormal(nfc: text -> text, v: Value, keys: seq<string>)
    requires Normal(nfc, v) && Values(v, keys).Some?
    ensures AllNormal(nfc, Values(v, keys).value)
  {
    forall i | 0 <= i < |keys| ensures Normal(nfc, v.fields[Txt(keys[i])]) {
      assert keys[i] in keys;
      assert Txt(keys[i]) in v.fields.Keys;
    }
  }

  lemma TextStable(nfc: text -> text, v: Value)
    requires Normal(nfc, v)
    ensures AsText(v).Some? ==> Stable(nfc, AsText(v).value)
    ensures Nullable(AsText, v).Some? && Nullable(AsText, v).value.Some? ==> Stable(nfc, Nullable(AsText, v).value.value)
  {
  }

  lemma ColumnLoads(nfc: text -> text, v: Value)
    requires Normal(nfc, v) && ReadColumn(v).Some?
    ensures StorableColumn(nfc, ReadColumn(v).value)
  {
    ValuesAreNormal(nfc, v, COLUMN_KEYS);
    var f := Values(v, COLUMN_KEYS).value;
    TextStable(nfc, f[1]);
    TextStable(nfc, f[3]);
  }

  lemma TableLoads(nfc: text -> text, v: Value)
    requires Normal(nfc, v) && ReadTable(v).Some?
    ensures StorableTable(nfc, ReadTable(v).value)
  {
    ValuesAreNormal(nfc, v, TABLE_KEYS);
    var f := Values(v, TABLE_KEYS).value;
    TextStable(nfc, f[1]);
    var t := ReadTable(v).value;
    forall c | c in t.columns ensures StorableColumn(nfc, c) {
      var i :| 0 <= i < |t.columns| && t.columns[i] == c;
      ColumnLoads(nfc, f[2].items[i]);
    }
  }

  lemma IndexLoads(nfc: text -> text, v: Value)
    requires Normal(nfc, v) && ReadIndex(v).Some?
    ensures StorableIndex(nfc, ReadIndex(v).value)
  {
    ValuesAreNormal(nfc, v, INDEX_KEYS);
    var f := Values(v, INDEX_KEYS).value;
    TextStable(nfc, f[2]);
    TextStable(nfc, f[7]);
  }

  lemma ViewLoads(nfc: text -> text, v: Value)
    requires Normal(nfc, v) && ReadView(v).Some?
    ensures Stable(nfc, ReadView(v).value.definition)
  {
    ValuesAreNormal(nfc, v, VIEW_KEYS);
    TextStable(nfc, Values(v, VIEW_KEYS).value[1]);
  }

  lemma MigrationLoads(nfc: text -> text, v: Value)
    requires Normal(nfc, v) && ReadMigration(v).Some?
    ensures StorableMigration(nfc, ReadMigration(v).value)
  {
    ValuesAreNormal(nfc, v, MIGRATION_KEYS);
    var f := Values(v, MIGRATION_KEYS).value;
    TextStable(nfc, f[0]);
    TextStable(nfc, f[2]);
  }

  lemma SegmentLoads(nfc: text -> text, v: Value)
    requires Normal(nfc, v) && ReadSegment(v).Some?
    ensures StorableSegment(ReadSegment(v).value)
  {
    ValuesAreNormal(nfc, v, SEGMENT_KEYS);
    var f := Values(v, SEGMENT_KEYS).value;
    assert Normal(nfc, f[2]) && Normal(nfc, f[3]) && Normal(nfc, f[5]) && Normal(nfc, f[7]);
  }

  /** Where an element of a read list was read from. */
  lemma ReadFrom<T(!new)>(nfc: text -> text, f: Value -> Option<T>, v: Value, x: T) returns (item: Value)
    requires Normal(nfc, v) && ReadList(f, v).Some? && x in ReadList(f, v).value
    ensures Normal(nfc, item) && f(item) == Some(x)
  {
    var xs := ReadList(f, v).value;
    var i :| 0 <= i < |xs| && xs[i] == x;
    item := v.items[i];
  }

  lemma FieldsLoad(nfc: text -> text, f: seq<Value>)
    requires |f| == |SCHEMA_KEYS| && AllNormal(nfc, f) && SchemaFrom(f).Some?
    ensures Storable(nfc, SchemaFrom(f).value)
  {
    var s := SchemaFrom(f).value;
    forall t | t in s.tables ensures StorableTable(nfc, t) {
      var item := ReadFrom(nfc, ReadTable, f[8], t);
      TableLoads(nfc, item);
    }
    forall g | g in s.segments ensures StorableSegment(g) {
      var item := ReadFrom(nfc, ReadSegment, f[5], g);
      SegmentLoads(nfc, item);
    }
    forall v | v in s.views ensures Stable(nfc, v.definition) {
      var item := ReadFrom(nfc, ReadView, f[9], v);
      ViewLoads(nfc, item);
    }
    forall i | i in s.indexes ensures StorableIndex(nfc, i) {
      var item := ReadFrom(nfc, ReadIndex, f[3], i);
      IndexLoads(nfc, item);
    }
    forall m | m in s.migrations ensures StorableMigration(nfc, m) {
      var item := ReadFrom(nfc, ReadMigration, f[4], m);
      MigrationLoads(nfc, item);
    }
  }

  /** Construction only cuts the ends off definitions and predicates, so it keeps a schema storable. */
  lemma MakingStaysStorable(nfc: text -> text, rules: Rules, raw: DatabaseSchema)
    requires NfcFronts(nfc) && Storable(nfc, raw) && MakeSchema(rules, raw).Some?
    ensures Storable(nfc, MakeSchema(rules, raw).value)
  {
    var s := MakeSchema(rules, raw).value;
    forall i | 0 <= i < |s.views| ensures Stable(nfc, s.views[i].definition) {
      assert raw.views[i] in raw.views;
      TrimIsFront(rules.tables, raw.views[i].definition);
      FrontStable(nfc, raw.views[i].definition, s.views[i].definition);
    }
    forall i | 0 <= i < |s.indexes| ensures StorableIndex(nfc, s.indexes[i]) {
      assert raw.indexes[i] in raw.indexes;
      if raw.indexes[i].where.Some? {
        TrimIsFront(rules.tables, raw.indexes[i].where.value);
        FrontStable(nfc, raw.indexes[i].where.value, s.indexes[i].where.value);
      }
    }
  }

  lemma TrimIsFront(tables: Unicode, t: text)
    ensures Trim(tables, t) <= t
  {
  }

  /** Whatever a payload, the schema it loads as has only NFC strings and fitting integers. */
  lemma LoadedIsStorable(nfc: text -> text, rules: Rules, payload: bytes)
    requires NfcLaw(nfc) && NfcFronts(nfc) && FromCanonicalBytes(nfc, rules, payload).Some?
    ensures Storable(nfc, FromCanonicalBytes(nfc, rules, payload).value)
  {
    var v := ParseCanonical(nfc, payload).value;
    ParsedIsNormal(nfc, payload);
    ValuesAreNormal(nfc, v, SCHEMA_KEYS);
    FieldsLoad(nfc, Values(v, SCHEMA_KEYS).value);
    MakingStaysStorable(nfc, rules, ReadSchema(v).value);
  }

  lemma ParsedIsNormal(nfc: text -> text, payload: bytes)
    requires NfcLaw(nfc) && ParseCanonical(nfc, payload).Ok?
    ensures Normal(nfc, ParseCanonical(nfc, payload).value)
  {
    NormalizeIsNormal(nfc, Loads(Utf8.Decode(payload).value).value);
  }

  /** A constructed schema comes back from its canonical bytes exactly when its strings are in NFC
      and its integers fit in 64 bits. */
  lemma RoundTripIffStorable(nfc: text -> text, rules: Rules, raw: DatabaseSchema)
    requires Nfc(nfc) && NfcFronts(nfc) && TableLaw(rules.tables) && MakeSchema(rules, raw).Some?
    ensures var s := MakeSchema(rules, raw).value;
            Storable(nfc, s) <==>
            ToCanonicalBytes(nfc, s).Ok? && FromCanonicalBytes(nfc, rules, ToCanonicalBytes(nfc, s).value) == Some(s)
  {
    var s := MakeSchema(rules, raw).value;
    if Storable(nfc, s) { SchemaRoundTrip(nfc, rules, raw); }
    if ToCanonicalBytes(nfc, s).Ok? && FromCanonicalBytes(nfc, rules, ToCanonicalBytes(nfc, s).value) == Some(s) {
      LoadedIsStorable(nfc, rules, ToCanonicalBytes(nfc, s).value);
    }
  }
}
