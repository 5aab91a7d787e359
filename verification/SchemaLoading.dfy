/** Which payloads load as `schema.json`, and as which schema. */
module SchemaLoading {
  import opened Results
  import opened Bytes
  import opened Text
  import opened Utf8
  import opened Json
  import opened JsonNormal
  import opened JsonParser
  import opened SqlLexer
  import opened SchemaTypes
  import opened SchemaContract
  import opened SchemaMeaning
  import opened SchemaJson
  import opened SchemaBytes
  import opened SchemaReads
  import opened RebuildMeaning

  /** `payload` is the printed form of a value whose strings are all in NFC, in UTF-8. */
  ghost predicate PrintedAs(nfc: text -> text, payload: bytes, v: Value) {
    Composes(nfc, v, v) && AllScalar(Print(v)) && payload == Encode(Print(v))
  }

  lemma ParsedIsPrinted(nfc: text -> text, payload: bytes, v: Value)
    requires NfcLaw(nfc)
    ensures ParseCanonical(nfc, payload) == Ok(v) <==> PrintedAs(nfc, payload, v)
  {
    NormalizeMeans(nfc, v, v);
    BytesMean(nfc, v);
    if PrintedAs(nfc, payload, v) { CanonicalRoundTrip(nfc, v); }
    if ParseCanonical(nfc, payload) == Ok(v) { ParsedIsNormal(nfc, payload, v); }
  }

  lemma ParsedIsNormal(nfc: text -> text, payload: bytes, v: Value)
    requires NfcLaw(nfc) && ParseCanonical(nfc, payload) == Ok(v)
    ensures Normalize(nfc, v) == Ok(v) && CanonicalBytes(nfc, v) == Ok(payload)
  {
    var w :| Normalize(nfc, w) == Ok(v);
    NormalizeIsNormal(nfc, w);
    NormalIsFixed(nfc, v);
  }

  /** The construction of `s` from `raw`, without the checks that make it. */
  ghost predicate Constructs(rules: Rules, raw: DatabaseSchema, s: DatabaseSchema) {
    PlainParts(rules.tables, raw) && Becomes(rules, raw, s) && Coherent(s)
  }

  ghost predicate LoadsThrough(nfc: text -> text, rules: Rules, payload: bytes, s: DatabaseSchema, v: Value, raw: DatabaseSchema) {
    PrintedAs(nfc, payload, v) && SchemaAs(v, raw) && Constructs(rules, raw, s)
  }

  /** A payload loads as a schema exactly when it is the canonical form of a dictionary from which that
      schema is constructed. */
  lemma LoadMeans(nfc: text -> text, rules: Rules, payload: bytes, s: DatabaseSchema)
    requires NfcLaw(nfc) && TableLaw(rules.tables)
    ensures FromCanonicalBytes(nfc, rules, payload) == Some(s) <==>
            exists v, raw :: LoadsThrough(nfc, rules, payload, s, v, raw)
  {
    if FromCanonicalBytes(nfc, rules, payload) == Some(s) {
      var v := ParseCanonical(nfc, payload).value;
      var raw := ReadSchema(v).value;
      ParsedIsPrinted(nfc, payload, v);
      SchemaReadsAs(v, raw);
      SchemaMeans(rules, raw, s);
      assert LoadsThrough(nfc, rules, payload, s, v, raw);
    }
    if v, raw :| LoadsThrough(nfc, rules, payload, s, v, raw) {
      ParsedIsPrinted(nfc, payload, v);
      SchemaReadsAs(v, raw);
      SchemaMeans(rules, raw, s);
    }
  }

  /** And as a restorable archive exactly when every table has its segment, too. */
  lemma ArchiveLoadMeans(nfc: text -> text, rules: Rules, payload: bytes, s: DatabaseSchema)
    requires NfcLaw(nfc) && TableLaw(rules.tables)
    ensures FromArchiveBytes(nfc, rules, payload) == Some(s) <==>
            Complete(s) && exists v, raw :: LoadsThrough(nfc, rules, payload, s, v, raw)
  {
    LoadMeans(nfc, rules, payload, s);
    ExportedIsComplete(s);
  }
}
