/** The database of one auth collection, with its partial index on addresses: it has a schema, and its
    archive gives it back. */
module AuthCollection {
  import opened Results
  import opened Bytes
  import opened Text
  import opened Ordering
  import opened Codec
  import opened CopySegments
  import opened CopyWriter
  import opened Json
  import opened SqlLexer
  import opened SqlGrammar
  import opened SqlFragment
  import opened SqlMeaning
  import opened SchemaTypes
  import opened SchemaContract
  import opened SchemaBytes
  import opened SchemaLoads
  import opened SchemaForms
  import opened ViewOrder
  import opened NativeDatabase
  import opened NativeRebuild
  import opened NativeArchive
  import opened ArchiveForms

  const ID: text := Txt("id")
  const EMAIL: text := Txt("email")
  const USERS: text := Txt("users")

  function Columns(): seq<ColumnSpec> {
    [ColumnSpec(ID, Txt("character varying(15)"), false, None),
     ColumnSpec(EMAIL, Txt("character varying(255)"), false, Some(Txt("''::character varying"))),
     ColumnSpec(Txt("verified"), Txt("boolean"), false, Some(Txt("false"))),
     ColumnSpec(Txt("created"), Txt("timestamp with time zone"), true, Some(Txt("now()")))]
  }

  function UsersTable(): TableSpec { TableSpec(USERS, Txt("auth"), Columns(), [ID], [[EMAIL]]) }

  /** `"email" != ''` */
  const PREDICATE: text := [34] + EMAIL + [34] + [32, 33, 61, 32] + [39, 39]

  function EmailIndex(): IndexSpec {
    IndexSpec(Txt("users_email"), USERS, Txt("btree"), true, false, [IndexKeySpec(EMAIL, false, None)], [], Some(PREDICATE))
  }

  // The predicate

  function PredicatePieces(): seq<Piece> {
    [Lexeme([], [34] + EMAIL + [34], Token(QuotedName, EMAIL)), Blank(32), Lexeme([], [33], Token(Punct, [33])),
     Lexeme([], [61], Token(Punct, [61])), Blank(32), Lexeme([], [39, 39], Token(Literal, [39, 39]))]
  }

  lemma EmailIs()
    ensures EMAIL == [101, 109, 97, 105, 108]
  {
  }

  lemma {:induction false} PlainInside(x: text)
    requires forall i :: 0 <= i < |x| ==> x[i] != 34
    ensures Inside(x, 34, false) && Unquote(x) == x
  {
    if x != [] {
      PlainInside(x[1..]);
      assert x == [x[0]] + x[1..];
    }
  }

  /** What is left of six pieces behind each of them. */
  ghost predicate Tails(p: seq<Piece>) {
    && |p| == 6 && SourceOf(p[6..]) == [] && SourceOf(p[5..]) == [39, 39] && SourceOf(p[4..]) == [32, 39, 39]
    && SourceOf(p[3..]) == [61, 32, 39, 39] && SourceOf(p[2..]) == [33, 61, 32, 39, 39]
    && SourceOf(p[1..]) == [32, 33, 61, 32, 39, 39]
  }

  lemma SixPieces(p: seq<Piece>, name: text)
    requires |p| == 6 && p[0].Source() == name && p[1].Source() == [32] && p[2].Source() == [33] && p[3].Source() == [61]
    requires p[4].Source() == [32] && p[5].Source() == [39, 39]
    ensures Tails(p) && SourceOf(p) == name + [32, 33, 61, 32, 39, 39]
  {
    assert p[6..] == [] && p[0..] == p;
    SourceStep(p, 5, [39, 39], [], [39, 39]);
    SourceStep(p, 4, [32], [39, 39], [32, 39, 39]);
    SourceStep(p, 3, [61], [32, 39, 39], [61, 32, 39, 39]);
    SourceStep(p, 2, [33], [61, 32, 39, 39], [33, 61, 32, 39, 39]);
    SourceStep(p, 1, [32], [33, 61, 32, 39, 39], [32, 33, 61, 32, 39, 39]);
    SourceStep(p, 0, name, [32, 33, 61, 32, 39, 39], name + [32, 33, 61, 32, 39, 39]);
  }

  lemma PredicateRest()
    ensures Tails(PredicatePieces()) && SourceOf(PredicatePieces()) == PREDICATE
  {
    PieceSources();
    PredicateSplits();
    SixPieces(PredicatePieces(), [34] + EMAIL + [34]);
  }

  lemma PieceSources()
    ensures var p := PredicatePieces();
            && p[0].Source() == [34] + EMAIL + [34] && p[1].Source() == [32] && p[2].Source() == [33] && p[3].Source() == [61]
            && p[4].Source() == [32] && p[5].Source() == [39, 39]
  {
  }

  lemma PredicateSplits()
    ensures PREDICATE == ([34] + EMAIL + [34]) + [32, 33, 61, 32, 39, 39]
  {
  }

  lemma SourceStep(p: seq<Piece>, i: nat, head: text, tail: text, whole: text)
    requires i < |p| && p[i].Source() == head && SourceOf(p[i + 1..]) == tail && whole == head + tail
    ensures SourceOf(p[i..]) == whole
  {
    assert p[i..][0] == p[i] && p[i..][1..] == p[i + 1..];
  }

  lemma EmailFits(tables: Unicode)
    ensures Fits(tables, PredicatePieces()[0], [32, 33, 61, 32, 39, 39])
  {
    EmailIs();
    PlainInside(EMAIL);
    assert NameHere([34] + EMAIL + [34], EMAIL, [32, 33, 61, 32, 39, 39]);
  }

  lemma OperatorFits(tables: Unicode, c: cp, rest: text)
    requires TableLaw(tables) && (c == 33 || c == 61) && rest != [] && !tables.isDigit(rest[0])
    ensures Fits(tables, Lexeme([], [c], Token(Punct, [c])), rest)
  {
    assert !tables.isDigit(c) && !tables.isAlpha(c);
    assert ([c] + rest)[0] == c;
  }

  lemma EmptyFits(tables: Unicode)
    ensures Fits(tables, Lexeme([], [39, 39], Token(Literal, [39, 39])), [])
  {
    assert [39, 39] == [39] + [] + [39] && Inside([], 39, false);
    assert QuotedHere([], [39, 39], []);
  }

  lemma PredicateFits(tables: Unicode)
    requires TableLaw(tables)
    ensures WellCut(tables, PredicatePieces())
  {
    var p := PredicatePieces();
    PredicateRest();
    EmailFits(tables);
    assert !tables.isDigit(61) && !tables.isDigit(32);
    OperatorFits(tables, 33, [61, 32, 39, 39]);
    OperatorFits(tables, 61, [32, 39, 39]);
    EmptyFits(tables);
    forall i | 0 <= i < |p| ensures Fits(tables, p[i], SourceOf(p[i + 1..])) { PieceFits(tables, p, i); }
  }

  lemma PieceFits(tables: Unicode, p: seq<Piece>, i: nat)
    requires p == PredicatePieces() && i < 6
    requires SourceOf(p[1..]) == [32, 33, 61, 32, 39, 39] && Fits(tables, p[0], [32, 33, 61, 32, 39, 39])
    requires SourceOf(p[3..]) == [61, 32, 39, 39] && Fits(tables, p[2], [61, 32, 39, 39])
    requires SourceOf(p[4..]) == [32, 39, 39] && Fits(tables, p[3], [32, 39, 39])
    requires SourceOf(p[6..]) == [] && Fits(tables, p[5], [])
    ensures Fits(tables, p[i], SourceOf(p[i + 1..]))
  {
  }

  lemma PredicateHarmless(rules: Rules)
    ensures Harmless(rules.tables, rules.words, PredicatePieces()) && Starts(PredicatePieces(), false)
  {
    var p := PredicatePieces();
    assert NextTo(p, 0, 2);
    forall c: cp | Before(p, 0, c) ensures c == 33 {
      var j :| NextTo(p, 0, j) && IsPunct(p[j], c);
      NextUnique(p, 0, j, 2);
    }
    assert PieceOk(rules.tables, rules.words, p, 0);
    assert StartsAt(p, 0, false);
  }

  lemma PredicatePasses(rules: Rules)
    requires TableLaw(rules.tables)
    ensures Validated(rules.tables, rules.words, PREDICATE, false) == Some(PREDICATE)
  {
    PredicateRest();
    PredicateFits(rules.tables);
    PredicateHarmless(rules);
    assert CutWell(rules.tables, rules.words, PREDICATE, false, PredicatePieces());
    PredicateEnds(rules.tables);
    AcceptedMeans(rules.tables, rules.words, PREDICATE, false, PREDICATE);
  }

  lemma PredicateEnds(tables: Unicode)
    requires TableLaw(tables)
    ensures TrimmedTo(tables, PREDICATE, PREDICATE) && |PREDICATE| <= 100000 && PREDICATE != [] && !tables.isSpace(PREDICATE[0])
  {
    EmailIs();
    assert PREDICATE[|PREDICATE| - 1] == 39 && !tables.isSpace(39) && PREDICATE[0] == 34 && !tables.isSpace(34);
    assert PREDICATE == PREDICATE + [] && AllSpace(tables, []);
  }

  // The schema

  predicate DecimalDigits(tables: Unicode) { forall c: cp {:trigger tables.isDecimal(c)} :: 48 <= c <= 57 ==> tables.isDecimal(c) }

  lemma TypeFifteen(tables: Unicode)
    requires DecimalDigits(tables)
    ensures ColumnType(tables, Txt("character varying(15)"))
  {
    var t := Txt("character varying(15)");
    assert |VARCHAR_TYPE| == 17 && |t| == 21;
    assert forall i :: 0 <= i < 17 ==> t[i] == VARCHAR_TYPE[i];
    assert t[17..] == [40, 49, 53, 41];
    assert Sized(tables, VARCHAR_TYPE, t);
  }

  lemma TypeTwoFiftyFive(tables: Unicode)
    requires DecimalDigits(tables)
    ensures ColumnType(tables, Txt("character varying(255)"))
  {
    var t := Txt("character varying(255)");
    assert |VARCHAR_TYPE| == 17 && |t| == 22;
    assert forall i :: 0 <= i < 17 ==> t[i] == VARCHAR_TYPE[i];
    assert t[17..] == [40, 50, 53, 53, 41];
    assert Sized(tables, VARCHAR_TYPE, t);
  }

  lemma NamesArePlain()
    ensures IsIdentifier(ID) && IsIdentifier(EMAIL) && IsIdentifier(USERS) && IsIdentifier(Txt("users_email"))
    ensures IsIdentifier(Txt("verified")) && IsIdentifier(Txt("created"))
  {
  }

  lemma NamesDiffer()
    ensures Distinct([ID, EMAIL, Txt("verified"), Txt("created")])
  {
    assert |ID| == 2 && |EMAIL| == 5 && |Txt("verified")| == 8 && |Txt("created")| == 7;
  }

  lemma WordsAreListed()
    ensures Listed(Txt("boolean"), SCALAR_TYPES) && Listed(Txt("timestamp with time zone"), SCALAR_TYPES)
    ensures Listed(Txt("''::character varying"), ALLOWED_DEFAULTS) && Listed(Txt("false"), ALLOWED_DEFAULTS)
    ensures Listed(Txt("now()"), ALLOWED_DEFAULTS) && Listed(Txt("auth"), TABLE_KINDS) && Listed(Txt("btree"), INDEX_METHODS)
  {
    assert "boolean" in SCALAR_TYPES && "timestamp with time zone" in SCALAR_TYPES;
    assert "''::character varying" in ALLOWED_DEFAULTS && "false" in ALLOWED_DEFAULTS && "now()" in ALLOWED_DEFAULTS;
    assert "auth" in TABLE_KINDS && "btree" in INDEX_METHODS;
  }

  lemma UsersIsOk(tables: Unicode)
    requires DecimalDigits(tables)
    ensures TableOk(tables, UsersTable()) && UsersTable().ColumnNames() == [ID, EMAIL, Txt("verified"), Txt("created")]
  {
    ColumnsAreOk(tables);
    UsersNames();
    NamesArePlain();
    NamesDiffer();
    WordsAreListed();
  }

  lemma UsersNames()
    ensures var names := UsersTable().ColumnNames();
            names == [ID, EMAIL, Txt("verified"), Txt("created")] && ID in names && EMAIL in names
  {
    var names := UsersTable().ColumnNames();
    assert names == [ID, EMAIL, Txt("verified"), Txt("created")];
    assert names[0] == ID && names[1] == EMAIL;
  }

  lemma ColumnsAreOk(tables: Unicode)
    requires DecimalDigits(tables)
    ensures forall c :: c in Columns() ==> ColumnOk(tables, c)
  {
    TypeFifteen(tables);
    TypeTwoFiftyFive(tables);
    NamesArePlain();
    WordsAreListed();
  }

  lemma EmailIndexIsMade(rules: Rules)
    requires TableLaw(rules.tables)
    ensures MakeIndex(rules, EmailIndex()) == Some(EmailIndex())
  {
    NamesArePlain();
    WordsAreListed();
    PredicatePasses(rules);
    assert EmailIndex().(where := Some(PREDICATE)) == EmailIndex();
  }

  // The archive

  function UsersSegment(sha: bytes -> text, rows: seq<Row>, stream: bytes): CopySegment {
    CopySegment(USERS, UsersTable().ColumnNames(), 0, |stream|, sha(stream), |CopyText(rows)|, sha(CopyText(rows)), |rows|)
  }

  function UsersSchema(sha: bytes -> text, rows: seq<Row>, stream: bytes): DatabaseSchema {
    DatabaseSchema([UsersTable()], [], [EmailIndex()], [], [UsersSegment(sha, rows, stream)], |stream|, Some(160004), Int(1), Int(1))
  }

  function UsersDatabase(rows: seq<Row>): Database {
    Database(map[USERS := Table(UsersTable(), rows)], map[Txt("users_email") := EmailIndex()], map[])
  }

  function UsersStream(rows: seq<Row>): TableStream {
    TableStream(USERS, UsersTable().ColumnNames(), [CopyText(rows)], |rows|)
  }

  /** `stream` is a compression of the rows within the archive's limits, and digests are hexadecimal. */
  ghost predicate Compressed<C(!new), D(!new)>(z: Zlib<C, D>, sha: bytes -> text, rows: seq<Row>, stream: bytes) {
    && z.inflate(stream) == Some(CopyText(rows)) && (forall b: bytes {:trigger sha(b)} :: HexDigest(sha(b)))
    && |CopyText(rows)| <= |stream| * 200 && |CopyText(rows)| <= DEFAULT_MAX_TOTAL
    && |stream| <= INT_MAX && |rows| <= INT_MAX
  }

  lemma UsersLayout<C(!new), D(!new)>(z: Zlib<C, D>, sha: bytes -> text, rows: seq<Row>, stream: bytes)
    requires Compressed(z, sha, rows, stream)
    ensures SoundLayout([UsersSegment(sha, rows, stream)], |stream|, DEFAULT_MAX_TOTAL, DEFAULT_MAX_RATIO)
  {
    var gs := [UsersSegment(sha, rows, stream)];
    assert gs[1..] == [];
    assert TotalPlain(gs) == |CopyText(rows)|;
  }

  lemma UsersFits(tables: Unicode, sha: bytes -> text, rows: seq<Row>, stream: bytes)
    requires DecimalDigits(tables)
    ensures var s, g := UsersSchema(sha, rows, stream), UsersSegment(sha, rows, stream);
            IndexFits(s, EmailIndex()) && ColumnsOf(s, g.table, g.columns) && ValidColumns(g.columns) && IsIdentifier(g.table)
  {
    UsersIsOk(tables);
    NamesArePlain();
    NamesDiffer();
    assert UsersTable().ColumnNames()[1] == EMAIL;
    assert UsersTable() in UsersSchema(sha, rows, stream).tables;
  }

  lemma UsersSchemaIsOk<C(!new), D(!new)>(z: Zlib<C, D>, tables: Unicode, sha: bytes -> text, rows: seq<Row>, stream: bytes)
    requires Compressed(z, sha, rows, stream) && DecimalDigits(tables)
    ensures SchemaOk(UsersSchema(sha, rows, stream)) && SegmentOk(UsersSegment(sha, rows, stream))
  {
    UsersLayout(z, sha, rows, stream);
    UsersFits(tables, sha, rows, stream);
  }

  lemma UsersSchemaIsMade<C(!new), D(!new)>(z: Zlib<C, D>, rules: Rules, sha: bytes -> text, rows: seq<Row>, stream: bytes)
    requires TableLaw(rules.tables) && DecimalDigits(rules.tables) && Compressed(z, sha, rows, stream)
    ensures Made(rules, UsersSchema(sha, rows, stream))
  {
    UsersSchemaIsOk(z, rules.tables, sha, rows, stream);
    UsersIsOk(rules.tables);
    EmailIndexIsMade(rules);
    CapturedIsFixed(rules, UsersSchema(sha, rows, stream));
  }

  lemma AsciiTypes()
    ensures AllAscii(Txt("character varying(15)")) && AllAscii(Txt("character varying(255)")) && AllAscii(Txt("boolean"))
    ensures AllAscii(Txt("timestamp with time zone"))
  {
  }

  lemma AsciiDefaults()
    ensures AllAscii(Txt("''::character varying")) && AllAscii(Txt("false")) && AllAscii(Txt("now()"))
  {
  }

  lemma AsciiWords()
    ensures AllAscii(Txt("auth")) && AllAscii(Txt("btree")) && AllAscii(PREDICATE)
  {
    EmailIs();
  }

  lemma ColumnsAreStable(nfc: text -> text)
    requires Nfc(nfc)
    ensures forall c :: c in Columns() ==> StorableColumn(nfc, c) && ComposedColumn(nfc, c) == c
  {
    AsciiTypes();
    AsciiDefaults();
  }

  lemma UsersIsStorable<C(!new), D(!new)>(nfc: text -> text, z: Zlib<C, D>, sha: bytes -> text, rows: seq<Row>, stream: bytes)
    requires Nfc(nfc) && Compressed(z, sha, rows, stream)
    ensures Storable(nfc, UsersSchema(sha, rows, stream)) && Restorable(nfc, UsersSchema(sha, rows, stream))
  {
    AsciiWords();
    ColumnsAreStable(nfc);
  }

  lemma UsersIsLive(server: Server, sha: bytes -> text, rows: seq<Row>, stream: bytes)
    requires (forall i :: 0 <= i < |rows| ==> OneLine(rows[i])) && server.fits(UsersTable(), rows) && server.holds(EmailIndex(), rows)
    ensures Live(server, UsersDatabase(rows)) && Snapshot(UsersSchema(sha, rows, stream), UsersDatabase(rows))
  {
    var db := UsersDatabase(rows);
    assert |USERS| == 5 && |Txt("users_email")| == 11;
    assert EMAIL in UsersTable().ColumnNames() by { assert UsersTable().ColumnNames()[1] == EMAIL; }
    assert IndexLive(server, db, EmailIndex()) && TableLive(server, db.tables[USERS]);
    forall c: seq<text> ensures !Cycle(db.views, c) {
      if |c| >= 2 { assert !DependsOn(db.views, c[0], c[1]); }
    }
  }

  lemma OneArranged(t: TableSpec)
    ensures Arranged(TableKey, [t]) == [t]
  {
    var r := Arranged(TableKey, [t]);
    assert Keys(TableKey, [t]) == [t.name] && Elements([t.name]) == {t.name};
    assert |r| == |Keys(TableKey, r)| == 1;
    assert r[0] in r;
  }

  lemma UsersIsExported<C(!new), D(!new)>(z: Zlib<C, D>, sha: bytes -> text, tables: Unicode, rows: seq<Row>, stream: bytes)
    requires Compressed(z, sha, rows, stream) && DecimalDigits(tables)
    ensures Exported(z, sha, UsersDatabase(rows), UsersSchema(sha, rows, stream), [UsersStream(rows)], [stream])
  {
    UsersSchemaIsOk(z, tables, sha, rows, stream);
    NamesArePlain();
    assert Concat([stream]) == stream && Concat([CopyText(rows)]) == CopyText(rows);
    OneArranged(UsersTable());
    assert CopiesOut(UsersDatabase(rows), UsersTable(), UsersStream(rows));
  }

  /** A live auth collection, whatever its rows, has a constructible schema; its export is stored, loads
      and rebuilds as exactly that database, partial index and predicate included. */
  lemma AuthCollectionComesBack<C(!new), D(!new)>(
    nfc: text -> text, rules: Rules, z: Zlib<C, D>, sha: bytes -> text, server: Server, rows: seq<Row>, stream: bytes)
    requires Nfc(nfc) && NfcFronts(nfc) && TableLaw(rules.tables) && DecimalDigits(rules.tables)
    requires (forall i :: 0 <= i < |rows| ==> OneLine(rows[i])) && server.fits(UsersTable(), rows) && server.holds(EmailIndex(), rows)
    requires Compressed(z, sha, rows, stream)
    ensures var s := UsersSchema(sha, rows, stream);
            MakeSchema(rules, s) == Some(s) && Live(server, UsersDatabase(rows)) && Snapshot(s, UsersDatabase(rows))
    ensures Exported(z, sha, UsersDatabase(rows), UsersSchema(sha, rows, stream), [UsersStream(rows)], [stream])
    ensures ToCanonicalBytes(nfc, UsersSchema(sha, rows, stream)).Ok?
    ensures var payload := ToCanonicalBytes(nfc, UsersSchema(sha, rows, stream)).value;
            var read := ReadOf(z, sha, stream, |stream|, DEFAULT_MAX_RATIO);
            ComesBack(server, read, FromArchiveBytes(nfc, rules, payload), UsersDatabase(rows))
  {
    var s := UsersSchema(sha, rows, stream);
    UsersSchemaIsMade(z, rules, sha, rows, stream);
    UsersIsStorable(nfc, z, sha, rows, stream);
    UsersIsLive(server, sha, rows, stream);
    UsersIsExported(z, sha, rules.tables, rows, stream);
    SchemaRoundTrip(nfc, rules, s);
    assert Concat([stream]) == stream;
    EndToEnd(nfc, rules, z, sha, server, UsersDatabase(rows), s, s, [UsersStream(rows)], [stream], ToCanonicalBytes(nfc, s).value);
  }
}
