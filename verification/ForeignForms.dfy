/** Two archives with a string outside NFC: one restores another database than was exported. */
module ForeignForms {
  import opened Results
  import opened Bytes
  import opened Text
  import opened Codec
  import opened CopySegments
  import opened Json
  import opened SqlLexer
  import opened SqlFragment
  import opened SchemaTypes
  import opened SchemaContract
  import opened SchemaBytes
  import opened SchemaLoads
  import opened SchemaForms
  import opened ViewOrder
  import opened NativeDatabase
  import opened NativeArchive

  /** NFC as it acts on texts whose only decomposable character is the Greek question mark. */
  function GreekNfc(t: text): text { seq(|t|, i requires 0 <= i < |t| => if t[i] == 0x37E then 0x3B else t[i]) }

  lemma GreekLaws()
    ensures Nfc(GreekNfc) && NfcFronts(GreekNfc)
  {
    forall t: text, k: int {:trigger GreekNfc(t[..k])} | 0 <= k <= |t| && GreekNfc(t) == t
      ensures GreekNfc(t[..k]) == t[..k]
    {
      forall i | 0 <= i < k ensures GreekNfc(t[..k])[i] == t[..k][i] { assert GreekNfc(t)[i] == t[i]; }
    }
  }

  /** A schema that records one migration under a file name of one character. */
  function OneMigration(file: cp): DatabaseSchema {
    DatabaseSchema([], [], [], [MigrationSpec([file], None, [48])], [], 0, None, Int(1), Int(1))
  }

  lemma OneMigrationIsMade(rules: Rules, file: cp)
    ensures Made(rules, OneMigration(file))
  {
    CapturedIsFixed(rules, OneMigration(file));
  }

  lemma OneMigrationComposes()
    ensures Composed(GreekNfc, OneMigration(0x37E)) == OneMigration(0x3B) && Storable(GreekNfc, OneMigration(0x3B))
  {
    assert GreekNfc([0x37E]) == [0x3B] && GreekNfc([0x3B]) == [0x3B] && GreekNfc([48]) == [48];
    assert Composed(GreekNfc, OneMigration(0x37E)).migrations == OneMigration(0x3B).migrations;
  }

  /** A migration file named by a Greek question mark is stored without complaint and comes back
      named by a semicolon. */
  lemma ForeignFormIsLost(rules: Rules)
    requires TableLaw(rules.tables)
    ensures Nfc(GreekNfc) && MakeSchema(rules, OneMigration(0x37E)) == Some(OneMigration(0x37E))
    ensures LoadsAs(GreekNfc, rules, OneMigration(0x37E), OneMigration(0x3B))
  {
    GreekLaws();
    OneMigrationIsMade(rules, 0x37E);
    OneMigrationIsMade(rules, 0x3B);
    OneMigrationComposes();
    LoadsAsComposed(GreekNfc, rules, OneMigration(0x37E), OneMigration(0x3B));
  }

  // A view that selects one character

  const SELECT: text := Txt("select")

  function OneCharacter(c: cp): text { SELECT + ([32] + Quoted([c])) }

  lemma {:induction false} WordEndIs(tables: Unicode, s: text, j: nat, e: nat)
    requires j <= e < |s| && (forall k :: j <= k < e ==> WordPart(tables, s[k])) && !WordPart(tables, s[e])
    ensures WordEnd(tables, s, j) == e
    decreases e - j
  {
    if j < e { WordEndIs(tables, s, j + 1, e); }
  }

  lemma SelectStep(tables: Unicode, s: text, rest: text)
    requires TableLaw(tables) && s == SELECT + rest && rest != [] && rest[0] == 32
    ensures Step(tables, s) == Some(Lexeme([], SELECT, Token(Word, tables.lower(SELECT))))
  {
    assert SELECT == [115, 101, 108, 101, 99, 116];
    assert s[6] == 32 && forall k :: 0 <= k < 6 ==> s[k] == SELECT[k];
    assert !tables.isDigit(115) && tables.isAlpha(115);
    assert forall k :: 1 <= k < 6 ==> IsAsciiLetter(s[k]) && WordPart(tables, s[k]);
    WordEndIs(tables, s, 1, 6);
    assert s[..6] == SELECT;
  }

  lemma ConstantLexes(tables: Unicode, c: cp)
    requires c != 39
    ensures Lex(tables, Quoted([c])) == Some([Constant([], [c])])
  {
    QuoteFreeIsPaired([c], 39);
    LiteralAlone(tables, [], [c], []);
    assert [] + Quoted([c]) + [] == Quoted([c]) && [Constant([], [c])] + [] == [Constant([], [c])];
  }

  lemma BlankLexes(tables: Unicode, rest: text, after: seq<Piece>)
    requires Lex(tables, rest) == Some(after)
    ensures Lex(tables, [32] + rest) == Some([Blank(32)] + after)
  {
    LexCons(tables, [32] + rest, Blank(32), rest);
  }

  lemma SelectLexes(tables: Unicode, rest: text, after: seq<Piece>)
    requires TableLaw(tables) && tables.lower(SELECT) == SELECT
    requires Lex(tables, rest) == Some(after) && rest != [] && rest[0] == 32
    ensures Lex(tables, SELECT + rest) == Some([Lexeme([], SELECT, Token(Word, SELECT))] + after)
  {
    SelectStep(tables, SELECT + rest, rest);
    LexCons(tables, SELECT + rest, Lexeme([], SELECT, Token(Word, SELECT)), rest);
  }

  lemma OneCharacterTokens(tables: Unicode, c: cp)
    requires TableLaw(tables) && c != 39 && tables.lower(SELECT) == SELECT
    ensures Tokens(tables, OneCharacter(c)) == Some([Token(Word, SELECT), Token(Literal, Quoted([c]))])
  {
    var a, b, d := Lexeme([], SELECT, Token(Word, SELECT)), Blank(32), Constant([], [c]);
    ConstantLexes(tables, c);
    BlankLexes(tables, Quoted([c]), [d]);
    SelectLexes(tables, [32] + Quoted([c]), [b] + [d]);
    assert [a] + ([b] + [d]) == [a, b, d];
    TokensOfThree(a, b, d);
  }

  lemma TokensOfThree(a: Piece, b: Piece, c: Piece)
    requires a.Lexeme? && b.Blank? && c.Lexeme?
    ensures TokensOf([a, b, c]) == [a.token, c.token]
  {
    assert [a, b, c][1..] == [b, c] && [b, c][1..] == [c] && [c][1..] == [];
    assert TokensOf([c]) == [c.token];
    assert TokensOf([b, c]) == [] + TokensOf([c]);
  }

  /** `select` is a keyword that starts a query and is not forbidden. */
  ghost predicate SelectAllowed(rules: Rules) {
    && TableLaw(rules.tables) && rules.tables.lower(SELECT) == SELECT
    && SELECT !in rules.words.forbidden && SELECT !in rules.words.forbiddenTypes
  }

  lemma OneCharacterOk(rules: Rules, c: cp)
    requires SelectAllowed(rules)
    ensures TokensOk(rules.tables, rules.words, [Token(Word, SELECT), Token(Literal, Quoted([c]))], true)
  {
    var tokens := [Token(Word, SELECT), Token(Literal, Quoted([c]))];
    assert TokenOk(rules.tables, rules.words, tokens, 0) && TokenOk(rules.tables, rules.words, tokens, 1);
  }

  lemma OneCharacterStays(tables: Unicode, c: cp)
    requires TableLaw(tables)
    ensures Trim(tables, OneCharacter(c)) == OneCharacter(c) && !AllSpace(tables, OneCharacter(c))
    ensures |OneCharacter(c)| <= MAX_LENGTH
  {
    var t := OneCharacter(c);
    assert |SELECT| == 6 && t[|t| - 1] == 39 && !tables.isSpace(39);
    TrimKeeps(tables, t);
  }

  lemma OneCharacterPasses(rules: Rules, c: cp)
    requires SelectAllowed(rules) && c != 39
    ensures Validated(rules.tables, rules.words, OneCharacter(c), true) == Some(OneCharacter(c))
  {
    OneCharacterStays(rules.tables, c);
    OneCharacterTokens(rules.tables, c);
    OneCharacterOk(rules, c);
  }

  function OneView(c: cp): ViewSpec { ViewSpec(Txt("v"), OneCharacter(c), []) }

  function ViewSchema(c: cp): DatabaseSchema { DatabaseSchema([], [OneView(c)], [], [], [], 0, None, Int(1), Int(1)) }

  function ViewDatabase(c: cp): Database { Database(map[], map[], map[Txt("v") := OneView(c)]) }

  lemma ViewSchemaIsMade(rules: Rules, c: cp)
    requires SelectAllowed(rules) && c != 39
    ensures Made(rules, ViewSchema(c))
  {
    OneCharacterPasses(rules, c);
    assert IsIdentifier(Txt("v"));
    CapturedIsFixed(rules, ViewSchema(c));
  }

  lemma ViewDatabaseIsLive(server: Server, c: cp)
    requires server.deparse(OneCharacter(c)) == OneCharacter(c)
    ensures Live(server, ViewDatabase(c)) && Snapshot(ViewSchema(c), ViewDatabase(c))
  {
    var views := ViewDatabase(c).views;
    forall w: seq<text> ensures !Cycle(views, w) {
      if |w| >= 2 { assert !DependsOn(views, w[0], w[1]); }
    }
  }

  lemma ForeignViewLoads(rules: Rules)
    requires SelectAllowed(rules)
    ensures NfcLaw(GreekNfc) && LoadsAs(GreekNfc, rules, ViewSchema(0x37E), ViewSchema(0x3B))
  {
    GreekLaws();
    GreekView();
    ViewSchemaIsMade(rules, 0x37E);
    ViewSchemaIsMade(rules, 0x3B);
    LoadsAsComposed(GreekNfc, rules, ViewSchema(0x37E), ViewSchema(0x3B));
  }

  lemma ViewRebuilds<C(!new), D(!new)>(rules: Rules, z: Zlib<C, D>, sha: bytes -> text, server: Server, c: cp)
    requires SelectAllowed(rules) && c != 39 && server.deparse(OneCharacter(c)) == OneCharacter(c)
    ensures EveryTableExported(ViewSchema(c))
    ensures Rebuilt(server, ReadOf(z, sha, [], 0, DEFAULT_MAX_RATIO), ViewSchema(c)) == Some(ViewDatabase(c))
  {
    ViewSchemaIsMade(rules, c);
    ViewDatabaseIsLive(server, c);
    EmptyExport(z, sha, c);
    ExportRebuilds(z, sha, server, ViewDatabase(c), ViewSchema(c), [], []);
  }

  /** A database whose one view selects a Greek question mark is exported without complaint, and its
      archive is restored without complaint as a database whose view selects a semicolon. */
  lemma ForeignViewComesBackChanged<C(!new), D(!new)>(rules: Rules, z: Zlib<C, D>, sha: bytes -> text, server: Server)
    requires SelectAllowed(rules) && forall t :: server.deparse(t) == t
    ensures Nfc(GreekNfc) && NfcFronts(GreekNfc)
    ensures var s, db := ViewSchema(0x37E), ViewDatabase(0x37E);
            && MakeSchema(rules, s) == Some(s) && Live(server, db) && Snapshot(s, db) && Exported(z, sha, db, s, [], [])
    ensures LoadsAs(GreekNfc, rules, ViewSchema(0x37E), ViewSchema(0x3B))
    ensures var read := ReadOf(z, sha, [], 0, DEFAULT_MAX_RATIO);
            EveryTableExported(ViewSchema(0x3B)) && Rebuilt(server, read, ViewSchema(0x3B)) == Some(ViewDatabase(0x3B))
    ensures ViewDatabase(0x3B) != ViewDatabase(0x37E)
  {
    GreekLaws();
    ForeignViewLoads(rules);
    ViewSchemaIsMade(rules, 0x37E);
    ViewDatabaseIsLive(server, 0x37E);
    EmptyExport(z, sha, 0x37E);
    ViewRebuilds(rules, z, sha, server, 0x3B);
    assert ViewDatabase(0x3B).views[Txt("v")] != ViewDatabase(0x37E).views[Txt("v")] by { GreekCharacter(); }
  }

  lemma EmptyExport<C(!new), D(!new)>(z: Zlib<C, D>, sha: bytes -> text, c: cp)
    ensures Exported(z, sha, ViewDatabase(c), ViewSchema(c), [], [])
  {
  }

  lemma GreekView()
    ensures OneCharacter(0x37E) != OneCharacter(0x3B)
    ensures Composed(GreekNfc, ViewSchema(0x37E)) == ViewSchema(0x3B) && Storable(GreekNfc, ViewSchema(0x3B))
  {
    GreekCharacter();
    assert Composed(GreekNfc, ViewSchema(0x37E)).views == ViewSchema(0x3B).views;
  }

  lemma GreekCharacter()
    ensures GreekNfc(OneCharacter(0x37E)) == OneCharacter(0x3B) && OneCharacter(0x37E) != OneCharacter(0x3B)
    ensures Stable(GreekNfc, OneCharacter(0x3B))
  {
    assert SELECT == [115, 101, 108, 101, 99, 116];
    assert OneCharacter(0x37E)[8] == 0x37E && OneCharacter(0x3B)[8] == 0x3B;
  }
}
