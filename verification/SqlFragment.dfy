/** The read-only check of view definitions and index predicates, over the lexer. */
module SqlFragment {
  import opened Results
  import opened Text
  import opened SqlWords
  import opened SqlLexer

  const MAX_LENGTH: nat := 100000
  const PG_CATALOG: text := Txt("pg_catalog")
  const INFORMATION_SCHEMA: text := Txt("information_schema")

  function Symbol(c: cp): Token { Token(Punct, [c]) }

  /** The token right behind `i`. */
  function Following(tokens: seq<Token>, i: nat): Option<Token>
    requires i < |tokens|
  {
    if i + 1 < |tokens| then Some(tokens[i + 1]) else None
  }

  predicate Names(token: Token) { token.kind.Word? || token.kind.QuotedName? }

  /** An unqualified call of an allowed function, or a structural keyword before a bracket. */
  predicate CallOk(tables: Unicode, words: Words, tokens: seq<Token>, i: nat)
    requires i < |tokens|
  {
    var name := tables.lower(tokens[i].t);
    && !(i > 0 && tokens[i - 1] == Symbol(46))
    && ((tokens[i].kind.Word? && name in words.structural) || name in words.callable)
  }

  predicate TokenOk(tables: Unicode, words: Words, tokens: seq<Token>, i: nat)
    requires i < |tokens|
  {
    var token := tokens[i];
    && token != Symbol(59)
    && (token.kind.Word? ==> token.t !in words.forbidden && token.t !in words.forbiddenTypes)
    && (Names(token) && Following(tokens, i) == Some(Symbol(46)) ==>
          tables.lower(token.t) != PG_CATALOG && tables.lower(token.t) != INFORMATION_SCHEMA)
    && (Names(token) && Following(tokens, i) == Some(Symbol(40)) ==> CallOk(tables, words, tokens, i))
  }

  predicate StartsQuery(token: Token) {
    token == Token(Word, Txt("select")) || token == Token(Word, Txt("with")) || token == Symbol(40)
  }

  /** `str.rstrip`. */
  function RStrip(tables: Unicode, s: text): (r: text)
    ensures r <= s && (r != [] ==> !tables.isSpace(r[|r| - 1]))
    ensures s != [] && !tables.isSpace(s[|s| - 1]) ==> r == s
    decreases |s|
  {
    if s != [] && tables.isSpace(s[|s| - 1]) then RStrip(tables, s[..|s| - 1]) else s
  }

  /** Trailing white space goes, and one trailing semicolon with what stands before it. */
  function Trim(tables: Unicode, s: text): text {
    var t := RStrip(tables, s);
    if t != [] && t[|t| - 1] == 59 then RStrip(tables, t[..|t| - 1]) else t
  }

  predicate AllSpace(tables: Unicode, s: text) { forall i :: 0 <= i < |s| ==> tables.isSpace(s[i]) }

  predicate TokensOk(tables: Unicode, words: Words, tokens: seq<Token>, requireSelect: bool) {
    && tokens != [] && (forall i :: 0 <= i < |tokens| ==> TokenOk(tables, words, tokens, i))
    && (requireSelect ==> StartsQuery(tokens[0]))
  }

  /** What the check lets through. */
  predicate Accepts(tables: Unicode, words: Words, value: text, requireSelect: bool) {
    && !AllSpace(tables, value) && |value| <= MAX_LENGTH
    && Tokens(tables, Trim(tables, value)).Some?
    && TokensOk(tables, words, Tokens(tables, Trim(tables, value)).value, requireSelect)
  }

  /** The captured text of an accepted fragment. */
  function Validated(tables: Unicode, words: Words, value: text, requireSelect: bool): Option<text> {
    if Accepts(tables, words, value, requireSelect) then Some(Trim(tables, value)) else None
  }

  // Idempotence

  lemma LastOfConcat(a: text, b: text)
    requires b != []
    ensures (a + b)[|a + b| - 1] == b[|b| - 1]
  {
  }

  lemma {:induction false} LastSource(pieces: seq<Piece>)
    requires pieces != [] && pieces[|pieces| - 1].Source() != []
    ensures var s, p := SourceOf(pieces), pieces[|pieces| - 1].Source(); s != [] && s[|s| - 1] == p[|p| - 1]
    decreases |pieces|
  {
    var first, rest := pieces[0].Source(), pieces[1..];
    if rest == [] {
      assert SourceOf(pieces) == first;
    } else {
      assert rest[|rest| - 1] == pieces[|pieces| - 1];
      LastSource(rest);
      LastOfConcat(first, SourceOf(rest));
    }
  }

  lemma {:induction false} PieceIsToken(pieces: seq<Piece>, i: nat)
    requires i < |pieces| && pieces[i].Lexeme?
    ensures pieces[i].token in TokensOf(pieces)
    decreases i
  {
    if i > 0 { PieceIsToken(pieces[1..], i - 1); }
  }

  /** A body with a semicolon, and what its last character then is. */
  lemma BodySemicolon(tables: Unicode, p: Piece)
    requires TableLaw(tables) && Spelled(tables, p) && p.Lexeme? && 59 in p.body
    ensures p.token == Symbol(59) || p.token.kind.Literal? || p.token.kind.QuotedName?
    ensures p.token != Symbol(59) ==> p.body[|p.body| - 1] != 59
  {
    assert !tables.isAlnum(59);
    var k :| 0 <= k < |p.body| && p.body[k] == 59;
    if p.token.kind.Punct? { assert p.body == [59]; }
  }

  lemma SpelledSemicolon(tables: Unicode, p: Piece)
    requires TableLaw(tables) && Spelled(tables, p) && 59 in p.Source()
    ensures p.Lexeme? && (p.token == Symbol(59) || p.token.kind.Literal? || p.token.kind.QuotedName?)
    ensures p.token != Symbol(59) ==> p.Source()[|p.Source()| - 1] != 59
  {
    if p.Lexeme? {
      assert p.Source()[|p.Source()| - 1] == p.body[|p.body| - 1];
      assert 59 !in p.prefix;
      BodySemicolon(tables, p);
    }
  }

  lemma NoBareSemicolon(tables: Unicode, words: Words, tokens: seq<Token>, token: Token)
    requires (forall i :: 0 <= i < |tokens| ==> TokenOk(tables, words, tokens, i)) && token in tokens
    ensures token != Symbol(59)
  {
    var i :| 0 <= i < |tokens| && tokens[i] == token;
    assert TokenOk(tables, words, tokens, i);
  }

  lemma PieceSemicolon(tables: Unicode, words: Words, pieces: seq<Piece>, select: bool, p: Piece)
    requires TableLaw(tables) && AllSpelled(tables, pieces) && TokensOk(tables, words, TokensOf(pieces), select)
    requires p in pieces && 59 in p.Source()
    ensures p.Lexeme? && (p.token.kind.Literal? || p.token.kind.QuotedName?)
    ensures p.Source()[|p.Source()| - 1] != 59
  {
    SpelledSemicolon(tables, p);
    var i :| 0 <= i < |pieces| && pieces[i] == p;
    PieceIsToken(pieces, i);
    NoBareSemicolon(tables, words, TokensOf(pieces), p.token);
  }

  /** An accepted fragment is cut into pieces that make it up, and among them a semicolon stands
      only inside a literal or a quoted identifier. */
  lemma SemicolonsInside(tables: Unicode, words: Words, value: text, select: bool)
    requires TableLaw(tables) && Accepts(tables, words, value, select)
    ensures var pieces := Lex(tables, Trim(tables, value)).value;
            && SourceOf(pieces) == Trim(tables, value)
            && forall p :: p in pieces && 59 in p.Source() ==>
                 p.Lexeme? && (p.token.kind.Literal? || p.token.kind.QuotedName?)
  {
    var s := Trim(tables, value);
    LexReassembles(tables, s);
    forall p | p in Lex(tables, s).value && 59 in p.Source()
      ensures p.Lexeme? && (p.token.kind.Literal? || p.token.kind.QuotedName?)
    {
      PieceSemicolon(tables, words, Lex(tables, s).value, select, p);
    }
  }

  /** The last character of a text is that of its last piece. */
  lemma LastPiece(tables: Unicode, t: text, pieces: seq<Piece>) returns (p: Piece)
    requires TableLaw(tables) && t != [] && Lex(tables, t) == Some(pieces)
    ensures AllSpelled(tables, pieces) && p in pieces && p.Source() != [] && p.Source()[|p.Source()| - 1] == t[|t| - 1]
  {
    LexReassembles(tables, t);
    p := pieces[|pieces| - 1];
    assert p in pieces && Spelled(tables, p);
    LastSource(pieces);
  }

  lemma TokensNeedText(tables: Unicode)
    ensures Tokens(tables, []) == Some([])
  {
  }

  lemma TrimmedEndsPlain(tables: Unicode, words: Words, t: text, select: bool, tokens: seq<Token>)
    requires TableLaw(tables) && Tokens(tables, t) == Some(tokens) && TokensOk(tables, words, tokens, select)
    ensures t != [] && t[|t| - 1] != 59
  {
    TokensNeedText(tables);
    var pieces := Lex(tables, t).value;
    if t[|t| - 1] == 59 {
      var p := LastPiece(tables, t, pieces);
      PieceSemicolon(tables, words, pieces, select, p);
    }
  }

  lemma TrimEndsInk(tables: Unicode, value: text)
    ensures var t := Trim(tables, value); t != [] ==> !tables.isSpace(t[|t| - 1])
  {
  }

  lemma TrimKeeps(tables: Unicode, t: text)
    requires t != [] && !tables.isSpace(t[|t| - 1]) && t[|t| - 1] != 59
    ensures Trim(tables, t) == t && !AllSpace(tables, t)
  {
  }

  lemma TrimShorter(tables: Unicode, t: text)
    ensures |Trim(tables, t)| <= |t|
  {
  }

  /** Checking a captured fragment again accepts it and returns it unchanged. */
  lemma ValidationIsIdempotent(tables: Unicode, words: Words, value: text, select: bool)
    requires TableLaw(tables) && Accepts(tables, words, value, select)
    ensures Validated(tables, words, Trim(tables, value), select) == Some(Trim(tables, value))
  {
    var t := Trim(tables, value);
    TrimmedEndsPlain(tables, words, t, select, Tokens(tables, t).value);
    TrimEndsInk(tables, value);
    TrimKeeps(tables, t);
    TrimShorter(tables, value);
  }

  // The inside of a plain constant

  lemma {:induction false} RStripThrough(tables: Unicode, a: text, b: text)
    requires a != [] && !tables.isSpace(a[|a| - 1])
    ensures RStrip(tables, a + b) == a + RStrip(tables, b)
    decreases |b|
  {
    if b == [] {
      assert a + b == a;
    } else {
      assert (a + b)[..|a + b| - 1] == a + b[..|b| - 1];
      if tables.isSpace(b[|b| - 1]) { RStripThrough(tables, a, b[..|b| - 1]); }
    }
  }

  lemma TrimThrough(tables: Unicode, a: text, b: text)
    requires a != [] && !tables.isSpace(a[|a| - 1]) && a[|a| - 1] != 59
    ensures Trim(tables, a + b) == a + Trim(tables, b)
    ensures Trim(tables, b) <= b
  {
    RStripThrough(tables, a, b);
    var r := RStrip(tables, b);
    if r != [] {
      assert (a + r)[..|a + r| - 1] == a + r[..|r| - 1];
      RStripThrough(tables, a, r[..|r| - 1]);
    } else {
      assert a + r == a;
    }
  }

  lemma LiteralTextUnused(tables: Unicode, words: Words, before: seq<Token>, x: text, y: text, after: seq<Token>, select: bool)
    requires TokensOk(tables, words, before + [Token(Literal, x)] + after, select)
    ensures TokensOk(tables, words, before + [Token(Literal, y)] + after, select)
  {
    var a := before + [Token(Literal, x)] + after;
    var b := before + [Token(Literal, y)] + after;
    forall i | 0 <= i < |b| ensures TokenOk(tables, words, b, i) {
      assert TokenOk(tables, words, a, i);
      assert forall k :: 0 <= k < |b| && k != |before| ==> a[k] == b[k];
      assert b[|before|] == Token(Literal, y) && a[|before|] == Token(Literal, x);
    }
    assert |before| > 0 ==> b[0] == a[0];
  }

  lemma VerdictAtBoundary(
    tables: Unicode, words: Words, u: text, pre: text, x: text, y: text, b: text, select: bool)
    requires TableLaw(tables) && PlainPrefix(pre) && Paired(x, 39) && Paired(y, 39) && (b == [] || b[0] != 39)
    requires Boundary(tables, u, pre + Quoted(x) + b)
    requires |u + (pre + Quoted(x) + b)| <= MAX_LENGTH && |u + (pre + Quoted(y) + b)| <= MAX_LENGTH
    ensures Accepts(tables, words, u + (pre + Quoted(x) + b), select)
        <==> Accepts(tables, words, u + (pre + Quoted(y) + b), select)
  {
    FrontLocal(tables, u, pre + Quoted(x) + b, pre + Quoted(y) + b);
    if Accepts(tables, words, u + (pre + Quoted(x) + b), select) {
      VerdictCarriesOver(tables, words, u, pre, x, y, b, select);
    }
    if Accepts(tables, words, u + (pre + Quoted(y) + b), select) {
      VerdictCarriesOver(tables, words, u, pre, y, x, b, select);
    }
  }

  lemma TrimBehind(tables: Unicode, u: text, pre: text, x: text, b: text)
    requires TableLaw(tables)
    ensures Trim(tables, u + (pre + Quoted(x) + b)) == u + (pre + Quoted(x) + Trim(tables, b))
    ensures Trim(tables, b) <= b && !AllSpace(tables, u + (pre + Quoted(x) + b))
  {
    var a := u + (pre + Quoted(x));
    assert a[|a| - 1] == 39 && tables.isSpace(39) == false;
    TrimThrough(tables, a, b);
    assert u + (pre + Quoted(x) + b) == a + b && u + (pre + Quoted(x) + Trim(tables, b)) == a + Trim(tables, b);
    assert (a + b)[|a| - 1] == 39;
  }

  lemma VerdictCarriesOver(
    tables: Unicode, words: Words, u: text, pre: text, x: text, y: text, b: text, select: bool)
    requires TableLaw(tables) && PlainPrefix(pre) && Paired(x, 39) && Paired(y, 39) && (b == [] || b[0] != 39)
    requires Boundary(tables, u, pre + Quoted(x) + b)
    requires |u + (pre + Quoted(y) + b)| <= MAX_LENGTH
    requires Accepts(tables, words, u + (pre + Quoted(x) + b), select)
    ensures Accepts(tables, words, u + (pre + Quoted(y) + b), select)
  {
    var c := Trim(tables, b);
    TrimBehind(tables, u, pre, x, b);
    TrimBehind(tables, u, pre, y, b);
    FrontLocal(tables, u, pre + Quoted(x) + b, pre + Quoted(x) + c);
    LiteralInsideIsOpaque(tables, u, pre, x, y, c);
    var before, after :|
      && Tokens(tables, u + (pre + Quoted(x) + c)) == Some(before + [Token(Literal, Quoted(x))] + after)
      && Tokens(tables, u + (pre + Quoted(y) + c)) == Some(before + [Token(Literal, Quoted(y))] + after);
    LiteralTextUnused(tables, words, before, Quoted(x), Quoted(y), after, select);
  }

  /** A string or bit constant whose backslashes are characters like any other. */
  predicate PlainConstant(p: Piece) {
    p.Lexeme? && p.token.kind.Literal? && p.body != [] && p.body[0] == 39 && PlainPrefix(p.prefix)
  }

  /** The text with `y` between the quotes of constant `i`. */
  function Rewritten(pieces: seq<Piece>, i: nat, y: text): text
    requires i < |pieces| && pieces[i].Lexeme?
  {
    SourceOf(pieces[..i]) + (pieces[i].prefix + Quoted(y) + SourceOf(pieces[i + 1..]))
  }

  lemma {:induction false} QuoteEndStops(s: text, j: nat, q: cp)
    requires QuoteEnd(s, j, q, false).Some? && QuoteEnd(s, j, q, false).value + 1 < |s|
    ensures s[QuoteEnd(s, j, q, false).value + 1] != q
    decreases |s| + 2 - j
  {
    if s[j] != q { QuoteEndStops(s, j + 1, q); }
    else if s[j + 1] == q { QuoteEndStops(s, j + 2, q); }
  }

  lemma ConstantText(s: text, k: nat, e: nat)
    requires k < e < |s| && s[k] == 39 && s[e] == 39
    ensures s[k..e + 1] == Quoted(s[k + 1..e])
  {
  }

  lemma ConstantStepIs(tables: Unicode, s: text, p: Piece)
    requires s != [] && Step(tables, s) == Some(p) && PlainConstant(p)
    ensures |p.prefix| < |s| && |p.prefix| <= 1 && s[|p.prefix|] == 39 && QuotedLiteral(s, |p.prefix|) == Some(p)
    ensures |p.prefix| == 1 ==> !IsExponent(s[0])
  {
    if s[0] != 36 && s[0] != 34 && PrefixedLiteral(s) { assert p.prefix == s[..1]; }
  }

  /** A plain constant is two quotes with every quote between them doubled, and no quote follows. */
  lemma ConstantOfStep(tables: Unicode, s: text, p: Piece) returns (x: text)
    requires s != [] && Step(tables, s) == Some(p) && PlainConstant(p)
    ensures p == Constant(p.prefix, x) && Paired(x, 39)
    ensures |p.Source()| < |s| ==> s[|p.Source()|] != 39
  {
    var k := |p.prefix|;
    ConstantStepIs(tables, s, p);
    var e := QuoteEnd(s, k + 1, 39, false).value;
    x := s[k + 1..e];
    QuoteEndPairs(s, k + 1, 39);
    ConstantText(s, k, e);
    if |p.Source()| < |s| { QuoteEndStops(s, k + 1, 39); }
  }

  /** The lexer stops at the start of each of its pieces. */
  lemma {:induction false} PiecesBound(tables: Unicode, s: text, pieces: seq<Piece>, i: nat)
    requires Lex(tables, s) == Some(pieces) && i <= |pieces|
    ensures s == SourceOf(pieces[..i]) + SourceOf(pieces[i..])
    ensures Boundary(tables, SourceOf(pieces[..i]), SourceOf(pieces[i..]))
    ensures Lex(tables, SourceOf(pieces[i..])) == Some(pieces[i..])
    decreases |s|
  {
    if s == [] {
    } else if i == 0 {
      PiecesAreText(tables, s, pieces);
      assert pieces[..0] == [] && pieces[0..] == pieces;
    } else {
      FirstPiece(tables, s, pieces);
      var p := pieces[0];
      PiecesBound(tables, s[|p.Source()|..], pieces[1..], i - 1);
      FirstPieces(pieces, i);
      BoundaryCons(tables, p, SourceOf(pieces[1..][..i - 1]), SourceOf(pieces[i..]), s);
    }
  }

  lemma FirstPiece(tables: Unicode, s: text, pieces: seq<Piece>)
    requires s != [] && Lex(tables, s) == Some(pieces)
    ensures Step(tables, s).Some? && pieces != [] && pieces[0] == Step(tables, s).value
    ensures Lex(tables, s[|pieces[0].Source()|..]) == Some(pieces[1..])
  {
    var rest := s[|Step(tables, s).value.Source()|..];
    assert ([Step(tables, s).value] + Lex(tables, rest).value)[1..] == Lex(tables, rest).value;
  }

  lemma FrontThenRest(s: text, a: text)
    requires a <= s
    ensures s == a + s[|a|..]
  {
  }

  lemma {:induction false} PiecesAreText(tables: Unicode, s: text, pieces: seq<Piece>)
    requires Lex(tables, s) == Some(pieces)
    ensures s == SourceOf(pieces)
    decreases |s|
  {
    if s != [] {
      FirstPiece(tables, s, pieces);
      FrontThenRest(s, pieces[0].Source());
      PiecesAreText(tables, s[|pieces[0].Source()|..], pieces[1..]);
    }
  }

  lemma FirstPieces(pieces: seq<Piece>, i: nat)
    requires 1 <= i <= |pieces|
    ensures SourceOf(pieces[..i]) == pieces[0].Source() + SourceOf(pieces[1..][..i - 1])
    ensures pieces[1..][i - 1..] == pieces[i..]
  {
    assert pieces[..i][1..] == pieces[1..][..i - 1];
  }

  lemma Regroup(a: text, u: text, v: text, s: text)
    requires a <= s && s[|a|..] == u + v
    ensures s == (a + u) + v && (a + u)[|a|..] == u
  {
    assert s == a + s[|a|..];
  }

  lemma BoundaryCons(tables: Unicode, p: Piece, u: text, v: text, s: text)
    requires s != [] && Step(tables, s) == Some(p) && s[|p.Source()|..] == u + v && Boundary(tables, u, v)
    ensures s == (p.Source() + u) + v && Boundary(tables, p.Source() + u, v)
  {
    var a := p.Source();
    Regroup(a, u, v, s);
  }

  /** The verdict on a fragment does not depend on what stands inside its plain constants: any text
      with its quotes doubled may take the place of the text that is there. */
  lemma VerdictIgnoresConstants(
    tables: Unicode, words: Words, value: text, pieces: seq<Piece>, i: nat, y: text, select: bool)
    requires TableLaw(tables) && Lex(tables, value) == Some(pieces) && i < |pieces|
    requires PlainConstant(pieces[i]) && Paired(y, 39)
    requires |value| <= MAX_LENGTH && |Rewritten(pieces, i, y)| <= MAX_LENGTH
    ensures Accepts(tables, words, value, select) <==> Accepts(tables, words, Rewritten(pieces, i, y), select)
  {
    PiecesBound(tables, value, pieces, i);
    var u, v := SourceOf(pieces[..i]), SourceOf(pieces[i..]);
    var p, b := pieces[i], SourceOf(pieces[i + 1..]);
    assert pieces[i..][0] == p && pieces[i..][1..] == pieces[i + 1..];
    var x := ConstantOfStep(tables, v, p);
    assert v == p.Source() + b == p.prefix + Quoted(x) + b;
    VerdictAtBoundary(tables, words, u, p.prefix, x, y, b, select);
  }

  lemma {:induction false} QuoteFreeIsPaired(x: text, q: cp)
    requires q !in x
    ensures Paired(x, q)
  {
    if x != [] { QuoteFreeIsPaired(x[1..], q); }
  }

  /** The inner loop of a quoted stretch, shared by identifiers and string constants. */
  method ScanQuoted(value: text, from: nat, q: cp, escapes: bool, ghost base: nat) returns (r: Option<nat>)
    requires base <= from <= |value|
    ensures r.Some? ==> from <= r.value < |value|
    ensures (if r.Some? then Some(r.value - base) else None) == QuoteEnd(value[base..], from - base, q, escapes)
  {
    var n := |value|;
    var j := from;
    while j < n
      invariant from <= j
      invariant QuoteEnd(value[base..], j - base, q, escapes) == QuoteEnd(value[base..], from - base, q, escapes)
    {
      if value[j] == 92 && escapes { j := j + 2; continue; }
      if value[j] == q {
        if j + 1 < n && value[j + 1] == q { j := j + 2; continue; }
        return Some(j);
      }
      j := j + 1;
    }
    return None;
  }

  method ScanNumber(tables: Unicode, value: text, i: nat) returns (j: nat)
    requires i < |value| && NumberStart(tables, value[i..]) && TableLaw(tables)
    ensures i < j <= |value| && j - i == NumberEnd(tables, value[i..], 1)
  {
    j := i;
    while j < |value| && (tables.isAlnum(value[j]) || value[j] == 46 || value[j] == 95 || IsSign(value[j]))
      invariant i <= j <= |value|
      invariant j > i ==> NumberEnd(tables, value[i..], j - i) == NumberEnd(tables, value[i..], 1)
    {
      if j > i && IsSign(value[j]) && !IsExponent(value[j - 1]) { break; }
      j := j + 1;
    }
  }

  method ScanWord(tables: Unicode, value: text, i: nat) returns (j: nat)
    requires i < |value| && WordStart(tables, value[i]) && TableLaw(tables)
    ensures i < j <= |value| && j - i == WordEnd(tables, value[i..], 1)
  {
    j := i;
    assert WordPart(tables, value[i]);
    while j < |value| && WordPart(tables, value[j])
      invariant i <= j <= |value|
      invariant j > i ==> WordEnd(tables, value[i..], j - i) == WordEnd(tables, value[i..], 1)
    {
      j := j + 1;
    }
  }

  /** `tokens` in front of what comes later, if that lexes. */
  function Ahead(tokens: seq<Token>, later: Option<seq<Token>>): Option<seq<Token>> {
    match later case None => None case Some(after) => Some(tokens + after)
  }

  lemma AheadTwice(a: seq<Token>, b: seq<Token>, later: Option<seq<Token>>)
    ensures Ahead(a, Ahead(b, later)) == Ahead(a + b, later)
  {
    if later.Some? { assert a + (b + later.value) == (a + b) + later.value; }
  }

  /** `tokens` are those of the value up to `i`. */
  ghost predicate Continues(tables: Unicode, value: text, tokens: seq<Token>, i: nat)
    requires i <= |value|
  {
    Tokens(tables, value) == Ahead(tokens, Tokens(tables, value[i..]))
  }

  /** The token a piece adds. */
  function Added(p: Piece): seq<Token> { if p.Blank? then [] else [p.token] }

  lemma TokensStep(tables: Unicode, s: text, p: Piece, rest: text)
    requires s != [] && Step(tables, s) == Some(p) && s == p.Source() + rest
    ensures Tokens(tables, s) == Ahead(Added(p), Tokens(tables, rest))
  {
    LexCons(tables, s, p, rest);
    if Lex(tables, rest).Some? { assert ([p] + Lex(tables, rest).value)[1..] == Lex(tables, rest).value; }
  }

  lemma TokensFrom(tables: Unicode, value: text, i: nat, p: Piece, j: nat)
    requires i < |value| && Step(tables, value[i..]) == Some(p) && j == i + |p.Source()|
    ensures i < j <= |value|
    ensures Tokens(tables, value[i..]) == Ahead(Added(p), Tokens(tables, value[j..]))
  {
    var s, src := value[i..], p.Source();
    assert src <= s && src != [];
    assert s[|src|..] == value[j..];
    TokensStep(tables, s, p, value[j..]);
  }

  lemma Took(tables: Unicode, value: text, tokens: seq<Token>, i: nat, p: Piece, j: nat)
    requires i < |value| && Continues(tables, value, tokens, i) && Step(tables, value[i..]) == Some(p)
    requires j == i + |p.Source()|
    ensures i < j <= |value| && Continues(tables, value, tokens + Added(p), j)
  {
    TokensFrom(tables, value, i, p, j);
    AheadTwice(tokens, Added(p), Tokens(tables, value[j..]));
  }

  /** The token a dollar sign starts, or nothing for a bind parameter or an unclosed constant. */
  method TakeDollar(value: text, i: nat) returns (r: Option<(text, nat)>)
    requires i < |value| && value[i] == 36
    ensures match r
            case None => Dollar(value[i..]) == None
            case Some((t, j)) => i < j <= |value| && Dollar(value[i..]) == Some(Lexeme([], value[i..j], Token(Literal, t)))
  {
    var rest := value[i..];
    var tag := TagLength(rest);
    if tag.None? { return None; }
    var end := Find(rest, rest[..tag.value], tag.value);
    if end.None? { return None; }
    var j := i + end.value + tag.value;
    assert value[i..j] == rest[..end.value + tag.value];
    return Some((value[i..j], j));
  }

  /** The token at `i`, where no blank stands, and where it ends. */
  method TakeToken(tables: Unicode, value: text, i: nat) returns (r: Option<(Token, nat)>)
    requires TableLaw(tables) && i < |value| && !IsBlank(value[i])
    ensures match (Step(tables, value[i..]), r)
            case (Some(p), Some((token, j))) => p.Lexeme? && p.token == token && j == i + |p.Source()|
            case (None, None) => true
            case _ => false
  {
    var n, ch := |value|, value[i];
    if (ch == 45 && i + 1 < n && value[i + 1] == 45) || (ch == 47 && i + 1 < n && value[i + 1] == 42) {
      return None;
    }
    if ch == 36 {
      var taken := TakeDollar(value, i);
      if taken.None? { return None; }
      return Some((Token(Literal, taken.value.0), taken.value.1));
    }
    if ch == 34 {
      var end := ScanQuoted(value, i + 1, 34, false, i);
      if end.None? { return None; }
      assert value[i..][1..end.value - i] == value[i + 1..end.value];
      return Some((Token(QuotedName, Unquote(value[i + 1..end.value])), end.value + 1));
    }
    if ch == 39 || (LiteralPrefix(ch) && i + 1 < n && value[i + 1] == 39) {
      r := TakeConstant(tables, value, i);
      return;
    }
    if tables.isDigit(ch) || (ch == 46 && i + 1 < n && tables.isDigit(value[i + 1])) {
      var j := ScanNumber(tables, value, i);
      assert value[i..][..j - i] == value[i..j];
      return Some((Token(Number, value[i..j]), j));
    }
    if WordStart(tables, ch) {
      var j := ScanWord(tables, value, i);
      assert value[i..][..j - i] == value[i..j];
      return Some((Token(Word, tables.lower(value[i..j])), j));
    }
    return if ch == 0 then None else Some((Symbol(ch), i + 1));
  }

  method TakeConstant(tables: Unicode, value: text, i: nat) returns (r: Option<(Token, nat)>)
    requires i < |value| && (value[i] == 39 || PrefixedLiteral(value[i..]))
    ensures var s := value[i..];
            match (QuotedLiteral(s, if value[i] == 39 then 0 else 1), r)
            case (Some(p), Some((token, j))) => p.token == token && j == i + |p.Source()|
            case (None, None) => true
            case _ => false
  {
    var skip := if value[i] == 39 then 0 else 1;
    var end := ScanQuoted(value, i + skip + 1, 39, skip == 1 && IsExponent(value[i]), i);
    if end.None? { return None; }
    var j := end.value + 1;
    assert value[i..][skip..j - i] == value[i + skip..j];
    return Some((Token(Literal, value[i + skip..j]), j));
  }

  method TokenizeSql(tables: Unicode, value: text) returns (r: Option<seq<Token>>)
    requires TableLaw(tables)
    ensures r == Tokens(tables, value)
  {
    var tokens: seq<Token> := [];
    var i := 0;
    assert value[0..] == value;
    assert forall rest: seq<Token> :: [] + rest == rest;
    while i < |value|
      invariant 0 <= i <= |value| && Continues(tables, value, tokens, i)
    {
      if IsBlank(value[i]) {
        Took(tables, value, tokens, i, Blank(value[i]), i + 1);
        assert tokens + [] == tokens;
        i := i + 1;
        continue;
      }
      var taken := TakeToken(tables, value, i);
      if taken.None? { return None; }
      Took(tables, value, tokens, i, Step(tables, value[i..]).value, taken.value.1);
      tokens, i := tokens + [taken.value.0], taken.value.1;
    }
    assert value[i..] == [] && tokens + [] == tokens;
    return Some(tokens);
  }

  /** One turn of the scan over the tokens. */
  method ScanToken(tables: Unicode, words: Words, tokens: seq<Token>, idx: nat) returns (ok: bool)
    requires idx < |tokens|
    ensures ok == TokenOk(tables, words, tokens, idx)
  {
    var token := tokens[idx];
    if token == Symbol(59) { return false; }
    if token.kind.Word? && (token.t in words.forbidden || token.t in words.forbiddenTypes) { return false; }
    if !Names(token) { return true; }
    var following := Following(tokens, idx);
    var name := tables.lower(token.t);
    if following == Some(Symbol(46)) && (name == PG_CATALOG || name == INFORMATION_SCHEMA) { return false; }
    if following == Some(Symbol(40)) {
      if idx > 0 && tokens[idx - 1] == Symbol(46) { return false; }
      if token.kind.Word? && name in words.structural { return true; }
      if name !in words.callable { return false; }
    }
    return true;
  }

  method CheckTokens(tables: Unicode, words: Words, tokens: seq<Token>, requireSelect: bool) returns (ok: bool)
    ensures ok == TokensOk(tables, words, tokens, requireSelect)
  {
    if tokens == [] { return false; }
    for idx := 0 to |tokens|
      invariant forall i :: 0 <= i < idx ==> TokenOk(tables, words, tokens, i)
    {
      ok := ScanToken(tables, words, tokens, idx);
      if !ok { return; }
    }
    return !requireSelect || StartsQuery(tokens[0]);
  }

  method ValidateReadonlySql(tables: Unicode, words: Words, value: text, requireSelect: bool) returns (r: Option<text>)
    requires TableLaw(tables)
    ensures r == Validated(tables, words, value, requireSelect)
  {
    if AllSpace(tables, value) || |value| > MAX_LENGTH { return None; }
    var trimmed := Trim(tables, value);
    var lexed := TokenizeSql(tables, trimmed);
    if lexed.None? { return None; }
    var ok := CheckTokens(tables, words, lexed.value, requireSelect);
    return if ok then Some(trimmed) else None;
  }
}
