/** What the read-only check lets through, said of the text's own pieces. */
module SqlMeaning {
  import opened Results
  import opened Text
  import opened SqlWords
  import opened SqlLexer
  import opened SqlFragment
  import opened SqlGrammar

  /** `j` is the next piece behind `i` that is not a blank. */
  ghost predicate NextTo(pieces: seq<Piece>, i: int, j: int) {
    0 <= i < j < |pieces| && pieces[j].Lexeme? && forall k :: i < k < j ==> pieces[k].Blank?
  }

  predicate IsPunct(p: Piece, c: cp) { p.Lexeme? && p.token.kind.Punct? && p.token.t == [c] }

  ghost predicate Before(pieces: seq<Piece>, i: int, c: cp) {
    exists j :: NextTo(pieces, i, j) && IsPunct(pieces[j], c)
  }

  ghost predicate Behind(pieces: seq<Piece>, i: int, c: cp) {
    exists j :: NextTo(pieces, j, i) && IsPunct(pieces[j], c)
  }

  /** A bare word or a quoted identifier. */
  predicate IsName(p: Piece) { p.Lexeme? && (p.token.kind.Word? || p.token.kind.QuotedName?) }

  predicate IsWord(p: Piece) { p.Lexeme? && p.token.kind.Word? }

  /** No bare semicolon; no bare word of the forbidden lists; a name before a bracket is unqualified and
      a structural word or an allowed function; a name before a dot is no reserved schema. */
  ghost predicate PieceOk(tables: Unicode, words: Words, pieces: seq<Piece>, i: int)
    requires 0 <= i < |pieces|
  {
    && !IsPunct(pieces[i], 59)
    && (IsWord(pieces[i]) ==> pieces[i].token.t !in words.forbidden && pieces[i].token.t !in words.forbiddenTypes)
    && (IsName(pieces[i]) && Before(pieces, i, 40) ==>
          && !Behind(pieces, i, 46)
          && ((IsWord(pieces[i]) && tables.lower(pieces[i].token.t) in words.structural)
              || tables.lower(pieces[i].token.t) in words.callable))
    && (IsName(pieces[i]) && Before(pieces, i, 46) ==>
          tables.lower(pieces[i].token.t) != Txt("pg_catalog") && tables.lower(pieces[i].token.t) != Txt("information_schema"))
  }

  ghost predicate Harmless(tables: Unicode, words: Words, pieces: seq<Piece>) {
    forall i :: 0 <= i < |pieces| ==> PieceOk(tables, words, pieces, i)
  }

  /** The first piece that is not a blank, which must start a query where one is required. */
  ghost predicate StartsAt(pieces: seq<Piece>, i: int, select: bool) {
    && 0 <= i < |pieces| && pieces[i].Lexeme? && (forall k :: 0 <= k < i ==> pieces[k].Blank?)
    && (select ==>
          || (IsWord(pieces[i]) && (pieces[i].token.t == Txt("select") || pieces[i].token.t == Txt("with")))
          || IsPunct(pieces[i], 40))
  }

  ghost predicate Starts(pieces: seq<Piece>, select: bool) { exists i :: StartsAt(pieces, i, select) }

  /** How many tokens stand before piece `i`. */
  ghost function Rank(pieces: seq<Piece>, i: nat): nat
    requires i <= |pieces|
  {
    |TokensOf(pieces[..i])|
  }

  lemma {:induction false} OnlyBlanks(pieces: seq<Piece>)
    requires forall p :: p in pieces ==> p.Blank?
    ensures TokensOf(pieces) == []
  {
    if pieces != [] { OnlyBlanks(pieces[1..]); }
  }

  lemma PieceToken(pieces: seq<Piece>, i: nat)
    requires i < |pieces| && pieces[i].Lexeme?
    ensures Rank(pieces, i) < |TokensOf(pieces)| && TokensOf(pieces)[Rank(pieces, i)] == pieces[i].token
    ensures Rank(pieces, i + 1) == Rank(pieces, i) + 1
  {
    assert pieces == pieces[..i] + ([pieces[i]] + pieces[i + 1..]);
    TokensThrough(pieces[..i], pieces[i], pieces[i + 1..]);
    assert pieces[..i + 1] == pieces[..i] + ([pieces[i]] + []);
    TokensThrough(pieces[..i], pieces[i], []);
  }

  lemma BlankStretch(pieces: seq<Piece>, i: nat, j: nat)
    requires i <= j <= |pieces| && forall k :: i <= k < j ==> pieces[k].Blank?
    ensures Rank(pieces, j) == Rank(pieces, i)
  {
    assert pieces[..j] == pieces[..i] + pieces[i..j];
    TokensConcat(pieces[..i], pieces[i..j]);
    OnlyBlanks(pieces[i..j]);
  }

  lemma NextRank(pieces: seq<Piece>, i: nat, j: nat)
    requires NextTo(pieces, i, j) && pieces[i].Lexeme?
    ensures Rank(pieces, j) == Rank(pieces, i) + 1
  {
    PieceToken(pieces, i);
    BlankStretch(pieces, i + 1, j);
  }

  /** Either a token follows, or only blanks do. */
  lemma {:induction false} NextOrNone(pieces: seq<Piece>, i: nat, from: nat) returns (next: Option<nat>)
    requires i < from <= |pieces| && forall k :: i < k < from ==> pieces[k].Blank?
    ensures next.Some? ==> NextTo(pieces, i, next.value)
    ensures next.None? ==> forall k :: i < k < |pieces| ==> pieces[k].Blank?
    decreases |pieces| - from
  {
    if from == |pieces| { return None; }
    if pieces[from].Lexeme? { return Some(from); }
    next := NextOrNone(pieces, i, from + 1);
  }

  lemma NextUnique(pieces: seq<Piece>, i: int, j: int, k: int)
    requires NextTo(pieces, i, j) && NextTo(pieces, i, k)
    ensures j == k
  {
  }

  /** The token behind that of piece `i` is that of the next piece. */
  lemma FollowingIs(pieces: seq<Piece>, i: nat, c: cp)
    requires i < |pieces| && pieces[i].Lexeme?
    ensures Rank(pieces, i) < |TokensOf(pieces)|
    ensures Following(TokensOf(pieces), Rank(pieces, i)) == Some(Symbol(c)) <==> Before(pieces, i, c)
  {
    PieceToken(pieces, i);
    var next := NextOrNone(pieces, i, i + 1);
    if next.Some? {
      var j := next.value;
      NextRank(pieces, i, j);
      PieceToken(pieces, j);
      if Before(pieces, i, c) {
        var k :| NextTo(pieces, i, k) && IsPunct(pieces[k], c);
        NextUnique(pieces, i, j, k);
      }
    } else {
      BlankStretch(pieces, i + 1, |pieces|);
      assert pieces[..|pieces|] == pieces;
    }
  }

  lemma {:induction false} LastBefore(pieces: seq<Piece>, i: nat, from: nat) returns (last: Option<nat>)
    requires from <= i < |pieces| && pieces[i].Lexeme? && forall k :: from <= k < i ==> pieces[k].Blank?
    ensures last.Some? ==> NextTo(pieces, last.value, i) && pieces[last.value].Lexeme?
    ensures last.None? ==> forall k :: 0 <= k < i ==> pieces[k].Blank?
    decreases from
  {
    if from == 0 { return None; }
    if pieces[from - 1].Lexeme? { return Some(from - 1); }
    last := LastBefore(pieces, i, from - 1);
  }

  lemma PrecedingIs(pieces: seq<Piece>, i: nat, c: cp)
    requires i < |pieces| && pieces[i].Lexeme?
    ensures var k := Rank(pieces, i);
            k <= |TokensOf(pieces)| && ((k > 0 && TokensOf(pieces)[k - 1] == Symbol(c)) <==> Behind(pieces, i, c))
  {
    PieceToken(pieces, i);
    var last := LastBefore(pieces, i, i);
    if last.Some? {
      var j := last.value;
      NextRank(pieces, j, i);
      PieceToken(pieces, j);
      if Behind(pieces, i, c) {
        var k :| NextTo(pieces, k, i) && IsPunct(pieces[k], c);
        assert k == j;
      }
    } else {
      BlankStretch(pieces, 0, i);
    }
  }

  /** Every token is that of a piece. */
  lemma {:induction false} TokenPiece(pieces: seq<Piece>, k: nat, i: nat) returns (j: nat)
    requires i <= |pieces| && Rank(pieces, i) <= k < |TokensOf(pieces)|
    ensures j < |pieces| && pieces[j].Lexeme? && Rank(pieces, j) == k
    decreases |pieces| - i
  {
    assert pieces[..|pieces|] == pieces;
    if pieces[i].Blank? {
      BlankStretch(pieces, i, i + 1);
      j := TokenPiece(pieces, k, i + 1);
    } else {
      PieceToken(pieces, i);
      if Rank(pieces, i) == k { return i; }
      j := TokenPiece(pieces, k, i + 1);
    }
  }

  lemma TokenOkIs(tables: Unicode, words: Words, pieces: seq<Piece>, i: nat)
    requires i < |pieces| && pieces[i].Lexeme?
    ensures Rank(pieces, i) < |TokensOf(pieces)|
    ensures TokenOk(tables, words, TokensOf(pieces), Rank(pieces, i)) <==> PieceOk(tables, words, pieces, i)
  {
    PieceToken(pieces, i);
    FollowingIs(pieces, i, 40);
    FollowingIs(pieces, i, 46);
    PrecedingIs(pieces, i, 46);
  }

  lemma AllTokensOk(tables: Unicode, words: Words, pieces: seq<Piece>)
    ensures (forall k :: 0 <= k < |TokensOf(pieces)| ==> TokenOk(tables, words, TokensOf(pieces), k)) <==>
            Harmless(tables, words, pieces)
  {
    var tokens := TokensOf(pieces);
    if forall k :: 0 <= k < |tokens| ==> TokenOk(tables, words, tokens, k) {
      forall i | 0 <= i < |pieces| ensures PieceOk(tables, words, pieces, i) {
        if pieces[i].Lexeme? { TokenOkIs(tables, words, pieces, i); }
      }
    }
    if Harmless(tables, words, pieces) {
      forall k | 0 <= k < |tokens| ensures TokenOk(tables, words, tokens, k) {
        assert pieces[..0] == [];
        var i := TokenPiece(pieces, k, 0);
        TokenOkIs(tables, words, pieces, i);
      }
    }
  }

  lemma StartsIs(pieces: seq<Piece>, select: bool)
    ensures Starts(pieces, select) <==> TokensOf(pieces) != [] && (select ==> StartsQuery(TokensOf(pieces)[0]))
  {
    assert pieces[..0] == [] && pieces[..|pieces|] == pieces;
    if Starts(pieces, select) {
      var i :| StartsAt(pieces, i, select);
      BlankStretch(pieces, 0, i);
      PieceToken(pieces, i);
    }
    if TokensOf(pieces) != [] && (select ==> StartsQuery(TokensOf(pieces)[0])) {
      var i := TokenPiece(pieces, 0, 0);
      PieceToken(pieces, i);
      forall k | 0 <= k < i ensures pieces[k].Blank? {
        if pieces[k].Lexeme? { PieceToken(pieces, k); RankGrows(pieces, k + 1, i); }
      }
      assert StartsAt(pieces, i, select);
    }
  }

  lemma RankGrows(pieces: seq<Piece>, i: nat, j: nat)
    requires i <= j <= |pieces|
    ensures Rank(pieces, i) <= Rank(pieces, j)
  {
    assert pieces[..j] == pieces[..i] + pieces[i..j];
    TokensConcat(pieces[..i], pieces[i..j]);
  }

  // The trimmed text

  ghost predicate EndsInInk(tables: Unicode, t: text) { t == [] || !tables.isSpace(t[|t| - 1]) }

  /** `value` is `t` and white space, or `t` and one semicolon with white space around it. */
  ghost predicate TrimmedTo(tables: Unicode, value: text, t: text) {
    && EndsInInk(tables, t)
    && ((exists a :: value == t + a && AllSpace(tables, a) && (t == [] || t[|t| - 1] != 59))
        || exists a, b :: value == t + a + [59] + b && AllSpace(tables, a) && AllSpace(tables, b))
  }

  lemma {:induction false} RStripIs(tables: Unicode, u: text, w: text)
    requires EndsInInk(tables, u) && AllSpace(tables, w)
    ensures RStrip(tables, u + w) == u
    decreases |w|
  {
    if w == [] {
      assert u + w == u;
    } else {
      assert (u + w)[..|u + w| - 1] == u + w[..|w| - 1];
      RStripIs(tables, u, w[..|w| - 1]);
    }
  }

  lemma {:induction false} RStripped(tables: Unicode, s: text) returns (w: text)
    ensures s == RStrip(tables, s) + w && AllSpace(tables, w) && EndsInInk(tables, RStrip(tables, s))
    decreases |s|
  {
    w := [];
    if s != [] && tables.isSpace(s[|s| - 1]) {
      var v := RStripped(tables, s[..|s| - 1]);
      w := v + [s[|s| - 1]];
      assert s == s[..|s| - 1] + [s[|s| - 1]];
    }
  }

  lemma TrimIsTrimmed(tables: Unicode, value: text)
    requires TableLaw(tables)
    ensures TrimmedTo(tables, value, Trim(tables, value))
  {
    var u := RStrip(tables, value);
    var w := RStripped(tables, value);
    if u != [] && u[|u| - 1] == 59 {
      var v := u[..|u| - 1];
      var a := RStripped(tables, v);
      assert value == RStrip(tables, v) + a + [59] + w;
    } else {
      assert value == u + w;
    }
  }

  lemma TrimmedIsTrim(tables: Unicode, value: text, t: text)
    requires TableLaw(tables) && TrimmedTo(tables, value, t)
    ensures t == Trim(tables, value)
  {
    if a :| value == t + a && AllSpace(tables, a) && (t == [] || t[|t| - 1] != 59) {
      RStripIs(tables, t, a);
    } else {
      var a, b :| value == t + a + [59] + b && AllSpace(tables, a) && AllSpace(tables, b);
      var u := t + a + [59];
      assert u[|u| - 1] == 59 && !tables.isSpace(59) && u[..|u| - 1] == t + a;
      RStripIs(tables, u, b);
      RStripIs(tables, t, a);
    }
  }

  /** Which text is captured. */
  lemma TrimMeans(tables: Unicode, value: text, t: text)
    requires TableLaw(tables)
    ensures t == Trim(tables, value) <==> TrimmedTo(tables, value, t)
  {
    TrimIsTrimmed(tables, value);
    if TrimmedTo(tables, value, t) { TrimmedIsTrim(tables, value, t); }
  }

  /** A cut of the captured text, as the grammar allows it, that starts as required and harms nothing. */
  ghost predicate CutWell(tables: Unicode, words: Words, t: text, select: bool, pieces: seq<Piece>) {
    SourceOf(pieces) == t && WellCut(tables, pieces) && Harmless(tables, words, pieces) && Starts(pieces, select)
  }

  /** `value` has ink, is not too long, is `t` but for the end, and `t` has a cut in which nothing is harmful. */
  ghost predicate Passes(tables: Unicode, words: Words, value: text, select: bool, t: text) {
    && (exists i :: 0 <= i < |value| && !tables.isSpace(value[i])) && |value| <= 100000
    && TrimmedTo(tables, value, t) && exists pieces :: CutWell(tables, words, t, select, pieces)
  }

  /** The whole verdict, without the lexer: a value is accepted and captured as `t` exactly when it passes so. */
  lemma AcceptedMeans(tables: Unicode, words: Words, value: text, select: bool, t: text)
    requires TableLaw(tables)
    ensures Validated(tables, words, value, select) == Some(t) <==> Passes(tables, words, value, select, t)
  {
    TrimMeans(tables, value, t);
    if pieces :| CutWell(tables, words, t, select, pieces) {
      LexIsGrammar(tables, t, pieces);
      VerdictOnPieces(tables, words, pieces, select);
    }
    if Validated(tables, words, value, select) == Some(t) {
      var pieces := Lex(tables, t).value;
      LexIsGrammar(tables, t, pieces);
      VerdictOnPieces(tables, words, pieces, select);
      assert CutWell(tables, words, t, select, pieces);
    }
  }

  lemma VerdictOnPieces(tables: Unicode, words: Words, pieces: seq<Piece>, select: bool)
    ensures TokensOk(tables, words, TokensOf(pieces), select) <==> Harmless(tables, words, pieces) && Starts(pieces, select)
  {
    AllTokensOk(tables, words, pieces);
    StartsIs(pieces, select);
  }
}
