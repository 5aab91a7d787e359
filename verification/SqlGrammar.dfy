/** The tokens of the read-only check as a grammar: the lexer cuts a text in the one way the grammar allows. */
module SqlGrammar {
  import opened Results
  import opened Text
  import opened SqlLexer

  predicate OpensWith(rest: text, c: cp) { rest != [] && rest[0] == c }

  /** What stands between quotes `q`: quotes are doubled, and with escapes a backslash takes a character along. */
  predicate Inside(x: text, q: cp, escapes: bool)
    decreases |x|
  {
    if x == [] then true
    else if escapes && x[0] == 92 then |x| >= 2 && Inside(x[2..], q, escapes)
    else if x[0] == q then |x| >= 2 && x[1] == q && Inside(x[2..], q, escapes)
    else Inside(x[1..], q, escapes)
  }

  predicate Letter(c: cp) { 65 <= c <= 90 || 97 <= c <= 122 }
  predicate TagCharacter(c: cp) { Letter(c) || c == 95 || 48 <= c <= 57 }

  /** `$$` or `$name$`. */
  predicate IsTag(t: text) {
    && |t| >= 2 && t[0] == 36 && t[|t| - 1] == 36
    && (|t| > 2 ==> Letter(t[1]) || t[1] == 95) && forall k :: 1 <= k < |t| - 1 ==> TagCharacter(t[k])
  }

  predicate Stands(tag: text, s: text, k: int) { 0 <= k && k + |tag| <= |s| && s[k..k + |tag|] == tag }

  /** `x` runs up to the first place where `tag` stands again. */
  ghost predicate UpTo(x: text, tag: text) { forall k :: 0 <= k < |x| ==> !Stands(tag, x + tag, k) }

  predicate WordCharacter(tables: Unicode, c: cp) { tables.isAlnum(c) || c == 95 || c == 36 || c >= 128 }

  /** Goes on with the number: a sign only behind an exponent letter. */
  predicate GoesOn(tables: Unicode, previous: cp, c: cp) {
    if c == 43 || c == 45 then previous == 101 || previous == 69 else tables.isAlnum(c) || c == 46 || c == 95
  }

  predicate NumberOpens(tables: Unicode, s: text) {
    s != [] && (tables.isDigit(s[0]) || (s[0] == 46 && |s| >= 2 && tables.isDigit(s[1])))
  }

  predicate CommentOpens(s: text) { |s| >= 2 && ((s[0] == 45 && s[1] == 45) || (s[0] == 47 && s[1] == 42)) }

  predicate WhiteSpace(c: cp) { c == 32 || 9 <= c <= 13 }

  /** The letters that may stand before a quote: `e` brings escapes, `b` and `x` do not. */
  predicate Escaping(c: cp) { c == 101 || c == 69 }
  predicate Prefix(c: cp) { Escaping(c) || c == 98 || c == 66 || c == 120 || c == 88 }

  ghost predicate WordHere(tables: Unicode, body: text, token: text, rest: text) {
    && body != [] && !tables.isDigit(body[0]) && (tables.isAlpha(body[0]) || body[0] == 95 || body[0] >= 128)
    && (forall k :: 0 <= k < |body| ==> WordCharacter(tables, body[k])) && (rest != [] ==> !WordCharacter(tables, rest[0]))
    && !(|body| == 1 && Prefix(body[0]) && OpensWith(rest, 39)) && token == tables.lower(body)
  }

  ghost predicate NameHere(body: text, token: text, rest: text) {
    exists x :: body == [34] + x + [34] && Inside(x, 34, false) && !OpensWith(rest, 34) && token == Unquote(x)
  }

  ghost predicate QuotedHere(prefix: text, body: text, rest: text) {
    && (prefix == [] || (|prefix| == 1 && Prefix(prefix[0])))
    && exists x :: body == [39] + x + [39] && Inside(x, 39, prefix != [] && Escaping(prefix[0])) && !OpensWith(rest, 39)
  }

  ghost predicate Dollars(body: text, tag: text, x: text) { IsTag(tag) && body == tag + x + tag && UpTo(x, tag) }

  ghost predicate NumberHere(tables: Unicode, body: text, rest: text) {
    && body != [] && NumberOpens(tables, body + rest)
    && (forall k :: 1 <= k < |body| ==> GoesOn(tables, body[k - 1], body[k]))
    && (rest != [] ==> !GoesOn(tables, body[|body| - 1], rest[0]))
  }

  ghost predicate PunctHere(tables: Unicode, body: text, rest: text) {
    && |body| == 1 && !CommentOpens(body + rest) && !NumberOpens(tables, body + rest)
    && var c := body[0];
       && !WhiteSpace(c) && c != 36 && c != 34 && c != 39 && c != 0 && c != 95 && c < 128 && !tables.isAlpha(c)
  }

  /** A piece as the grammar allows it in front of `rest`. */
  ghost predicate Fits(tables: Unicode, p: Piece, rest: text) {
    match p
    case Blank(c) => WhiteSpace(c)
    case Lexeme(prefix, body, token) =>
      match token.kind
      case Word => prefix == [] && WordHere(tables, body, token.t, rest)
      case QuotedName => prefix == [] && NameHere(body, token.t, rest)
      case Literal =>
        token.t == body && (QuotedHere(prefix, body, rest) || (prefix == [] && exists tag, x :: Dollars(body, tag, x)))
      case Number => prefix == [] && token.t == body && NumberHere(tables, body, rest)
      case Punct => prefix == [] && token.t == body && PunctHere(tables, body, rest)
  }

  ghost predicate WellCut(tables: Unicode, pieces: seq<Piece>) {
    forall i :: 0 <= i < |pieces| ==> Fits(tables, pieces[i], SourceOf(pieces[i + 1..]))
  }

  // Quotes

  lemma {:induction false} InsideCloses(a: text, x: text, q: cp, escapes: bool, b: text)
    requires Inside(x, q, escapes) && !OpensWith(b, q) && q != 92
    ensures QuoteEnd(a + x + [q] + b, |a|, q, escapes) == Some(|a| + |x|)
    decreases |x|
  {
    var s := a + x + [q] + b;
    if x != [] {
      var n := if (escapes && x[0] == 92) || x[0] == q then 2 else 1;
      InsideShift(a, x, n, q, b);
      InsideCloses(a + x[..n], x[n..], q, escapes, b);
    }
  }

  lemma InsideShift(a: text, x: text, n: nat, q: cp, b: text)
    requires 0 < n <= |x|
    ensures a + x + [q] + b == (a + x[..n]) + x[n..] + [q] + b && |a + x[..n]| == |a| + n
    ensures (a + x + [q] + b)[|a|] == x[0] && (n == 2 ==> (a + x + [q] + b)[|a| + 1] == x[1])
  {
    assert x == x[..n] + x[n..];
  }

  lemma {:induction false} EndInside(s: text, j: nat, q: cp, escapes: bool)
    requires QuoteEnd(s, j, q, escapes).Some? && q != 92
    ensures var e := QuoteEnd(s, j, q, escapes).value;
            j <= e < |s| && Inside(s[j..e], q, escapes) && s[e] == q && (e + 1 < |s| ==> s[e + 1] != q)
    decreases |s| + 2 - j
  {
    var e := QuoteEnd(s, j, q, escapes).value;
    if j < e {
      var n := if (s[j] == 92 && escapes) || s[j] == q then 2 else 1;
      EndInside(s, j + n, q, escapes);
      assert s[j..e][n..] == s[j + n..e];
    }
  }

  // Dollar quotes

  lemma {:induction false} TagRunIs(s: text, j: nat, e: nat)
    requires j <= e < |s| && (forall k :: j <= k < e ==> TagCharacter(s[k])) && s[e] == 36
    ensures TagRun(s, j) == e
    decreases e - j
  {
    if j < e { TagRunIs(s, j + 1, e); }
  }

  lemma {:induction false} TagRunTags(s: text, j: nat)
    requires j <= |s|
    ensures j <= TagRun(s, j) <= |s| && forall k :: j <= k < TagRun(s, j) ==> TagCharacter(s[k])
    decreases |s| - j
  {
    if j < |s| && TagPart(s[j]) { TagRunTags(s, j + 1); }
  }

  lemma TagLengthTags(s: text)
    requires s != [] && s[0] == 36 && TagLength(s).Some?
    ensures var n := TagLength(s).value; n <= |s| && IsTag(s[..n])
  {
    if s[1] != 36 { TagRunTags(s, 2); }
  }

  lemma TagLengthIs(s: text, tag: text)
    requires IsTag(tag) && tag <= s
    ensures s != [] && s[0] == 36 && TagLength(s) == Some(|tag|)
  {
    assert forall k :: 0 <= k < |tag| ==> s[k] == tag[k];
    if |tag| > 2 { TagRunIs(s, 2, |tag| - 1); }
  }

  lemma {:induction false} FindFirst(s: text, tag: text, from: nat, at: nat)
    requires from <= at && Stands(tag, s, at) && forall k :: from <= k < at ==> !Stands(tag, s, k)
    ensures Find(s, tag, from) == Some(at)
    decreases at - from
  {
    if from < at {
      assert !Stands(tag, s, from);
      FindFirst(s, tag, from + 1, at);
    }
  }

  lemma {:induction false} FindIsFirst(s: text, tag: text, from: nat)
    requires Find(s, tag, from).Some?
    ensures var at := Find(s, tag, from).value;
            from <= at && Stands(tag, s, at) && forall k :: from <= k < at ==> !Stands(tag, s, k)
    decreases |s| - from
  {
    if s[from..from + |tag|] != tag {
      assert !Stands(tag, s, from);
      FindIsFirst(s, tag, from + 1);
    }
  }

  lemma DollarParts(s: text, tag: text, x: text, rest: text)
    requires s == tag + x + tag + rest
    ensures tag <= s && s[|tag|..|tag| + |x + tag|] == x + tag && s[..|tag + x + tag|] == tag + x + tag
  {
    assert s == tag + (x + tag) + rest;
  }

  /** Where a tag stands in a part of a text. */
  lemma StandsInside(s: text, part: text, from: nat, tag: text, k: nat)
    requires from + |part| <= |s| && s[from..from + |part|] == part && k + |tag| <= |part|
    ensures Stands(tag, s, from + k) <==> Stands(tag, part, k)
  {
    SliceOfSlice(s, from, from + |part|, k, k + |tag|);
  }

  lemma SliceOfSlice(s: text, i: nat, j: nat, k: nat, m: nat)
    requires i <= j <= |s| && k <= m <= j - i
    ensures s[i..j][k..m] == s[i + k..i + m]
  {
    assert forall x :: 0 <= x < m - k ==> s[i..j][k..m][x] == s[i + k..i + m][x];
  }

  lemma TagFound(s: text, tag: text, x: text, y: text, n: nat)
    requires y == x + tag && n == |tag| && n + |y| <= |s| && s[n..n + |y|] == y && UpTo(x, tag)
    ensures Find(s, tag, n) == Some(n + |x|)
  {
    forall j | n <= j < n + |x| ensures !Stands(tag, s, j) {
      assert !Stands(tag, y, j - n);
      StandsInside(s, y, n, tag, j - n);
    }
    assert Stands(tag, y, |x|);
    StandsInside(s, y, n, tag, |x|);
    FindFirst(s, tag, n, n + |x|);
  }

  lemma DollarTakes(body: text, tag: text, x: text, rest: text)
    requires Dollars(body, tag, x)
    ensures (body + rest) != [] && (body + rest)[0] == 36
    ensures Dollar(body + rest) == Some(Lexeme([], body, Token(Literal, body)))
  {
    var s, n := body + rest, |tag|;
    DollarParts(s, tag, x, rest);
    TagLengthIs(s, tag);
    TagFound(s, tag, x, x + tag, n);
    TagInFront(s, tag, body, x, rest);
    DollarOf(s, tag, body, n, n + |x|);
  }

  lemma TagInFront(s: text, tag: text, body: text, x: text, rest: text)
    requires s == body + rest && body == tag + x + tag
    ensures tag == s[..|tag|] && body == s[..|tag| + |x| + |tag|] && |tag| + |x| + |tag| <= |s|
  {
  }

  lemma DollarOf(s: text, tag: text, body: text, n: nat, e: nat)
    requires s != [] && s[0] == 36 && TagLength(s) == Some(n) && tag == s[..n] && Find(s, tag, n) == Some(e)
    requires e + n <= |s| && body == s[..e + n]
    ensures Dollar(s) == Some(Lexeme([], body, Token(Literal, body)))
  {
    DollarIs(s, n, tag, e);
  }

  lemma DollarFound(s: text, tag: text, n: nat, e: nat)
    requires n <= e && e + n <= |s| && tag == s[..n] && n == |tag| && Stands(tag, s, e)
    requires forall k :: n <= k < e ==> !Stands(tag, s, k)
    ensures s[..e + n] == tag + s[n..e] + tag && UpTo(s[n..e], tag)
  {
    var x := s[n..e];
    assert x + tag == s[n..e + n];
    forall k | 0 <= k < |x| ensures !Stands(tag, x + tag, k) { StandsInside(s, x + tag, n, tag, k); }
  }

  lemma DollarFits(s: text) returns (body: text, tag: text, x: text)
    requires s != [] && s[0] == 36 && Dollar(s).Some?
    ensures Dollar(s) == Some(Lexeme([], body, Token(Literal, body))) && Dollars(body, tag, x)
  {
    DollarFinds(s);
    var n := TagLength(s).value;
    TagLengthTags(s);
    tag := s[..n];
    var e := Find(s, tag, n).value;
    FindIsFirst(s, tag, n);
    body, x := s[..e + n], s[n..e];
    DollarFound(s, tag, n, e);
    DollarOf(s, tag, body, n, e);
  }

  // Words and numbers

  lemma {:induction false} WordRuns(tables: Unicode, s: text, j: nat, e: nat)
    requires j <= e <= |s| && (forall k :: j <= k < e ==> WordCharacter(tables, s[k])) && (e < |s| ==> !WordCharacter(tables, s[e]))
    ensures WordEnd(tables, s, j) == e
    decreases e - j
  {
    if j < e { WordRuns(tables, s, j + 1, e); }
  }

  lemma {:induction false} NumberRuns(tables: Unicode, s: text, j: nat, e: nat)
    requires 1 <= j <= e <= |s| && (forall k :: j <= k < e ==> GoesOn(tables, s[k - 1], s[k]))
    requires e < |s| ==> !GoesOn(tables, s[e - 1], s[e])
    ensures NumberEnd(tables, s, j) == e
    decreases e - j
  {
    if j < |s| { StaysInNumber(tables, s[j - 1], s[j]); }
    if j < e { NumberRuns(tables, s, j + 1, e); }
  }

  lemma StaysInNumber(tables: Unicode, previous: cp, c: cp)
    ensures GoesOn(tables, previous, c) <==> NumberPart(tables, c) && !(IsSign(c) && !IsExponent(previous))
  {
  }

  lemma {:induction false} NumberEnds(tables: Unicode, s: text, j: nat)
    requires 1 <= j <= |s|
    ensures var e := NumberEnd(tables, s, j);
            && j <= e <= |s| && (forall k :: j <= k < e ==> GoesOn(tables, s[k - 1], s[k]))
            && (e < |s| ==> !GoesOn(tables, s[e - 1], s[e]))
    decreases |s| - j
  {
    if j < |s| {
      StaysInNumber(tables, s[j - 1], s[j]);
      if GoesOn(tables, s[j - 1], s[j]) { NumberEnds(tables, s, j + 1); }
    }
  }

  lemma {:induction false} WordEnds(tables: Unicode, s: text, j: nat)
    requires j <= |s|
    ensures var e := WordEnd(tables, s, j);
            && j <= e <= |s| && (forall k :: j <= k < e ==> WordCharacter(tables, s[k]))
            && (e < |s| ==> !WordCharacter(tables, s[e]))
    decreases |s| - j
  {
    if j < |s| && WordPart(tables, s[j]) { WordEnds(tables, s, j + 1); }
  }

  // A step of the lexer takes a piece that fits

  ghost predicate TakesFitting(tables: Unicode, s: text, p: Piece) {
    p.Source() != [] && p.Source() <= s && Fits(tables, p, s[|p.Source()|..])
  }

  lemma CutAt(s: text, e: nat)
    requires e <= |s|
    ensures s == s[..e] + s[e..] && s[..e] <= s
  {
  }

  lemma NameFits(tables: Unicode, s: text)
    requires s != [] && s[0] == 34 && QuotedIdentifier(s).Some?
    ensures TakesFitting(tables, s, QuotedIdentifier(s).value)
  {
    var e := QuoteEnd(s, 1, 34, false).value;
    EndInside(s, 1, 34, false);
    NameRead(s, e);
    NameFound(s, e);
    NameMade(tables, s, e);
  }

  lemma NameFound(s: text, e: nat)
    requires s != [] && s[0] == 34 && 1 <= e < |s| && s[e] == 34 && Inside(s[1..e], 34, false) && !OpensWith(s[e + 1..], 34)
    ensures NameHere(s[..e + 1], Unquote(s[1..e]), s[e + 1..])
  {
    assert s[..e + 1] == [34] + s[1..e] + [34];
  }

  lemma NameMade(tables: Unicode, s: text, e: nat)
    requires s != [] && s[0] == 34 && 1 <= e < |s| && NameHere(s[..e + 1], Unquote(s[1..e]), s[e + 1..])
    ensures TakesFitting(tables, s, Lexeme([], s[..e + 1], Token(QuotedName, Unquote(s[1..e]))))
  {
  }

  lemma QuotedFits(tables: Unicode, s: text, skip: nat)
    requires skip < |s| && skip <= 1 && s[skip] == 39 && QuotedLiteral(s, skip).Some? && (skip == 1 ==> Prefix(s[0]))
    ensures TakesFitting(tables, s, QuotedLiteral(s, skip).value)
  {
    var escapes := skip == 1 && IsExponent(s[0]);
    var e := QuoteEnd(s, skip + 1, 39, escapes).value;
    EndInside(s, skip + 1, 39, escapes);
    QuotesAround(s, skip, e);
    QuotedIs(s, skip, e, escapes);
    QuotedMade(tables, s, s[..skip], s[skip..e + 1], s[skip + 1..e], s[e + 1..], escapes);
  }

  lemma QuotedMade(tables: Unicode, s: text, pre: text, body: text, x: text, rest: text, escapes: bool)
    requires pre + body <= s && rest == s[|pre + body|..] && body == [39] + x + [39] && Inside(x, 39, escapes)
    requires !OpensWith(rest, 39) && (pre == [] || (|pre| == 1 && Prefix(pre[0]))) && escapes == (pre != [] && Escaping(pre[0]))
    ensures TakesFitting(tables, s, Lexeme(pre, body, Token(Literal, body)))
  {
    assert QuotedHere(pre, body, rest);
  }

  lemma QuotesAround(s: text, k: nat, e: nat)
    requires k < e < |s| && s[k] == s[e]
    ensures s[k..e + 1] == [s[k]] + s[k + 1..e] + [s[k]] && s[..k] + s[k..e + 1] == s[..e + 1] && s[..e + 1] <= s
  {
  }

  lemma QuotedIs(s: text, k: nat, e: nat, escapes: bool)
    requires k < |s| && k <= 1 && s[k] == 39 && escapes == (k == 1 && IsExponent(s[0])) && QuoteEnd(s, k + 1, 39, escapes) == Some(e)
    ensures e < |s| && QuotedLiteral(s, k) == Some(Lexeme(s[..k], s[k..e + 1], Token(Literal, s[k..e + 1])))
  {
  }

  lemma NumberFits(tables: Unicode, s: text)
    requires s != [] && NumberStart(tables, s)
    ensures var e := NumberEnd(tables, s, 1); 1 <= e <= |s| && NumberHere(tables, s[..e], s[e..])
  {
    var e := NumberEnd(tables, s, 1);
    NumberEnds(tables, s, 1);
    CutAt(s, e);
  }

  lemma WordFits(tables: Unicode, s: text)
    requires TableLaw(tables) && s != [] && WordStart(tables, s[0]) && !NumberStart(tables, s) && !PrefixedLiteral(s)
    ensures var e := WordEnd(tables, s, 1); 1 <= e <= |s| && WordHere(tables, s[..e], tables.lower(s[..e]), s[e..])
  {
    WordEnds(tables, s, 1);
  }

  lemma PunctFits(tables: Unicode, s: text)
    requires TableLaw(tables) && s != [] && !WhiteSpace(s[0]) && !Comment(s) && !NumberStart(tables, s) && !WordStart(tables, s[0])
    requires s[0] != 36 && s[0] != 34 && s[0] != 39 && s[0] != 0
    ensures PunctHere(tables, [s[0]], s[1..])
  {
    assert [s[0]] + s[1..] == s;
  }

  lemma DollarStep(tables: Unicode, s: text)
    requires s != [] && s[0] == 36 && Dollar(s).Some?
    ensures TakesFitting(tables, s, Dollar(s).value)
  {
    var body, tag, x := DollarFits(s);
    assert Dollars(body, tag, x);
  }

  lemma StepFits(tables: Unicode, s: text)
    requires TableLaw(tables) && s != [] && Step(tables, s).Some?
    ensures TakesFitting(tables, s, Step(tables, s).value)
  {
    var c := s[0];
    if IsBlank(c) || Comment(s) {
    } else if c == 36 { DollarStep(tables, s); }
    else if c == 34 { NameFits(tables, s); }
    else if PrefixedLiteral(s) { QuotedFits(tables, s, 1); }
    else if c == 39 { QuotedFits(tables, s, 0); }
    else if NumberStart(tables, s) { NumberFits(tables, s); }
    else if WordStart(tables, c) { WordFits(tables, s); }
    else { PunctFits(tables, s); }
  }

  // And a piece that fits is what the step takes

  ghost predicate IsTaken(tables: Unicode, p: Piece, rest: text) {
    p.Source() != [] && Step(tables, p.Source() + rest) == Some(p)
  }

  lemma NameTaken(tables: Unicode, p: Piece, rest: text)
    requires p.Lexeme? && p.token.kind.QuotedName? && Fits(tables, p, rest)
    ensures IsTaken(tables, p, rest)
  {
    var x :| p.body == [34] + x + [34] && Inside(x, 34, false) && !OpensWith(rest, 34) && p.token.t == Unquote(x);
    var s := p.body + rest;
    NameText(x, rest);
    InsideCloses([34], x, 34, false, rest);
    NameStep(tables, s, |x| + 1);
  }

  lemma NameText(x: text, rest: text)
    ensures var body := [34] + x + [34];
            var s := body + rest;
            s == [34] + x + [34] + rest && s[1..|x| + 1] == x && s[..|x| + 2] == body && s[0] == 34 && [] + body == body
  {
  }

  lemma NameStep(tables: Unicode, s: text, e: nat)
    requires s != [] && s[0] == 34 && QuoteEnd(s, 1, 34, false) == Some(e)
    ensures 1 <= e < |s| && Step(tables, s) == Some(Lexeme([], s[..e + 1], Token(QuotedName, Unquote(s[1..e]))))
  {
    NameFirst(tables, s);
    NameRead(s, e);
  }

  lemma NameFirst(tables: Unicode, s: text)
    requires s != [] && s[0] == 34
    ensures Step(tables, s) == QuotedIdentifier(s)
  {
  }

  lemma NameRead(s: text, e: nat)
    requires s != [] && s[0] == 34 && QuoteEnd(s, 1, 34, false) == Some(e)
    ensures 1 <= e < |s| && QuotedIdentifier(s) == Some(Lexeme([], s[..e + 1], Token(QuotedName, Unquote(s[1..e]))))
  {
  }

  lemma QuotedText(pre: text, x: text, rest: text)
    ensures var body := [39] + x + [39];
            var s := pre + body + rest;
            && s == (pre + [39]) + x + [39] + rest && s[..|pre|] == pre && s[|pre|..|pre| + |body|] == body
            && s[|pre|] == 39 && (pre != [] ==> s[0] == pre[0])
  {
    assert pre + ([39] + x + [39]) + rest == (pre + [39]) + x + [39] + rest;
  }

  lemma QuotedStep(tables: Unicode, s: text, k: nat)
    requires k <= 1 && k < |s| && s[k] == 39 && (k == 1 ==> Prefix(s[0]))
    ensures Step(tables, s) == QuotedLiteral(s, k)
  {
    if k == 0 { assert !PrefixedLiteral(s) && !Comment(s); } else { assert PrefixedLiteral(s) && !Comment(s); }
  }

  lemma QuotedTaken(tables: Unicode, p: Piece, rest: text)
    requires p.Lexeme? && p.token == Token(Literal, p.body) && QuotedHere(p.prefix, p.body, rest)
    ensures IsTaken(tables, p, rest)
  {
    var pre, escapes := p.prefix, p.prefix != [] && Escaping(p.prefix[0]);
    var x :| p.body == [39] + x + [39] && Inside(x, 39, escapes) && !OpensWith(rest, 39);
    var s := pre + p.body + rest;
    QuotedText(pre, x, rest);
    InsideCloses(pre + [39], x, 39, escapes, rest);
    QuotedStep(tables, s, |pre|);
  }

  lemma WordTaken(tables: Unicode, p: Piece, rest: text)
    requires TableLaw(tables) && p.Lexeme? && p.token.kind.Word? && Fits(tables, p, rest)
    ensures IsTaken(tables, p, rest)
  {
    var s := p.body + rest;
    assert p.Source() == p.body && s[0] == p.body[0];
    assert |p.body| > 1 ==> s[1] == p.body[1];
    assert !PrefixedLiteral(s) && !Comment(s) && !NumberStart(tables, s);
    WordRuns(tables, s, 1, |p.body|);
    assert s[..|p.body|] == p.body;
  }

  lemma NumberStep(tables: Unicode, s: text, e: nat)
    requires TableLaw(tables) && s != [] && NumberStart(tables, s) && NumberEnd(tables, s, 1) == e
    ensures e <= |s| && Step(tables, s) == Some(Lexeme([], s[..e], Token(Number, s[..e])))
  {
    assert !PrefixedLiteral(s) && !Comment(s);
  }

  lemma DollarFirst(tables: Unicode, s: text)
    requires s != [] && s[0] == 36
    ensures Step(tables, s) == Dollar(s)
  {
  }

  lemma NumberTaken(tables: Unicode, p: Piece, rest: text)
    requires TableLaw(tables) && p.Lexeme? && p.token.kind.Number? && Fits(tables, p, rest)
    ensures IsTaken(tables, p, rest)
  {
    var s := p.body + rest;
    assert p.Source() == p.body && s[0] == p.body[0];
    NumberRuns(tables, s, 1, |p.body|);
    NumberStep(tables, s, |p.body|);
    assert s[..|p.body|] == p.body;
  }

  lemma PunctTaken(tables: Unicode, p: Piece, rest: text)
    requires TableLaw(tables) && p.Lexeme? && p.token.kind.Punct? && Fits(tables, p, rest)
    ensures IsTaken(tables, p, rest)
  {
    var s := p.body + rest;
    assert p.Source() == p.body && s[0] == p.body[0] && p.body == [s[0]];
    assert !PrefixedLiteral(s) && !Comment(s) && !NumberStart(tables, s) && !WordStart(tables, s[0]);
  }

  lemma FitsTaken(tables: Unicode, p: Piece, rest: text)
    requires TableLaw(tables) && Fits(tables, p, rest)
    ensures IsTaken(tables, p, rest)
  {
    if p.Lexeme? {
      match p.token.kind
      case Word => WordTaken(tables, p, rest);
      case QuotedName => NameTaken(tables, p, rest);
      case Number => NumberTaken(tables, p, rest);
      case Punct => PunctTaken(tables, p, rest);
      case Literal =>
        if QuotedHere(p.prefix, p.body, rest) { QuotedTaken(tables, p, rest); } else { TagTaken(tables, p, rest); }
    }
  }

  lemma TagTaken(tables: Unicode, p: Piece, rest: text)
    requires p.Lexeme? && p.prefix == [] && p.token == Token(Literal, p.body) && exists tag, x :: Dollars(p.body, tag, x)
    ensures IsTaken(tables, p, rest)
  {
    var tag, x :| Dollars(p.body, tag, x);
    DollarTakes(p.body, tag, x, rest);
    DollarFirst(tables, p.body + rest);
    assert p.Source() == p.body;
  }

  /** The lexer cuts a text into pieces exactly as the grammar does: there is at most one such cut, and
      a text with a comment, a bind parameter, a NUL or an open quote in a bare place has none. */
  lemma {:induction false} LexIsGrammar(tables: Unicode, s: text, pieces: seq<Piece>)
    requires TableLaw(tables)
    ensures Lex(tables, s) == Some(pieces) <==> SourceOf(pieces) == s && WellCut(tables, pieces)
    decreases |s|, |pieces|
  {
    if Lex(tables, s) == Some(pieces) { LexFits(tables, s, pieces); }
    if SourceOf(pieces) == s && WellCut(tables, pieces) { CutIsLexed(tables, s, pieces); }
  }

  lemma {:induction false} LexFits(tables: Unicode, s: text, pieces: seq<Piece>)
    requires TableLaw(tables) && Lex(tables, s) == Some(pieces)
    ensures SourceOf(pieces) == s && WellCut(tables, pieces)
    decreases |s|
  {
    if s != [] {
      var p := Step(tables, s).value;
      var rest := s[|p.Source()|..];
      StepFits(tables, s);
      LexFits(tables, rest, pieces[1..]);
      assert pieces[0] == p;
      CutAt(s, |p.Source()|);
      CutCons(tables, pieces);
    }
  }

  lemma CutCons(tables: Unicode, pieces: seq<Piece>)
    requires pieces != []
    ensures WellCut(tables, pieces) <==> Fits(tables, pieces[0], SourceOf(pieces[1..])) && WellCut(tables, pieces[1..])
  {
    var rest := pieces[1..];
    forall i | 0 <= i < |rest| ensures rest[i] == pieces[i + 1] && rest[i + 1..] == pieces[i + 2..] { }
    if Fits(tables, pieces[0], SourceOf(rest)) && WellCut(tables, rest) {
      forall i | 0 <= i < |pieces| ensures Fits(tables, pieces[i], SourceOf(pieces[i + 1..])) {
        if i > 0 { assert Fits(tables, rest[i - 1], SourceOf(rest[i..])); }
      }
    }
    if WellCut(tables, pieces) {
      forall i | 0 <= i < |rest| ensures Fits(tables, rest[i], SourceOf(rest[i + 1..])) {
        assert Fits(tables, pieces[i + 1], SourceOf(pieces[i + 2..]));
      }
    }
  }

  lemma {:induction false} CutIsLexed(tables: Unicode, s: text, pieces: seq<Piece>)
    requires TableLaw(tables) && SourceOf(pieces) == s && WellCut(tables, pieces)
    ensures Lex(tables, s) == Some(pieces)
    decreases |pieces|
  {
    if pieces != [] {
      var p, rest := pieces[0], SourceOf(pieces[1..]);
      CutCons(tables, pieces);
      FitsTaken(tables, p, rest);
      CutIsLexed(tables, rest, pieces[1..]);
      LexCons(tables, s, p, rest);
      assert [p] + pieces[1..] == pieces;
    }
  }
}
