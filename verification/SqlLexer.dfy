/** The SQL lexer behind view definitions and index predicates. */
module SqlLexer {
  import opened Results
  import opened Text

  /** Python's character tables and `str.lower`. */
  datatype Unicode = Unicode(
    isSpace: cp -> bool, isDigit: cp -> bool, isDecimal: cp -> bool, isAlpha: cp -> bool, isAlnum: cp -> bool,
    lower: text -> text)

  predicate IsAsciiLetter(c: cp) { 65 <= c <= 90 || 97 <= c <= 122 }

  /** What the lexer relies on: the ASCII part of the tables, and digits and letters are alphanumeric. */
  ghost predicate TableLaw(tables: Unicode) {
    forall c: cp {:trigger tables.isAlnum(c)} {:trigger tables.isDigit(c)} {:trigger tables.isAlpha(c)} {:trigger tables.isSpace(c)} ::
      && (tables.isDigit(c) || tables.isAlpha(c) ==> tables.isAlnum(c))
      && (0 <= c < 128 ==>
            && (tables.isDigit(c) <==> IsDigit(c)) && (tables.isAlpha(c) <==> IsAsciiLetter(c))
            && (tables.isAlnum(c) <==> IsDigit(c) || IsAsciiLetter(c))
            && (tables.isSpace(c) <==> 9 <= c <= 13 || 28 <= c <= 32))
  }

  datatype Kind = Word | QuotedName | Literal | Number | Punct
  datatype Token = Token(kind: Kind, t: text)

  /** A stretch of the input: one blank, or a token with its dropped prefix and its spelling. */
  datatype Piece = Blank(c: cp) | Lexeme(prefix: text, body: text, token: Token)
  {
    function Source(): text {
      match this
      case Blank(c) => [c]
      case Lexeme(prefix, body, _) => prefix + body
    }
  }

  predicate IsBlank(c: cp) { c == 32 || 9 <= c <= 13 }

  /** Where a quoted stretch closes: `q` twice stands for itself, a backslash may hide a character. */
  function QuoteEnd(s: text, j: nat, q: cp, escapes: bool): (r: Option<nat>)
    ensures r.Some? ==> j <= r.value < |s| && s[r.value] == q
    decreases |s| + 2 - j
  {
    if j >= |s| then None
    else if s[j] == 92 && escapes then QuoteEnd(s, j + 2, q, escapes)
    else if s[j] != q then QuoteEnd(s, j + 1, q, escapes)
    else if j + 1 < |s| && s[j + 1] == q then QuoteEnd(s, j + 2, q, escapes)
    else Some(j)
  }

  /** Doubled double quotes read as one. */
  function Unquote(s: text): text
    decreases |s|
  {
    if s == [] then []
    else if |s| >= 2 && s[0] == 34 && s[1] == 34 then [34] + Unquote(s[2..])
    else [s[0]] + Unquote(s[1..])
  }

  function DoubleQuotes(s: text): text {
    if s == [] then [] else (if s[0] == 34 then [34, 34] else [s[0]]) + DoubleQuotes(s[1..])
  }

  predicate TagStart(c: cp) { IsAsciiLetter(c) || c == 95 }
  predicate TagPart(c: cp) { TagStart(c) || IsDigit(c) }

  function TagRun(s: text, j: nat): (r: nat)
    requires j <= |s|
    ensures j <= r <= |s| && (r < |s| ==> !TagPart(s[r]))
    decreases |s| - j
  {
    if j < |s| && TagPart(s[j]) then TagRun(s, j + 1) else j
  }

  /** The length of the `$tag$` or `$$` that `s` starts with. */
  function TagLength(s: text): (r: Option<nat>)
    requires s != [] && s[0] == 36
    ensures r.Some? ==> 2 <= r.value <= |s| && s[r.value - 1] == 36
  {
    if |s| >= 2 && s[1] == 36 then Some(2)
    else if |s| >= 2 && TagStart(s[1]) then
      var e := TagRun(s, 2);
      if e < |s| && s[e] == 36 then Some(e + 1) else None
    else None
  }

  /** `str.find`. */
  function Find(s: text, tag: text, from: nat): (r: Option<nat>)
    ensures r.Some? ==> from <= r.value && r.value + |tag| <= |s| && s[r.value..r.value + |tag|] == tag
    decreases |s| - from
  {
    if from + |tag| > |s| then None
    else if s[from..from + |tag|] == tag then Some(from)
    else Find(s, tag, from + 1)
  }

  predicate WordPart(tables: Unicode, c: cp) { tables.isAlnum(c) || c == 95 || c == 36 || c >= 128 }
  predicate WordStart(tables: Unicode, c: cp) { tables.isAlpha(c) || c == 95 || c >= 128 }

  function WordEnd(tables: Unicode, s: text, j: nat): (r: nat)
    requires j <= |s|
    ensures j <= r <= |s| && forall k :: j <= k < r ==> WordPart(tables, s[k])
    ensures r < |s| ==> !WordPart(tables, s[r])
    decreases |s| - j
  {
    if j < |s| && WordPart(tables, s[j]) then WordEnd(tables, s, j + 1) else j
  }

  predicate IsSign(c: cp) { c == 43 || c == 45 }
  predicate NumberPart(tables: Unicode, c: cp) { tables.isAlnum(c) || c == 46 || c == 95 || IsSign(c) }
  predicate IsExponent(c: cp) { c == 101 || c == 69 }

  /** A sign goes on with the number only behind an exponent letter. */
  function NumberEnd(tables: Unicode, s: text, j: nat): (r: nat)
    requires 1 <= j <= |s|
    ensures j <= r <= |s| && forall k :: j <= k < r ==> NumberPart(tables, s[k])
    decreases |s| - j
  {
    if j < |s| && NumberPart(tables, s[j]) && !(IsSign(s[j]) && !IsExponent(s[j - 1]))
    then NumberEnd(tables, s, j + 1) else j
  }

  predicate NumberStart(tables: Unicode, s: text)
    requires s != []
  {
    tables.isDigit(s[0]) || (s[0] == 46 && |s| >= 2 && tables.isDigit(s[1]))
  }

  predicate BitPrefix(c: cp) { c == 98 || c == 66 || c == 120 || c == 88 }
  predicate LiteralPrefix(c: cp) { IsExponent(c) || BitPrefix(c) }

  /** The quoted constant that starts at `s[skip]`; `skip` prefix characters go before it. */
  function QuotedLiteral(s: text, skip: nat): (r: Option<Piece>)
    requires skip < |s| && skip <= 1
    ensures r.Some? ==> r.value.Source() != [] && r.value.Source() <= s
  {
    var escapes := skip == 1 && IsExponent(s[0]);
    match QuoteEnd(s, skip + 1, 39, escapes)
    case None => None
    case Some(e) =>
      assert s[..skip] + s[skip..e + 1] == s[..e + 1];
      Some(Lexeme(s[..skip], s[skip..e + 1], Token(Literal, s[skip..e + 1])))
  }

  function Dollar(s: text): (r: Option<Piece>)
    requires s != [] && s[0] == 36
    ensures r.Some? ==> r.value.Source() != [] && r.value.Source() <= s
  {
    match TagLength(s)
    case None => None
    case Some(n) =>
      match Find(s, s[..n], n)
      case None => None
      case Some(e) => Some(Lexeme([], s[..e + n], Token(Literal, s[..e + n])))
  }

  function QuotedIdentifier(s: text): (r: Option<Piece>)
    requires s != [] && s[0] == 34
    ensures r.Some? ==> r.value.Source() != [] && r.value.Source() <= s
  {
    match QuoteEnd(s, 1, 34, false)
    case None => None
    case Some(e) => Some(Lexeme([], s[..e + 1], Token(QuotedName, Unquote(s[1..e]))))
  }

  predicate Comment(s: text) {
    |s| >= 2 && ((s[0] == 45 && s[1] == 45) || (s[0] == 47 && s[1] == 42))
  }

  predicate PrefixedLiteral(s: text) { |s| >= 2 && LiteralPrefix(s[0]) && s[1] == 39 }

  /** The first piece of a non-empty text, if the lexer takes one. */
  function Step(tables: Unicode, s: text): (r: Option<Piece>)
    requires s != []
    ensures r.Some? ==> r.value.Source() != [] && r.value.Source() <= s
  {
    var c := s[0];
    if IsBlank(c) then Some(Blank(c))
    else if Comment(s) then None
    else if c == 36 then Dollar(s)
    else if c == 34 then QuotedIdentifier(s)
    else if PrefixedLiteral(s) then QuotedLiteral(s, 1)
    else if c == 39 then QuotedLiteral(s, 0)
    else if NumberStart(tables, s) then
      var e := NumberEnd(tables, s, 1);
      Some(Lexeme([], s[..e], Token(Number, s[..e])))
    else if WordStart(tables, c) then
      var e := WordEnd(tables, s, 1);
      Some(Lexeme([], s[..e], Token(Word, tables.lower(s[..e]))))
    else if c == 0 then None
    else Some(Lexeme([], [c], Token(Punct, [c])))
  }

  function Lex(tables: Unicode, s: text): Option<seq<Piece>>
    decreases |s|
  {
    if s == [] then Some([])
    else match Step(tables, s)
         case None => None
         case Some(p) =>
           match Lex(tables, s[|p.Source()|..])
           case None => None
           case Some(rest) => Some([p] + rest)
  }

  function TokensOf(pieces: seq<Piece>): seq<Token> {
    if pieces == [] then []
    else (if pieces[0].Blank? then [] else [pieces[0].token]) + TokensOf(pieces[1..])
  }

  function SourceOf(pieces: seq<Piece>): text {
    if pieces == [] then [] else pieces[0].Source() + SourceOf(pieces[1..])
  }

  /** Every `q` in `x` is doubled. */
  predicate Paired(x: text, q: cp)
    decreases |x|
  {
    x == [] || (x[0] != q && Paired(x[1..], q)) || (|x| >= 2 && x[0] == q && x[1] == q && Paired(x[2..], q))
  }

  lemma {:induction false} QuoteEndPairs(s: text, j: nat, q: cp)
    requires QuoteEnd(s, j, q, false).Some?
    ensures Paired(s[j..QuoteEnd(s, j, q, false).value], q)
    decreases |s| - j
  {
    var e := QuoteEnd(s, j, q, false).value;
    if j < e {
      var next := if s[j] != q then j + 1 else j + 2;
      QuoteEndPairs(s, next, q);
      assert s[j..e][next - j..] == s[next..e];
    }
  }

  lemma {:induction false} PairedCloses(a: text, x: text, q: cp, b: text)
    requires Paired(x, q) && (b == [] || b[0] != q)
    ensures QuoteEnd(a + x + [q] + b, |a|, q, false) == Some(|a| + |x|)
    decreases |x|
  {
    var s := a + x + [q] + b;
    if x != [] {
      var n := if x[0] != q then 1 else 2;
      assert x == x[..n] + x[n..];
      assert s == (a + x[..n]) + x[n..] + [q] + b;
      PairedCloses(a + x[..n], x[n..], q, b);
      assert s[|a|] == x[0] && (n == 2 ==> s[|a| + 1] == q);
    }
  }

  lemma {:induction false} UnquoteInverts(x: text)
    requires Paired(x, 34)
    ensures DoubleQuotes(Unquote(x)) == x
    decreases |x|
  {
    if x != [] {
      var n := if x[0] != 34 then 1 else 2;
      UnquoteInverts(x[n..]);
      assert Unquote(x) == [x[0]] + Unquote(x[n..]);
      assert x == x[..n] + x[n..];
    }
  }

  /** How a piece is written. */
  ghost predicate Spelled(tables: Unicode, p: Piece) {
    match p
    case Blank(c) => IsBlank(c)
    case Lexeme(prefix, body, token) =>
      && body != []
      && (prefix == [] || (token.kind.Literal? && |prefix| == 1 && LiteralPrefix(prefix[0]) && body[0] == 39))
      && match token.kind
         case Word => token.t == tables.lower(body) && forall k :: 0 <= k < |body| ==> WordPart(tables, body[k])
         case QuotedName => body == [34] + DoubleQuotes(token.t) + [34]
         case Literal => token.t == body && |body| >= 2 && (body[0] == 39 || body[0] == 36) && body[|body| - 1] == body[0]
         case Number => token.t == body && forall k :: 0 <= k < |body| ==> NumberPart(tables, body[k])
         case Punct => token.t == body && |body| == 1
  }

  lemma BetweenQuotes(s: text, e: nat)
    requires 0 < e < |s| && s[0] == 34 && s[e] == 34
    ensures s[..e + 1] == [34] + s[1..e] + [34]
  {
  }

  lemma QuotedNameSpelled(s: text)
    requires s != [] && s[0] == 34 && QuotedIdentifier(s).Some?
    ensures var p := QuotedIdentifier(s).value;
            p.body == [34] + DoubleQuotes(p.token.t) + [34] && p.token.kind.QuotedName? && p.prefix == []
  {
    var e := QuoteEnd(s, 1, 34, false).value;
    BetweenQuotes(s, e);
    QuoteEndPairs(s, 1, 34);
    var inside := s[1..e];
    UnquoteInverts(inside);
  }

  lemma StepSpells(tables: Unicode, s: text)
    requires TableLaw(tables) && s != [] && Step(tables, s).Some?
    ensures Spelled(tables, Step(tables, s).value)
  {
    var c := s[0];
    if !IsBlank(c) && !Comment(s) {
      if c == 34 { QuotedNameSpelled(s); }
      else if c != 36 && !PrefixedLiteral(s) && c != 39 {
        if NumberStart(tables, s) { assert NumberPart(tables, s[0]); }
        else if WordStart(tables, c) { assert WordPart(tables, s[0]); }
      }
    }
  }

  lemma SourceSplits(p: Piece, rest: seq<Piece>)
    ensures SourceOf([p] + rest) == p.Source() + SourceOf(rest)
  {
    assert ([p] + rest)[1..] == rest;
  }

  ghost predicate AllSpelled(tables: Unicode, pieces: seq<Piece>) {
    forall p :: p in pieces ==> Spelled(tables, p)
  }

  /** A successful tokenisation cuts the text into pieces that are each written as their token
      says and that, end to end, are the text: no gap, no overlap, nothing invented. */
  lemma {:induction false} LexReassembles(tables: Unicode, s: text)
    requires TableLaw(tables) && Lex(tables, s).Some?
    ensures SourceOf(Lex(tables, s).value) == s && AllSpelled(tables, Lex(tables, s).value)
    decreases |s|
  {
    if s != [] {
      StepSpells(tables, s);
      var p := Step(tables, s).value;
      var rest := s[|p.Source()|..];
      LexReassembles(tables, rest);
      SourceSplits(p, Lex(tables, rest).value);
    }
  }

  // Locality: what a step takes is decided by the characters it takes and the next one

  /** `s` and `t` begin with the same `m` characters. */
  ghost predicate Agree(s: text, t: text, m: nat) {
    m <= |s| && m <= |t| && s[..m] == t[..m]
  }

  lemma AgreeAt(s: text, t: text, m: nat, k: nat)
    requires Agree(s, t, m) && k < m
    ensures s[k] == t[k]
  {
    assert s[..m][k] == t[..m][k];
  }

  lemma AgreeSlice(s: text, t: text, m: nat, i: nat, j: nat)
    requires Agree(s, t, m) && i <= j <= m
    ensures s[i..j] == t[i..j]
  {
    assert s[i..j] == s[..m][i..j] && t[i..j] == t[..m][i..j];
  }

  lemma {:induction false} QuoteEndLocal(s: text, t: text, m: nat, j: nat, q: cp, escapes: bool)
    requires Agree(s, t, m) && QuoteEnd(s, j, q, escapes).Some? && QuoteEnd(s, j, q, escapes).value + 1 < m
    ensures QuoteEnd(t, j, q, escapes) == QuoteEnd(s, j, q, escapes)
    decreases |s| + 2 - j
  {
    AgreeAt(s, t, m, j);
    AgreeAt(s, t, m, j + 1);
    if s[j] == 92 && escapes { QuoteEndLocal(s, t, m, j + 2, q, escapes); }
    else if s[j] != q { QuoteEndLocal(s, t, m, j + 1, q, escapes); }
    else if s[j + 1] == q { QuoteEndLocal(s, t, m, j + 2, q, escapes); }
  }

  lemma {:induction false} FindLocal(s: text, t: text, m: nat, tag: text, from: nat)
    requires Agree(s, t, m) && Find(s, tag, from).Some? && Find(s, tag, from).value + |tag| <= m
    ensures Find(t, tag, from) == Find(s, tag, from)
    decreases |s| - from
  {
    AgreeSlice(s, t, m, from, from + |tag|);
    if s[from..from + |tag|] != tag { FindLocal(s, t, m, tag, from + 1); }
  }

  lemma {:induction false} TagRunLocal(s: text, t: text, m: nat, j: nat)
    requires Agree(s, t, m) && j <= |s| && TagRun(s, j) < m
    ensures j < |t| && TagRun(t, j) == TagRun(s, j)
    decreases |s| - j
  {
    AgreeAt(s, t, m, j);
    if TagPart(s[j]) { TagRunLocal(s, t, m, j + 1); }
  }

  lemma {:induction false} WordEndLocal(tables: Unicode, s: text, t: text, m: nat, j: nat)
    requires Agree(s, t, m) && j <= |s| && WordEnd(tables, s, j) < m
    ensures j <= |t| && WordEnd(tables, t, j) == WordEnd(tables, s, j)
    decreases |s| - j
  {
    AgreeAt(s, t, m, j);
    if WordPart(tables, s[j]) { WordEndLocal(tables, s, t, m, j + 1); }
  }

  lemma {:induction false} NumberEndLocal(tables: Unicode, s: text, t: text, m: nat, j: nat)
    requires Agree(s, t, m) && 1 <= j <= |s| && NumberEnd(tables, s, j) < m
    ensures j <= |t| && NumberEnd(tables, t, j) == NumberEnd(tables, s, j)
    decreases |s| - j
  {
    AgreeAt(s, t, m, j);
    AgreeAt(s, t, m, j - 1);
    if NumberPart(tables, s[j]) && !(IsSign(s[j]) && !IsExponent(s[j - 1])) {
      NumberEndLocal(tables, s, t, m, j + 1);
    }
  }

  lemma TagLocal(s: text, t: text, m: nat)
    requires s != [] && s[0] == 36 && Agree(s, t, m) && TagLength(s).Some? && TagLength(s).value < m
    ensures t != [] && t[0] == 36 && TagLength(t) == TagLength(s) && s[..TagLength(s).value] == t[..TagLength(s).value]
  {
    var n := TagLength(s).value;
    AgreeAt(s, t, m, 0);
    AgreeAt(s, t, m, 1);
    if s[1] != 36 { TagRunLocal(s, t, m, 2); }
    AgreeSlice(s, t, m, 0, n);
    AgreeAt(s, t, m, n - 1);
  }

  lemma DollarIs(s: text, n: nat, tag: text, e: nat)
    requires s != [] && s[0] == 36 && TagLength(s) == Some(n) && tag == s[..n] && Find(s, tag, n) == Some(e)
    ensures Dollar(s) == Some(Lexeme([], s[..e + n], Token(Literal, s[..e + n])))
  {
  }

  lemma DollarFinds(s: text)
    requires s != [] && s[0] == 36 && Dollar(s).Some?
    ensures TagLength(s).Some? && Find(s, s[..TagLength(s).value], TagLength(s).value).Some?
    ensures var n := TagLength(s).value;
            |Dollar(s).value.Source()| == Find(s, s[..n], n).value + n
  {
  }

  lemma DollarLocal(s: text, t: text, m: nat)
    requires s != [] && s[0] == 36 && Agree(s, t, m) && Dollar(s).Some? && |Dollar(s).value.Source()| < m
    ensures t != [] && t[0] == 36 && Dollar(t) == Dollar(s)
  {
    DollarFinds(s);
    var n := TagLength(s).value;
    var tag := s[..n];
    var e := Find(s, tag, n).value;
    TagLocal(s, t, m);
    FindLocal(s, t, m, tag, n);
    AgreeSlice(s, t, m, 0, e + n);
    DollarSame(s, t, n, tag, e);
  }

  lemma DollarSame(s: text, t: text, n: nat, tag: text, e: nat)
    requires s != [] && s[0] == 36 && TagLength(s) == Some(n) && tag == s[..n] && Find(s, tag, n) == Some(e)
    requires t != [] && t[0] == 36 && TagLength(t) == Some(n) && tag == t[..n] && Find(t, tag, n) == Some(e)
    requires s[..e + n] == t[..e + n]
    ensures Dollar(t) == Dollar(s)
  {
    DollarIs(s, n, tag, e);
    DollarIs(t, n, tag, e);
  }

  lemma QuotedLocal(s: text, t: text, m: nat, from: nat, q: cp, escapes: bool)
    requires Agree(s, t, m) && QuoteEnd(s, from, q, escapes).Some? && QuoteEnd(s, from, q, escapes).value + 1 < m
    ensures var e := QuoteEnd(s, from, q, escapes).value;
            QuoteEnd(t, from, q, escapes) == Some(e) && t[..e + 1] == s[..e + 1]
  {
    QuoteEndLocal(s, t, m, from, q, escapes);
    AgreeSlice(s, t, m, 0, QuoteEnd(s, from, q, escapes).value + 1);
  }

  lemma LiteralLocal(s: text, t: text, m: nat, skip: nat)
    requires skip <= 1 && skip < |s| && Agree(s, t, m) && 2 <= m
    requires QuotedLiteral(s, skip).Some? && |QuotedLiteral(s, skip).value.Source()| < m
    ensures skip < |t| && QuotedLiteral(t, skip) == QuotedLiteral(s, skip)
  {
    AgreeAt(s, t, m, 0);
    var escapes := skip == 1 && IsExponent(s[0]);
    var e := QuoteEnd(s, skip + 1, 39, escapes).value;
    QuotedLocal(s, t, m, skip + 1, 39, escapes);
    AgreeSlice(s, t, m, skip, e + 1);
    AgreeSlice(s, t, m, 0, skip);
  }

  lemma StepLocal(tables: Unicode, s: text, t: text, m: nat)
    requires s != [] && Agree(s, t, m) && Step(tables, s).Some? && |Step(tables, s).value.Source()| < m
    ensures t != [] && Step(tables, t) == Step(tables, s)
  {
    var c := s[0];
    AgreeAt(s, t, m, 0);
    AgreeAt(s, t, m, 1);
    if IsBlank(c) || Comment(s) {
    } else if c == 36 { DollarLocal(s, t, m); }
    else if c == 34 {
      var e := QuoteEnd(s, 1, 34, false).value;
      QuotedLocal(s, t, m, 1, 34, false);
      AgreeSlice(s, t, m, 1, e);
    }
    else if PrefixedLiteral(s) { LiteralLocal(s, t, m, 1); }
    else if c == 39 { LiteralLocal(s, t, m, 0); }
    else if NumberStart(tables, s) {
      NumberEndLocal(tables, s, t, m, 1);
      AgreeSlice(s, t, m, 0, NumberEnd(tables, s, 1));
    } else if WordStart(tables, c) {
      WordEndLocal(tables, s, t, m, 1);
      AgreeSlice(s, t, m, 0, WordEnd(tables, s, 1));
    }
  }

  /** Lexing `u + v`, the lexer stops between the two. */
  ghost predicate Boundary(tables: Unicode, u: text, v: text)
    decreases |u|
  {
    u == [] ||
    (Step(tables, u + v).Some? &&
     var n := |Step(tables, u + v).value.Source()|;
     0 < n <= |u| && Boundary(tables, u[n..], v))
  }

  ghost function Front(tables: Unicode, u: text, v: text): seq<Piece>
    requires Boundary(tables, u, v)
    decreases |u|
  {
    if u == [] then []
    else var p := Step(tables, u + v).value; [p] + Front(tables, u[|p.Source()|..], v)
  }

  lemma AgreeFront(u: text, v: text, w: text)
    requires v != [] && w != [] && v[0] == w[0]
    ensures Agree(u + v, u + w, |u| + 1)
  {
    assert (u + v)[..|u| + 1] == u + [v[0]] == (u + w)[..|u| + 1];
  }

  /** Up to a boundary, lexing does not look past the next character. */
  lemma {:induction false} FrontLocal(tables: Unicode, u: text, v: text, w: text)
    requires Boundary(tables, u, v) && v != [] && w != [] && v[0] == w[0]
    ensures Boundary(tables, u, w) && Front(tables, u, w) == Front(tables, u, v)
    decreases |u|
  {
    if u != [] {
      var p := Step(tables, u + v).value;
      AgreeFront(u, v, w);
      StepLocal(tables, u + v, u + w, |u| + 1);
      FrontLocal(tables, u[|p.Source()|..], v, w);
    }
  }

  lemma LexCons(tables: Unicode, s: text, p: Piece, rest: text)
    requires s != [] && Step(tables, s) == Some(p) && s == p.Source() + rest
    ensures Lex(tables, s) == match Lex(tables, rest) case None => None case Some(after) => Some([p] + after)
  {
    assert s[|p.Source()|..] == rest;
  }

  lemma FrontSplits(u: text, v: text, front: text)
    requires front <= u + v && |front| <= |u|
    ensures u + v == front + (u[|front|..] + v)
  {
    assert (u + v)[..|front|] == front;
  }

  lemma {:induction false} LexSplits(tables: Unicode, u: text, v: text)
    requires Boundary(tables, u, v)
    ensures Lex(tables, u + v) ==
            match Lex(tables, v) case None => None case Some(after) => Some(Front(tables, u, v) + after)
    decreases |u|
  {
    if u == [] {
      assert u + v == v;
      assert forall after: seq<Piece> :: [] + after == after;
    } else {
      var p := Step(tables, u + v).value;
      var n := |p.Source()|;
      LexSplits(tables, u[n..], v);
      FrontSplits(u, v, p.Source());
      LexCons(tables, u + v, p, u[n..] + v);
      Associate(p, Front(tables, u[n..], v), Lex(tables, v));
    }
  }

  lemma Associate(p: Piece, front: seq<Piece>, after: Option<seq<Piece>>)
    ensures after.Some? ==> [p] + (front + after.value) == ([p] + front) + after.value
  {
  }

  predicate PlainPrefix(pre: text) { pre == [] || (|pre| == 1 && BitPrefix(pre[0])) }

  function Quoted(x: text): text { [39] + x + [39] }

  function Constant(pre: text, x: text): Piece {
    Lexeme(pre, Quoted(x), Token(Literal, Quoted(x)))
  }

  lemma StepQuotes(tables: Unicode, s: text, k: nat)
    requires k <= 1 && k < |s| && s[k] == 39 && (k == 1 ==> BitPrefix(s[0]))
    ensures Step(tables, s) == QuotedLiteral(s, k)
  {
    if k == 0 { assert !PrefixedLiteral(s) && !Comment(s); } else { assert PrefixedLiteral(s) && !Comment(s); }
  }

  lemma ConstantAt(s: text, k: nat, e: nat)
    requires k <= 1 && k < |s| && s[k] == 39 && (k == 1 ==> BitPrefix(s[0]))
    requires QuoteEnd(s, k + 1, 39, false) == Some(e)
    ensures QuotedLiteral(s, k) == Some(Lexeme(s[..k], s[k..e + 1], Token(Literal, s[k..e + 1])))
  {
    assert !(k == 1 && IsExponent(s[0]));
  }

  lemma ConstantShape(s: text, pre: text, x: text, b: text, e: nat)
    requires s == pre + Quoted(x) + b && e == |pre| + 1 + |x|
    ensures s == (pre + [39]) + x + [39] + b
    ensures e < |s| && s[..|pre|] == pre && s[|pre|..e + 1] == Quoted(x) && s[|pre|] == 39
    ensures pre != [] ==> s[0] == pre[0]
  {
    assert pre + Quoted(x) + b == (pre + [39]) + x + [39] + b;
  }

  lemma ConstantCloses(s: text, pre: text, x: text, b: text, e: nat)
    requires s == pre + Quoted(x) + b && Paired(x, 39) && (b == [] || b[0] != 39) && e == |pre| + 1 + |x|
    ensures QuoteEnd(s, |pre| + 1, 39, false) == Some(e)
  {
    ConstantShape(s, pre, x, b, e);
    PairedCloses(pre + [39], x, 39, b);
  }

  lemma ConstantStep(tables: Unicode, s: text, k: nat, e: nat)
    requires k <= 1 && k < |s| && s[k] == 39 && (k == 1 ==> BitPrefix(s[0])) && QuoteEnd(s, k + 1, 39, false) == Some(e)
    ensures Step(tables, s) == Some(Lexeme(s[..k], s[k..e + 1], Token(Literal, s[k..e + 1])))
  {
    ConstantAt(s, k, e);
    StepQuotes(tables, s, k);
  }

  lemma StepTakesConstant(tables: Unicode, s: text, pre: text, x: text, b: text)
    requires s == pre + Quoted(x) + b
    requires PlainPrefix(pre) && Paired(x, 39) && (b == [] || b[0] != 39)
    ensures s != [] && Step(tables, s) == Some(Constant(pre, x))
  {
    var e := |pre| + 1 + |x|;
    ConstantShape(s, pre, x, b, e);
    ConstantCloses(s, pre, x, b, e);
    StepTakesQuoted(tables, s, pre, Quoted(x), e);
  }

  lemma StepTakesQuoted(tables: Unicode, s: text, pre: text, body: text, e: nat)
    requires |pre| <= e < |s| && s[..|pre|] == pre && s[|pre|..e + 1] == body && s[|pre|] == 39
    requires PlainPrefix(pre) && (pre != [] ==> s[0] == pre[0]) && QuoteEnd(s, |pre| + 1, 39, false) == Some(e)
    ensures Step(tables, s) == Some(Lexeme(pre, body, Token(Literal, body)))
  {
    ConstantStep(tables, s, |pre|, e);
  }

  lemma LiteralAlone(tables: Unicode, pre: text, x: text, b: text)
    requires PlainPrefix(pre) && Paired(x, 39) && (b == [] || b[0] != 39)
    ensures Lex(tables, pre + Quoted(x) + b) ==
            match Lex(tables, b) case None => None case Some(after) => Some([Constant(pre, x)] + after)
  {
    StepTakesConstant(tables, pre + Quoted(x) + b, pre, x, b);
    LexCons(tables, pre + Quoted(x) + b, Constant(pre, x), b);
  }

  lemma {:induction false} TokensConcat(a: seq<Piece>, b: seq<Piece>)
    ensures TokensOf(a + b) == TokensOf(a) + TokensOf(b)
    decreases |a|
  {
    if a == [] { assert a + b == b; }
    else {
      assert (a + b)[1..] == a[1..] + b;
      TokensConcat(a[1..], b);
    }
  }

  function Tokens(tables: Unicode, s: text): Option<seq<Token>> {
    match Lex(tables, s)
    case None => None
    case Some(pieces) => Some(TokensOf(pieces))
  }

  /** What a plain quoted constant between `u` and `b` makes of the token list. */
  lemma TokensAroundLiteral(tables: Unicode, u: text, pre: text, x: text, b: text)
    requires PlainPrefix(pre) && Paired(x, 39) && (b == [] || b[0] != 39) && Boundary(tables, u, pre + Quoted(x) + b)
    ensures Tokens(tables, u + (pre + Quoted(x) + b)) ==
            match Tokens(tables, b)
            case None => None
            case Some(after) =>
              Some(TokensOf(Front(tables, u, pre + Quoted(x) + b)) + [Token(Literal, Quoted(x))] + after)
  {
    var v := pre + Quoted(x) + b;
    LexSplits(tables, u, v);
    LiteralAlone(tables, pre, x, b);
    match Lex(tables, b)
    case None =>
    case Some(after) => TokensThrough(Front(tables, u, v), Constant(pre, x), after);
  }

  lemma TokensThrough(front: seq<Piece>, p: Piece, after: seq<Piece>)
    requires p.Lexeme?
    ensures TokensOf(front + ([p] + after)) == TokensOf(front) + [p.token] + TokensOf(after)
  {
    TokensConcat(front, [p] + after);
    assert ([p] + after)[1..] == after;
  }

  /** Replacing the inside of a plain quoted constant changes that one token and nothing else. */
  lemma LiteralInsideIsOpaque(tables: Unicode, u: text, pre: text, x: text, y: text, b: text)
    requires PlainPrefix(pre) && Paired(x, 39) && Paired(y, 39) && (b == [] || b[0] != 39)
    requires Boundary(tables, u, pre + Quoted(x) + b)
    ensures Tokens(tables, u + (pre + Quoted(x) + b)).None? <==> Tokens(tables, u + (pre + Quoted(y) + b)).None?
    ensures Tokens(tables, u + (pre + Quoted(x) + b)).Some? ==>
              exists before, after ::
                && Tokens(tables, u + (pre + Quoted(x) + b)) == Some(before + [Token(Literal, Quoted(x))] + after)
                && Tokens(tables, u + (pre + Quoted(y) + b)) == Some(before + [Token(Literal, Quoted(y))] + after)
  {
    var v, w := pre + Quoted(x) + b, pre + Quoted(y) + b;
    assert v[0] == w[0];
    FrontLocal(tables, u, v, w);
    TokensAroundLiteral(tables, u, pre, x, b);
    TokensAroundLiteral(tables, u, pre, y, b);
  }
}
