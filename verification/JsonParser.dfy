/** The JSON parser behind `parse_canonical_json`, and its round trip with the printer. */
module JsonParser {
  import opened Results
  import opened Bytes
  import opened Text
  import opened Utf8
  import opened Json

  predicate IsSpace(c: cp) { c == 32 || c == 9 || c == 10 || c == 13 }

  function SkipSpace(s: text): (r: text)
    ensures |r| <= |s| && (r != [] ==> !IsSpace(r[0]))
    ensures s == [] || !IsSpace(s[0]) ==> r == s
  {
    if s != [] && IsSpace(s[0]) then SkipSpace(s[1..]) else s
  }

  function HexValue(c: cp): Option<int> {
    var n: int := c;
    if 48 <= n < 58 then Some(n - 48)
    else if 97 <= n < 103 then Some(n - 87)
    else if 65 <= n < 71 then Some(n - 55)
    else None
  }

  /** Four hexadecimal digits. */
  function Hex4(s: text): (r: Option<int>)
    ensures r.Some? ==> 0 <= r.value < 0x10000 && |s| >= 4
  {
    if |s| < 4 then None
    else match (HexValue(s[0]), HexValue(s[1]), HexValue(s[2]), HexValue(s[3]))
         case (Some(a), Some(b), Some(c), Some(d)) => Some(((a * 16 + b) * 16 + c) * 16 + d)
         case _ => None
  }

  /** The escape behind a backslash; a surrogate pair of `\u` escapes is one character. */
  function ParseEscape(s: text): (r: Option<(cp, text)>)
    ensures r.Some? ==> |r.value.1| < |s|
  {
    if s == [] then None
    else if s[0] == 34 || s[0] == 92 || s[0] == 47 then Some((s[0], s[1..]))
    else if s[0] == 98 then Some((8, s[1..]))
    else if s[0] == 102 then Some((12, s[1..]))
    else if s[0] == 110 then Some((10, s[1..]))
    else if s[0] == 114 then Some((13, s[1..]))
    else if s[0] == 116 then Some((9, s[1..]))
    else if s[0] == 117 then
      match Hex4(s[1..])
      case None => None
      case Some(high) =>
        if 0xD800 <= high < 0xDC00 && |s| >= 7 && s[5] == 92 && s[6] == 117 && Hex4(s[7..]).Some?
           && 0xDC00 <= Hex4(s[7..]).value < 0xE000
        then
          var joined: int := 0x10000 + (high - 0xD800) * 1024 + (Hex4(s[7..]).value - 0xDC00);
          Some((joined, s[11..]))
        else Some((high, s[5..]))
    else None
  }

  /** The rest of a string literal behind its opening quote. */
  function ParseString(s: text): (r: Option<(text, text)>)
    ensures r.Some? ==> |r.value.1| < |s|
    decreases |s|
  {
    if s == [] || s[0] < 32 then None
    else if s[0] == 34 then Some(([], s[1..]))
    else
      var first := if s[0] == 92 then ParseEscape(s[1..]) else Some((s[0], s[1..]));
      match first
      case None => None
      case Some((c, rest)) =>
        match ParseString(rest)
        case None => None
        case Some((t, tail)) => Some(([c] + t, tail))
  }

  function DigitRun(s: text): (n: nat)
    ensures n <= |s|
  {
    if s != [] && IsDigit(s[0]) then 1 + DigitRun(s[1..]) else 0
  }

  function NumberOf(digits: text): nat
    requires forall i :: 0 <= i < |digits| ==> IsDigit(digits[i])
  {
    if digits == [] then 0
    else
      assert IsDigit(digits[|digits| - 1]);
      var last := digits[|digits| - 1];
      10 * NumberOf(digits[..|digits| - 1]) + (last - 48)
  }

  lemma {:induction false} RunIsDigits(s: text)
    ensures forall i :: 0 <= i < DigitRun(s) ==> IsDigit(s[i])
    ensures DigitRun(s) < |s| ==> !IsDigit(s[DigitRun(s)])
  {
    if s != [] && IsDigit(s[0]) { RunIsDigits(s[1..]); }
  }

  /** A fraction or exponent makes the number a float. */
  predicate FloatFollows(s: text) {
    || (|s| >= 2 && s[0] == 46 && IsDigit(s[1]))
    || (|s| >= 2 && (s[0] == 101 || s[0] == 69) && IsDigit(s[1]))
    || (|s| >= 3 && (s[0] == 101 || s[0] == 69) && (s[1] == 43 || s[1] == 45) && IsDigit(s[2]))
  }

  function ParseNumber(s: text): (r: Option<(Value, text)>)
    ensures r.Some? ==> |r.value.1| < |s|
  {
    var negative := s != [] && s[0] == 45;
    var body := if negative then s[1..] else s;
    var run := DigitRun(body);
    var n := if run > 0 && body[0] == 48 then 1 else run;
    RunIsDigits(body);
    if n == 0 || FloatFollows(body[n..]) || n > 19 then None
    else
      var magnitude: int := NumberOf(body[..n]);
      var i := if negative then -magnitude else magnitude;
      if INT_MIN <= i <= INT_MAX then Some((Int(i), body[n..])) else None
  }

  predicate StartsWith(s: text, word: text) { word <= s }

  function ParseValue(s: text): (r: Option<(Value, text)>)
    ensures r.Some? ==> |r.value.1| < |s|
    decreases |s|, 1
  {
    if s == [] then None
    else if s[0] == 34 then
      match ParseString(s[1..])
      case None => None
      case Some((t, rest)) => Some((Str(t), rest))
    else if s[0] == 91 then
      var t := SkipSpace(s[1..]);
      if t != [] && t[0] == 93 then Some((Arr([]), t[1..])) else ParseItems(t, [])
    else if s[0] == 123 then
      var t := SkipSpace(s[1..]);
      if t != [] && t[0] == 125 then Some((Obj(map[]), t[1..])) else ParseMembers(t, map[])
    else if StartsWith(s, NULL) then Some((Null, s[4..]))
    else if StartsWith(s, TRUE) then Some((Bool(true), s[4..]))
    else if StartsWith(s, FALSE) then Some((Bool(false), s[5..]))
    else ParseNumber(s)
  }

  function ParseItems(s: text, sofar: seq<Value>): (r: Option<(Value, text)>)
    ensures r.Some? ==> |r.value.1| < |s|
    decreases |s|, 2
  {
    match ParseValue(s)
    case None => None
    case Some((v, rest)) =>
      var t := SkipSpace(rest);
      if t == [] then None
      else if t[0] == 93 then Some((Arr(sofar + [v]), t[1..]))
      else if t[0] == 44 then ParseItems(SkipSpace(t[1..]), sofar + [v])
      else None
  }

  /** Object members; a repeated key is refused. */
  function ParseMembers(s: text, sofar: map<text, Value>): (r: Option<(Value, text)>)
    ensures r.Some? ==> |r.value.1| < |s|
    decreases |s|, 2
  {
    if s == [] || s[0] != 34 then None
    else match ParseString(s[1..])
         case None => None
         case Some((key, rest)) =>
           var t := SkipSpace(rest);
           if t == [] || t[0] != 58 || key in sofar then None
           else match ParseValue(SkipSpace(t[1..]))
                case None => None
                case Some((v, rest')) =>
                  var u := SkipSpace(rest');
                  if u == [] then None
                  else if u[0] == 125 then Some((Obj(sofar[key := v]), u[1..]))
                  else if u[0] == 44 then ParseMembers(SkipSpace(u[1..]), sofar[key := v])
                  else None
  }

  /** `json.loads`. */
  function Loads(s: text): Option<Value> {
    match ParseValue(SkipSpace(s))
    case None => None
    case Some((v, rest)) => if SkipSpace(rest) == [] then Some(v) else None
  }

  /** Decode JSON and reject every byte representation that is not canonical. */
  ghost function ParseCanonical(nfc: text -> text, payload: bytes): Result<Value, JsonError>
    requires NfcLaw(nfc)
  {
    match Decode(payload)
    case None => Err(InvalidUtf8)
    case Some(t) =>
      match Loads(t)
      case None => Err(NotJson)
      case Some(v) =>
        match Normalize(nfc, v)
        case Err(e) => Err(e)
        case Ok(n) => if CanonicalBytes(nfc, n) == Ok(payload) then Ok(n) else Err(NotCanonical)
  }

  // Round trip

  /** What may follow a printed value. */
  predicate Delimited(rest: text) {
    rest == [] || rest[0] == 44 || rest[0] == 93 || rest[0] == 125
  }

  lemma EscapeParses(c: cp, rest: text)
    requires c == 34 || c == 92 || 0 <= c < 32
    ensures ParseEscape((Escape(c) + rest)[1..]) == Some((c, rest))
  {
    var e := Escape(c);
    var s := (e + rest)[1..];
    assert forall i :: 0 <= i < |e| - 1 ==> s[i] == e[i + 1];
    assert s[|e| - 1..] == rest;
    if |e| == 6 {
      assert HexValue(Hex(c / 16)) == Some(c / 16) && HexValue(Hex(c % 16)) == Some(c % 16);
      assert s[1..][0] == 48 && s[1..][1] == 48 && s[1..][2] == Hex(c / 16) && s[1..][3] == Hex(c % 16);
    }
  }

  lemma {:induction false} StringParses(t: text, rest: text)
    requires AllScalar(t)
    ensures ParseString(EscapeAll(t) + [34] + rest) == Some((t, rest))
  {
    if t == [] {
      assert [34] + rest == EscapeAll(t) + [34] + rest;
      assert ([34] + rest)[1..] == rest;
    } else {
      var c, tail := t[0], EscapeAll(t[1..]) + [34] + rest;
      StringParses(t[1..], rest);
      var s := EscapeAll(t) + [34] + rest;
      assert s == Escape(c) + tail;
      assert s[0] == Escape(c)[0];
      if c == 34 || c == 92 || c < 32 {
        EscapeParses(c, tail);
      } else {
        assert s[1..] == tail;
      }
      assert [c] + t[1..] == t;
    }
  }

  lemma {:induction false} NumeralParses(n: nat, rest: text)
    requires rest == [] || !IsDigit(rest[0])
    ensures DigitRun(Digits(n) + rest) == |Digits(n)|
  {
    DigitsAre(n);
    RunStops(Digits(n), rest);
  }

  lemma {:induction false} RunStops(d: text, rest: text)
    requires (forall i :: 0 <= i < |d| ==> IsDigit(d[i])) && (rest == [] || !IsDigit(rest[0]))
    ensures DigitRun(d + rest) == |d|
    decreases d
  {
    if d == [] { assert d + rest == rest; }
    else {
      assert (d + rest)[1..] == d[1..] + rest;
      RunStops(d[1..], rest);
    }
  }

  lemma {:induction false} NumeralValue(n: nat)
    requires forall i :: 0 <= i < |Digits(n)| ==> IsDigit(Digits(n)[i])
    ensures NumberOf(Digits(n)) == n
  {
    if n >= 10 {
      DigitsAre(n / 10);
      NumeralValue(n / 10);
      var d := Digits(n);
      assert d[..|d| - 1] == Digits(n / 10);
    }
  }

  lemma AtMostNineteen(n: nat)
    requires n <= INT_MAX + 1
    ensures |Digits(n)| <= 19
  {
    Pow10At19();
    DigitsLength(n, 19);
  }

  /** One numeral at the front of `body`. */
  lemma NumeralAtFront(n: nat, body: text, rest: text)
    requires body == Digits(n) + rest && Delimited(rest)
    ensures var d := |Digits(n)|;
            && body != [] && IsDigit(body[0]) && DigitRun(body) == d && body[..d] == Digits(n) && body[d..] == rest
            && (body[0] == 48 ==> d == 1)
  {
    DigitsAre(n);
    NumeralParses(n, rest);
    assert body[0] == Digits(n)[0];
  }

  /** What the number parser does with a numeral of `d` digits in front of `rest`. */
  lemma NumberReads(s: text, negative: bool, body: text, d: nat, n: int)
    requires s != [] && negative == (s[0] == 45) && body == (if negative then s[1..] else s)
    requires 0 < d <= 19 && DigitRun(body) == d && (body[0] == 48 ==> d == 1) && !FloatFollows(body[d..])
    requires (forall i :: 0 <= i < d ==> IsDigit(body[..d][i])) && NumberOf(body[..d]) == n
    ensures var i: int := if negative then -n else n;
            ParseNumber(s) == if INT_MIN <= i <= INT_MAX then Some((Int(i), body[d..])) else None
  {
  }

  /** What the number parser needs to know about such a numeral. */
  lemma NumeralReads(n: nat, body: text, rest: text)
    requires n <= INT_MAX + 1 && body == Digits(n) + rest && Delimited(rest)
    ensures var d := |Digits(n)|;
            && body != [] && IsDigit(body[0]) && 0 < d <= 19 && DigitRun(body) == d && (body[0] == 48 ==> d == 1)
            && body[..d] == Digits(n) && body[d..] == rest && !FloatFollows(rest)
            && (forall i :: 0 <= i < d ==> IsDigit(Digits(n)[i])) && NumberOf(Digits(n)) == n
  {
    NumeralAtFront(n, body, rest);
    DigitsAre(n);
    NumeralValue(n);
    AtMostNineteen(n);
  }

  lemma NumberParses(i: int, rest: text)
    requires INT_MIN <= i <= INT_MAX && Delimited(rest)
    ensures ParseNumber(Decimal(i) + rest) == Some((Int(i), rest))
    ensures Decimal(i) != [] && (Decimal(i)[0] == 45 || IsDigit(Decimal(i)[0]))
  {
    var n: nat := if i < 0 then -i else i;
    var body := Digits(n) + rest;
    SignThenDigits(i, rest);
    NumeralReads(n, body, rest);
    NumberReads(Decimal(i) + rest, i < 0, body, |Digits(n)|, n);
    DigitsAre(n);
  }

  lemma SignThenDigits(i: int, rest: text)
    ensures var n: nat := if i < 0 then -i else i;
            var s := Decimal(i) + rest;
            s == (if i < 0 then [45] else []) + (Digits(n) + rest) && (if i < 0 then s[1..] else s) == Digits(n) + rest
    ensures i < 0 ==> (Decimal(i) + rest)[0] == 45
  {
  }

  lemma Pow10At19()
    ensures Pow10(19) == 10000000000000000000
  {
    assert Pow10(5) == 100000;
    assert Pow10(10) == 10000000000;
    assert Pow10(15) == 1000000000000000;
  }

  predicate NoSpaceFirst(t: text) { t == [] || !IsSpace(t[0]) }

  lemma ArrayOpens(s: text, t: text)
    requires s == [91] + t && t != [] && !IsSpace(t[0])
    ensures ParseValue(s) == if t[0] == 93 then Some((Arr([]), t[1..])) else ParseItems(t, [])
  {
    assert s[1..] == t;
  }

  lemma ObjectOpens(s: text, t: text)
    requires s == [123] + t && t != [] && !IsSpace(t[0])
    ensures ParseValue(s) == if t[0] == 125 then Some((Obj(map[]), t[1..])) else ParseMembers(t, map[])
  {
    assert s[1..] == t;
  }

  lemma MembersGoOn(s: text, sofar: map<text, Value>, key: text, colon: text, v: Value, c: cp, t: text)
    requires s != [] && s[0] == 34 && ParseString(s[1..]) == Some((key, [58] + colon)) && NoSpaceFirst(colon)
    requires key !in sofar && ParseValue(colon) == Some((v, [c] + t)) && (c == 125 || (c == 44 && NoSpaceFirst(t)))
    ensures ParseMembers(s, sofar) ==
            if c == 125 then Some((Obj(sofar[key := v]), t)) else ParseMembers(t, sofar[key := v])
  {
    assert ([58] + colon)[1..] == colon && ([58] + colon)[0] == 58;
    assert ([c] + t)[1..] == t && ([c] + t)[0] == c;
  }

  /** `p` is a text that parses as `v` in front of any delimiter. */
  ghost predicate ParsesTo(p: text, v: Value) {
    && p != [] && !IsSpace(p[0]) && p[0] != 93 && p[0] != 125
    && forall rest: text {:trigger p + rest} :: Delimited(rest) ==> ParseValue(p + rest) == Some((v, rest))
  }

  lemma LeafParses(nfc: text -> text, v: Value)
    requires Normal(nfc, v) && !v.Arr? && !v.Obj?
    ensures ParsesTo(Print(v), v)
  {
    match v
    case Null => WordParses(v, NULL);
    case Bool(b) => WordParses(v, if b then TRUE else FALSE);
    case Int(i) => IntParses(i);
    case Str(t) => StrParses(t);
  }

  lemma WordParses(v: Value, word: text)
    requires (v.Null? && word == NULL) || (v == Bool(true) && word == TRUE) || (v == Bool(false) && word == FALSE)
    ensures ParsesTo(word, v)
  {
    forall rest: text ensures ParseValue(word + rest) == Some((v, rest)) {
      var s := word + rest;
      assert word <= s && s[0] == word[0] && s[|word|..] == rest;
    }
  }

  lemma IntParses(i: int)
    requires INT_MIN <= i <= INT_MAX
    ensures ParsesTo(Decimal(i), Int(i))
  {
    NumberParses(i, []);
    forall rest: text | Delimited(rest) ensures ParseValue(Decimal(i) + rest) == Some((Int(i), rest)) {
      NumberParses(i, rest);
      NumberStarts(Decimal(i), rest);
    }
  }

  lemma NumberStarts(digits: text, rest: text)
    requires digits != []
    ensures digits + rest != [] && (digits + rest)[0] == digits[0]
  {
  }

  lemma StrParses(t: text)
    requires AllScalar(t)
    ensures ParsesTo(Quote(t), Str(t))
  {
    forall rest: text ensures ParseValue(Quote(t) + rest) == Some((Str(t), rest)) {
      StringParses(t, rest);
      assert (Quote(t) + rest)[1..] == EscapeAll(t) + [34] + rest;
    }
  }

  /** Peeling the first part off a joined list in front of a closing bracket. */
  lemma JoinPeels(parts: seq<text>, close: text)
    requires parts != []
    ensures |parts| == 1 ==> Join(parts) + close == parts[0] + close
    ensures |parts| > 1 ==> Join(parts) + close == parts[0] + ([44] + (Join(parts[1..]) + close))
  {
    if |parts| > 1 { Regroup(parts[0], 44, Join(parts[1..]), close); }
  }

  lemma Regroup(a: text, c: cp, b: text, close: text)
    ensures a + [c] + b + close == a + ([c] + (b + close))
  {
  }

  lemma JoinStarts(parts: seq<text>, close: text)
    requires parts != [] && parts[0] != []
    ensures Join(parts) != [] && (Join(parts) + close)[0] == parts[0][0]
  {
  }

  ghost predicate AllParse(parts: seq<text>, items: seq<Value>) {
    |parts| == |items| && forall i :: 0 <= i < |parts| ==> ParsesTo(parts[i], items[i])
  }

  lemma {:induction false} ItemsParse(parts: seq<text>, items: seq<Value>, sofar: seq<Value>, rest: text)
    requires AllParse(parts, items) && parts != []
    ensures ParseItems(Join(parts) + ([93] + rest), sofar) == Some((Arr(sofar + items), rest))
    decreases |parts|
  {
    var close := [93] + rest;
    var last := |parts| == 1;
    var t := if last then rest else Join(parts[1..]) + close;
    var c: cp := if last then 93 else 44;
    JoinPeels(parts, close);
    assert ParseValue(parts[0] + ([c] + t)) == Some((items[0], [c] + t));
    OneMoreItem(sofar, items);
    if !last {
      JoinStarts(parts[1..], close);
      ItemsParse(parts[1..], items[1..], sofar + [items[0]], rest);
    }
    ItemsMove(parts[0], items[0], sofar, c, t);
  }

  lemma OneMoreItem(sofar: seq<Value>, items: seq<Value>)
    requires items != []
    ensures sofar + [items[0]] + items[1..] == sofar + items
    ensures |items| == 1 ==> sofar + [items[0]] == sofar + items
  {
  }

  lemma ItemsMove(p: text, v: Value, sofar: seq<Value>, c: cp, t: text)
    requires ParseValue(p + ([c] + t)) == Some((v, [c] + t)) && (c == 93 || (c == 44 && NoSpaceFirst(t)))
    ensures ParseItems(p + ([c] + t), sofar) == if c == 93 then Some((Arr(sofar + [v]), t)) else ParseItems(t, sofar + [v])
  {
    assert ([c] + t)[1..] == t && ([c] + t)[0] == c;
  }

  lemma ArrayParses(parts: seq<text>, items: seq<Value>)
    requires AllParse(parts, items)
    ensures ParsesTo([91] + Join(parts) + [93], Arr(items))
  {
    forall rest: text ensures ParseValue([91] + Join(parts) + [93] + rest) == Some((Arr(items), rest)) {
      var t := Join(parts) + ([93] + rest);
      Regroup([91] + Join(parts), 93, [], rest);
      assert [91] + Join(parts) + [93] + rest == [91] + t;
      if parts == [] {
        assert t == [93] + rest && t[1..] == rest;
      } else {
        JoinStarts(parts, [93] + rest);
        ItemsParse(parts, items, [], rest);
        assert [] + items == items;
      }
      ArrayOpens([91] + t, t);
    }
  }

  lemma QuoteOpens(key: text, colon: text, m: text)
    requires m == Quote(key) + ([58] + colon) && AllScalar(key)
    ensures m[0] == 34 && ParseString(m[1..]) == Some((key, [58] + colon))
  {
    StringParses(key, [58] + colon);
    assert m[1..] == EscapeAll(key) + [34] + ([58] + colon);
  }

  /** One printed member in front of a comma or the closing brace. */
  lemma MemberParses(key: text, p: text, v: Value, sofar: map<text, Value>, c: cp, t: text)
    requires ParsesTo(p, v) && AllScalar(key) && key !in sofar && (c == 125 || (c == 44 && NoSpaceFirst(t)))
    ensures ParseMembers(Quote(key) + [58] + p + ([c] + t), sofar) ==
            if c == 125 then Some((Obj(sofar[key := v]), t)) else ParseMembers(t, sofar[key := v])
  {
    var colon := p + ([c] + t);
    var m := Quote(key) + [58] + p + ([c] + t);
    Regroup(Quote(key), 58, p, [c] + t);
    QuoteOpens(key, colon, m);
    assert ParseValue(p + ([c] + t)) == Some((v, [c] + t));
    assert colon[0] == p[0];
    MembersGoOn(m, sofar, key, colon, v, c, t);
  }

  /** The member texts of `fields` for `keys`, each value printed as something that parses. */
  ghost predicate MembersParse(parts: seq<text>, prints: seq<text>, keys: seq<text>, fields: map<text, Value>) {
    && |parts| == |keys| == |prints|
    && forall i :: 0 <= i < |keys| ==>
         && keys[i] in fields && AllScalar(keys[i])
         && parts[i] == Quote(keys[i]) + [58] + prints[i] && ParsesTo(prints[i], fields[keys[i]])
  }

  /** The members still to come, and those already taken, make up `fields`. */
  ghost predicate Splits(keys: seq<text>, sofar: map<text, Value>, fields: map<text, Value>) {
    && (forall k :: k in fields <==> k in keys || k in sofar)
    && (forall k :: k in keys ==> k !in sofar)
    && (forall k :: k in sofar ==> k in fields && fields[k] == sofar[k])
  }

  lemma SplitsNext(keys: seq<text>, sofar: map<text, Value>, fields: map<text, Value>)
    requires keys != [] && Ascending(keys) && Splits(keys, sofar, fields)
    ensures keys[0] in fields && keys[0] !in sofar && Ascending(keys[1..])
    ensures Splits(keys[1..], sofar[keys[0] := fields[keys[0]]], fields)
    ensures |keys| == 1 ==> sofar[keys[0] := fields[keys[0]]] == fields
  {
    KeysApart(keys);
    assert keys == [keys[0]] + keys[1..];
  }

  lemma {:induction false} FieldsParse(
    parts: seq<text>, prints: seq<text>, keys: seq<text>, fields: map<text, Value>, sofar: map<text, Value>, rest: text)
    requires MembersParse(parts, prints, keys, fields) && keys != [] && Ascending(keys) && Splits(keys, sofar, fields)
    ensures ParseMembers(Join(parts) + ([125] + rest), sofar) == Some((Obj(fields), rest))
    decreases |keys|
  {
    var key, close := keys[0], [125] + rest;
    SplitsNext(keys, sofar, fields);
    var next := sofar[key := fields[key]];
    JoinPeels(parts, close);
    if |keys| == 1 {
      MemberParses(key, prints[0], fields[key], sofar, 125, rest);
    } else {
      var t := Join(parts[1..]) + close;
      MemberStarts(parts[1..], prints[1..], keys[1..], fields, close);
      FieldsParse(parts[1..], prints[1..], keys[1..], fields, next, rest);
      MemberParses(key, prints[0], fields[key], sofar, 44, t);
    }
  }

  lemma MemberStarts(parts: seq<text>, prints: seq<text>, keys: seq<text>, fields: map<text, Value>, close: text)
    requires MembersParse(parts, prints, keys, fields) && keys != []
    ensures var t := Join(parts) + close; t != [] && t[0] == 34
  {
    assert parts[0][0] == 34;
    JoinStarts(parts, close);
  }

  lemma ObjectOpensOnMembers(
    parts: seq<text>, prints: seq<text>, keys: seq<text>, fields: map<text, Value>, rest: text)
    requires MembersParse(parts, prints, keys, fields) && Ascending(keys) && keys != []
    requires Splits(keys, map[], fields)
    ensures ParseValue([123] + (Join(parts) + ([125] + rest))) == Some((Obj(fields), rest))
  {
    var t := Join(parts) + ([125] + rest);
    MemberStarts(parts, prints, keys, fields, [125] + rest);
    FieldsParse(parts, prints, keys, fields, map[], rest);
    ObjectOpens([123] + t, t);
  }

  lemma EmptyObjectParses(rest: text)
    ensures ParseValue([123] + ([125] + rest)) == Some((Obj(map[]), rest))
  {
    ObjectOpens([123] + ([125] + rest), [125] + rest);
    assert ([125] + rest)[1..] == rest;
  }

  lemma ObjectParses(parts: seq<text>, prints: seq<text>, keys: seq<text>, fields: map<text, Value>)
    requires MembersParse(parts, prints, keys, fields) && Ascending(keys) && forall k :: k in fields <==> k in keys
    ensures ParsesTo([123] + Join(parts) + [125], Obj(fields))
  {
    var body := Join(parts);
    var printed := [123] + body + [125];
    assert keys == [] ==> fields == map[] && body == [];
    forall rest: text ensures ParseValue(printed + rest) == Some((Obj(fields), rest)) {
      assert printed + rest == [123] + (body + ([125] + rest));
      if keys == [] {
        assert body + ([125] + rest) == [125] + rest;
        EmptyObjectParses(rest);
      } else {
        ObjectOpensOnMembers(parts, prints, keys, fields, rest);
      }
    }
  }

  /** Parsing a printed value in front of a delimiter gives the value and leaves the rest. */
  lemma {:induction false} PrintParses(nfc: text -> text, v: Value)
    requires Normal(nfc, v)
    ensures ParsesTo(Print(v), v)
  {
    match v
    case Arr(items) =>
      var parts := seq(|items|, i requires 0 <= i < |items| => Print(items[i]));
      forall i | 0 <= i < |items| ensures ParsesTo(parts[i], items[i]) { PrintParses(nfc, items[i]); }
      ArrayParses(parts, items);
    case Obj(fields) =>
      var keys := Sorted(fields.Keys);
      var prints := seq(|keys|, i requires 0 <= i < |keys| => assert keys[i] in fields; Print(fields[keys[i]]));
      forall i | 0 <= i < |keys| ensures keys[i] in fields && AllScalar(keys[i]) && ParsesTo(prints[i], fields[keys[i]]) {
        assert keys[i] in fields;
        PrintParses(nfc, fields[keys[i]]);
      }
      ObjectParses(Members(v, keys), prints, keys, fields);
    case _ => LeafParses(nfc, v);
  }

  lemma KeysApart(keys: seq<text>)
    requires Ascending(keys) && keys != []
    ensures keys[0] !in keys[1..] && Ascending(keys[1..])
  {
    LessIrreflexive(keys[0]);
    forall i | 0 < i < |keys| ensures keys[i] != keys[0] {
      assert Less(keys[0], keys[i]);
    }
  }

  /** For every admissible value, its canonical bytes are accepted and give back the normalised
      value; inadmissible values have no canonical bytes. */
  lemma CanonicalRoundTrip(nfc: text -> text, v: Value)
    requires NfcLaw(nfc)
    ensures CanonicalBytes(nfc, v).Ok? <==> Normalize(nfc, v).Ok?
    ensures CanonicalBytes(nfc, v).Ok? ==>
              ParseCanonical(nfc, CanonicalBytes(nfc, v).value) == Ok(Normalize(nfc, v).value)
  {
    if Normalize(nfc, v).Ok? {
      var n := Normalize(nfc, v).value;
      NormalizeIsNormal(nfc, v);
      PrintScalar(nfc, n);
      RoundTrip(Print(n));
      PrintParses(nfc, n);
      assert Print(n) + [] == Print(n);
      NormalIsFixed(nfc, n);
    }
  }

  /** Two accepted payloads with equal values are the same bytes. */
  lemma AcceptedPayloadsAreUnique(nfc: text -> text, p: bytes, q: bytes)
    requires NfcLaw(nfc) && ParseCanonical(nfc, p).Ok?
    requires ParseCanonical(nfc, p) == ParseCanonical(nfc, q)
    ensures p == q
  {
  }

  /** Equal canonical bytes come from values with the same normal form. */
  lemma CanonicalInjective(nfc: text -> text, v: Value, w: Value)
    requires NfcLaw(nfc) && CanonicalBytes(nfc, v).Ok? && CanonicalBytes(nfc, v) == CanonicalBytes(nfc, w)
    ensures Normalize(nfc, v) == Normalize(nfc, w)
  {
    CanonicalRoundTrip(nfc, v);
    CanonicalRoundTrip(nfc, w);
  }

  /** A payload is accepted exactly when it is the canonical form of some value. */
  lemma AcceptedIffCanonical(nfc: text -> text, p: bytes)
    requires NfcLaw(nfc)
    ensures ParseCanonical(nfc, p).Ok? <==> exists v :: CanonicalBytes(nfc, v) == Ok(p)
  {
    if v :| CanonicalBytes(nfc, v) == Ok(p) {
      CanonicalRoundTrip(nfc, v);
    }
    if ParseCanonical(nfc, p).Ok? {
      var n := ParseCanonical(nfc, p).value;
      assert CanonicalBytes(nfc, n) == Ok(p);
    }
  }
}
