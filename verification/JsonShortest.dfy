/** What is canonical about the printed text: no JSON text of the value is shorter, its string literals
    are the shortest in lower case, and its keys ascend. */
module JsonShortest {
  import opened Results
  import opened Text
  import opened Json
  import opened JsonParser

  // Strings

  lemma EscapeCost(s: text)
    requires ParseEscape(s).Some?
    ensures var (c, rest) := ParseEscape(s).value; |s| + 1 >= |Escape(c)| + |rest|
  {
  }

  /** However a string literal is spelled, it is at least as long as the printed one. */
  lemma {:induction false} StringCost(s: text)
    requires ParseString(s).Some?
    ensures var (t, rest) := ParseString(s).value; |s| >= |EscapeAll(t)| + 1 + |rest|
    decreases |s|
  {
    if s[0] != 34 {
      var (c, rest) := (if s[0] == 92 then ParseEscape(s[1..]) else Some((s[0], s[1..]))).value;
      if s[0] == 92 { EscapeCost(s[1..]); }
      StringCost(rest);
      var (t, tail) := ParseString(rest).value;
      assert ([c] + t)[1..] == t;
    }
  }

  predicate UpperHex(c: cp) { 65 <= c <= 70 }

  /** The digits of every `\\u` escape are lower case, up to the closing quote. */
  predicate LowerEscapes(s: text)
    decreases |s|
  {
    if s == [] || s[0] == 34 then true
    else if s[0] != 92 then LowerEscapes(s[1..])
    else if |s| >= 6 && s[1] == 117 then
      !UpperHex(s[2]) && !UpperHex(s[3]) && !UpperHex(s[4]) && !UpperHex(s[5]) && LowerEscapes(s[6..])
    else |s| < 2 || LowerEscapes(s[2..])
  }

  lemma HexOf(c: cp, n: int)
    requires HexValue(c) == Some(n) && !UpperHex(c)
    ensures 0 <= n < 16 && c == Hex(n)
  {
  }

  lemma SmallHex(h: text, c: cp)
    requires |h| >= 4 && Hex4(h) == Some(c) && c < 32
    requires !UpperHex(h[0]) && !UpperHex(h[1]) && !UpperHex(h[2]) && !UpperHex(h[3])
    ensures 0 <= c && h[0] == 48 && h[1] == 48 && h[2] == Hex(c / 16) && h[3] == Hex(c % 16)
  {
    var a, b, x, y := HexValue(h[0]).value, HexValue(h[1]).value, HexValue(h[2]).value, HexValue(h[3]).value;
    HexOf(h[0], a);
    HexOf(h[1], b);
    HexOf(h[2], x);
    HexOf(h[3], y);
    assert c == a * 4096 + b * 256 + x * 16 + y;
  }

  /** A `\u` escape for a control character. */
  lemma UnicodeMeans(u: text, c: cp, rest: text)
    requires u != [] && u[0] == 117 && ParseEscape(u) == Some((c, rest)) && c < 32
    ensures |u| >= 5 && Hex4(u[1..]) == Some(c) && rest == u[5..]
  {
  }

  lemma ShortMeans(u: text, c: cp, rest: text)
    requires u != [] && u[0] != 117 && ParseEscape(u) == Some((c, rest))
    ensures rest == u[1..] && (Escape(c) == [92, u[0]] || |Escape(c)| == 1)
  {
  }

  lemma LongMeans(u: text, c: cp, rest: text)
    requires u != [] && u[0] == 117 && ParseEscape(u) == Some((c, rest))
    ensures |u| - |rest| >= 5
  {
  }

  /** An escape that is as short as the printed one, in lower case, is the printed one. */
  lemma TightEscape(s: text, c: cp, rest: text)
    requires |s| >= 2 && s[0] == 92 && ParseEscape(s[1..]) == Some((c, rest)) && LowerEscapes(s)
    requires |s| == |Escape(c)| + |rest|
    ensures s == Escape(c) + rest && LowerEscapes(rest)
  {
    var u := s[1..];
    if u[0] == 117 {
      LongMeans(u, c, rest);
      UnicodeMeans(u, c, rest);
      TightUnicode(s, u, c, rest);
    } else {
      ShortMeans(u, c, rest);
      assert s == [s[0], s[1]] + s[2..] && rest == s[2..];
    }
  }

  lemma TightUnicode(s: text, u: text, c: cp, rest: text)
    requires |s| >= 6 && s[0] == 92 && s[1] == 117 && u == s[1..] && Hex4(u[1..]) == Some(c) && rest == u[5..] && c < 32
    requires LowerEscapes(s) && |Escape(c)| == 6
    ensures s == Escape(c) + rest && LowerEscapes(rest)
  {
    var h := u[1..];
    assert h[0] == s[2] && h[1] == s[3] && h[2] == s[4] && h[3] == s[5] && rest == s[6..];
    SmallHex(h, c);
    SixThenRest(s);
  }

  lemma SixThenRest(s: text)
    requires |s| >= 6
    ensures s == [s[0], s[1], s[2], s[3], s[4], s[5]] + s[6..]
  {
  }

  lemma {:induction false} TightString(s: text, t: text)
    requires ParseString(s) == Some((t, [])) && |s| == |EscapeAll(t)| + 1 && LowerEscapes(s)
    ensures s == EscapeAll(t) + [34]
    decreases |s|
  {
    if s[0] != 34 {
      var (c, rest) := (if s[0] == 92 then ParseEscape(s[1..]) else Some((s[0], s[1..]))).value;
      StringCost(rest);
      if s[0] == 92 { EscapeCost(s[1..]); }
      assert t[0] == c && t[1..] == ParseString(rest).value.0;
      assert |s| == |Escape(c)| + |rest|;
      if s[0] == 92 { TightEscape(s, c, rest); } else { assert s == [c] + rest; }
      TightString(rest, t[1..]);
      assert s == Escape(c) + (EscapeAll(t[1..]) + [34]);
    }
  }

  lemma {:induction false} PrintedIsLower(t: text, rest: text)
    requires AllScalar(t)
    ensures LowerEscapes(EscapeAll(t) + [34] + rest)
  {
    var s := EscapeAll(t) + [34] + rest;
    if t != [] {
      PrintedIsLower(t[1..], rest);
      var tail := EscapeAll(t[1..]) + [34] + rest;
      assert s == Escape(t[0]) + tail;
      EscapeIsLower(t[0], tail);
    }
  }

  lemma EscapeIsLower(c: cp, tail: text)
    requires LowerEscapes(tail) && 0 <= c
    ensures LowerEscapes(Escape(c) + tail)
  {
    var s := Escape(c) + tail;
    assert forall i :: 0 <= i < |Escape(c)| ==> s[i] == Escape(c)[i];
    assert s[|Escape(c)|..] == tail;
  }

  /** `Quote(t)` is the one string literal of `t` that is as short as any and has its hexadecimal digits
      in lower case. */
  lemma QuoteIsShortest(t: text, p: text)
    requires AllScalar(t)
    ensures ParseString(p) == Some((t, [])) ==> |p| + 1 >= |Quote(t)|
    ensures ParseString(p) == Some((t, [])) && |p| + 1 <= |Quote(t)| && LowerEscapes(p) <==> [34] + p == Quote(t)
  {
    if ParseString(p) == Some((t, [])) {
      StringCost(p);
      if |p| + 1 <= |Quote(t)| && LowerEscapes(p) {
        TightString(p, t);
        assert [34] + p == Quote(t);
      }
    }
    if [34] + p == Quote(t) {
      assert p == Quote(t)[1..] == EscapeAll(t) + [34];
      PrintedIsTight(t);
    }
  }

  lemma PrintedIsTight(t: text)
    requires AllScalar(t)
    ensures ParseString(EscapeAll(t) + [34]) == Some((t, [])) && LowerEscapes(EscapeAll(t) + [34])
  {
    StringParses(t, []);
    PrintedIsLower(t, []);
    assert EscapeAll(t) + [34] + [] == EscapeAll(t) + [34];
  }

  // Keys

  /** `a` is `b` cut short, or smaller at the first place where they differ. */
  ghost predicate Precedes(a: text, b: text) {
    exists k :: 0 <= k <= |a| && k < |b| && a[..k] == b[..k] && (k == |a| || a[k] < b[k])
  }

  lemma {:induction false} LessPrecedes(a: text, b: text)
    requires Less(a, b)
    ensures Precedes(a, b)
    decreases |a|
  {
    if a == [] || a[0] != b[0] {
      assert a[..0] == b[..0];
    } else {
      LessPrecedes(a[1..], b[1..]);
      var k :| 0 <= k <= |a| - 1 && k < |b| - 1 && a[1..][..k] == b[1..][..k] && (k == |a| - 1 || a[1..][k] < b[1..][k]);
      assert a[..k + 1] == [a[0]] + a[1..][..k] && b[..k + 1] == [b[0]] + b[1..][..k];
    }
  }

  /** The keys of the members at the front of `s`, in the order in which they stand there. */
  function KeysIn(s: text): Option<seq<text>>
    decreases |s|
  {
    if s == [] then None
    else if s[0] == 125 then Some([])
    else if s[0] != 34 then None
    else match ParseString(s[1..])
         case None => None
         case Some((key, colon)) =>
           if colon == [] || colon[0] != 58 then None
           else match ParseValue(colon[1..])
                case None => None
                case Some((_, rest)) =>
                  if rest == [] then None
                  else if rest[0] == 125 then Some([key])
                  else if rest[0] != 44 then None
                  else match KeysIn(rest[1..]) case None => None case Some(keys) => Some([key] + keys)
  }

  lemma KeysStep(m: text, key: text, colon: text, v: Value, c: cp, t: text)
    requires m != [] && m[0] == 34 && ParseString(m[1..]) == Some((key, [58] + colon)) && ParseValue(colon) == Some((v, [c] + t))
    requires c == 125 || c == 44
    ensures KeysIn(m) == if c == 125 then Some([key])
                         else match KeysIn(t) case None => None case Some(keys) => Some([key] + keys)
  {
    assert ([58] + colon)[1..] == colon && ([c] + t)[1..] == t;
  }

  lemma MemberKey(key: text, p: text, v: Value, c: cp, t: text)
    requires ParsesTo(p, v) && AllScalar(key) && (c == 125 || c == 44)
    ensures KeysIn(Quote(key) + [58] + p + ([c] + t)) ==
            if c == 125 then Some([key]) else match KeysIn(t) case None => None case Some(keys) => Some([key] + keys)
  {
    var colon := p + ([c] + t);
    var m := Quote(key) + [58] + p + ([c] + t);
    Regroup(Quote(key), 58, p, [c] + t);
    QuoteOpens(key, colon, m);
    assert ParseValue(p + ([c] + t)) == Some((v, [c] + t));
    KeysStep(m, key, colon, v, c, t);
  }

  lemma {:induction false} KeysOfMembers(
    parts: seq<text>, prints: seq<text>, keys: seq<text>, fields: map<text, Value>, rest: text)
    requires MembersParse(parts, prints, keys, fields) && keys != []
    ensures KeysIn(Join(parts) + ([125] + rest)) == Some(keys)
    decreases |keys|
  {
    var key, close := keys[0], [125] + rest;
    JoinPeels(parts, close);
    assert parts[0] == Quote(key) + [58] + prints[0] && ParsesTo(prints[0], fields[key]) && AllScalar(key);
    if |keys| == 1 {
      MemberKey(key, prints[0], fields[key], 125, rest);
      assert keys == [key];
    } else {
      KeysOfMembers(parts[1..], prints[1..], keys[1..], fields, rest);
      MemberKey(key, prints[0], fields[key], 44, Join(parts[1..]) + close);
      assert [keys[0]] + keys[1..] == keys;
    }
  }

  lemma PrintedMembers(nfc: text -> text, v: Value) returns (keys: seq<text>, prints: seq<text>)
    requires Normal(nfc, v) && v.Obj?
    ensures keys == Sorted(v.fields.Keys) && MembersParse(Members(v, keys), prints, keys, v.fields)
  {
    var fields := v.fields;
    keys := Sorted(fields.Keys);
    prints := seq(|keys|, i requires 0 <= i < |keys| => assert keys[i] in fields; Print(fields[keys[i]]));
    forall i | 0 <= i < |keys| ensures keys[i] in fields && AllScalar(keys[i]) && ParsesTo(prints[i], fields[keys[i]]) {
      assert keys[i] in fields;
      PrintParses(nfc, fields[keys[i]]);
    }
  }

  lemma PrintedObject(v: Value)
    requires v.Obj?
    ensures Print(v) != [] && Print(v)[0] == 123 && Print(v)[1..] == Join(Members(v, Sorted(v.fields.Keys))) + ([125] + [])
  {
    Braced(Join(Members(v, Sorted(v.fields.Keys))));
  }

  lemma Braced(inner: text)
    ensures var s := [123] + inner + [125]; s != [] && s[0] == 123 && s[1..] == inner + ([125] + [])
  {
  }

  /** In the printed text of an object the members stand in strictly ascending order of their keys. */
  lemma PrintedKeysAscend(nfc: text -> text, v: Value)
    requires Normal(nfc, v) && v.Obj?
    ensures Print(v) != [] && Print(v)[0] == 123 && KeysIn(Print(v)[1..]).Some?
    ensures var keys := KeysIn(Print(v)[1..]).value;
            && (forall k :: k in keys <==> k in v.fields)
            && forall i, j :: 0 <= i < j < |keys| ==> Precedes(keys[i], keys[j])
  {
    var keys, prints := PrintedMembers(nfc, v);
    PrintedObject(v);
    if keys == [] {
      assert Join(Members(v, keys)) + ([125] + []) == [125];
    } else {
      KeysOfMembers(Members(v, keys), prints, keys, v.fields, []);
    }
    forall i, j | 0 <= i < j < |keys| ensures Precedes(keys[i], keys[j]) { LessPrecedes(keys[i], keys[j]); }
  }

  // The whole text

  /** The length of a comma-separated list. */
  function Lengths(parts: seq<text>): nat {
    if parts == [] then 0 else |parts[0]| + (if |parts| > 1 then 1 else 0) + Lengths(parts[1..])
  }

  lemma {:induction false} JoinLength(parts: seq<text>)
    ensures |Join(parts)| == Lengths(parts)
  {
    if |parts| > 1 { JoinLength(parts[1..]); }
  }

  lemma {:induction false} DigitsShort(digits: text)
    requires digits != [] && forall i :: 0 <= i < |digits| ==> IsDigit(digits[i])
    ensures |Digits(NumberOf(digits))| <= |digits|
    decreases |digits|
  {
    var k := |digits| - 1;
    assert IsDigit(digits[k]);
    var n := NumberOf(digits[..k]);
    assert NumberOf(digits) == 10 * n + (digits[k] - 48);
    if k > 0 { DigitsShort(digits[..k]); }
  }

  lemma NumberCost(s: text)
    requires ParseNumber(s).Some?
    ensures var (v, rest) := ParseNumber(s).value; v.Int? && |s| >= |Decimal(v.i)| + |rest|
  {
    var negative := s != [] && s[0] == 45;
    var body := if negative then s[1..] else s;
    RunIsDigits(body);
    var run := DigitRun(body);
    var n := if run > 0 && body[0] == 48 then 1 else run;
    DigitsShort(body[..n]);
  }

  ghost function Prints(items: seq<Value>): (r: seq<text>)
    ensures |r| == |items| && forall i :: 0 <= i < |r| ==> r[i] == Print(items[i])
  {
    seq(|items|, i requires 0 <= i < |items| => Print(items[i]))
  }

  lemma ArrayLength(items: seq<Value>)
    ensures |Print(Arr(items))| == 2 + Lengths(Prints(items))
  {
    var parts := seq(|items|, i requires 0 <= i < |items| => Print(items[i]));
    assert parts == Prints(items);
    JoinLength(parts);
  }

  /** The length of some members without their commas. */
  ghost function Weight(fields: map<text, Value>, keys: seq<text>): nat
    requires forall k :: k in keys ==> k in fields
  {
    if keys == [] then 0 else |Quote(keys[0])| + 1 + |Print(fields[keys[0]])| + Weight(fields, keys[1..])
  }

  lemma {:induction false} MembersLength(v: Value, keys: seq<text>)
    requires v.Obj? && forall k :: k in keys ==> k in v.fields
    ensures Lengths(Members(v, keys)) == Weight(v.fields, keys) + if keys == [] then 0 else |keys| - 1
    decreases |keys|
  {
    if keys != [] {
      assert Members(v, keys)[1..] == Members(v, keys[1..]);
      MembersLength(v, keys[1..]);
    }
  }

  lemma {:induction false} WeightSplits(fields: map<text, Value>, a: seq<text>, b: seq<text>)
    requires forall k :: k in a + b ==> k in fields
    ensures forall k :: k in a || k in b ==> k in a + b
    ensures Weight(fields, a + b) == Weight(fields, a) + Weight(fields, b)
    decreases |a|
  {
    if a == [] {
      assert a + b == b;
    } else {
      assert (a + b)[1..] == a[1..] + b;
      WeightSplits(fields, a[1..], b);
    }
  }

  lemma HasFirst(b: seq<text>)
    requires b != []
    ensures exists k :: k in b
  {
    assert b[0] in b;
  }

  /** The order of the keys does not matter for the length. */
  lemma {:induction false} WeightSame(fields: map<text, Value>, a: seq<text>, b: seq<text>)
    requires Distinct(a) && Distinct(b) && (forall k :: k in a <==> k in b) && forall k :: k in a ==> k in fields
    ensures Weight(fields, a) == Weight(fields, b) && |a| == |b|
    decreases |a|
  {
    if a == [] {
      if b != [] { HasFirst(b); }
    } else {
      assert a[0] in b;
      var i :| 0 <= i < |b| && b[i] == a[0];
      var rest := b[..i] + b[i + 1..];
      WithoutOne(a, b, i, rest);
      WeightSame(fields, a[1..], rest);
      WeightWithout(fields, b, i);
    }
  }

  lemma WeightWithout(fields: map<text, Value>, b: seq<text>, i: nat)
    requires i < |b| && forall k :: k in b ==> k in fields
    ensures forall k :: k in [b[i]] || k in b[..i] + b[i + 1..] ==> k in fields
    ensures Weight(fields, b) == Weight(fields, [b[i]]) + Weight(fields, b[..i] + b[i + 1..])
  {
    assert b == b[..i] + ([b[i]] + b[i + 1..]);
    WeightSplits(fields, b[..i], [b[i]] + b[i + 1..]);
    WeightSplits(fields, [b[i]], b[i + 1..]);
    WeightSplits(fields, b[..i], b[i + 1..]);
  }

  lemma WithoutOne(a: seq<text>, b: seq<text>, i: nat, rest: seq<text>)
    requires Distinct(a) && Distinct(b) && (forall k :: k in a <==> k in b) && a != []
    requires i < |b| && b[i] == a[0] && rest == b[..i] + b[i + 1..]
    ensures Distinct(a[1..]) && Distinct(rest) && forall k :: k in a[1..] <==> k in rest
  {
    forall j | 0 <= j < |rest| ensures rest[j] == (if j < i then b[j] else b[j + 1]) { }
    forall k ensures k in a[1..] <==> k in rest {
      if k in a[1..] {
        assert k in a && k in b;
        var j :| 0 <= j < |b| && b[j] == k;
        var x :| 0 <= x < |a| - 1 && a[1..][x] == k;
        assert a[x + 1] == k && k != a[0] && j != i;
        assert rest[if j < i then j else j - 1] == k;
      }
      if k in rest {
        var j :| 0 <= j < |rest| && rest[j] == k;
        assert k in b && k in a && k != b[i];
      }
    }
  }

  lemma ObjectLength(fields: map<text, Value>, keys: seq<text>)
    requires Distinct(keys) && forall k :: k in keys <==> k in fields
    ensures |Print(Obj(fields))| == 2 + Weight(fields, keys) + if keys == [] then 0 else |keys| - 1
  {
    var v, sorted := Obj(fields), Sorted(fields.Keys);
    forall i, j | 0 <= i < j < |sorted| ensures sorted[i] != sorted[j] { LessIrreflexive(sorted[i]); }
    JoinLength(Members(v, sorted));
    MembersLength(v, sorted);
    WeightSame(fields, sorted, keys);
  }

  lemma LeafCost(s: text)
    requires ParseValue(s).Some? && s[0] != 91 && s[0] != 123
    ensures var (v, rest) := ParseValue(s).value; |s| >= |Print(v)| + |rest|
  {
    if s[0] == 34 { TextCost(s); }
    else if StartsWith(s, NULL) || StartsWith(s, TRUE) || StartsWith(s, FALSE) { WordCost(s); }
    else {
      NotNumeral(s);
      NumeralCost(s);
    }
  }

  lemma NumeralCost(s: text)
    requires s != [] && s[0] != 34 && s[0] != 91 && s[0] != 123 && ParseNumber(s).Some?
    requires !StartsWith(s, NULL) && !StartsWith(s, TRUE) && !StartsWith(s, FALSE)
    ensures ParseValue(s) == ParseNumber(s)
    ensures var (v, rest) := ParseNumber(s).value; |s| >= |Print(v)| + |rest|
  {
    NumberCost(s);
    PrintedInt(ParseNumber(s).value.0);
  }

  lemma PrintedInt(v: Value)
    requires v.Int?
    ensures Print(v) == Decimal(v.i)
  {
  }

  lemma NotNumeral(s: text)
    requires s != [] && s[0] != 34 && s[0] != 91 && s[0] != 123
    requires !StartsWith(s, NULL) && !StartsWith(s, TRUE) && !StartsWith(s, FALSE)
    ensures ParseValue(s) == ParseNumber(s)
  {
  }

  lemma TextCost(s: text)
    requires ParseValue(s).Some? && s[0] == 34
    ensures var (v, rest) := ParseValue(s).value; |s| >= |Print(v)| + |rest|
  {
    StringCost(s[1..]);
  }

  lemma WordCost(s: text)
    requires s != [] && s[0] != 34 && s[0] != 91 && s[0] != 123
    requires StartsWith(s, NULL) || StartsWith(s, TRUE) || StartsWith(s, FALSE)
    ensures ParseValue(s).Some? && var (v, rest) := ParseValue(s).value; |s| >= |Print(v)| + |rest|
  {
  }

  /** However a value is written, its text is at least as long as the printed one. */
  lemma {:induction false} ValueCost(s: text)
    requires ParseValue(s).Some?
    ensures var (v, rest) := ParseValue(s).value; |s| >= |Print(v)| + |rest|
    decreases |s|, 1
  {
    if s[0] == 91 {
      var t := SkipSpace(s[1..]);
      if t != [] && t[0] == 93 { ArrayLength([]); } else { ArrayCost(s, t); }
    } else if s[0] == 123 {
      var t := SkipSpace(s[1..]);
      if t != [] && t[0] == 125 { ObjectLength(map[], []); } else { ObjectCost(s, t); }
    } else {
      LeafCost(s);
    }
  }

  lemma {:induction false} ArrayCost(s: text, t: text)
    requires |t| < |s| && ParseItems(t, []).Some?
    ensures var (v, rest) := ParseItems(t, []).value; |s| >= |Print(v)| + |rest|
    decreases |s|, 0
  {
    ItemsCost(t, []);
    var items := ParseItems(t, []).value.0.items;
    assert items[0..] == items;
    ArrayLength(items);
  }

  lemma {:induction false} ItemsCost(s: text, sofar: seq<Value>)
    requires ParseItems(s, sofar).Some?
    ensures var (v, rest) := ParseItems(s, sofar).value;
            v.Arr? && |sofar| < |v.items| && v.items[..|sofar|] == sofar
            && |s| >= Lengths(Prints(v.items[|sofar|..])) + 1 + |rest|
    decreases |s|, 2
  {
    var (v, rest) := ParseValue(s).value;
    ValueCost(s);
    var t := SkipSpace(rest);
    if t[0] == 93 {
      LastItem(sofar, v);
    } else {
      var u := SkipSpace(t[1..]);
      ItemsCost(u, sofar + [v]);
      assert ParseItems(s, sofar) == ParseItems(u, sofar + [v]);
      MoreItems(sofar, v, ParseItems(u, sofar + [v]).value.0.items);
    }
  }

  lemma LastItem(sofar: seq<Value>, v: Value)
    ensures (sofar + [v])[..|sofar|] == sofar && Lengths(Prints((sofar + [v])[|sofar|..])) == |Print(v)|
  {
    assert (sofar + [v])[|sofar|..] == [v];
    assert Prints([v])[1..] == [];
  }

  lemma MoreItems(sofar: seq<Value>, v: Value, items: seq<Value>)
    requires |sofar| + 1 < |items| && items[..|sofar| + 1] == sofar + [v]
    ensures items[..|sofar|] == sofar
    ensures Lengths(Prints(items[|sofar|..])) == |Print(v)| + 1 + Lengths(Prints(items[|sofar| + 1..]))
  {
    assert items[..|sofar|] == items[..|sofar| + 1][..|sofar|];
    assert items[|sofar|] == items[..|sofar| + 1][|sofar|];
    OneMoreLength(items, |sofar|);
  }

  lemma OneMoreLength(items: seq<Value>, n: nat)
    requires n + 1 < |items|
    ensures Lengths(Prints(items[n..])) == |Print(items[n])| + 1 + Lengths(Prints(items[n + 1..]))
  {
    assert Prints(items[n..])[1..] == Prints(items[n + 1..]);
  }

  lemma {:induction false} ObjectCost(s: text, t: text)
    requires |t| < |s| && ParseMembers(t, map[]).Some?
    ensures var (v, rest) := ParseMembers(t, map[]).value; |s| >= |Print(v)| + |rest|
    decreases |s|, 0
  {
    var keys := MembersCost(t, map[]);
    ObjectLength(ParseMembers(t, map[]).value.0.fields, keys);
  }

  /** `keys` are the keys that the members in `s` add to `sofar`. */
  ghost predicate Adds(sofar: map<text, Value>, fields: map<text, Value>, keys: seq<text>) {
    && Distinct(keys) && (forall k :: k in keys ==> k !in sofar) && (forall k :: k in fields <==> k in sofar || k in keys)
    && forall k :: k in sofar ==> k in fields && fields[k] == sofar[k]
  }

  lemma AddsFirst(sofar: map<text, Value>, fields: map<text, Value>, key: text, v: Value, rest: seq<text>)
    requires key !in sofar && Adds(sofar[key := v], fields, rest)
    ensures Adds(sofar, fields, [key] + rest) && fields[key] == v
    ensures Weight(fields, [key] + rest) == |Quote(key)| + 1 + |Print(v)| + Weight(fields, rest)
  {
    assert ([key] + rest)[1..] == rest;
    assert key in sofar[key := v];
  }

  lemma {:induction false} MembersCost(s: text, sofar: map<text, Value>) returns (keys: seq<text>)
    requires ParseMembers(s, sofar).Some?
    ensures ParseMembers(s, sofar).value.0.Obj? && keys != []
    ensures var (v, rest) := ParseMembers(s, sofar).value;
            Adds(sofar, v.fields, keys) && |s| >= Weight(v.fields, keys) + |keys| + |rest|
    decreases |s|, 2
  {
    var (key, colon) := ParseString(s[1..]).value;
    StringCost(s[1..]);
    var t := SkipSpace(colon);
    var (v, rest) := ParseValue(SkipSpace(t[1..])).value;
    ValueCost(SkipSpace(t[1..]));
    var u := SkipSpace(rest);
    var next := sofar[key := v];
    if u[0] == 125 {
      AddsFirst(sofar, next, key, v, []);
      keys := [key];
      assert [key] + [] == [key];
    } else {
      var more := MembersCost(SkipSpace(u[1..]), next);
      AddsFirst(sofar, ParseMembers(s, sofar).value.0.fields, key, v, more);
      keys := [key] + more;
    }
  }

  /** No JSON text of a value is shorter than its printed text: no blanks, no longer numbers or strings. */
  lemma PrintIsShortest(p: text, v: Value)
    requires Loads(p) == Some(v)
    ensures |p| >= |Print(v)|
  {
    ValueCost(SkipSpace(p));
  }

  /** The words JSON has for the constants. */
  lemma PrintedWords()
    ensures Print(Null) == Txt("null") && Print(Bool(true)) == Txt("true") && Print(Bool(false)) == Txt("false")
    ensures Print(Arr([])) == Txt("[]") && Print(Obj(map[])) == Txt("{}")
  {
    assert Join(Members(Obj(map[]), Sorted({}))) == [];
  }
}
