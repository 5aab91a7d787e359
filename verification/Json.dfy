/** JSON values, NFC normalisation and the canonical printer. */
module Json {
  import opened Results
  import opened Bytes
  import opened Text
  import opened Utf8

  /** A Python value handed to the encoder. `Foreign` stands for everything it refuses by type,
      such as bytes or a mapping with a key that is not a string. Equality of `Obj` values is
      equality of Python dicts: insertion order does not matter. */
  datatype Value =
    | Null | Bool(b: bool) | Int(i: int) | Float | Str(s: text)
    | Arr(items: seq<Value>) | Obj(fields: map<text, Value>)
    | Foreign

  datatype JsonError =
    | IntegerRange | FloatForbidden | InvalidUtf8 | DuplicateKey | Unsupported
    | NotJson | NotCanonical

  const INT_MIN: int := -0x8000_0000_0000_0000
  const INT_MAX: int := 0x7FFF_FFFF_FFFF_FFFF

  /** Unicode NFC as far as it matters here: normalising twice changes nothing. */
  ghost predicate NfcLaw(nfc: text -> text) {
    forall t: text {:trigger nfc(t)} :: nfc(nfc(t)) == nfc(t)
  }

  ghost predicate KeysCollide(nfc: text -> text, fields: map<text, Value>) {
    exists j, k :: j in fields && k in fields && j != k && nfc(j) == nfc(k)
  }

  ghost function Normalize(nfc: text -> text, v: Value): Result<Value, JsonError>
    decreases v, 1
  {
    match v
    case Null => Ok(v)
    case Bool(_) => Ok(v)
    case Int(i) => if INT_MIN <= i <= INT_MAX then Ok(v) else Err(IntegerRange)
    case Float => Err(FloatForbidden)
    case Str(s) => if AllScalar(nfc(s)) then Ok(Str(nfc(s))) else Err(InvalidUtf8)
    case Arr(items) =>
      if exists i :: 0 <= i < |items| && Normalize(nfc, items[i]).Err? then
        var i :| 0 <= i < |items| && Normalize(nfc, items[i]).Err?; Err(Normalize(nfc, items[i]).error)
      else Ok(Arr(seq(|items|, i requires 0 <= i < |items| => Normalize(nfc, items[i]).value)))
    case Obj(fields) =>
      if exists k :: k in fields && !AllScalar(nfc(k)) then Err(InvalidUtf8)
      else if KeysCollide(nfc, fields) then Err(DuplicateKey)
      else if exists k :: k in fields && Normalize(nfc, fields[k]).Err? then
        var k :| k in fields && Normalize(nfc, fields[k]).Err?; Err(Normalize(nfc, fields[k]).error)
      else Ok(Obj(NormalFields(nfc, v)))
    case Foreign => Err(Unsupported)
  }

  /** The normalised members of an object whose members all normalise and do not collide. */
  ghost function NormalFields(nfc: text -> text, v: Value): (r: map<text, Value>)
    requires v.Obj? && !KeysCollide(nfc, v.fields)
    requires forall k :: k in v.fields ==> Normalize(nfc, v.fields[k]).Ok?
    ensures forall k :: k in v.fields ==> nfc(k) in r && r[nfc(k)] == Normalize(nfc, v.fields[k]).value
    ensures forall j :: j in r ==> exists k :: k in v.fields && j == nfc(k)
    decreases v, 0
  {
    map k | k in v.fields :: nfc(k) := Normalize(nfc, v.fields[k]).value
  }

  /** The values the encoder leaves as they are. */
  ghost predicate Normal(nfc: text -> text, v: Value) {
    match v
    case Int(i) => INT_MIN <= i <= INT_MAX
    case Str(s) => nfc(s) == s && AllScalar(s)
    case Arr(items) => forall i :: 0 <= i < |items| ==> Normal(nfc, items[i])
    case Obj(fields) => forall k :: k in fields ==> nfc(k) == k && AllScalar(k) && Normal(nfc, fields[k])
    case Float => false
    case Foreign => false
    case _ => true
  }

  lemma {:induction false} NormalizeIsNormal(nfc: text -> text, v: Value)
    requires NfcLaw(nfc) && Normalize(nfc, v).Ok?
    ensures Normal(nfc, Normalize(nfc, v).value)
  {
    match v
    case Arr(items) =>
      forall i | 0 <= i < |items| ensures Normal(nfc, Normalize(nfc, items[i]).value) {
        NormalizeIsNormal(nfc, items[i]);
      }
    case Obj(fields) =>
      var r := NormalFields(nfc, v);
      forall j | j in r ensures nfc(j) == j && AllScalar(j) && Normal(nfc, r[j]) {
        var k :| k in fields && j == nfc(k);
        NormalizeIsNormal(nfc, fields[k]);
      }
    case _ =>
  }

  lemma {:induction false} NormalIsFixed(nfc: text -> text, v: Value)
    requires Normal(nfc, v)
    ensures Normalize(nfc, v) == Ok(v)
  {
    match v
    case Arr(items) =>
      forall i | 0 <= i < |items| ensures Normalize(nfc, items[i]) == Ok(items[i]) {
        NormalIsFixed(nfc, items[i]);
      }
      assert Normalize(nfc, v).value.items == items;
    case Obj(fields) =>
      forall k | k in fields ensures nfc(k) == k && Normalize(nfc, fields[k]) == Ok(fields[k]) {
        NormalIsFixed(nfc, fields[k]);
      }
      assert !KeysCollide(nfc, fields);
      assert NormalFields(nfc, v) == fields;
    case _ =>
  }

  const NULL: text := [110, 117, 108, 108]
  const TRUE: text := [116, 114, 117, 101]
  const FALSE: text := [102, 97, 108, 115, 101]

  function Hex(n: int): cp
  {
    if n < 10 then 48 + n else 87 + n
  }

  /** One character inside a string literal: two-character escapes where JSON has them, `\u00xx`
      for the other control characters, everything else as it is. */
  function Escape(c: cp): text {
    if c == 34 then [92, 34]
    else if c == 92 then [92, 92]
    else if c == 8 then [92, 98]
    else if c == 9 then [92, 116]
    else if c == 10 then [92, 110]
    else if c == 12 then [92, 102]
    else if c == 13 then [92, 114]
    else if c < 32 then [92, 117, 48, 48, Hex(c / 16), Hex(c % 16)]
    else [c]
  }

  function EscapeAll(t: text): text {
    if t == [] then [] else Escape(t[0]) + EscapeAll(t[1..])
  }

  function Quote(t: text): text { [34] + EscapeAll(t) + [34] }

  function Digits(n: nat): text {
    if n < 10 then [48 + n] else Digits(n / 10) + [48 + n % 10]
  }

  function Decimal(i: int): text {
    if i < 0 then [45] + Digits(-i) else Digits(i)
  }

  /** Parts separated by commas. */
  function Join(parts: seq<text>): text {
    if parts == [] then []
    else if |parts| == 1 then parts[0]
    else parts[0] + [44] + Join(parts[1..])
  }

  /** `json.dumps` with sorted keys, compact separators and no ASCII escaping. */
  ghost function Print(v: Value): text
    decreases v, 1
  {
    match v
    case Null => NULL
    case Bool(b) => if b then TRUE else FALSE
    case Int(i) => Decimal(i)
    case Str(s) => Quote(s)
    case Arr(items) => [91] + Join(seq(|items|, i requires 0 <= i < |items| => Print(items[i]))) + [93]
    case Obj(fields) => [123] + Join(Members(v, Sorted(fields.Keys))) + [125]
    case _ => []
  }

  ghost function Members(v: Value, keys: seq<text>): (r: seq<text>)
    requires v.Obj? && forall k :: k in keys ==> k in v.fields
    ensures |r| == |keys|
    ensures forall i :: 0 <= i < |keys| ==> r[i] == Quote(keys[i]) + [58] + Print(v.fields[keys[i]])
    decreases v, 0
  {
    seq(|keys|, i requires 0 <= i < |keys| => Quote(keys[i]) + [58] + Print(v.fields[keys[i]]))
  }

  lemma {:induction false} JoinScalar(parts: seq<text>)
    requires forall i :: 0 <= i < |parts| ==> AllScalar(parts[i])
    ensures AllScalar(Join(parts))
  {
    if |parts| > 1 { JoinScalar(parts[1..]); }
  }

  lemma LeafScalar(nfc: text -> text, v: Value)
    requires Normal(nfc, v) && !v.Arr? && !v.Obj?
    ensures AllScalar(Print(v))
  {
    match v
    case Int(i) => DecimalScalar(i);
    case Str(s) => EscapeScalar(s);
    case _ =>
  }

  lemma MemberScalar(key: text, p: text)
    requires AllScalar(key) && AllScalar(p)
    ensures AllScalar(Quote(key) + [58] + p)
  {
    EscapeScalar(key);
  }

  lemma BracketScalar(open: cp, parts: seq<text>, close: cp)
    requires IsScalar(open) && IsScalar(close) && forall i :: 0 <= i < |parts| ==> AllScalar(parts[i])
    ensures AllScalar([open] + Join(parts) + [close])
  {
    JoinScalar(parts);
  }

  lemma {:induction false} PrintScalar(nfc: text -> text, v: Value)
    requires Normal(nfc, v)
    ensures AllScalar(Print(v))
  {
    match v
    case Arr(items) =>
      var parts := seq(|items|, i requires 0 <= i < |items| => Print(items[i]));
      forall i | 0 <= i < |items| ensures AllScalar(parts[i]) { PrintScalar(nfc, items[i]); }
      BracketScalar(91, parts, 93);
    case Obj(fields) =>
      var keys := Sorted(fields.Keys);
      var parts := Members(v, keys);
      forall i | 0 <= i < |keys| ensures AllScalar(parts[i]) {
        assert keys[i] in fields;
        PrintScalar(nfc, fields[keys[i]]);
        MemberScalar(keys[i], Print(fields[keys[i]]));
      }
      BracketScalar(123, parts, 125);
    case _ => LeafScalar(nfc, v);
  }

  lemma {:induction false} EscapeScalar(t: text)
    requires AllScalar(t)
    ensures AllScalar(EscapeAll(t)) && AllScalar(Quote(t))
  {
    if t != [] { EscapeScalar(t[1..]); }
  }

  lemma {:induction false} DecimalScalar(i: int)
    ensures AllScalar(Decimal(i))
    decreases if i < 0 then 1 - i else i
  {
    if i < 0 { DigitsAre(-i); } else { DigitsAre(i); }
  }

  /** A decimal numeral: digits only, no leading zero, at most 19 of them up to 10^19. */
  lemma {:induction false} DigitsAre(n: nat)
    ensures Digits(n) != [] && (forall i :: 0 <= i < |Digits(n)| ==> IsDigit(Digits(n)[i]))
    ensures Digits(n)[0] == 48 ==> n == 0
  {
    if n >= 10 { DigitsAre(n / 10); }
  }

  function Pow10(k: nat): nat {
    if k == 0 then 1 else 10 * Pow10(k - 1)
  }

  lemma {:induction false} DigitsLength(n: nat, k: nat)
    requires n < Pow10(k) && k > 0
    ensures |Digits(n)| <= k
  {
    if n >= 10 {
      assert n / 10 < Pow10(k - 1);
      DigitsLength(n / 10, k - 1);
    }
  }

  /** Encode strict, NFC-normalised canonical JSON. */
  ghost function CanonicalBytes(nfc: text -> text, v: Value): Result<bytes, JsonError>
    requires NfcLaw(nfc)
  {
    match Normalize(nfc, v)
    case Err(e) => Err(e)
    case Ok(n) =>
      NormalizeIsNormal(nfc, v);
      PrintScalar(nfc, n);
      Ok(Encode(Print(n)))
  }
}
