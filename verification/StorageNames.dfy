/** Storage identifiers as names in the local file system. */
module StorageNames {
  import opened Results
  import opened Bytes
  import opened Text
  import opened Utf8
  import opened Json

  const MAX_IDENTIFIER: nat := 15
  const ESCAPE_PREFIX: text := Txt("__ppbase_storage_id_v1__")

  /** White space for `strip`, and the Unicode categories Cc and Cs. */
  datatype Chars = Chars(isSpace: cp -> bool, isControl: cp -> bool)

  /** Surrogates are category Cs. */
  ghost predicate CharsLaw(chars: Chars) {
    forall c: cp {:trigger chars.isControl(c)} :: 0xD800 <= c < 0xE000 ==> chars.isControl(c)
  }

  /** What `_validate_single_component` accepts for identifiers. */
  predicate ComponentOk(chars: Chars, value: text) {
    && value != [] && !chars.isSpace(value[0]) && !chars.isSpace(value[|value| - 1])
    && value != [46] && value != [46, 46]
    && (forall i :: 0 <= i < |value| ==> value[i] != 47 && value[i] != 92 && !chars.isControl(value[i]))
    && |value| <= MAX_IDENTIFIER
  }

  predicate PlainChar(c: cp) { c == 95 || 97 <= c <= 122 || IsDigit(c) }
  predicate Plain(t: text) { forall i :: 0 <= i < |t| ==> PlainChar(t[i]) }

  function HexText(b: bytes): text {
    if b == [] then [] else [Hex(b[0] / 16), Hex(b[0] % 16)] + HexText(b[1..])
  }

  function LocalStorageIdName(chars: Chars, value: text): (r: Option<text>)
    requires CharsLaw(chars) && CodePoints(value)
    ensures r.Some? <==> ComponentOk(chars, value)
  {
    if !ComponentOk(chars, value) then None
    else if Plain(value) then Some(value)
    else
      assert AllScalar(value) by { ComponentScalar(chars, value); }
      Some(ESCAPE_PREFIX + HexText(Encode(value)))
  }

  lemma ComponentScalar(chars: Chars, value: text)
    requires CharsLaw(chars) && CodePoints(value) && ComponentOk(chars, value)
    ensures AllScalar(value)
  {
    forall i | 0 <= i < |value| ensures IsScalar(value[i]) { assert !chars.isControl(value[i]); }
  }

  lemma {:induction false} HexIsPlain(b: bytes)
    ensures Plain(HexText(b)) && |HexText(b)| == 2 * |b|
  {
    if b != [] { HexIsPlain(b[1..]); }
  }

  lemma {:induction false} HexInjective(a: bytes, b: bytes)
    requires HexText(a) == HexText(b)
    ensures a == b
  {
    HexIsPlain(a);
    HexIsPlain(b);
    if a != [] {
      var x, y := HexText(a), HexText(b);
      assert x[0] == Hex(a[0] / 16) && x[1] == Hex(a[0] % 16) && y[0] == Hex(b[0] / 16) && y[1] == Hex(b[0] % 16);
      assert x[2..] == HexText(a[1..]) && y[2..] == HexText(b[1..]);
      HexInjective(a[1..], b[1..]);
    }
  }

  lemma PrefixIsPlain()
    ensures Plain(ESCAPE_PREFIX) && |ESCAPE_PREFIX| == 24
  {
  }

  /** Every name is made of characters that no file system folds or forbids. */
  lemma NamesArePlain(chars: Chars, value: text)
    requires CharsLaw(chars) && CodePoints(value) && ComponentOk(chars, value)
    ensures Plain(LocalStorageIdName(chars, value).value) && LocalStorageIdName(chars, value).value != []
  {
    ComponentScalar(chars, value);
    PrefixIsPlain();
    HexIsPlain(Encode(value));
  }

  /** Case folding leaves lower-case ASCII letters, digits and underscores alone. */
  ghost predicate FoldLaw(fold: text -> text) {
    forall t: text {:trigger fold(t)} :: Plain(t) ==> fold(t) == t
  }

  /** Distinct identifiers have names that stay distinct after case folding. */
  lemma NamesStayDistinct(chars: Chars, fold: text -> text, a: text, b: text)
    requires CharsLaw(chars) && FoldLaw(fold) && CodePoints(a) && CodePoints(b) && a != b
    requires ComponentOk(chars, a) && ComponentOk(chars, b)
    ensures fold(LocalStorageIdName(chars, a).value) != fold(LocalStorageIdName(chars, b).value)
  {
    NamesArePlain(chars, a);
    NamesArePlain(chars, b);
    var x, y := LocalStorageIdName(chars, a).value, LocalStorageIdName(chars, b).value;
    assert fold(x) == x && fold(y) == y;
    PrefixIsPlain();
    ComponentScalar(chars, a);
    ComponentScalar(chars, b);
    if x == y && !Plain(a) && !Plain(b) {
      assert x[24..] == HexText(Encode(a)) && y[24..] == HexText(Encode(b));
      HexInjective(Encode(a), Encode(b));
      EncodeInjective(a, b);
    }
  }

  // What the name is

  /** Each byte in order as two hexadecimal digits, the high half first. */
  ghost predicate SpellsBytes(h: text, b: bytes) {
    && |h| == 2 * |b|
    && forall i :: 0 <= i < |b| ==> h[2 * i] == Digit16(b[i] / 16) && h[2 * i + 1] == Digit16(b[i] % 16)
  }

  function Digit16(n: int): cp
    requires 0 <= n < 16
  {
    "0123456789abcdef"[n] as int
  }

  lemma {:induction false} HexSpells(b: bytes)
    ensures SpellsBytes(HexText(b), b)
  {
    if b != [] {
      HexSpells(b[1..]);
      var h, rest := HexText(b), HexText(b[1..]);
      assert h[0] == Digit16(b[0] / 16) && h[1] == Digit16(b[0] % 16) && h[2..] == rest;
      forall i | 0 <= i < |b| ensures h[2 * i] == Digit16(b[i] / 16) && h[2 * i + 1] == Digit16(b[i] % 16) {
        if i > 0 {
          assert h[2 * i] == rest[2 * (i - 1)] && h[2 * i + 1] == rest[2 * (i - 1) + 1];
          assert b[i] == b[1..][i - 1];
        }
      }
    }
  }

  lemma SpellingUnique(h: text, k: text, b: bytes)
    requires SpellsBytes(h, b) && SpellsBytes(k, b)
    ensures h == k
  {
    forall j | 0 <= j < |h| ensures h[j] == k[j] {
      assert h[2 * (j / 2)] == k[2 * (j / 2)] && h[2 * (j / 2) + 1] == k[2 * (j / 2) + 1];
    }
  }

  ghost predicate AllSpaces(chars: Chars, t: text) { forall i :: 0 <= i < |t| ==> chars.isSpace(t[i]) }

  /** Stripping white space from both ends changes nothing. */
  ghost predicate Stripped(chars: Chars, t: text) {
    forall a, b, c :: t == a + b + c && AllSpaces(chars, a) && AllSpaces(chars, c) ==> a == [] && c == []
  }

  /** A path component of at most fifteen characters without separators and control characters. */
  ghost predicate PathComponent(chars: Chars, t: text) {
    && 1 <= |t| <= 15 && Stripped(chars, t) && t != Txt(".") && t != Txt("..")
    && '/' as int !in t && '\\' as int !in t && forall c :: c in t ==> !chars.isControl(c)
  }

  lemma StrippedIs(chars: Chars, t: text)
    requires t != []
    ensures !chars.isSpace(t[0]) && !chars.isSpace(t[|t| - 1]) <==> Stripped(chars, t)
  {
    if chars.isSpace(t[0]) || chars.isSpace(t[|t| - 1]) { SpaceAtEnd(chars, t); }
    if !Stripped(chars, t) {
      var a, b, c :| t == a + b + c && AllSpaces(chars, a) && AllSpaces(chars, c) && !(a == [] && c == []);
      if a != [] { assert chars.isSpace(a[0]) && a[0] == t[0]; }
      else { assert chars.isSpace(c[|c| - 1]) && c[|c| - 1] == t[|t| - 1]; }
    }
  }

  lemma SpaceAtEnd(chars: Chars, t: text)
    requires t != [] && (chars.isSpace(t[0]) || chars.isSpace(t[|t| - 1]))
    ensures !Stripped(chars, t)
  {
    assert AllSpaces(chars, []);
    if chars.isSpace(t[0]) {
      assert AllSpaces(chars, [t[0]]) && t == [t[0]] + t[1..] + [];
    } else {
      assert AllSpaces(chars, [t[|t| - 1]]) && t == [] + t[..|t| - 1] + [t[|t| - 1]];
    }
  }

  lemma ComponentIs(chars: Chars, t: text)
    ensures ComponentOk(chars, t) <==> PathComponent(chars, t)
  {
    if t != [] { StrippedIs(chars, t); }
    DotsAre();
    CharactersAre(chars, t);
  }

  lemma DotsAre()
    ensures Txt(".") == [46] && Txt("..") == [46, 46]
  {
  }

  lemma CharactersAre(chars: Chars, t: text)
    ensures (forall i :: 0 <= i < |t| ==> t[i] != 47 && t[i] != 92 && !chars.isControl(t[i])) <==>
            47 !in t && 92 !in t && forall c :: c in t ==> !chars.isControl(c)
  {
    forall i | 0 <= i < |t| ensures t[i] in t {}
  }

  predicate PocketBaseId(t: text) {
    forall c :: c in t ==> c == '_' as int || 'a' as int <= c <= 'z' as int || '0' as int <= c <= '9' as int
  }

  /** A name exists exactly for a path component. An identifier of lower-case letters, digits and
      underscores is its own name; any other is the escape prefix and its UTF-8 bytes in hexadecimal. */
  lemma NameMeans(chars: Chars, value: text, name: text)
    requires CharsLaw(chars) && CodePoints(value)
    ensures LocalStorageIdName(chars, value) == Some(name) <==>
            PathComponent(chars, value) && if PocketBaseId(value) then name == value else Escapes(value, name)
  {
    ComponentIs(chars, value);
    assert PocketBaseId(value) <==> Plain(value) by {
      assert forall i :: 0 <= i < |value| ==> value[i] in value;
    }
    if ComponentOk(chars, value) && !Plain(value) {
      ComponentScalar(chars, value);
      HexSpells(Encode(value));
      var full := ESCAPE_PREFIX + HexText(Encode(value));
      assert full[|ESCAPE_PREFIX|..] == HexText(Encode(value));
      assert Escapes(value, full);
      if Escapes(value, name) {
        SpellingUnique(name[|ESCAPE_PREFIX|..], HexText(Encode(value)), Encode(value));
        assert name == ESCAPE_PREFIX + name[|ESCAPE_PREFIX|..];
      }
    }
  }

  ghost predicate Escapes(value: text, name: text) {
    && AllScalar(value) && Txt("__ppbase_storage_id_v1__") <= name
    && SpellsBytes(name[|Txt("__ppbase_storage_id_v1__")|..], Encode(value))
  }
}
