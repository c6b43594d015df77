/**
 * JSON texts as syntax trees, printed as sections 2 to 7 of RFC 8259 prescribe, with insignificant
 * whitespace wherever the grammar allows it. The brace scanner finds the end of every printed object.
 */
module JsonGrammar {
  import opened Bytes
  import opened JsonScanner

  const OPEN_BRACKET: byte := 0x5b
  const CLOSE_BRACKET: byte := 0x5d
  const COLON: byte := 0x3a
  const COMMA: byte := 0x2c

  /** One `char` of section 7: an unescaped byte, `\` and a letter, or `\u` and four hex digits. */
  datatype Char =
    | Unescaped(b: byte)
    | Escape(letter: byte)
    | Unicode(h1: byte, h2: byte, h3: byte, h4: byte)

  /** Every scalar but a string is kept as the text it is printed with. */
  datatype Value =
    | Scalar(text: Bytes)
    | String(chars: seq<Char>)
    | Array(pad: Bytes, items: Items)
    | Object(pad: Bytes, members: Members)

  datatype Items = NoItems | Item(before: Bytes, value: Value, after: Bytes, rest: Items)

  datatype Members =
    | NoMembers
    | Member(before: Bytes, key: seq<Char>, beforeColon: Bytes, afterColon: Bytes,
             value: Value, after: Bytes, rest: Members)

  // ---------------------------------------------------------------- printing

  function PrintChar(c: Char): Bytes {
    match c
    case Unescaped(b) => [b]
    case Escape(letter) => [BACKSLASH, letter]
    case Unicode(h1, h2, h3, h4) => [BACKSLASH, 0x75, h1, h2, h3, h4]
  }

  function PrintChars(chars: seq<Char>): Bytes {
    if chars == [] then [] else PrintChar(chars[0]) + PrintChars(chars[1..])
  }

  function PrintString(chars: seq<Char>): Bytes {
    [QUOTE] + PrintChars(chars) + [QUOTE]
  }

  function Print(v: Value): Bytes
    decreases v
  {
    match v
    case Scalar(text) => text
    case String(chars) => PrintString(chars)
    case Array(pad, items) => [OPEN_BRACKET] + (pad + PrintItems(items)) + [CLOSE_BRACKET]
    case Object(pad, members) => [OPEN_BRACE] + (pad + PrintMembers(members)) + [CLOSE_BRACE]
  }

  function PrintItems(items: Items): Bytes
    decreases items
  {
    match items
    case NoItems => []
    case Item(before, value, after, rest) =>
      before + Print(value) + (after + (if rest.NoItems? then [] else [COMMA])) + PrintItems(rest)
  }

  function PrintMembers(members: Members): Bytes
    decreases members
  {
    match members
    case NoMembers => []
    case Member(before, key, beforeColon, afterColon, value, after, rest) =>
      before + PrintString(key) + (beforeColon + [COLON] + afterColon) + Print(value)
      + (after + (if rest.NoMembers? then [] else [COMMA])) + PrintMembers(rest)
  }

  // ---------------------------------------------------------------- well-formed trees

  predicate Whitespace(text: Bytes) {
    forall i | 0 <= i < |text| :: text[i] in {0x20, 0x09, 0x0a, 0x0d}
  }

  predicate HexDigit(b: byte) {
    0x30 <= b <= 0x39 || 0x41 <= b <= 0x46 || 0x61 <= b <= 0x66
  }

  /** Unescaped bytes include every byte of a multi-byte UTF-8 character. */
  predicate ValidChar(c: Char) {
    match c
    case Unescaped(b) => b >= 0x20 && b != QUOTE && b != BACKSLASH
    case Escape(letter) => letter in {QUOTE, BACKSLASH, 0x2f, 0x62, 0x66, 0x6e, 0x72, 0x74}
    case Unicode(h1, h2, h3, h4) => HexDigit(h1) && HexDigit(h2) && HexDigit(h3) && HexDigit(h4)
  }

  predicate ValidChars(chars: seq<Char>) {
    forall i | 0 <= i < |chars| :: ValidChar(chars[i])
  }

  /** Letters of `null`, `true` and `false`, and the alphabet of section 6: a superset of both. */
  predicate ScalarText(text: Bytes) {
    text != [] &&
    forall i | 0 <= i < |text| ::
      0x61 <= text[i] <= 0x7a || 0x30 <= text[i] <= 0x39 || text[i] in {0x2b, 0x2d, 0x2e, 0x45}
  }

  predicate ValidValue(v: Value) {
    match v
    case Scalar(text) => ScalarText(text)
    case String(chars) => ValidChars(chars)
    case Array(pad, items) => Whitespace(pad) && ValidItems(items)
    case Object(pad, members) => Whitespace(pad) && ValidMembers(members)
  }

  predicate ValidItems(items: Items) {
    match items
    case NoItems => true
    case Item(before, value, after, rest) =>
      Whitespace(before) && ValidValue(value) && Whitespace(after) && ValidItems(rest)
  }

  predicate ValidMembers(members: Members) {
    match members
    case NoMembers => true
    case Member(before, key, beforeColon, afterColon, value, after, rest) =>
      Whitespace(before) && ValidChars(key) && Whitespace(beforeColon) && Whitespace(afterColon) &&
      ValidValue(value) && Whitespace(after) && ValidMembers(rest)
  }

  // ---------------------------------------------------------------- the scan of a printed tree

  function Outside(depth: int): Scan { Open(depth, false, false) }
  function Inside(depth: int): Scan { Open(depth, true, false) }

  /** Bytes that mean nothing to the scanner outside a string. */
  predicate Inert(text: Bytes) {
    forall i | 0 <= i < |text| :: text[i] != QUOTE && text[i] != OPEN_BRACE && text[i] != CLOSE_BRACE
  }

  /** The scan is at the same place before and after `text`. */
  predicate Neutral(depth: int, text: Bytes) {
    Fold(Outside(depth), text) == Outside(depth)
  }

  lemma {:induction false} InertIsNeutral(depth: int, text: Bytes)
    requires Inert(text)
    ensures Neutral(depth, text)
  {
    if text != [] {
      InertIsNeutral(depth, text[1..]);
    }
  }

  lemma NeutralAppend(depth: int, a: Bytes, b: Bytes)
    requires Neutral(depth, a) && Neutral(depth, b)
    ensures Neutral(depth, a + b)
  {
    FoldAppend(Outside(depth), a, b);
  }

  lemma FoldOne(s: Scan, b: byte)
    ensures Fold(s, [b]) == ScanByte(s, b)
  {
    assert [b][1..] == [];
    assert Fold(s, [b]) == Fold(ScanByte(s, b), [b][1..]);
  }

  /** No character of a string literal ends the literal, braces and escapes included. */
  lemma CharStaysInside(depth: int, c: Char)
    requires ValidChar(c)
    ensures Fold(Inside(depth), PrintChar(c)) == Inside(depth)
  {
    match c
    case Unescaped(b) => FoldOne(Inside(depth), b);
    case Escape(letter) =>
      FoldAppend(Inside(depth), [BACKSLASH], [letter]);
      FoldOne(Inside(depth), BACKSLASH);
      FoldOne(Open(depth, true, true), letter);
    case Unicode(h1, h2, h3, h4) =>
      var s := Inside(depth);
      FoldAppend(s, [BACKSLASH, 0x75], [h1, h2, h3, h4]);
      FoldAppend(s, [BACKSLASH], [0x75]);
      FoldOne(s, BACKSLASH);
      FoldOne(Open(depth, true, true), 0x75);
      HexStaysInside(depth, [h1, h2, h3, h4]);
  }

  lemma {:induction false} HexStaysInside(depth: int, digits: Bytes)
    requires forall i | 0 <= i < |digits| :: HexDigit(digits[i])
    ensures Fold(Inside(depth), digits) == Inside(depth)
  {
    if digits != [] {
      HexStaysInside(depth, digits[1..]);
    }
  }

  lemma {:induction false} CharsStayInside(depth: int, chars: seq<Char>)
    requires ValidChars(chars)
    ensures Fold(Inside(depth), PrintChars(chars)) == Inside(depth)
  {
    if chars != [] {
      CharStaysInside(depth, chars[0]);
      CharsStayInside(depth, chars[1..]);
      FoldAppend(Inside(depth), PrintChar(chars[0]), PrintChars(chars[1..]));
    }
  }

  lemma StringIsNeutral(depth: int, chars: seq<Char>)
    requires ValidChars(chars)
    ensures Neutral(depth, PrintString(chars))
  {
    var text := PrintChars(chars);
    FoldAppend(Outside(depth), [QUOTE] + text, [QUOTE]);
    FoldAppend(Outside(depth), [QUOTE], text);
    FoldOne(Outside(depth), QUOTE);
    CharsStayInside(depth, chars);
    FoldOne(Inside(depth), QUOTE);
  }

  /** Inside at least one brace, a printed value of any nesting leaves the scan where it was. */
  lemma {:induction false} ValueIsNeutral(depth: int, v: Value)
    requires depth >= 1 && ValidValue(v)
    ensures Neutral(depth, Print(v))
    decreases v
  {
    match v
    case Scalar(text) => InertIsNeutral(depth, text);
    case String(chars) => StringIsNeutral(depth, chars);
    case Array(pad, items) =>
      InertIsNeutral(depth, pad);
      ItemsAreNeutral(depth, items);
      NeutralAppend(depth, pad, PrintItems(items));
      InertIsNeutral(depth, [OPEN_BRACKET]);
      InertIsNeutral(depth, [CLOSE_BRACKET]);
      NeutralAppend(depth, [OPEN_BRACKET], pad + PrintItems(items));
      NeutralAppend(depth, [OPEN_BRACKET] + (pad + PrintItems(items)), [CLOSE_BRACKET]);
    case Object(pad, members) =>
      ObjectBody(depth, pad, members);
      FoldAppend(Outside(depth), [OPEN_BRACE] + (pad + PrintMembers(members)), [CLOSE_BRACE]);
      FoldOne(Outside(depth + 1), CLOSE_BRACE);
  }

  /** Up to its closing brace, an object is scanned one level deeper. */
  lemma {:induction false} ObjectBody(depth: int, pad: Bytes, members: Members)
    requires depth >= 0 && Whitespace(pad) && ValidMembers(members)
    ensures Fold(Outside(depth), [OPEN_BRACE] + (pad + PrintMembers(members))) == Outside(depth + 1)
    decreases members, 1
  {
    InertIsNeutral(depth + 1, pad);
    MembersAreNeutral(depth + 1, members);
    NeutralAppend(depth + 1, pad, PrintMembers(members));
    FoldOne(Outside(depth), OPEN_BRACE);
    FoldAppend(Outside(depth), [OPEN_BRACE], pad + PrintMembers(members));
  }

  lemma {:induction false} ItemsAreNeutral(depth: int, items: Items)
    requires depth >= 1 && ValidItems(items)
    ensures Neutral(depth, PrintItems(items))
    decreases items
  {
    match items
    case NoItems =>
    case Item(before, value, after, rest) =>
      var tail := after + (if rest.NoItems? then [] else [COMMA]);
      InertIsNeutral(depth, before);
      ValueIsNeutral(depth, value);
      InertIsNeutral(depth, tail);
      ItemsAreNeutral(depth, rest);
      NeutralAppend(depth, before, Print(value));
      NeutralAppend(depth, before + Print(value), tail);
      NeutralAppend(depth, before + Print(value) + tail, PrintItems(rest));
  }

  lemma {:induction false} MembersAreNeutral(depth: int, members: Members)
    requires depth >= 1 && ValidMembers(members)
    ensures Neutral(depth, PrintMembers(members))
    decreases members, 0
  {
    match members
    case NoMembers =>
    case Member(before, key, beforeColon, afterColon, value, after, rest) =>
      var name := PrintString(key);
      var colon := beforeColon + [COLON] + afterColon;
      var tail := after + (if rest.NoMembers? then [] else [COMMA]);
      InertIsNeutral(depth, before);
      StringIsNeutral(depth, key);
      InertIsNeutral(depth, colon);
      ValueIsNeutral(depth, value);
      InertIsNeutral(depth, tail);
      MembersAreNeutral(depth, rest);
      NeutralAppend(depth, before, name);
      NeutralAppend(depth, before + name, colon);
      NeutralAppend(depth, before + name + colon, Print(value));
      NeutralAppend(depth, before + name + colon + Print(value), tail);
      NeutralAppend(depth, before + name + colon + Print(value) + tail, PrintMembers(rest));
  }

  /**
   * Every JSON object, of any nesting and with braces and escapes in its strings, is found whole:
   * the scanner returns exactly its printed length whatever bytes follow, and reports every proper
   * prefix as incomplete.
   */
  lemma PrintedObjectIsFound(v: Value, rest: Bytes)
    requires v.Object? && ValidValue(v)
    ensures ObjectEnd(Print(v) + rest) == Some(|Print(v)|)
    ensures forall k: nat | k < |Print(v)| :: ObjectEnd(Print(v)[..k]) == None
  {
    var init := [OPEN_BRACE] + (v.pad + PrintMembers(v.members));
    ObjectBody(0, v.pad, v.members);
    FoldAppend(START, init, [CLOSE_BRACE]);
    FoldOne(Outside(1), CLOSE_BRACE);
    assert Print(v) == init + [CLOSE_BRACE];
    ClosedByLastByte(init, CLOSE_BRACE, rest);
  }
}
