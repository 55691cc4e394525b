/**
 The texts that spell a JSON tree, written down as what stands in them and in which order: white space
 anywhere between the tokens, every spelling of a string and of a number.  Nothing here knows of the
 parser of components/cJSON/cJSON.c; `SpellingParses` and `SpellingFound` say that it accepts exactly
 these texts.
 */
module Spelling {
  import opened Bytes
  import opened JsonTree
  import Utf16

  /** What may stand between tokens. */
  ghost predicate Blank(w: Text) {
    forall i :: 0 <= i < |w| ==> w[i] as int <= 32
  }

  // ----- strings

  /**
   A part of a string: a byte, the escape with letter number `k`, an escape of four digits, or two such
   escapes that make up a surrogate pair.
   */
  datatype Piece = Plain(byte: Byte) | Short(k: nat) | Unit(digits: Text) | Pair(high: Text, low: Text)

  const LETTERS: Text := ['b', 'f', 'n', 'r', 't', '\"', '\\', '/']
  const MEANINGS: Text := [8 as char, 12 as char, 10 as char, 13 as char, 9 as char, '\"', '\\', '/']

  /** The number that four digits write; the parser takes 0 when one of them is not a digit. */
  ghost function Written(d: Text): (u: int)
    requires |d| == 4
    ensures 0 <= u <= 0xFFFF
  {
    Utf16.Hex4(d, 0)
  }

  ghost predicate ProperPiece(p: Piece) {
    match p
    case Plain(b) => b != '\\'
    case Short(k) => k < |LETTERS|
    case Unit(d) => |d| == 4 && Utf16.ScalarValue(Written(d))
    case Pair(high, low) =>
      |high| == 4 && |low| == 4 && 0xD800 <= Written(high) < 0xDC00 && 0xDC00 <= Written(low) < 0xE000
  }

  ghost function PieceText(p: Piece): (t: Text)
    requires ProperPiece(p)
    ensures t != []
  {
    match p
    case Plain(b) => [b]
    case Short(k) => ['\\', LETTERS[k]]
    case Unit(d) => "\\u" + d
    case Pair(high, low) => "\\u" + high + ("\\u" + low)
  }

  /** What the piece stands for. */
  ghost function PieceBytes(p: Piece): (t: Text)
    requires ProperPiece(p)
    ensures t != []
  {
    match p
    case Plain(b) => [b]
    case Short(k) => [MEANINGS[k]]
    case Unit(d) => Utf16.Utf8(Written(d))
    case Pair(high, low) => Utf16.Utf8(0x10000 + 0x400 * (Written(high) - 0xD800) + (Written(low) - 0xDC00))
  }

  ghost predicate ProperPieces(ps: seq<Piece>) {
    forall i :: 0 <= i < |ps| ==> ProperPiece(ps[i])
  }

  ghost function PiecesText(ps: seq<Piece>): Text
    requires ProperPieces(ps)
  {
    if ps == [] then [] else PieceText(ps[0]) + PiecesText(ps[1..])
  }

  ghost function PiecesBytes(ps: seq<Piece>): Text
    requires ProperPieces(ps)
  {
    if ps == [] then [] else PieceBytes(ps[0]) + PiecesBytes(ps[1..])
  }

  /** No quote ends the literal early: the byte behind a backslash does not count. */
  ghost predicate Unclosed(t: Text)
    decreases |t|
  {
    t == [] ||
    (if t[0] == '\\' then |t| > 1 && Unclosed(t[2..]) else t[0] != '\"' && Unclosed(t[1..]))
  }

  /**
   Behind digits that are none, the parser may read the quote that ends the literal a second time, as the
   last byte of an escape.  (The bytes from those digits on do not count: they begin with a NUL.)
   */
  ghost predicate EndsInEscape(ps: seq<Piece>)
    requires ProperPieces(ps)
  {
    var t := PiecesText(ps);
    ps != [] && ps[|ps| - 1] == Short(5) && t != [] && Unclosed(t[..|t| - 1])
  }

  ghost predicate ProperString(ps: seq<Piece>) {
    ProperPieces(ps) && (Unclosed(PiecesText(ps)) || EndsInEscape(ps))
  }

  ghost function StringText(ps: seq<Piece>): Text
    requires ProperPieces(ps)
  {
    "\"" + (PiecesText(ps) + (if EndsInEscape(ps) then "" else "\""))
  }

  /** The string as C reads it: up to the first NUL. */
  ghost function StringValue(ps: seq<Piece>): Text
    requires ProperPieces(ps)
  {
    CString(PiecesBytes(ps))
  }

  /** In JSON as RFC 8259 defines it, quotes are escaped and digits are digits; then nothing ends early. */
  ghost predicate StrictPiece(p: Piece) {
    ProperPiece(p) &&
    match p
    case Plain(b) => b != '\"'
    case Short(_) => true
    case Unit(d) => Utf16.FourHex(d, 0)
    case Pair(high, low) => Utf16.FourHex(high, 0) && Utf16.FourHex(low, 0)
  }

  lemma {:induction false} StrictIsUnclosed(ps: seq<Piece>)
    requires forall i :: 0 <= i < |ps| ==> StrictPiece(ps[i])
    ensures ProperPieces(ps) && Unclosed(PiecesText(ps))
    decreases |ps|
  {
    if ps != [] {
      StrictIsUnclosed(ps[1..]);
      PieceIsUnclosed(ps[0], PiecesText(ps[1..]));
    }
  }

  /** So every string of JSON is one here, with its text between two quotes. */
  lemma StrictIsProper(ps: seq<Piece>)
    requires forall i :: 0 <= i < |ps| ==> StrictPiece(ps[i])
    ensures ProperString(ps) && StringText(ps) == "\"" + (PiecesText(ps) + "\"")
  {
    hide PiecesText, Unclosed;
    StrictIsUnclosed(ps);
    if EndsInEscape(ps) {
      LastByte(ps);
      NotBoth(PiecesText(ps));
    }
  }

  lemma {:induction false} LastByte(ps: seq<Piece>)
    requires ProperPieces(ps) && ps != [] && ps[|ps| - 1] == Short(5)
    ensures var t := PiecesText(ps); |t| >= 2 && t[|t| - 1] == '\"' && t[|t| - 2] == '\\'
    decreases |ps|
  {
    if |ps| == 1 {
      assert PiecesText(ps[1..]) == [];
      assert PiecesText(ps) == PieceText(ps[0]);
    } else {
      LastByte(ps[1..]);
    }
  }

  /** A quote in the last place either ends the literal or belongs to an escape. */
  lemma {:induction false} NotBoth(t: Text)
    requires t != [] && t[|t| - 1] == '\"'
    ensures !(Unclosed(t) && Unclosed(t[..|t| - 1]))
    decreases |t|
  {
    var u := t[..|t| - 1];
    if Unclosed(t) && Unclosed(u) {
      var k := if t[0] == '\\' then 2 else 1;
      assert u != [] && u[0] == t[0];
      assert t[k..][..|t[k..]| - 1] == u[k..];
      NotBoth(t[k..]);
    }
  }

  lemma PieceIsUnclosed(p: Piece, rest: Text)
    requires StrictPiece(p) && Unclosed(rest)
    ensures Unclosed(PieceText(p) + rest)
  {
    hide Utf16.FourHex, Utf16.Hex4;
    var t := PieceText(p) + rest;
    match p
    case Plain(b) =>
      assert t[1..] == rest;
    case Short(k) =>
      assert t[2..] == rest;
    case Unit(d) =>
      UnitIsUnclosed(d, rest);
    case Pair(high, low) =>
      UnitIsUnclosed(low, rest);
      UnitIsUnclosed(high, "\\u" + low + rest);
      assert t == "\\u" + high + ("\\u" + low + rest);
  }

  lemma UnitIsUnclosed(d: Text, rest: Text)
    requires |d| == 4 && Utf16.FourHex(d, 0) && Unclosed(rest)
    ensures Unclosed("\\u" + d + rest)
  {
    var t := d + rest;
    assert ("\\u" + d + rest)[2..] == t;
    assert forall i :: 0 <= i < 4 ==> t[i] == d[i] && Utf16.HexValue(d[i]) >= 0;
    assert t[1..][1..] == t[2..] && t[2..][1..] == t[3..] && t[3..][1..] == t[4..] == rest;
    assert Unclosed(t[3..]) && Unclosed(t[2..]) && Unclosed(t[1..]) && Unclosed(t);
  }

  // ----- numbers

  datatype Exponent = NoExponent | Exponent(letter: Byte, sign: Text, digits: Text)

  datatype Numeral = Numeral(negative: bool, whole: Text, point: bool, fraction: Text, exponent: Exponent)

  ghost predicate Digits(t: Text) {
    forall i :: 0 <= i < |t| ==> '0' <= t[i] <= '9'
  }

  ghost predicate ProperNumeral(n: Numeral) {
    && Digits(n.whole) && Digits(n.fraction)
    && (n.point || n.fraction == []) && (n.negative || n.whole != []) && |n.whole| + |n.fraction| > 0
    && (n.exponent.Exponent? ==>
         && (n.exponent.letter == 'e' || n.exponent.letter == 'E')
         && (n.exponent.sign == "" || n.exponent.sign == "+" || n.exponent.sign == "-")
         && n.exponent.digits != [] && Digits(n.exponent.digits))
    && |NumeralText(n)| <= 63
  }

  ghost function ExponentText(e: Exponent): Text {
    match e
    case NoExponent => []
    case Exponent(letter, sign, digits) => [letter] + sign + digits
  }

  ghost function NumeralText(n: Numeral): Text {
    (if n.negative then "-" else "") + n.whole + (if n.point then "." + n.fraction else "") + ExponentText(n.exponent)
  }

  function TenTo(k: nat): (p: nat)
    ensures p > 0
  {
    if k == 0 then 1 else 10 * TenTo(k - 1)
  }

  /** The number that digits write: each counts by its place. */
  ghost function Decimal(t: Text): nat
    requires Digits(t)
  {
    if t == [] then 0 else
      var digit: nat := t[0] as int - '0' as int;
      digit * TenTo(|t| - 1) + Decimal(t[1..])
  }

  ghost function PowerOfTen(e: Exponent): int
    requires e.Exponent? ==> Digits(e.digits)
  {
    match e
    case NoExponent => 0
    case Exponent(_, sign, digits) =>
      var e: int := Decimal(digits);
      if sign == "-" then -e else e
  }

  ghost function Scaled(m: nat, k: int): real {
    if k >= 0 then (m * TenTo(k)) as real else m as real / TenTo(-k) as real
  }

  ghost function NumeralValue(n: Numeral): real
    requires ProperNumeral(n)
  {
    var m := Scaled(Decimal(n.whole + n.fraction), PowerOfTen(n.exponent) - |n.fraction|);
    if n.negative then -m else m
  }

  /** The `int` beside a number: what is in front of the point, or the end of the range. */
  ghost predicate IsIntOf(i: int, d: real) {
    if d >= INT_MAX as real then i == INT_MAX
    else if d <= INT_MIN as real then i == INT_MIN
    else if d >= 0.0 then i as real <= d < (i + 1) as real
    else (i - 1) as real < d <= i as real
  }

  // ----- trees

  datatype Spelled =
    | Word(value: Json)
    | Numeric(numeral: Numeral, valueint: int)
    | Str(pieces: seq<Piece>)
    | Arr(inner: Text, elements: seq<Element>)
    | Obj(inner: Text, entries: seq<Entry>)

  /** An element of an array, with the white space around it. */
  datatype Element = Element(before: Text, value: Spelled, after: Text)

  /** A member of an object, with the white space around its key and its value. */
  datatype Entry = Entry(before: Text, key: seq<Piece>, between: Text, behind: Text, value: Spelled, after: Text)

  ghost predicate Proper(sp: Spelled)
    decreases sp
  {
    match sp
    case Word(v) => v.Null? || v.False? || v.True?
    case Numeric(n, i) => ProperNumeral(n) && IsIntOf(i, NumeralValue(n))
    case Str(ps) => ProperString(ps)
    case Arr(inner, es) =>
      Blank(inner) && forall i :: 0 <= i < |es| ==> Blank(es[i].before) && Proper(es[i].value) && Blank(es[i].after)
    case Obj(inner, es) =>
      Blank(inner) && forall i :: 0 <= i < |es| ==>
        && Blank(es[i].before) && ProperString(es[i].key) && Blank(es[i].between)
        && Blank(es[i].behind) && Proper(es[i].value) && Blank(es[i].after)
  }

  ghost function WordText(v: Json): Text {
    if v.Null? then "null" else if v.False? then "false" else "true"
  }

  /** The text that is spelled. */
  ghost function Spell(sp: Spelled): Text
    requires Proper(sp)
    decreases sp, 1
  {
    match sp
    case Word(v) => WordText(v)
    case Numeric(n, _) => NumeralText(n)
    case Str(ps) => StringText(ps)
    case Arr(inner, es) => "[" + ((if es == [] then inner else SpellElements(es)) + "]")
    case Obj(inner, es) => "{" + ((if es == [] then inner else SpellEntries(es)) + "}")
  }

  ghost predicate ProperElements(es: seq<Element>)
    decreases es
  {
    forall i :: 0 <= i < |es| ==> Blank(es[i].before) && Proper(es[i].value) && Blank(es[i].after)
  }

  ghost function SpellElements(es: seq<Element>): Text
    requires es != [] && ProperElements(es)
    decreases es, 0
  {
    es[0].before + (Spell(es[0].value) + (es[0].after + (if |es| > 1 then "," + SpellElements(es[1..]) else "")))
  }

  ghost predicate ProperEntries(es: seq<Entry>)
    decreases es
  {
    forall i :: 0 <= i < |es| ==>
      && Blank(es[i].before) && ProperString(es[i].key) && Blank(es[i].between)
      && Blank(es[i].behind) && Proper(es[i].value) && Blank(es[i].after)
  }

  ghost function SpellEntries(es: seq<Entry>): Text
    requires es != [] && ProperEntries(es)
    decreases es, 0
  {
    es[0].before + (StringText(es[0].key) + (es[0].between + (":" + (es[0].behind +
      (Spell(es[0].value) + (es[0].after + (if |es| > 1 then "," + SpellEntries(es[1..]) else "")))))))
  }

  /** The tree that is spelled. */
  ghost function TreeOf(sp: Spelled): Json
    requires Proper(sp)
    decreases sp, 1
  {
    match sp
    case Word(v) => v
    case Numeric(n, i) => Number(NumeralValue(n), i)
    case Str(ps) => String(StringValue(ps))
    case Arr(_, es) => Array(ItemsOf(es))
    case Obj(_, es) => Object(MembersOf(es))
  }

  ghost function ItemsOf(es: seq<Element>): (items: seq<Json>)
    requires ProperElements(es)
    decreases es, 0
  {
    if es == [] then [] else [TreeOf(es[0].value)] + ItemsOf(es[1..])
  }

  ghost function MembersOf(es: seq<Entry>): (members: seq<Member>)
    requires ProperEntries(es)
    decreases es, 0
  {
    if es == [] then [] else [Member(StringValue(es[0].key), TreeOf(es[0].value))] + MembersOf(es[1..])
  }

  // ----- documents

  /** A text with a value in it; it may begin with a byte order mark, and ends in a NUL. */
  datatype Document = Document(mark: bool, before: Text, root: Spelled, after: Text)

  const BYTE_ORDER_MARK: Text := [0xEF as char, 0xBB as char, 0xBF as char]

  ghost predicate ProperDocument(d: Document, limit: nat) {
    Blank(d.before) && Proper(d.root) && Blank(d.after) && Nesting(TreeOf(d.root)) <= limit
  }

  ghost function SpellDocument(d: Document): Text
    requires Proper(d.root)
  {
    (if d.mark then BYTE_ORDER_MARK else []) + (d.before + (Spell(d.root) + (d.after + [NUL])))
  }
}
