/**
 Every text that spells a tree parses to that tree (components/cJSON/cJSON.c:307-381, 792-896,
 1058-1192, 1336-1388, 1465-1560, 1625-1740).
 */
module SpellingParses {
  import opened Bytes
  import opened JsonTree
  import opened Utf16
  import opened ParseSpec
  import opened Spelling

  // ----- bytes

  lemma AtBytes(c: Text, off: int, t: Text)
    requires At(c, off, t)
    ensures forall k :: off <= k < off + |t| ==> c[k] == t[k - off]
  {
    forall k | off <= k < off + |t| ensures c[k] == t[k - off] { AtByte(c, off, t, k - off); }
  }

  lemma AtPiece(c: Text, off: int, t: Text, from: int, to: int)
    requires At(c, off, t) && 0 <= from <= to <= |t|
    ensures At(c, off + from, t[from..to])
  {
    AtBytes(c, off, t);
    assert c[off + from..off + to] == t[from..to];
  }

  // ----- white space

  lemma NoWhitespace(c: Text, off: nat)
    requires off < |c| && c[off] as int > 32
    ensures SkipWhitespace(c, off) == off
  {
  }

  lemma {:induction false} WhitespaceRun(c: Text, off: nat, end: nat)
    requires off <= end < |c| && c[end] as int > 32
    requires forall k :: off <= k < end ==> c[k] as int <= 32
    ensures SkipWhitespace(c, off) == end
    decreases end - off
  {
    if off < end {
      WhitespaceRun(c, off + 1, end);
    }
  }

  /** White space in front of a token is skipped. */
  lemma SkipBlank(c: Text, p: nat, w: Text)
    requires At(c, p, w) && Blank(w) && p + |w| < |c| && c[p + |w|] as int > 32
    ensures SkipWhitespace(c, p) == p + |w|
  {
    AtBytes(c, p, w);
    WhitespaceRun(c, p, p + |w|);
  }

  // ----- strings

  lemma {:induction false} UnclosedEnds(c: Text, p: nat, t: Text)
    requires Unclosed(t) && At(c, p, t + "\"")
    ensures ClosingQuote(c, p) == Some(p + |t|)
    decreases |t|
  {
    AtByte(c, p, t + "\"", 0);
    if t != [] {
      var k := if t[0] == '\\' then 2 else 1;
      assert (t + "\"")[k..] == t[k..] + "\"";
      AtPiece(c, p, t + "\"", k, |t| + 1);
      UnclosedEnds(c, p + k, t[k..]);
    }
  }

  lemma Hex4At(c: Text, p: nat, d: Text)
    requires |d| == 4 && At(c, p, d)
    ensures Hex4(c, p) == Written(d)
  {
    AtBytes(c, p, d);
    assert forall i :: 0 <= i < 4 ==> c[p + i] == d[i];
    if FourHex(d, 0) {
      assert forall i :: p <= i < p + 4 ==> c[i] == d[i - p];
    }
    if FourHex(c, p) {
      assert forall i :: 0 <= i < 4 ==> HexValue(d[i]) == HexValue(c[p + i]);
    }
  }

  lemma UnitParses(c: Text, p: nat, d: Text, end: nat)
    requires ProperPiece(Unit(d)) && At(c, p, PieceText(Unit(d))) && p + 6 <= end < |c|
    ensures DecodeLiteral(c, p, end) == Literal(Written(d), 6)
    ensures c[p] == '\\' && c[p + 1] == 'u'
  {
    AtConcat(c, p, "\\u", d);
    AtBytes(c, p, "\\u");
    Hex4At(c, p + 2, d);
  }

  lemma PairParses(c: Text, p: nat, high: Text, low: Text, end: nat)
    requires ProperPiece(Pair(high, low)) && At(c, p, PieceText(Pair(high, low))) && p + 12 <= end < |c|
    ensures DecodeLiteral(c, p, end) ==
            Literal(0x10000 + 0x400 * (Written(high) - 0xD800) + (Written(low) - 0xDC00), 12)
    ensures c[p] == '\\' && c[p + 1] == 'u'
  {
    hide Hex4, Written, DecodeLiteral;
    AtConcat(c, p, "\\u" + high, "\\u" + low);
    AtConcat(c, p, "\\u", high);
    AtConcat(c, p + 6, "\\u", low);
    AtBytes(c, p, "\\u");
    AtBytes(c, p + 6, "\\u");
    Hex4At(c, p + 2, high);
    Hex4At(c, p + 8, low);
    PairDecodes(c, p, end);
  }

  lemma PairDecodes(c: Text, p: nat, end: nat)
    requires p + 12 <= end < |c| && c[p + 6] == '\\' && c[p + 7] == 'u'
    requires 0xD800 <= Hex4(c, p + 2) < 0xDC00 && 0xDC00 <= Hex4(c, p + 8) < 0xE000
    ensures DecodeLiteral(c, p, end) ==
            Literal(0x10000 + 0x400 * (Hex4(c, p + 2) - 0xD800) + (Hex4(c, p + 8) - 0xDC00), 12)
  {
    hide Hex4;
    assert Hex4(c, p + 2) % 1024 == Hex4(c, p + 2) - 0xD800;
    assert Hex4(c, p + 8) % 1024 == Hex4(c, p + 8) - 0xDC00;
  }

  lemma PlainParses(c: Text, p: nat, b: Byte, end: nat)
    requires ProperPiece(Plain(b)) && At(c, p, [b]) && p < end < |c|
    ensures Unescape(c, p, end) == Prepend([b], Unescape(c, p + 1, end))
  {
    hide Hex4, DecodeLiteral, Utf8;
    AtByte(c, p, [b], 0);
  }

  lemma ShortParses(c: Text, p: nat, k: nat, end: nat)
    requires k < |LETTERS| && At(c, p, PieceText(Short(k))) && p + 2 <= end < |c|
    ensures Unescape(c, p, end) == Prepend(PieceBytes(Short(k)), Unescape(c, p + |PieceText(Short(k))|, end))
  {
    hide Hex4, DecodeLiteral, Utf8;
    AtBytes(c, p, PieceText(Short(k)));
    assert ShortEscape(LETTERS[k]) == Some(MEANINGS[k]);
  }

  lemma LiteralParses(c: Text, p: nat, end: nat)
    requires p < end < |c| && c[p] == '\\' && c[p + 1] == 'u' && DecodeLiteral(c, p, end).Literal?
    ensures var l := DecodeLiteral(c, p, end);
      Unescape(c, p, end) == Prepend(Utf8(l.codepoint), Unescape(c, p + l.length, end))
  {
    hide Hex4, DecodeLiteral, Utf8;
  }

  lemma PieceParses(c: Text, p: nat, piece: Piece, end: nat)
    requires ProperPiece(piece) && At(c, p, PieceText(piece)) && p + |PieceText(piece)| <= end < |c|
    ensures Unescape(c, p, end) == Prepend(PieceBytes(piece), Unescape(c, p + |PieceText(piece)|, end))
  {
    hide Hex4, DecodeLiteral, Utf8, Unescape, At, Written, Prepend;
    match piece
    case Plain(b) =>
      PlainParses(c, p, b, end);
    case Short(k) =>
      ShortParses(c, p, k, end);
    case Unit(d) =>
      UnitParses(c, p, d, end);
      LiteralParses(c, p, end);
    case Pair(high, low) =>
      PairParses(c, p, high, low, end);
      LiteralParses(c, p, end);
  }

  lemma {:induction false} PiecesParse(c: Text, p: nat, ps: seq<Piece>, end: nat)
    requires ProperPieces(ps) && At(c, p, PiecesText(ps)) && end == p + |PiecesText(ps)| < |c|
    ensures Unescape(c, p, end) == Ok(PiecesBytes(ps), end)
    decreases |ps|
  {
    hide PieceText, PieceBytes, ProperPiece;
    if ps != [] {
      var t := PieceText(ps[0]);
      AtConcat(c, p, t, PiecesText(ps[1..]));
      PiecesParse(c, p + |t|, ps[1..], end);
      PieceParses(c, p, ps[0], end);
    }
  }

  /** The last escape takes the quote at the end. */
  lemma {:induction false} PiecesParseOver(c: Text, p: nat, ps: seq<Piece>, end: nat)
    requires ProperPieces(ps) && ps != [] && ps[|ps| - 1] == Short(5)
    requires At(c, p, PiecesText(ps)) && end + 1 == p + |PiecesText(ps)|
    ensures end < |c| && c[end] == '\"' && Unescape(c, p, end) == Ok(PiecesBytes(ps), end + 1)
    decreases |ps|
  {
    hide PieceText, PieceBytes, ProperPiece, At;
    var t, rest := PieceText(ps[0]), ps[1..];
    AtConcat(c, p, t, PiecesText(rest));
    if rest == [] {
      LastPieceParses(c, p);
    } else {
      LastByte(rest);
      PiecesParseOver(c, p + |t|, rest, end);
      PieceParses(c, p, ps[0], end);
    }
  }

  lemma LastPieceParses(c: Text, p: nat)
    requires At(c, p, PieceText(Short(5)))
    ensures |PieceText(Short(5))| == 2 && PieceBytes(Short(5)) == "\"" && p + 1 < |c| && c[p + 1] == '\"'
    ensures Unescape(c, p, p + 1) == Ok("\"", p + 2)
  {
    AtBytes(c, p, PieceText(Short(5)));
    assert ['\"'] + [] == "\"";
  }

  lemma StringParses(c: Text, off: nat, ps: seq<Piece>)
    requires ProperString(ps) && At(c, off, StringText(ps))
    ensures ParseString(c, off) == Ok(StringValue(ps), off + |StringText(ps)|)
    ensures c[off] == '\"'
  {
    hide Unescape, PiecesText, PiecesBytes, ClosingQuote, CString, ProperPieces, At, Unclosed;
    var t := PiecesText(ps);
    var tail := t + (if EndsInEscape(ps) then "" else "\"");
    AtConcat(c, off, "\"", tail);
    AtByte(c, off, "\"", 0);
    if EndsInEscape(ps) {
      var u := t[..|t| - 1];
      LastByte(ps);
      assert tail == t == u + "\"";
      UnclosedEnds(c, off + 1, u);
      PiecesParseOver(c, off + 1, ps, off + |t|);
    } else {
      UnclosedEnds(c, off + 1, t);
      AtConcat(c, off + 1, t, "\"");
      AtByte(c, off + 1 + |t|, "\"", 0);
      PiecesParse(c, off + 1, ps, off + 1 + |t|);
    }
  }

  // ----- numbers

  /** Digits are found where they stand, if no more follow. */
  lemma {:induction false} DigitsFound(t: Text, i: nat, d: Text)
    requires At(t, i, d) && Digits(d) && (i + |d| < |t| ==> !IsDigit(t[i + |d|]))
    ensures DigitsAt(t, i) == d
    decreases |d|
  {
    if d != [] {
      AtByte(t, i, d, 0);
      AtPiece(t, i, d, 1, |d|);
      DigitsFound(t, i + 1, d[1..]);
      assert d == [d[0]] + d[1..];
    }
  }

  lemma {:induction false} DecimalLast(t: Text)
    requires Digits(t) && t != []
    ensures Decimal(t) == 10 * Decimal(t[..|t| - 1]) + (t[|t| - 1] as int - '0' as int)
    decreases |t|
  {
    hide TenTo;
    var n := |t|;
    TenStep(n);
    if n > 1 {
      assert '0' <= t[0] <= '9';
      var digit: nat := t[0] as int - '0' as int;
      DecimalLast(t[1..]);
      var front := t[..n - 1];
      assert t[1..][..n - 2] == front[1..] && front[0] == t[0];
      assert Decimal(front) == digit * TenTo(n - 2) + Decimal(front[1..]);
      TenStep(n - 1);
      Shifted(digit, TenTo(n - 2));
    } else {
      assert t[..0] == [] && t[1..] == [];
    }
  }

  lemma TenStep(k: nat)
    ensures TenTo(0) == 1 && (k > 0 ==> TenTo(k) == 10 * TenTo(k - 1))
  {
  }

  lemma Shifted(a: nat, b: nat)
    ensures a * (10 * b) == 10 * (a * b)
  {
  }

  lemma {:induction false} DecimalIs(t: Text)
    requires Digits(t)
    ensures Decimal(t) == DigitsValue(t)
    decreases |t|
  {
    if t != [] {
      DecimalLast(t);
      DecimalIs(t[..|t| - 1]);
    }
  }

  lemma {:induction false} PowerIs(k: nat)
    ensures Pow10(k) == TenTo(k) as real
    ensures Pow10(0 - k) == 1.0 / TenTo(k) as real
    decreases k
  {
    if k > 0 {
      PowerIs(k - 1);
      assert Pow10(0 - k) == Pow10(0 - (k - 1)) / 10.0;
      var p := TenTo(k - 1) as real;
      assert TenTo(k) as real == 10.0 * p;
      Reciprocal(p);
    }
  }

  lemma Reciprocal(p: real)
    requires p > 0.0
    ensures (1.0 / p) / 10.0 == 1.0 / (10.0 * p)
  {
    var q := (1.0 / p) / 10.0;
    assert q * 10.0 == 1.0 / p;
    assert 1.0 / p * p == 1.0;
    assert q * (10.0 * p) == 1.0;
  }

  lemma ScaledIs(m: nat, k: int)
    ensures Scaled(m, k) == m as real * Pow10(k)
  {
    hide TenTo, Pow10;
    if k >= 0 {
      PowerIs(k);
      assert (m * TenTo(k)) as real == m as real * TenTo(k) as real;
    } else {
      PowerIs(-k);
      Quotient(m as real, TenTo(-k) as real);
    }
  }

  lemma Quotient(m: real, p: real)
    requires p > 0.0
    ensures m / p == m * (1.0 / p)
  {
    assert (m / p) * p == m;
    assert (m * (1.0 / p)) * p == m * ((1.0 / p) * p);
  }

  lemma FourParts(a: Text, b: Text, d: Text, e: Text)
    ensures var t := a + b + d + e;
      At(t, 0, a) && At(t, |a|, b) && At(t, |a| + |b|, d) && At(t, |a| + |b| + |d|, e)
  {
  }

  /** The text of a numeral: sign, digits, point and fraction, exponent. */
  lemma NumeralParts(n: Numeral)
    ensures var t, sign := NumeralText(n), if n.negative then 1 else 0;
      var point := sign + |n.whole|;
      var p := if n.point then "." + n.fraction else "";
      && At(t, 0, if n.negative then "-" else "") && At(t, sign, n.whole) && At(t, point, p)
      && At(t, point + |p|, ExponentText(n.exponent)) && |t| == point + |p| + |ExponentText(n.exponent)|
  {
    hide At, ExponentText;
    FourParts(if n.negative then "-" else "", n.whole, if n.point then "." + n.fraction else "", ExponentText(n.exponent));
  }

  lemma ExponentParts(e: Exponent)
    ensures e.NoExponent? ==> ExponentText(e) == []
    ensures e.Exponent? ==> ExponentText(e) == [e.letter] + (e.sign + e.digits) && ExponentText(e)[0] == e.letter
  {
  }

  /** The byte behind the digits in front of the point. */
  lemma WholeFound(n: Numeral)
    requires ProperNumeral(n)
    ensures var t, sign := NumeralText(n), if n.negative then 1 else 0;
      var point := sign + |n.whole|;
      DigitsAt(t, sign) == n.whole && (n.point <==> point < |t| && t[point] == '.')
  {
    hide NumeralText, DigitsAt, ExponentText, At;
    ExponentParts(n.exponent);
    NumeralParts(n);
    var t, sign := NumeralText(n), if n.negative then 1 else 0;
    var point := sign + |n.whole|;
    if n.point {
      AtByte(t, point, "." + n.fraction, 0);
    } else if n.exponent.Exponent? {
      AtByte(t, point, ExponentText(n.exponent), 0);
    }
    DigitsFound(t, sign, n.whole);
  }

  lemma FractionFound(n: Numeral)
    requires ProperNumeral(n) && n.point
    ensures var t, point := NumeralText(n), (if n.negative then 1 else 0) + |n.whole|;
      point + 1 <= |t| && DigitsAt(t, point + 1) == n.fraction
  {
    hide NumeralText, DigitsAt, ExponentText, At;
    ExponentParts(n.exponent);
    NumeralParts(n);
    var t, point := NumeralText(n), (if n.negative then 1 else 0) + |n.whole|;
    AtConcat(t, point, ".", n.fraction);
    var end := point + 1 + |n.fraction|;
    if n.exponent.Exponent? {
      AtByte(t, end, ExponentText(n.exponent), 0);
    }
    DigitsFound(t, point + 1, n.fraction);
  }

  lemma SignFound(n: Numeral)
    requires ProperNumeral(n)
    ensures SignAt(NumeralText(n), 0) == (if n.negative then "-" else "")
  {
    hide NumeralText;
    NumeralParts(n);
    if n.negative {
      AtByte(NumeralText(n), 0, "-", 0);
    } else {
      AtByte(NumeralText(n), 0, n.whole, 0);
    }
  }

  lemma SignIs(t: Text, i: nat, s: Text)
    requires i + |s| < |t| && (s == "" || s == "+" || s == "-")
    requires if s == "" then t[i] != '+' && t[i] != '-' else t[i] == s[0]
    ensures SignAt(t, i) == s
  {
  }

  lemma NoPowerText(t: Text, end: nat)
    ensures ExponentText(NoExponent) == [] && (end == |t| ==> PowerAt(t, end) == NoPower)
  {
  }

  lemma PowerFound(t: Text, end: nat, e: Exponent)
    requires At(t, end, ExponentText(e)) && |t| == end + |ExponentText(e)|
    requires e.Exponent? ==>
      && (e.letter == 'e' || e.letter == 'E') && (e.sign == "" || e.sign == "+" || e.sign == "-")
      && e.digits != [] && Digits(e.digits)
    ensures PowerAt(t, end) == if e.NoExponent? then NoPower else Power(e.letter, e.sign, e.digits)
  {
    hide DigitsAt, ExponentText, At, SignAt;
    if e.Exponent? {
      ExponentParts(e);
      AtConcat(t, end, [e.letter], e.sign + e.digits);
      AtConcat(t, end + 1, e.sign, e.digits);
      AtByte(t, end, [e.letter], 0);
      var first := end + 1 + |e.sign|;
      AtByte(t, first, e.digits, 0);
      if e.sign != "" { AtByte(t, end + 1, e.sign, 0); }
      SignIs(t, end + 1, e.sign);
      DigitsFound(t, first, e.digits);
    } else {
      NoPowerText(t, end);
    }
  }

  lemma PowerValueIs(e: Exponent)
    requires e.Exponent? ==> Digits(e.digits)
    ensures PowerOfTen(e) == PowerValue(if e.NoExponent? then NoPower else Power(e.letter, e.sign, e.digits))
  {
    if e.Exponent? {
      DecimalIs(e.digits);
    }
  }

  lemma ValueIs(n: Numeral, p: Power)
    requires p.Power? ==> Digits(p.digits)
    requires ProperNumeral(n) && PowerOfTen(n.exponent) == PowerValue(p)
    ensures var m := Magnitude(n.whole, n.fraction, p);
      NumeralValue(n) == if n.negative then -m else m
  {
    hide DigitsValue, PowerValue, PowerOfTen, Pow10, Decimal, Scaled, NumeralText;
    DecimalIs(n.whole + n.fraction);
    ScaledIs(Decimal(n.whole + n.fraction), PowerOfTen(n.exponent) - |n.fraction|);
  }

  lemma {:induction false} StrtodNumeral(n: Numeral)
    requires ProperNumeral(n)
    ensures Strtod(NumeralText(n)) == Conversion(|NumeralText(n)|, NumeralValue(n))
  {
    hide Magnitude, DigitsAt, SignAt, PowerAt, PowerLength, NumeralText, NumeralValue, ExponentText, PowerValue, PowerOfTen, At;
    NumeralParts(n);
    SignFound(n);
    WholeFound(n);
    if n.point { FractionFound(n); }
    var t := NumeralText(n);
    var end := (if n.negative then 1 else 0) + |n.whole| + (if n.point then 1 + |n.fraction| else 0);
    PowerFound(t, end, n.exponent);
    PowerValueIs(n.exponent);
    ValueIs(n, PowerAt(t, end));
    LengthOf(n.exponent);
  }

  lemma LengthOf(e: Exponent)
    ensures |ExponentText(e)| == PowerLength(if e.NoExponent? then NoPower else Power(e.letter, e.sign, e.digits))
  {
  }

  lemma SaturateIsIntOf(d: real)
    ensures IsIntOf(Saturate(d), d)
  {
  }

  lemma IntOfIsUnique(i: int, j: int, d: real)
    requires IsIntOf(i, d) && IsIntOf(j, d)
    ensures i == j
  {
  }

  /** What may stand behind a value: a byte that cannot continue a number. */
  ghost predicate Ends(c: Text, off: nat) {
    off < |c| && !NumberByte(c[off])
  }

  lemma {:induction false} NumberEnds(c: Text, off: nat, t: Text, max: nat)
    requires At(c, off, t) && |t| <= max && forall k :: 0 <= k < |t| ==> NumberByte(t[k])
    requires Ends(c, off + |t|)
    ensures NumberLength(c, off, max) == |t|
    decreases |t|
  {
    if t != [] {
      AtByte(c, off, t, 0);
      AtPiece(c, off, t, 1, |t|);
      NumberEnds(c, off + 1, t[1..], max - 1);
    }
  }

  ghost predicate NumberText(t: Text) {
    forall k :: 0 <= k < |t| ==> NumberByte(t[k])
  }

  lemma NumberTextConcat(a: Text, b: Text)
    requires NumberText(a) && NumberText(b)
    ensures NumberText(a + b)
  {
  }

  lemma NumeralBytes(n: Numeral)
    requires ProperNumeral(n)
    ensures var t := NumeralText(n); t != [] && (t[0] == '-' || IsDigit(t[0])) && forall k :: 0 <= k < |t| ==> NumberByte(t[k])
  {
    hide NumberText, ExponentText;
    var sign, p, x := if n.negative then "-" else "", if n.point then "." + n.fraction else "", ExponentText(n.exponent);
    DigitsAreNumber(n);
    FractionBytes(n);
    ExponentBytes(n);
    NumberTextConcat(sign, n.whole);
    NumberTextConcat(sign + n.whole, p);
    NumberTextConcat(sign + n.whole + p, x);
    AllNumber(NumeralText(n));
    assert n.negative ==> NumeralText(n)[0] == sign[0];
    assert !n.negative ==> NumeralText(n)[0] == n.whole[0];
  }

  lemma AllNumber(t: Text)
    requires NumberText(t)
    ensures forall k :: 0 <= k < |t| ==> NumberByte(t[k])
  {
  }

  lemma DigitsAreNumber(n: Numeral)
    requires ProperNumeral(n)
    ensures NumberText(if n.negative then "-" else "") && NumberText(n.whole)
  {
    hide NumeralText;
  }

  lemma ExponentBytes(n: Numeral)
    requires ProperNumeral(n)
    ensures NumberText(ExponentText(n.exponent))
  {
    hide NumeralText;
    var e := n.exponent;
    if e.Exponent? {
      var t := ExponentText(e);
      forall k | 0 <= k < |t| ensures NumberByte(t[k]) {
        assert t[k] == if k == 0 then e.letter else if k < 1 + |e.sign| then e.sign[k - 1] else e.digits[k - 1 - |e.sign|];
      }
    }
  }

  lemma FractionBytes(n: Numeral)
    requires ProperNumeral(n)
    ensures NumberText(if n.point then "." + n.fraction else "")
  {
    hide NumeralText;
  }

  lemma NumeralParses(c: Text, off: nat, n: Numeral, i: int)
    requires ProperNumeral(n) && IsIntOf(i, NumeralValue(n))
    requires At(c, off, NumeralText(n)) && Ends(c, off + |NumeralText(n)|)
    ensures ParseNumber(c, off) == Ok(Number(NumeralValue(n), i), off + |NumeralText(n)|)
    ensures c[off] == '-' || IsDigit(c[off])
  {
    hide Strtod, NumeralText, NumeralValue, NumberLength, Saturate, IsIntOf;
    var t := NumeralText(n);
    NumeralBytes(n);
    AtByte(c, off, t, 0);
    NumberEnds(c, off, t, NUMBER_BUFFER);
    StrtodNumeral(n);
    SaturateIsIntOf(NumeralValue(n));
    IntOfIsUnique(i, Saturate(NumeralValue(n)), NumeralValue(n));
  }

  // ----- trees

  /** The first byte tells which kind of value follows. */
  lemma FirstByte(sp: Spelled)
    requires Proper(sp)
    ensures var t := Spell(sp);
      && t != [] && t[0] as int > 32
      && match sp
         case Word(v) => t[0] == (if v.Null? then 'n' else if v.False? then 'f' else 't')
         case Numeric(_, _) => t[0] == '-' || IsDigit(t[0])
         case Str(_) => t[0] == '\"'
         case Arr(_, _) => t[0] == '['
         case Obj(_, _) => t[0] == '{'
  {
    hide NumeralText, ProperNumeral, SpellElements, SpellEntries, PiecesText;
    if sp.Numeric? {
      NumeralBytes(sp.numeral);
    }
  }

  lemma NotAKeyword(c: Text, off: nat)
    requires off < |c| && c[off] != 'n' && c[off] != 'f' && c[off] != 't'
    ensures !At(c, off, "null") && !At(c, off, "false") && !At(c, off, "true")
  {
    if At(c, off, "null") { AtByte(c, off, "null", 0); }
    if At(c, off, "false") { AtByte(c, off, "false", 0); }
    if At(c, off, "true") { AtByte(c, off, "true", 0); }
  }

  lemma WordParses(c: Text, off: nat, v: Json, depth: nat)
    requires (v.Null? || v.False? || v.True?) && At(c, off, WordText(v))
    ensures ParseValue(c, off, depth) == Ok(v, off + |WordText(v)|)
  {
    AtByte(c, off, WordText(v), 0);
    if At(c, off, "null") { AtByte(c, off, "null", 0); }
    if At(c, off, "false") { AtByte(c, off, "false", 0); }
  }

  /** A value, wherever it stands, up to the byte that ends it. */
  lemma {:induction false} ValueParses(c: Text, off: nat, sp: Spelled, depth: nat)
    requires Proper(sp) && depth + Nesting(TreeOf(sp)) <= NESTING_LIMIT
    requires At(c, off, Spell(sp)) && Ends(c, off + |Spell(sp)|)
    ensures ParseValue(c, off, depth) == Ok(TreeOf(sp), off + |Spell(sp)|)
    decreases sp, 1
  {
    hide ParseString, ParseNumber, ParseArray, ParseObject, StringText, NumeralText, SpellElements, SpellEntries;
    FirstByte(sp);
    AtByte(c, off, Spell(sp), 0);
    match sp
    case Word(v) =>
      WordParses(c, off, v, depth);
    case Numeric(n, i) =>
      NotAKeyword(c, off);
      NumeralParses(c, off, n, i);
    case Str(ps) =>
      NotAKeyword(c, off);
      StringParses(c, off, ps);
    case Arr(inner, es) =>
      NotAKeyword(c, off);
      ArrayParses(c, off, inner, es, depth);
    case Obj(inner, es) =>
      NotAKeyword(c, off);
      ObjectParses(c, off, inner, es, depth);
  }

  /** A byte below 33, a comma or a bracket cannot continue a number. */
  lemma BlankEnds(c: Text, p: nat, w: Text, t: Text)
    requires Blank(w) && t != [] && At(c, p, w + t) && !NumberByte(t[0])
    ensures Ends(c, p) && p + |w| < |c| && c[p + |w|] == t[0]
    ensures t[0] as int > 32 ==> SkipWhitespace(c, p) == p + |w|
  {
    AtConcat(c, p, w, t);
    AtByte(c, p + |w|, t, 0);
    if w != [] { AtByte(c, p, w, 0); }
    if t[0] as int > 32 { SkipBlank(c, p, w); }
  }

  // ----- arrays

  lemma ParseArrayFrom(c: Text, off: nat, depth: nat, start: nat)
    requires off < |c| && depth < NESTING_LIMIT && c[off] == '[' && SkipWhitespace(c, off + 1) == start < |c|
    ensures c[start] == ']' ==> ParseArray(c, off, depth) == Ok(Array([]), start + 1)
    ensures c[start] != ']' ==> forall items, n :: ParseItems(c, start - 1, depth + 1) == Ok(items, n) ==>
      ParseArray(c, off, depth) == Ok(Array(items), n)
  {
    hide ParseItems, SkipWhitespace;
  }

  lemma {:induction false} ArrayText(inner: Text, es: seq<Element>)
    requires Proper(Arr(inner, es))
    ensures Spell(Arr(inner, es)) == "[" + ((if es == [] then inner else SpellElements(es)) + "]")
    ensures TreeOf(Arr(inner, es)) == Array(ItemsOf(es)) && ProperElements(es) && Blank(inner)
    ensures Nesting(Array(ItemsOf(es))) == 1 + ItemsNesting(ItemsOf(es))
  {
    hide SpellElements, ItemsOf, ItemsNesting;
  }

  lemma {:induction false} ArrayParses(c: Text, off: nat, inner: Text, es: seq<Element>, depth: nat)
    requires Proper(Arr(inner, es)) && depth + Nesting(TreeOf(Arr(inner, es))) <= NESTING_LIMIT
    requires At(c, off, Spell(Arr(inner, es)))
    ensures ParseArray(c, off, depth) == Ok(TreeOf(Arr(inner, es)), off + |Spell(Arr(inner, es))|)
    decreases es, 1
  {
    hide Spell, SpellElements, ItemsOf, TreeOf, Proper, Nesting, ItemsNesting, ParseArray, ParseItems, SkipWhitespace, Blank, At;
    ArrayText(inner, es);
    var body := if es == [] then inner else SpellElements(es);
    AtConcat(c, off, "[", body + "]");
    AtByte(c, off, "[", 0);
    if es == [] {
      BlankEnds(c, off + 1, inner, "]");
      ParseArrayFrom(c, off, depth, off + 1 + |inner|);
      NoItemsOf();
    } else {
      var start := off + 1 + |es[0].before|;
      FirstElement(c, off + 1, es, "]");
      NoWhitespace(c, start);
      ElementsParse(c, start - 1, off + 1, es, depth + 1);
      ParseArrayFrom(c, off, depth, start);
    }
  }

  lemma NoItemsOf()
    ensures ItemsOf([]) == []
  {
  }

  /** The text of elements, from the left. */
  lemma {:induction false} ElementsText(es: seq<Element>, end: Text)
    requires es != [] && ProperElements(es)
    ensures Blank(es[0].before) && Proper(es[0].value) && Blank(es[0].after) && ProperElements(es[1..])
    ensures SpellElements(es) + end ==
      es[0].before + (Spell(es[0].value) + (es[0].after + ((if |es| > 1 then "," + SpellElements(es[1..]) else "") + end)))
    ensures ItemsOf(es) == [TreeOf(es[0].value)] + ItemsOf(es[1..])
  {
    hide Spell, TreeOf, Proper;
  }

  /** The first byte of the first value. */
  lemma {:induction false} FirstElement(c: Text, p: nat, es: seq<Element>, end: Text)
    requires es != [] && ProperElements(es) && At(c, p, SpellElements(es) + end)
    ensures var start := p + |es[0].before|;
      start < |c| && c[start] as int > 32 && c[start] != ']' && SkipWhitespace(c, p) == start
  {
    hide Spell, SpellElements, SkipWhitespace, Blank, At;
    ElementsText(es, end);
    var t := Spell(es[0].value);
    var rest := es[0].after + ((if |es| > 1 then "," + SpellElements(es[1..]) else "") + end);
    FirstByte(es[0].value);
    AtConcat(c, p, es[0].before, t + rest);
    AtConcat(c, p + |es[0].before|, t, rest);
    AtByte(c, p + |es[0].before|, t, 0);
    SkipBlank(c, p, es[0].before);
  }

  /** `parse_array` reads one element and goes on behind the comma or ends at the bracket. */
  lemma ItemsStep(c: Text, off: nat, depth: nat, v: Json, n: nat, next: nat)
    requires off < |c| && ParseValue(c, SkipWhitespace(c, off + 1), depth) == Ok(v, n)
    requires SkipWhitespace(c, n) == next < |c|
    ensures c[next] == ',' ==> ParseItems(c, off, depth) == Prepend([v], ParseItems(c, next, depth))
    ensures c[next] == ']' ==> ParseItems(c, off, depth) == Ok([v], next + 1)
  {
    hide ParseValue;
  }

  lemma {:induction false} ElementsParse(c: Text, off: nat, p: nat, es: seq<Element>, depth: nat)
    requires es != [] && ProperElements(es) && depth + ItemsNesting(ItemsOf(es)) <= NESTING_LIMIT
    requires off < |c| && SkipWhitespace(c, off + 1) == p + |es[0].before|
    requires At(c, p, SpellElements(es) + "]")
    ensures ParseItems(c, off, depth) == Ok(ItemsOf(es), p + |SpellElements(es)| + 1)
    decreases es, 0
  {
    hide Spell, SpellElements, ItemsOf, TreeOf, Proper, ItemsNesting, ParseItems, ParseValue, SkipWhitespace;
    hide Blank, At, ProperElements;
    ElementsText(es, "]");
    ElementsLength(es);
    NestingOfFirst(es);
    var b, t, a := es[0].before, Spell(es[0].value), es[0].after;
    var more := if |es| > 1 then "," + SpellElements(es[1..]) else "";
    var start := p + |b|;
    var next := start + |t| + |a|;
    AtConcat(c, p, b, t + (a + (more + "]")));
    AtConcat(c, start, t, a + (more + "]"));
    BlankEnds(c, start + |t|, a, more + "]");
    AtConcat(c, start + |t|, a, more + "]");
    ValueParses(c, start, es[0].value, depth);
    ItemsStep(c, off, depth, TreeOf(es[0].value), start + |t|, next);
    if |es| > 1 {
      var rest := es[1..];
      Regroup(",", SpellElements(rest), "]");
      AtConcat(c, next, ",", SpellElements(rest) + "]");
      FirstElement(c, next + 1, rest, "]");
      ElementsParse(c, next, next + 1, rest, depth);
    } else {
      assert es[1..] == [];
      NoItemsOf();
      assert ItemsOf(es) == [TreeOf(es[0].value)];
    }
  }

  lemma Regroup(a: Text, b: Text, d: Text)
    ensures a + b + d == a + (b + d)
  {
  }

  lemma {:induction false} ElementsLength(es: seq<Element>)
    requires es != [] && ProperElements(es)
    ensures |SpellElements(es)| ==
      |es[0].before| + |Spell(es[0].value)| + |es[0].after| + (if |es| > 1 then 1 + |SpellElements(es[1..])| else 0)
  {
    hide Spell;
  }

  lemma {:induction false} NestingOfFirst(es: seq<Element>)
    requires es != [] && ProperElements(es)
    ensures var n := ItemsNesting(ItemsOf(es));
      Nesting(TreeOf(es[0].value)) <= n && ItemsNesting(ItemsOf(es[1..])) <= n
  {
    ElementsText(es, "");
    hide Spell, SpellElements, ItemsOf, TreeOf, Proper;
    assert ItemsOf(es)[1..] == ItemsOf(es[1..]);
  }

  // ----- objects

  lemma ParseObjectFrom(c: Text, off: nat, depth: nat, start: nat)
    requires off < |c| && depth < NESTING_LIMIT && c[off] == '{' && SkipWhitespace(c, off + 1) == start < |c|
    ensures c[start] == '}' ==> ParseObject(c, off, depth) == Ok(Object([]), start + 1)
    ensures c[start] != '}' ==> forall members, n :: ParseMembers(c, start - 1, depth + 1) == Ok(members, n) ==>
      ParseObject(c, off, depth) == Ok(Object(members), n)
  {
    hide ParseMembers, SkipWhitespace;
  }

  lemma {:induction false} ObjectText(inner: Text, es: seq<Entry>)
    requires Proper(Obj(inner, es))
    ensures Spell(Obj(inner, es)) == "{" + ((if es == [] then inner else SpellEntries(es)) + "}")
    ensures TreeOf(Obj(inner, es)) == Object(MembersOf(es)) && ProperEntries(es) && Blank(inner)
    ensures Nesting(Object(MembersOf(es))) == 1 + MembersNesting(MembersOf(es))
  {
    hide SpellEntries, MembersOf, MembersNesting;
  }

  lemma {:induction false} ObjectParses(c: Text, off: nat, inner: Text, es: seq<Entry>, depth: nat)
    requires Proper(Obj(inner, es)) && depth + Nesting(TreeOf(Obj(inner, es))) <= NESTING_LIMIT
    requires At(c, off, Spell(Obj(inner, es)))
    ensures ParseObject(c, off, depth) == Ok(TreeOf(Obj(inner, es)), off + |Spell(Obj(inner, es))|)
    decreases es, 1
  {
    hide Spell, SpellEntries, MembersOf, TreeOf, Proper, Nesting, MembersNesting, ParseObject, ParseMembers, SkipWhitespace, Blank, At;
    ObjectText(inner, es);
    var body := if es == [] then inner else SpellEntries(es);
    AtConcat(c, off, "{", body + "}");
    AtByte(c, off, "{", 0);
    if es == [] {
      BlankEnds(c, off + 1, inner, "}");
      ParseObjectFrom(c, off, depth, off + 1 + |inner|);
      NoMembersOf();
    } else {
      var start := off + 1 + |es[0].before|;
      FirstEntry(c, off + 1, es, "}");
      NoWhitespace(c, start);
      EntriesParse(c, start - 1, off + 1, es, depth + 1);
      ParseObjectFrom(c, off, depth, start);
    }
  }

  lemma NoMembersOf()
    ensures MembersOf([]) == []
  {
  }

  /** What follows the key of the first member. */
  ghost function BehindKey(es: seq<Entry>, end: Text): Text
    requires es != [] && ProperEntries(es)
  {
    es[0].between + (":" + (es[0].behind + BehindColon(es, end)))
  }

  ghost function BehindColon(es: seq<Entry>, end: Text): Text
    requires es != [] && ProperEntries(es)
  {
    Spell(es[0].value) + (es[0].after + ((if |es| > 1 then "," + SpellEntries(es[1..]) else "") + end))
  }

  lemma {:induction false} EntriesText(es: seq<Entry>, end: Text)
    requires es != [] && ProperEntries(es)
    ensures Blank(es[0].before) && ProperString(es[0].key) && Blank(es[0].between) && Blank(es[0].behind)
    ensures Proper(es[0].value) && Blank(es[0].after) && ProperEntries(es[1..])
    ensures SpellEntries(es) + end == es[0].before + (StringText(es[0].key) + BehindKey(es, end))
    ensures MembersOf(es) == [Member(StringValue(es[0].key), TreeOf(es[0].value))] + MembersOf(es[1..])
  {
    hide Spell, TreeOf, Proper, StringText, StringValue, ProperString;
  }

  lemma {:induction false} FirstEntry(c: Text, p: nat, es: seq<Entry>, end: Text)
    requires es != [] && ProperEntries(es) && At(c, p, SpellEntries(es) + end)
    ensures var start := p + |es[0].before|;
      start < |c| && c[start] == '\"' && SkipWhitespace(c, p) == start
  {
    hide Spell, SpellEntries, SkipWhitespace, BehindKey, PiecesText, Blank, At;
    EntriesText(es, end);
    var t := StringText(es[0].key);
    AtConcat(c, p, es[0].before, t + BehindKey(es, end));
    AtConcat(c, p + |es[0].before|, t, BehindKey(es, end));
    AtByte(c, p + |es[0].before|, t, 0);
    SkipBlank(c, p, es[0].before);
  }

  /** `parse_object` reads one member and goes on behind the comma or ends at the brace. */
  lemma MembersStep(c: Text, off: nat, depth: nat, colon: nat, m: Member, n: nat, next: nat)
    requires off + 1 < |c| && ParseKey(c, SkipWhitespace(c, off + 1)) == Ok(m.key, colon)
    requires ParseValue(c, SkipWhitespace(c, colon + 1), depth) == Ok(m.value, n)
    requires SkipWhitespace(c, n) == next < |c|
    ensures c[next] == ',' ==> ParseMembers(c, off, depth) == Prepend([m], ParseMembers(c, next, depth))
    ensures c[next] == '}' ==> ParseMembers(c, off, depth) == Ok([m], next + 1)
  {
    hide ParseValue, ParseKey;
  }

  /** A key, white space, the colon and white space again. */
  lemma {:induction false} KeyParses(c: Text, off: nat, es: seq<Entry>, end: Text)
    requires es != [] && ProperEntries(es) && At(c, off, StringText(es[0].key) + BehindKey(es, end))
    ensures var n := off + |StringText(es[0].key)|;
      var colon := n + |es[0].between|;
      && off < |c| && ParseKey(c, off) == Ok(StringValue(es[0].key), colon)
      && SkipWhitespace(c, colon + 1) == colon + 1 + |es[0].behind|
      && At(c, colon + 1 + |es[0].behind|, BehindColon(es, end))
  {
    hide Spell, SpellEntries, SkipWhitespace, ParseString, StringText, StringValue, BehindColon, Blank, At, PiecesText;
    EntriesText(es, end);
    var t := StringText(es[0].key);
    AtConcat(c, off, t, BehindKey(es, end));
    StringParses(c, off, es[0].key);
    var n := off + |t|;
    var tail := es[0].behind + BehindColon(es, end);
    BlankEnds(c, n, es[0].between, ":" + tail);
    AtConcat(c, n, es[0].between, ":" + tail);
    var colon := n + |es[0].between|;
    AtConcat(c, colon, ":", tail);
    AtConcat(c, colon + 1, es[0].behind, BehindColon(es, end));
    FirstOfValue(c, colon + 1 + |es[0].behind|, es, end);
    SkipBlank(c, colon + 1, es[0].behind);
  }

  lemma {:induction false} FirstOfValue(c: Text, p: nat, es: seq<Entry>, end: Text)
    requires es != [] && ProperEntries(es) && At(c, p, BehindColon(es, end))
    ensures p < |c| && c[p] as int > 32
  {
    hide Spell, SpellEntries;
    FirstByte(es[0].value);
    AtByte(c, p, BehindColon(es, end), 0);
  }

  lemma {:induction false} EntriesParse(c: Text, off: nat, p: nat, es: seq<Entry>, depth: nat)
    requires es != [] && ProperEntries(es) && depth + MembersNesting(MembersOf(es)) <= NESTING_LIMIT
    requires off + 1 < |c| && SkipWhitespace(c, off + 1) == p + |es[0].before|
    requires At(c, p, SpellEntries(es) + "}")
    ensures ParseMembers(c, off, depth) == Ok(MembersOf(es), p + |SpellEntries(es)| + 1)
    decreases es, 0
  {
    hide Spell, SpellEntries, MembersOf, TreeOf, Proper, MembersNesting, ParseMembers, ParseKey, ParseValue, SkipWhitespace;
    hide StringText, StringValue, BehindKey, Blank, At, ProperEntries, PiecesText;
    EntriesText(es, "}");
    EntriesLength(es);
    NestingOfFirstMember(es);
    var k, t, a := StringText(es[0].key), Spell(es[0].value), es[0].after;
    var more := if |es| > 1 then "," + SpellEntries(es[1..]) else "";
    var at := p + |es[0].before|;
    AtConcat(c, p, es[0].before, k + BehindKey(es, "}"));
    KeyParses(c, at, es, "}");
    var colon := at + |k| + |es[0].between|;
    var start := colon + 1 + |es[0].behind|;
    var next := start + |t| + |a|;
    AtConcat(c, start, t, a + (more + "}"));
    BlankEnds(c, start + |t|, a, more + "}");
    AtConcat(c, start + |t|, a, more + "}");
    ValueParses(c, start, es[0].value, depth);
    var m := Member(StringValue(es[0].key), TreeOf(es[0].value));
    MembersStep(c, off, depth, colon, m, start + |t|, next);
    if |es| > 1 {
      var rest := es[1..];
      Regroup(",", SpellEntries(rest), "}");
      AtConcat(c, next, ",", SpellEntries(rest) + "}");
      FirstEntry(c, next + 1, rest, "}");
      EntriesParse(c, next, next + 1, rest, depth);
    } else {
      assert es[1..] == [];
      NoMembersOf();
      assert MembersOf(es) == [m];
    }
  }

  lemma {:induction false} EntriesLength(es: seq<Entry>)
    requires es != [] && ProperEntries(es)
    ensures |SpellEntries(es)| ==
      |es[0].before| + |StringText(es[0].key)| + |es[0].between| + 1 + |es[0].behind| + |Spell(es[0].value)| + |es[0].after|
      + (if |es| > 1 then 1 + |SpellEntries(es[1..])| else 0)
  {
    hide Spell, StringText;
  }

  lemma {:induction false} NestingOfFirstMember(es: seq<Entry>)
    requires es != [] && ProperEntries(es)
    ensures var n := MembersNesting(MembersOf(es));
      Nesting(TreeOf(es[0].value)) <= n && MembersNesting(MembersOf(es[1..])) <= n
  {
    EntriesText(es, "");
    hide Spell, SpellEntries, MembersOf, TreeOf, Proper, StringText, StringValue, BehindKey;
    assert MembersOf(es)[1..] == MembersOf(es[1..]);
  }

  // ----- documents

  lemma {:induction false} SkipToEnd(c: Text, p: nat)
    requires p < |c| && forall k :: p <= k < |c| ==> c[k] as int <= 32
    ensures SkipWhitespace(c, p) == |c| - 1
    decreases |c| - p
  {
    if p + 1 < |c| {
      SkipToEnd(c, p + 1);
    }
  }

  /** Where the parts of a document stand. */
  lemma DocumentParts(d: Document)
    requires Proper(d.root)
    ensures var c, mark := SpellDocument(d), if d.mark then BYTE_ORDER_MARK else [];
      var start := |mark| + |d.before|;
      && At(c, 0, mark) && At(c, |mark|, d.before) && At(c, start, Spell(d.root))
      && At(c, start + |Spell(d.root)|, d.after + [NUL]) && |c| == start + |Spell(d.root)| + |d.after| + 1
  {
    hide Spell, At;
    var c, mark := SpellDocument(d), if d.mark then BYTE_ORDER_MARK else [];
    var t, a := Spell(d.root), d.after + [NUL];
    Whole(c);
    AtConcat(c, 0, mark, d.before + (t + a));
    AtConcat(c, |mark|, d.before, t + a);
    AtConcat(c, |mark| + |d.before|, t, a);
  }

  lemma Whole(c: Text)
    ensures At(c, 0, c)
  {
  }

  lemma MarkSkipped(d: Document)
    requires Blank(d.before) && Proper(d.root)
    ensures SkipBom(SpellDocument(d)) == (if d.mark then 3 else 0)
  {
    hide Spell, SpellDocument;
    DocumentParts(d);
    FirstByte(d.root);
    var c, t := SpellDocument(d), Spell(d.root);
    AtByte(c, (if d.mark then 3 else 0) + |d.before|, t, 0);
    if !d.mark && d.before != [] {
      AtByte(c, 0, d.before, 0);
    }
  }

  /** Every text that spells a tree within the nesting limit parses to that tree, and to its end. */
  lemma {:induction false} DocumentParses(d: Document)
    requires ProperDocument(d, NESTING_LIMIT)
    ensures var c := SpellDocument(d);
      && ParseDocument(c, true) == Ok(TreeOf(d.root), |c| - 1)
      && ParseDocument(c, false) == Ok(TreeOf(d.root), |c| - 1 - |d.after|)
  {
    hide Spell, SpellDocument, ParseValue, SkipWhitespace, SkipBom, TreeOf, Proper, Nesting, At;
    var c, t := SpellDocument(d), Spell(d.root);
    DocumentParts(d);
    MarkSkipped(d);
    var first := if d.mark then 3 else 0;
    var start := first + |d.before|;
    FirstByte(d.root);
    AtByte(c, start, t, 0);
    SkipBlank(c, first, d.before);
    var n := start + |t|;
    AtBytes(c, n, d.after + [NUL]);
    ValueParses(c, start, d.root, 0);
    SkipToEnd(c, n);
  }

  // ----- building spellings from the left

  lemma {:induction false} ProperArray(inner: Text, es: seq<Element>)
    requires Blank(inner) && ProperElements(es)
    ensures Proper(Arr(inner, es))
    ensures Spell(Arr(inner, es)) == "[" + ((if es == [] then inner else SpellElements(es)) + "]")
    ensures TreeOf(Arr(inner, es)) == Array(ItemsOf(es)) && Nesting(Array(ItemsOf(es))) == 1 + ItemsNesting(ItemsOf(es))
    ensures ItemsNesting([]) == 0
  {
    hide SpellElements, ItemsOf;
  }

  lemma {:induction false} ElementsPrepended(first: Element, rest: seq<Element>)
    requires Blank(first.before) && Proper(first.value) && Blank(first.after) && ProperElements(rest)
    ensures var es := [first] + rest;
      var more := if rest == [] then "" else "," + SpellElements(rest);
      && ProperElements(es)
      && SpellElements(es) + "]" == first.before + (Spell(first.value) + (first.after + (more + "]")))
      && |SpellElements(es)| == |first.before| + |Spell(first.value)| + |first.after| + |more|
      && ItemsOf(es) == [TreeOf(first.value)] + ItemsOf(rest)
      && ItemsNesting(ItemsOf(es)) == Max(Nesting(TreeOf(first.value)), ItemsNesting(ItemsOf(rest)))
      && (rest == [] ==> ItemsOf(es) == [TreeOf(first.value)] && ItemsNesting(ItemsOf(rest)) == 0)
  {
    var es := [first] + rest;
    assert es[1..] == rest;
    hide Spell, Proper, TreeOf;
    assert (ItemsOf(es))[1..] == ItemsOf(rest);
  }

  lemma {:induction false} ProperObject(inner: Text, es: seq<Entry>)
    requires Blank(inner) && ProperEntries(es)
    ensures Proper(Obj(inner, es))
    ensures Spell(Obj(inner, es)) == "{" + ((if es == [] then inner else SpellEntries(es)) + "}")
    ensures TreeOf(Obj(inner, es)) == Object(MembersOf(es)) && Nesting(Object(MembersOf(es))) == 1 + MembersNesting(MembersOf(es))
    ensures MembersNesting([]) == 0
  {
    hide SpellEntries, MembersOf;
  }

  ghost predicate ProperEntry(e: Entry) {
    && Blank(e.before) && ProperString(e.key) && Blank(e.between) && Blank(e.behind) && Proper(e.value) && Blank(e.after)
  }

  /** The length of a member's text, and the member. */
  ghost function EntryLength(e: Entry): nat
    requires ProperEntry(e)
  {
    |e.before| + |StringText(e.key)| + |e.between| + 1 + |e.behind| + |Spell(e.value)| + |e.after|
  }

  ghost function MemberOf(e: Entry): Member
    requires ProperEntry(e)
  {
    Member(StringValue(e.key), TreeOf(e.value))
  }

  ghost function EntryText(e: Entry, end: Text): Text
    requires ProperEntry(e)
  {
    e.before + (StringText(e.key) + (e.between + (":" + (e.behind + (Spell(e.value) + (e.after + end))))))
  }

  lemma {:induction false} EntriesPrepended(first: Entry, rest: seq<Entry>)
    requires ProperEntry(first) && ProperEntries(rest)
    ensures var es := [first] + rest;
      var more := if rest == [] then "" else "," + SpellEntries(rest);
      && ProperEntries(es)
      && SpellEntries(es) + "}" == EntryText(first, more + "}")
      && |SpellEntries(es)| == EntryLength(first) + |more|
      && MembersOf(es) == [MemberOf(first)] + MembersOf(rest)
      && MembersNesting(MembersOf(es)) == Max(Nesting(TreeOf(first.value)), MembersNesting(MembersOf(rest)))
      && (rest == [] ==> MembersOf(es) == [MemberOf(first)] && MembersNesting(MembersOf(rest)) == 0)
  {
    var es := [first] + rest;
    assert es[1..] == rest;
    hide Spell, Proper, TreeOf, StringText, StringValue, ProperString;
    assert MembersOf(es)[1..] == MembersOf(rest);
    EntriesEnd(es, "}");
  }

  lemma {:induction false} EntriesEnd(es: seq<Entry>, end: Text)
    requires es != [] && ProperEntries(es) && ProperEntry(es[0])
    ensures SpellEntries(es) + end == EntryText(es[0], (if |es| > 1 then "," + SpellEntries(es[1..]) else "") + end)
  {
    hide Spell, Proper, StringText, ProperString;
  }
}
