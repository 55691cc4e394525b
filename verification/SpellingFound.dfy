/**
 Every buffer that is parsed spells the tree that is returned: nothing is accepted but the texts of
 `Spelling` (components/cJSON/cJSON.c:307-381, 792-896, 1058-1192, 1336-1388, 1465-1560, 1625-1740).
 */
module SpellingFound {
  import opened Bytes
  import opened JsonTree
  import opened Utf16
  import opened ParseSpec
  import opened Spelling
  import opened SpellingParses

  lemma Found(c: Text, off: nat, t: Text)
    requires off + |t| <= |c| && t == c[off..off + |t|]
    ensures At(c, off, t)
  {
  }

  lemma {:induction false} SkippedIsBlank(c: Text, off: nat)
    requires off <= |c|
    ensures var r := SkipWhitespace(c, off);
      && r <= |c| && Blank(c[off..r]) && (off < |c| ==> r == |c| - 1 || c[r] as int > 32)
    decreases |c| - off
  {
    if off + 1 < |c| && c[off] as int <= 32 {
      SkippedIsBlank(c, off + 1);
      var r := SkipWhitespace(c, off + 1);
      assert c[off..r] == [c[off]] + c[off + 1..r];
    }
  }

  // ----- strings

  lemma {:induction false} UnclosedFound(c: Text, q: nat, e: nat)
    requires ClosingQuote(c, q) == Some(e)
    ensures q <= e < |c| && Unclosed(c[q..e]) && c[e] == '\"'
    decreases |c| - q
  {
    if c[q] != '\"' {
      var k := if c[q] == '\\' then 2 else 1;
      UnclosedFound(c, q + k, e);
      assert c[q..e][k..] == c[q + k..e];
    }
  }

  lemma UnitFound(c: Text, p: nat, end: nat) returns (piece: Piece)
    requires p < end < |c| && c[p] == '\\' && c[p + 1] == 'u' && DecodeLiteral(c, p, end).Literal?
    ensures var l := DecodeLiteral(c, p, end);
      && ProperPiece(piece) && !piece.Short? && |PieceText(piece)| == l.length && At(c, p, PieceText(piece))
      && PieceBytes(piece) == Utf8(l.codepoint)
  {
    hide Hex4;
    var l := DecodeLiteral(c, p, end);
    var d := c[p + 2..p + 6];
    Found(c, p + 2, d);
    Hex4At(c, p + 2, d);
    if l.length == 6 {
      piece := Unit(d);
      assert c[p..p + 6] == "\\u" + d;
    } else {
      var low := c[p + 8..p + 12];
      Found(c, p + 8, low);
      Hex4At(c, p + 8, low);
      piece := Pair(d, low);
      var h, g := Hex4(c, p + 2), Hex4(c, p + 8);
      assert h % 1024 == h - 0xD800 && g % 1024 == g - 0xDC00;
      assert c[p..p + 12] == "\\u" + d + ("\\u" + low);
    }
  }

  lemma ShortFound(letter: Byte) returns (k: nat)
    requires ShortEscape(letter).Some?
    ensures k < |LETTERS| && LETTERS[k] == letter && [MEANINGS[k]] == [ShortEscape(letter).value]
    ensures k == 5 <==> letter == '\"'
  {
    k := if letter == 'b' then 0 else if letter == 'f' then 1 else if letter == 'n' then 2 else if letter == 'r' then 3
         else if letter == 't' then 4 else if letter == '\"' then 5 else if letter == '\\' then 6 else 7;
  }

  /** One step of the second pass, as a piece. */
  lemma PieceFound(c: Text, p: nat, end: nat) returns (piece: Piece, m: nat)
    requires p < end < |c| && Unescape(c, p, end).Ok? && c[end] == '\"'
    ensures ProperPiece(piece) && m == p + |PieceText(piece)| <= end + 1 && At(c, p, PieceText(piece))
    ensures m == end + 1 ==> piece == Short(5)
    ensures Unescape(c, m, end).Ok?
    ensures Unescape(c, p, end) == Prepend(PieceBytes(piece), Unescape(c, m, end))
  {
    hide DecodeLiteral, Utf8, Hex4;
    if c[p] != '\\' {
      piece, m := Plain(c[p]), p + 1;
    } else if c[p + 1] == 'u' {
      piece := UnitFound(c, p, end);
      m := p + |PieceText(piece)|;
    } else {
      var k := ShortFound(c[p + 1]);
      piece, m := Short(k), p + 2;
      assert c[p..p + 2] == ['\\', LETTERS[k]];
    }
  }

  lemma {:induction false} PiecesFound(c: Text, p: nat, end: nat) returns (ps: seq<Piece>)
    requires p <= end + 1 && end < |c| && c[end] == '\"' && Unescape(c, p, end).Ok?
    ensures ProperPieces(ps) && At(c, p, PiecesText(ps))
    ensures Unescape(c, p, end) == Ok(PiecesBytes(ps), p + |PiecesText(ps)|)
    ensures var m := p + |PiecesText(ps)|;
      m == end || (m == end + 1 && (p <= end ==> ps != [] && ps[|ps| - 1] == Short(5)))
    ensures p == end + 1 ==> ps == []
    decreases end + 1 - p
  {
    hide PieceText, PieceBytes, ProperPiece;
    if p >= end {
      ps := [];
    } else {
      var piece, m := PieceFound(c, p, end);
      var rest := PiecesFound(c, m, end);
      ps := [piece] + rest;
      assert ps[1..] == rest;
      AtConcat(c, p, PieceText(piece), PiecesText(rest));
    }
  }

  lemma StringFound(c: Text, off: nat) returns (ps: seq<Piece>)
    requires off < |c| && ParseString(c, off).Ok?
    ensures ProperString(ps) && At(c, off, StringText(ps))
    ensures ParseString(c, off) == Ok(StringValue(ps), off + |StringText(ps)|)
  {
    hide Unescape, PiecesText, PiecesBytes, ClosingQuote, CString, ProperPieces, Unclosed;
    var end := ClosingQuote(c, off + 1).value;
    UnclosedFound(c, off + 1, end);
    ps := PiecesFound(c, off + 1, end);
    var t := PiecesText(ps);
    if off + 1 + |t| == end {
      assert c[off + 1..end] == t;
      if EndsInEscape(ps) {
        LastByte(ps);
        NotBoth(t);
      }
      assert c[off..end + 1] == "\"" + (t + "\"");
    } else {
      LastByte(ps);
      assert c[off + 1..end] == t[..|t| - 1];
      assert c[off..end + 1] == "\"" + (t + "");
    }
    Found(c, off, StringText(ps));
  }

  // ----- numbers

  /** The exponent that `strtod` takes. */
  lemma PowerToExponent(t: Text, i: nat) returns (e: Exponent)
    requires i <= |t|
    ensures var p := PowerAt(t, i);
      && (e.Exponent? ==>
           && (e.letter == 'e' || e.letter == 'E') && (e.sign == "" || e.sign == "+" || e.sign == "-")
           && e.digits != [] && Digits(e.digits))
      && PowerLength(p) == |ExponentText(e)| && At(t, i, ExponentText(e)) && PowerOfTen(e) == PowerValue(p)
  {
    hide DigitsAt, DigitsValue, Decimal, At;
    var p := PowerAt(t, i);
    match p
    case NoPower =>
      e := NoExponent;
      Found(t, i, []);
    case Power(letter, sign, digits) =>
      e := Exponent(letter, sign, digits);
      DecimalIs(digits);
      var first := i + 1 + |sign|;
      Found(t, i, [letter]);
      Found(t, i + 1, sign);
      Found(t, first, digits);
      AtConcat(t, i, [letter], sign);
      AtConcat(t, i, [letter] + sign, digits);
  }

  lemma NumeralFound(t: Text) returns (n: Numeral)
    requires t != [] && (t[0] == '-' || IsDigit(t[0])) && |t| <= 63 && Strtod(t).consumed > 0
    ensures ProperNumeral(n) && At(t, 0, NumeralText(n))
    ensures Strtod(t) == Conversion(|NumeralText(n)|, NumeralValue(n))
  {
    hide Strtod, DigitsAt, Magnitude, PowerAt, PowerLength, PowerValue, PowerOfTen, ExponentText, NumeralText, NumeralValue, At;
    var whole, point, fraction, end := Converted(t);
    var e := PowerToExponent(t, end);
    n := Numeral(t[0] == '-', whole, point, fraction, e);
    NumeralAt(t, n);
    ValueIs(n, PowerAt(t, end));
  }

  /** The digits that `strtod` takes in front of the exponent, and its result. */
  lemma Converted(t: Text) returns (whole: Text, point: bool, fraction: Text, end: nat)
    requires t != [] && (t[0] == '-' || IsDigit(t[0])) && Strtod(t).consumed > 0
    ensures var sign := if t[0] == '-' then 1 else 0;
      && end == sign + |whole| + (if point then 1 + |fraction| else 0) && end <= |t|
      && At(t, 0, if t[0] == '-' then "-" else "") && At(t, sign, whole)
      && At(t, sign + |whole|, if point then "." + fraction else "")
    ensures Digits(whole) && Digits(fraction) && whole + fraction != [] && (!point ==> fraction == [])
    ensures t[0] != '-' ==> whole != []
    ensures var m := Magnitude(whole, fraction, PowerAt(t, end));
      Strtod(t) == Conversion(end + PowerLength(PowerAt(t, end)), if t[0] == '-' then -m else m)
  {
    hide DigitsAt, Magnitude, SignAt, PowerAt, PowerLength, At;
    var sign := SignAt(t, 0);
    whole := DigitsAt(t, |sign|);
    var i := |sign| + |whole|;
    point := i < |t| && t[i] == '.';
    fraction := if point then DigitsAt(t, i + 1) else [];
    end := if point then i + 1 + |fraction| else i;
    WholeNotEmpty(t);
    Found(t, 0, sign);
    Found(t, |sign|, whole);
    PointFound(t, i, point, fraction);
  }

  /** The parts of a numeral, put together. */
  lemma NumeralAt(t: Text, n: Numeral)
    requires var sign := if n.negative then 1 else 0;
      var point := sign + |n.whole|;
      var p := if n.point then "." + n.fraction else "";
      && At(t, 0, if n.negative then "-" else "") && At(t, sign, n.whole) && At(t, point, p)
      && At(t, point + |p|, ExponentText(n.exponent))
    ensures At(t, 0, NumeralText(n)) && |NumeralText(n)| <= |t|
    ensures |NumeralText(n)| ==
      (if n.negative then 1 else 0) + |n.whole| + (if n.point then 1 + |n.fraction| else 0) + |ExponentText(n.exponent)|
  {
    hide At, ExponentText;
    var s, p := if n.negative then "-" else "", if n.point then "." + n.fraction else "";
    AtConcat(t, 0, s, n.whole);
    AtConcat(t, 0, s + n.whole, p);
    AtConcat(t, 0, s + n.whole + p, ExponentText(n.exponent));
    Inside(t, NumeralText(n));
  }

  lemma Inside(t: Text, u: Text)
    requires At(t, 0, u)
    ensures |u| <= |t|
  {
  }

  lemma WholeNotEmpty(t: Text)
    requires t != [] && (t[0] == '-' || IsDigit(t[0]))
    ensures SignAt(t, 0) == (if t[0] == '-' then "-" else "")
    ensures t[0] != '-' ==> DigitsAt(t, 0) != []
  {
  }

  lemma PointFound(t: Text, i: nat, point: bool, fraction: Text)
    requires i <= |t| && (point <==> i < |t| && t[i] == '.')
    requires fraction == if point then DigitsAt(t, i + 1) else []
    ensures At(t, i, if point then "." + fraction else "")
  {
    hide DigitsAt;
    if point {
      assert t[i..i + 1 + |fraction|] == "." + fraction;
    }
  }

  lemma {:induction false} NumberFound(c: Text, off: nat) returns (n: Numeral)
    requires off < |c| && (c[off] == '-' || IsDigit(c[off])) && ParseNumber(c, off).Ok?
    ensures ProperNumeral(n) && At(c, off, NumeralText(n))
    ensures IsIntOf(Saturate(NumeralValue(n)), NumeralValue(n))
    ensures ParseNumber(c, off) == Ok(Number(NumeralValue(n), Saturate(NumeralValue(n))), off + |NumeralText(n)|)
  {
    hide Strtod, NumeralValue, NumeralText, ProperNumeral, Saturate, IsIntOf;
    var k := NumberLength(c, off, NUMBER_BUFFER);
    var t := c[off..off + k];
    NumberStarts(c, off);
    n := NumeralFound(t);
    SaturateIsIntOf(NumeralValue(n));
    assert c[off..off + |NumeralText(n)|] == t[..|NumeralText(n)|];
  }

  lemma NumberStarts(c: Text, off: nat)
    requires off < |c| && (c[off] == '-' || IsDigit(c[off]))
    ensures NumberLength(c, off, NUMBER_BUFFER) > 0
  {
  }

  // ----- trees

  lemma {:induction false} ValueFound(c: Text, off: nat, depth: nat) returns (sp: Spelled)
    requires off <= |c| && depth <= NESTING_LIMIT && ParseValue(c, off, depth).Ok?
    ensures Proper(sp) && At(c, off, Spell(sp)) && depth + Nesting(TreeOf(sp)) <= NESTING_LIMIT
    ensures ParseValue(c, off, depth) == Ok(TreeOf(sp), off + |Spell(sp)|)
    decreases |c| - off, 3
  {
    hide ParseString, ParseNumber, ParseArray, ParseObject, StringText, NumeralText, SpellElements, SpellEntries;
    if At(c, off, "null") {
      sp := Word(Null);
    } else if At(c, off, "false") {
      sp := Word(False);
    } else if At(c, off, "true") {
      sp := Word(True);
    } else if c[off] == '\"' {
      var ps := StringFound(c, off);
      sp := Str(ps);
    } else if c[off] == '-' || IsDigit(c[off]) {
      var n := NumberFound(c, off);
      sp := Numeric(n, Saturate(NumeralValue(n)));
    } else if c[off] == '[' {
      sp := ArrayFound(c, off, depth);
    } else {
      sp := ObjectFound(c, off, depth);
    }
  }

  lemma {:induction false} ArrayFound(c: Text, off: nat, depth: nat) returns (sp: Spelled)
    requires off < |c| && depth <= NESTING_LIMIT && ParseArray(c, off, depth).Ok?
    ensures Proper(sp) && At(c, off, Spell(sp)) && depth + Nesting(TreeOf(sp)) <= NESTING_LIMIT
    ensures ParseArray(c, off, depth) == Ok(TreeOf(sp), off + |Spell(sp)|)
    decreases |c| - off, 2
  {
    hide Spell, SpellElements, ItemsOf, TreeOf, Proper, Nesting, ItemsNesting, ParseItems, SkipWhitespace, Blank, At;
    var start := SkipWhitespace(c, off + 1);
    SkippedIsBlank(c, off + 1);
    Found(c, off, "[");
    var inner := c[off + 1..start];
    if c[start] == ']' {
      sp := Arr(inner, []);
      NoItemsOf();
      ProperArray(inner, []);
      Found(c, off + 1, inner);
      Found(c, start, "]");
      AtConcat(c, off + 1, inner, "]");
      AtConcat(c, off, "[", inner + "]");
    } else {
      StaysThere(c, off + 1);
      var es := ElementsFound(c, start - 1, off + 1, depth + 1);
      sp := Arr(inner, es);
      ProperArray(inner, es);
      AtConcat(c, off, "[", SpellElements(es) + "]");
    }
  }

  lemma StaysThere(c: Text, off: nat)
    requires off <= |c|
    ensures SkipWhitespace(c, SkipWhitespace(c, off)) == SkipWhitespace(c, off)
  {
    SkippedIsBlank(c, off);
  }

  /** What a successful loop over elements has seen. */
  lemma ItemsUnfold(c: Text, off: nat, depth: nat)
    requires off < |c| && ParseItems(c, off, depth).Ok?
    ensures var r := ParseValue(c, SkipWhitespace(c, off + 1), depth);
      && r.Ok?
      && var next := SkipWhitespace(c, r.next);
      && next < |c| && (c[next] == ',' || c[next] == ']')
      && (c[next] == ',' ==>
           && ParseItems(c, next, depth).Ok?
           && ParseItems(c, off, depth) == Prepend([r.value], ParseItems(c, next, depth)))
      && (c[next] == ']' ==> ParseItems(c, off, depth) == Ok([r.value], next + 1))
  {
    hide ParseValue;
  }

  /** The elements behind the bracket or comma at `off`; `p` is where the white space behind it begins. */
  lemma {:induction false} ElementsFound(c: Text, off: nat, p: nat, depth: nat) returns (es: seq<Element>)
    requires off < |c| && depth <= NESTING_LIMIT && ParseItems(c, off, depth).Ok?
    requires p <= SkipWhitespace(c, off + 1) <= |c| && Blank(c[p..SkipWhitespace(c, off + 1)])
    ensures es != [] && ProperElements(es) && depth + ItemsNesting(ItemsOf(es)) <= NESTING_LIMIT
    ensures At(c, p, SpellElements(es) + "]")
    ensures ParseItems(c, off, depth) == Ok(ItemsOf(es), p + |SpellElements(es)| + 1)
    decreases |c| - off, 1
  {
    hide Spell, SpellElements, ItemsOf, TreeOf, Proper, Nesting, ItemsNesting, ParseItems, ParseValue, SkipWhitespace, Blank, At;
    var start := SkipWhitespace(c, off + 1);
    ItemsUnfold(c, off, depth);
    var sp := ValueFound(c, start, depth);
    var n := start + |Spell(sp)|;
    var next := SkipWhitespace(c, n);
    SkippedIsBlank(c, n);
    var first := Element(c[p..start], sp, c[n..next]);
    var rest := [];
    if c[next] == ',' {
      SkippedIsBlank(c, next + 1);
      rest := ElementsFound(c, next, next + 1, depth);
      Found(c, next, ",");
      AtConcat(c, next, ",", SpellElements(rest) + "]");
      Regroup(",", SpellElements(rest), "]");
    } else {
      Found(c, next, "]");
    }
    es := [first] + rest;
    ElementsPrepended(first, rest);
    Found(c, p, first.before);
    Found(c, n, first.after);
    var more := if rest == [] then "" else "," + SpellElements(rest);
    assert rest == [] ==> more + "]" == "]";
    AtConcat(c, n, first.after, more + "]");
    AtConcat(c, start, Spell(sp), first.after + (more + "]"));
    AtConcat(c, p, first.before, Spell(sp) + (first.after + (more + "]")));
  }

  lemma {:induction false} ObjectFound(c: Text, off: nat, depth: nat) returns (sp: Spelled)
    requires off < |c| && depth <= NESTING_LIMIT && ParseObject(c, off, depth).Ok?
    ensures Proper(sp) && At(c, off, Spell(sp)) && depth + Nesting(TreeOf(sp)) <= NESTING_LIMIT
    ensures ParseObject(c, off, depth) == Ok(TreeOf(sp), off + |Spell(sp)|)
    decreases |c| - off, 2
  {
    hide Spell, SpellEntries, MembersOf, TreeOf, Proper, Nesting, MembersNesting, ParseMembers, SkipWhitespace, Blank, At;
    var start := SkipWhitespace(c, off + 1);
    SkippedIsBlank(c, off + 1);
    Found(c, off, "{");
    var inner := c[off + 1..start];
    if c[start] == '}' {
      sp := Obj(inner, []);
      NoMembersOf();
      ProperObject(inner, []);
      Found(c, off + 1, inner);
      Found(c, start, "}");
      AtConcat(c, off + 1, inner, "}");
      AtConcat(c, off, "{", inner + "}");
    } else {
      StaysThere(c, off + 1);
      var es := EntriesFound(c, start - 1, off + 1, depth + 1);
      sp := Obj(inner, es);
      ProperObject(inner, es);
      AtConcat(c, off, "{", SpellEntries(es) + "}");
    }
  }

  /** What a successful loop over members has seen. */
  lemma MembersUnfold(c: Text, off: nat, depth: nat) returns (m: Member, colon: nat, n: nat)
    requires off < |c| && ParseMembers(c, off, depth).Ok?
    ensures off + 1 < |c| && ParseKey(c, SkipWhitespace(c, off + 1)) == Ok(m.key, colon)
    ensures colon < |c| && ParseValue(c, SkipWhitespace(c, colon + 1), depth) == Ok(m.value, n)
    ensures n <= |c| && SkipWhitespace(c, n) < |c|
    ensures var next := SkipWhitespace(c, n);
      if c[next] == ',' then
        && ParseMembers(c, next, depth).Ok?
        && ParseMembers(c, off, depth) == Prepend([m], ParseMembers(c, next, depth))
      else c[next] == '}' && ParseMembers(c, off, depth) == Ok([m], next + 1)
  {
    hide ParseValue, ParseKey;
    var key := ParseKey(c, SkipWhitespace(c, off + 1));
    colon := key.next;
    var v := ParseValue(c, SkipWhitespace(c, colon + 1), depth);
    m, n := Member(key.value, v.value), v.next;
  }

  /** A key, and the white space between it and the colon. */
  lemma KeyFound(c: Text, off: nat) returns (ps: seq<Piece>, between: Text)
    requires off < |c| && ParseKey(c, off).Ok?
    ensures ProperString(ps) && Blank(between) && At(c, off, StringText(ps))
    ensures var n := off + |StringText(ps)|;
      && ParseKey(c, off) == Ok(StringValue(ps), n + |between|)
      && At(c, n, between) && At(c, n + |between|, ":")
  {
    hide ParseString, StringText, StringValue, SkipWhitespace, PiecesText, Blank;
    ps := StringFound(c, off);
    var n := off + |StringText(ps)|;
    SkippedIsBlank(c, n);
    between := c[n..SkipWhitespace(c, n)];
  }

  lemma {:induction false} EntriesFound(c: Text, off: nat, p: nat, depth: nat) returns (es: seq<Entry>)
    requires off < |c| && depth <= NESTING_LIMIT && ParseMembers(c, off, depth).Ok?
    requires p <= SkipWhitespace(c, off + 1) <= |c| && Blank(c[p..SkipWhitespace(c, off + 1)])
    ensures es != [] && ProperEntries(es) && depth + MembersNesting(MembersOf(es)) <= NESTING_LIMIT
    ensures At(c, p, SpellEntries(es) + "}")
    ensures ParseMembers(c, off, depth) == Ok(MembersOf(es), p + |SpellEntries(es)| + 1)
    decreases |c| - off, 1
  {
    hide Spell, SpellEntries, MembersOf, TreeOf, Proper, Nesting, MembersNesting, ParseMembers, ParseKey, ParseValue, SkipWhitespace;
    hide Blank, At, StringText, StringValue, PiecesText, EntryText, ProperEntry, MemberAt;
    var first, next := EntryFound(c, off, p, depth);
    var rest := [];
    if c[next] == ',' {
      SkippedIsBlank(c, next + 1);
      rest := EntriesFound(c, next, next + 1, depth);
      Found(c, next, ",");
      AtConcat(c, next, ",", SpellEntries(rest) + "}");
      Regroup(",", SpellEntries(rest), "}");
    } else {
      Found(c, next, "}");
    }
    es := [first] + rest;
    EntriesPrepended(first, rest);
    var more := if rest == [] then "" else "," + SpellEntries(rest);
    assert rest == [] ==> more + "}" == "}";
    EntryAt(c, p, first, more + "}");
  }

  /** The parts of the member `e` stand at `p`. */
  ghost predicate MemberAt(c: Text, p: nat, e: Entry)
    requires ProperEntry(e)
  {
    var key := p + |e.before|;
    var n := key + |StringText(e.key)|;
    var colon := n + |e.between|;
    var start := colon + 1 + |e.behind|;
    && At(c, p, e.before) && At(c, key, StringText(e.key)) && At(c, n, e.between) && At(c, colon, ":")
    && At(c, colon + 1, e.behind) && At(c, start, Spell(e.value))
    && At(c, start + |Spell(e.value)|, e.after)
  }

  /** One member, up to the comma or brace at `next`. */
  lemma {:induction false} EntryFound(c: Text, off: nat, p: nat, depth: nat) returns (e: Entry, next: nat)
    requires off < |c| && depth <= NESTING_LIMIT && ParseMembers(c, off, depth).Ok?
    requires p <= SkipWhitespace(c, off + 1) <= |c| && Blank(c[p..SkipWhitespace(c, off + 1)])
    ensures ProperEntry(e) && MemberAt(c, p, e) && next == p + EntryLength(e) && off < next < |c|
    ensures depth + Nesting(TreeOf(e.value)) <= NESTING_LIMIT
    ensures c[next] == ',' || c[next] == '}'
    ensures c[next] == ',' ==>
      && ParseMembers(c, next, depth).Ok?
      && ParseMembers(c, off, depth) == Prepend([MemberOf(e)], ParseMembers(c, next, depth))
    ensures c[next] == '}' ==> ParseMembers(c, off, depth) == Ok([MemberOf(e)], next + 1)
    decreases |c| - off, 0
  {
    hide Spell, TreeOf, Proper, Nesting, ParseMembers, ParseKey, ParseValue, SkipWhitespace;
    hide Blank, At, StringText, StringValue, PiecesText;
    var key := SkipWhitespace(c, off + 1);
    var m, colon, n := MembersUnfold(c, off, depth);
    var ps, between := KeyFound(c, key);
    var start := SkipWhitespace(c, colon + 1);
    SkippedIsBlank(c, colon + 1);
    var sp := ValueFound(c, start, depth);
    next := SkipWhitespace(c, n);
    SkippedIsBlank(c, n);
    e := Entry(c[p..key], ps, between, c[colon + 1..start], sp, c[n..next]);
    Found(c, p, e.before);
    Found(c, colon + 1, e.behind);
    Found(c, n, e.after);
  }

  /** The parts of a member, put together. */
  lemma EntryAt(c: Text, p: nat, e: Entry, end: Text)
    requires ProperEntry(e) && MemberAt(c, p, e) && At(c, p + EntryLength(e), end)
    ensures At(c, p, EntryText(e, end))
  {
    hide Spell, StringText, At;
    var key := p + |e.before|;
    var n := key + |StringText(e.key)|;
    var colon := n + |e.between|;
    var start := colon + 1 + |e.behind|;
    var t := Spell(e.value);
    AtConcat(c, start + |t|, e.after, end);
    AtConcat(c, start, t, e.after + end);
    AtConcat(c, colon + 1, e.behind, t + (e.after + end));
    AtConcat(c, colon, ":", e.behind + (t + (e.after + end)));
    AtConcat(c, n, e.between, ":" + (e.behind + (t + (e.after + end))));
    AtConcat(c, key, StringText(e.key), e.between + (":" + (e.behind + (t + (e.after + end)))));
    AtConcat(c, p, e.before, StringText(e.key) + (e.between + (":" + (e.behind + (t + (e.after + end))))));
  }

  // ----- documents

  /** A buffer that is parsed, with a NUL required at its end, is one of the texts of `Spelling`. */
  lemma DocumentFound(c: Text) returns (d: Document)
    requires c != [] && ParseDocument(c, true).Ok?
    ensures ProperDocument(d, NESTING_LIMIT) && SpellDocument(d) == c
    ensures ParseDocument(c, true) == Ok(TreeOf(d.root), |c| - 1)
  {
    hide Spell, ParseDocument, ParseValue, SkipWhitespace, SkipBom, SpellDocument, TreeOf, Proper, Nesting, At, Blank;
    DocumentUnfold(c);
    var first := SkipBom(c);
    MarkFound(c);
    var start := SkipWhitespace(c, first);
    SkippedIsBlank(c, first);
    var sp := ValueFound(c, start, 0);
    var n := start + |Spell(sp)|;
    var end := SkipWhitespace(c, n);
    SkippedIsBlank(c, n);
    d := Document(first == 3, c[first..start], sp, c[n..end]);
    Found(c, 0, c[0..first]);
    Found(c, first, d.before);
    Found(c, n, d.after);
    Found(c, end, [NUL]);
    Assembled(c, d);
  }

  /** The parts of a document, put together. */
  lemma Assembled(c: Text, d: Document)
    requires Proper(d.root)
    requires var mark := if d.mark then BYTE_ORDER_MARK else [];
      var start := |mark| + |d.before|;
      var n := start + |Spell(d.root)|;
      && At(c, 0, mark) && At(c, |mark|, d.before) && At(c, start, Spell(d.root)) && At(c, n, d.after)
      && At(c, n + |d.after|, [NUL]) && |c| == n + |d.after| + 1
    ensures SpellDocument(d) == c
  {
    hide Spell, Proper, At;
    var mark := if d.mark then BYTE_ORDER_MARK else [];
    var start, t := |mark| + |d.before|, Spell(d.root);
    AtConcat(c, start + |t|, d.after, [NUL]);
    AtConcat(c, start, t, d.after + [NUL]);
    AtConcat(c, |mark|, d.before, t + (d.after + [NUL]));
    AtConcat(c, 0, mark, d.before + (t + (d.after + [NUL])));
    All(c, SpellDocument(d));
  }

  lemma All(c: Text, t: Text)
    requires At(c, 0, t) && |t| == |c|
    ensures t == c
  {
  }

  lemma DocumentUnfold(c: Text)
    requires c != [] && ParseDocument(c, true).Ok?
    ensures var r := ParseValue(c, SkipWhitespace(c, SkipBom(c)), 0);
      && r.Ok?
      && var end := SkipWhitespace(c, r.next);
      && end < |c| && c[end] == NUL && ParseDocument(c, true) == Ok(r.value, end)
  {
    hide ParseValue, SkipWhitespace, SkipBom;
  }

  lemma MarkFound(c: Text)
    ensures c[..SkipBom(c)] == (if SkipBom(c) == 3 then BYTE_ORDER_MARK else []) && (SkipBom(c) == 3 || SkipBom(c) == 0)
  {
  }

  /**
   The parser accepts a buffer and returns the tree `v` if and only if the buffer spells `v`, nested no
   deeper than the limit.
   */
  lemma {:induction false} AcceptedDocuments(c: Text, v: Json)
    requires c != []
    ensures (ParseDocument(c, true).Ok? && ParseDocument(c, true).value == v) <==>
            exists d :: ProperDocument(d, NESTING_LIMIT) && SpellDocument(d) == c && TreeOf(d.root) == v
  {
    hide Spell, TreeOf, Proper, Nesting, ParseDocument, SpellDocument;
    if ParseDocument(c, true).Ok? {
      var d := DocumentFound(c);
    }
    forall d | ProperDocument(d, NESTING_LIMIT) && SpellDocument(d) == c
      ensures ParseDocument(c, true) == Ok(TreeOf(d.root), |c| - 1)
    {
      DocumentParses(d);
    }
  }

  // ----- a value with other bytes behind it

  /** Without a NUL required, a value is read from the front of a buffer, whatever stands behind it. */
  lemma {:induction false} LeadingValueParses(mark: bool, before: Text, root: Spelled, rest: Text)
    requires Blank(before) && Proper(root) && Nesting(TreeOf(root)) <= NESTING_LIMIT
    requires rest != [] && !NumberByte(rest[0])
    ensures var c := (if mark then BYTE_ORDER_MARK else []) + (before + (Spell(root) + rest));
      ParseDocument(c, false) == Ok(TreeOf(root), |c| - |rest|)
  {
    hide Spell, ParseDocument, SkipBom, TreeOf, Proper, Nesting, At, Blank, NumberByte;
    var first, t := if mark then BYTE_ORDER_MARK else [], Spell(root);
    var c := first + (before + (t + rest));
    Whole(c);
    AtConcat(c, 0, first, before + (t + rest));
    AtConcat(c, |first|, before, t + rest);
    AtConcat(c, |first| + |before|, t, rest);
    FirstByte(root);
    MarkIs(c, mark, before, t + rest);
    LeadingAt(c, |first|, before, root, rest);
  }

  lemma LeadingAt(c: Text, first: nat, before: Text, root: Spelled, rest: Text)
    requires Blank(before) && Proper(root) && Nesting(TreeOf(root)) <= NESTING_LIMIT
    requires rest != [] && !NumberByte(rest[0]) && c != [] && SkipBom(c) == first
    requires At(c, first, before) && At(c, first + |before|, Spell(root)) && At(c, first + |before| + |Spell(root)|, rest)
    ensures ParseDocument(c, false) == Ok(TreeOf(root), first + |before| + |Spell(root)|)
  {
    hide Spell, ParseValue, SkipWhitespace, SkipBom, TreeOf, Proper, Nesting, At, Blank, Ends, NumberByte;
    FirstByte(root);
    AtByte(c, first + |before|, Spell(root), 0);
    AtByte(c, first + |before| + |Spell(root)|, rest, 0);
    SkipBlank(c, first, before);
    EndsWith(c, first + |before| + |Spell(root)|);
    ValueParses(c, first + |before|, root, 0);
  }

  lemma EndsWith(c: Text, p: nat)
    requires p < |c| && !NumberByte(c[p])
    ensures Ends(c, p)
  {
  }

  lemma MarkIs(c: Text, mark: bool, before: Text, rest: Text)
    requires c == (if mark then BYTE_ORDER_MARK else []) + (before + rest) && |rest| >= 2 && Blank(before)
    requires rest[0] as int != 0xEF
    ensures SkipBom(c) == if mark then 3 else 0
  {
    if !mark {
      assert c[0] == if before == [] then rest[0] else before[0];
    }
  }

  /** And nothing else is read from the front of a buffer. */
  lemma LeadingValueFound(c: Text) returns (root: Spelled, before: Text)
    requires c != [] && ParseDocument(c, false).Ok?
    ensures Blank(before) && Proper(root) && Nesting(TreeOf(root)) <= NESTING_LIMIT
    ensures var n := SkipBom(c) + |before| + |Spell(root)|;
      && ParseDocument(c, false) == Ok(TreeOf(root), n) && n <= |c|
      && c[..n] == (if SkipBom(c) == 3 then BYTE_ORDER_MARK else []) + (before + Spell(root))
  {
    hide Spell, ParseValue, SkipWhitespace, SkipBom, TreeOf, Proper, Nesting, Blank;
    var first := SkipBom(c);
    var start := SkipWhitespace(c, first);
    SkippedIsBlank(c, first);
    root := ValueFound(c, start, 0);
    before := c[first..start];
    var n := start + |Spell(root)|;
    MarkFound(c);
    assert c[start..n] == Spell(root);
    assert c[..n] == c[..first] + (c[first..start] + c[start..n]);
  }
}
