/**
 Printing and parsing back: the text of a printable tree, formatted or compact, is one of the texts that
 spell the tree, so it parses to that tree and nothing of it is left over.
 */
module RoundTrip {
  import opened Bytes
  import opened JsonTree
  import Utf16
  import opened ParseSpec
  import opened Spelling
  import opened SpellingParses

  // ----- strings

  /** The spelling of a byte that the printer chooses. */
  function PieceOf(b: Byte): Piece {
    if b as int > 31 && b != '\"' && b != '\\' then Plain(b)
    else if b == '\\' then Short(6)
    else if b == '\"' then Short(5)
    else if b == BACKSPACE then Short(0)
    else if b == FORM_FEED then Short(1)
    else if b == '\n' then Short(2)
    else if b == '\r' then Short(3)
    else if b == '\t' then Short(4)
    else Unit(['0', '0', HexDigit(b as int / 16), HexDigit(b as int % 16)])
  }

  function PiecesOf(s: Text): (ps: seq<Piece>)
    ensures |ps| == |s| && forall i :: 0 <= i < |s| ==> ps[i] == PieceOf(s[i])
  {
    seq(|s|, i requires 0 <= i < |s| => PieceOf(s[i]))
  }

  lemma PieceOfByte(b: Byte)
    ensures StrictPiece(PieceOf(b)) && PieceText(PieceOf(b)) == EscapeByte(b) && PieceBytes(PieceOf(b)) == [b]
  {
    var p := PieceOf(b);
    if p.Unit? {
      ControlDigits(b);
      assert "\\u" + p.digits == "\\u00" + [HexDigit(b as int / 16), HexDigit(b as int % 16)];
    }
  }

  lemma ControlDigits(b: Byte)
    requires (b as int) < 32
    ensures var d: Text := ['0', '0', HexDigit(b as int / 16), HexDigit(b as int % 16)];
      Utf16.FourHex(d, 0) && Written(d) == b as int && Utf16.Utf8(b as int) == [b]
  {
    var d: Text := ['0', '0', HexDigit(b as int / 16), HexDigit(b as int % 16)];
    assert Utf16.HexValue(d[2]) == b as int / 16 && Utf16.HexValue(d[3]) == b as int % 16;
    assert Utf16.FourHex(d, 0);
  }

  lemma {:induction false} PiecesOfText(s: Text)
    ensures forall i :: 0 <= i < |s| ==> StrictPiece(PiecesOf(s)[i])
    ensures PiecesText(PiecesOf(s)) == Escape(s) && PiecesBytes(PiecesOf(s)) == s
    decreases |s|
  {
    hide PieceOf, StrictPiece, ProperPiece, EscapeByte, PieceText, PieceBytes;
    forall i | 0 <= i < |s| ensures StrictPiece(PiecesOf(s)[i]) && ProperPiece(PiecesOf(s)[i]) {
      PieceOfByte(s[i]);
      StrictPieceIsProper(PieceOf(s[i]));
    }
    if s != [] {
      PieceOfByte(s[0]);
      PiecesOfText(s[1..]);
      assert PiecesOf(s)[1..] == PiecesOf(s[1..]);
      assert [s[0]] + s[1..] == s;
    }
  }

  lemma StrictPieceIsProper(p: Piece)
    requires StrictPiece(p)
    ensures ProperPiece(p)
  {
  }

  /** A quoted string is a spelling of the string. */
  lemma QuoteSpells(s: Text)
    requires NulFree(s)
    ensures ProperString(PiecesOf(s)) && StringText(PiecesOf(s)) == Quote(s) && StringValue(PiecesOf(s)) == s
  {
    hide Escape, PiecesText, PiecesBytes, StrictPiece;
    PiecesOfText(s);
    StrictIsProper(PiecesOf(s));
    CStringUnique(s, s);
    assert "\"" + (Escape(s) + "\"") == Quote(s);
  }

  // ----- numbers

  function NumeralOf(i: int): Numeral {
    Numeral(i < 0, NatText(if i < 0 then -i else i), false, [], NoExponent)
  }

  lemma {:induction false} NatTextDigits(n: nat)
    ensures Digits(NatText(n)) && Decimal(NatText(n)) == n
  {
    var t := NatText(n);
    if n >= 10 {
      NatTextDigits(n / 10);
      assert t[..|t| - 1] == NatText(n / 10);
    }
    DecimalLast(t);
  }

  lemma {:induction false} NatTextLength(n: nat, digits: nat)
    requires n < TenTo(digits) && digits >= 1
    ensures |NatText(n)| <= digits
    decreases digits
  {
    if n >= 10 {
      NatTextLength(n / 10, digits - 1);
    }
  }

  lemma IntSpells(i: int)
    requires INT_MIN <= i <= INT_MAX
    ensures ProperNumeral(NumeralOf(i)) && NumeralText(NumeralOf(i)) == IntText(i)
    ensures NumeralValue(NumeralOf(i)) == i as real && IsIntOf(i, i as real)
  {
    hide NatText, Decimal;
    var m := if i < 0 then -i else i;
    NatTextDigits(m);
    assert TenTo(10) == 10_000_000_000 by {
      assert TenTo(3) == 1000;
      assert TenTo(6) == 1_000_000;
      assert TenTo(9) == 1_000_000_000;
    }
    NatTextLength(m, 10);
    assert NatText(m) + [] == NatText(m);
    assert TenTo(0) == 1;
  }

  // ----- trees

  /** The spelling of a tree that the printer chooses. */
  ghost function SpellingOf(v: Json, fmt: bool, depth: nat): Spelled
    decreases v, 1
  {
    match v
    case Number(_, i) => Numeric(NumeralOf(i), i)
    case String(s) => Str(PiecesOf(s))
    case Array(items) => Arr([], ElementsOf(items, [], fmt, depth + 1))
    case Object(members) => Obj(Newline(fmt) + Indent(fmt, depth), EntriesOf(members, fmt, depth + 1))
    case _ => Word(v)
  }

  ghost function ElementsOf(items: seq<Json>, before: Text, fmt: bool, depth: nat): (es: seq<Element>)
    ensures |es| == |items|
    decreases items, 0
  {
    if items == [] then [] else
      [Element(before, SpellingOf(items[0], fmt, depth), [])]
      + ElementsOf(items[1..], if fmt then " " else "", fmt, depth)
  }

  ghost function EntriesOf(members: seq<Member>, fmt: bool, depth: nat): (es: seq<Entry>)
    requires depth > 0
    ensures |es| == |members|
    decreases members, 3
  {
    if members == [] then [] else [EntryOf(members, fmt, depth)] + EntriesOf(members[1..], fmt, depth)
  }

  ghost function EntryOf(members: seq<Member>, fmt: bool, depth: nat): Entry
    requires members != [] && depth > 0
    decreases members, 2
  {
    Entry(Newline(fmt) + Indent(fmt, depth), PiecesOf(members[0].key), [], if fmt then "\t" else "",
          SpellingOf(members[0].value, fmt, depth),
          if |members| > 1 then [] else Newline(fmt) + Indent(fmt, depth - 1))
  }

  lemma LayoutIsBlank(fmt: bool, depth: nat)
    ensures Blank(Newline(fmt) + Indent(fmt, depth))
    ensures Blank([]) && Blank(" ") && Blank("\t")
  {
  }

  /** What is printed spells the tree. */
  lemma {:induction false} RenderSpells(v: Json, fmt: bool, depth: nat)
    requires Printable(v)
    ensures var sp := SpellingOf(v, fmt, depth);
      Proper(sp) && Spell(sp) == Render(v, fmt, depth) && TreeOf(sp) == v
    decreases v, 1
  {
    hide PiecesOf, NumeralOf, StringText, StringValue, NumeralText, NumeralValue, ProperString, ProperNumeral, IntText, Quote;
    hide ElementsOf, EntriesOf, SpellElements, SpellEntries, ItemsOf, MembersOf, RenderItems, RenderMembers;
    match v
    case Number(_, i) => IntSpells(i);
    case String(s) => QuoteSpells(s);
    case Array(items) => ArraySpells(items, fmt, depth);
    case Object(members) => ObjectSpells(members, fmt, depth);
    case _ =>
  }

  lemma {:induction false} ArraySpells(items: seq<Json>, fmt: bool, depth: nat)
    requires Printable(Array(items))
    ensures var sp := SpellingOf(Array(items), fmt, depth);
      Proper(sp) && Spell(sp) == Render(Array(items), fmt, depth) && TreeOf(sp) == Array(items)
    decreases items, 1
  {
    hide SpellingOf, ElementsOf, SpellElements, ItemsOf, Render, RenderItems, Proper, Spell, TreeOf, Printable, Blank;
    var es := ElementsOf(items, [], fmt, depth + 1);
    ContainerUnfold(Array(items), fmt, depth);
    LayoutIsBlank(fmt, depth);
    ElementsSpell(items, [], fmt, depth + 1);
    ProperArray([], es);
    if items == [] {
      NoRender(fmt, depth + 1);
    }
    var body := RenderItems(items, fmt, depth + 1);
    assert [] + body == body;
    Regroup("[", body, "]");
  }

  /** One level of the spelling and of the text. */
  lemma ContainerUnfold(v: Json, fmt: bool, depth: nat)
    requires Printable(v)
    ensures v.Array? ==>
      && SpellingOf(v, fmt, depth) == Arr([], ElementsOf(v.items, [], fmt, depth + 1))
      && Render(v, fmt, depth) == "[" + RenderItems(v.items, fmt, depth + 1) + "]"
      && (forall i :: 0 <= i < |v.items| ==> Printable(v.items[i]))
    ensures v.Object? ==>
      && SpellingOf(v, fmt, depth) == Obj(Newline(fmt) + Indent(fmt, depth), EntriesOf(v.members, fmt, depth + 1))
      && Render(v, fmt, depth) == "{" + Newline(fmt) + RenderMembers(v.members, fmt, depth + 1) + Indent(fmt, depth) + "}"
      && (forall i :: 0 <= i < |v.members| ==> NulFree(v.members[i].key) && Printable(v.members[i].value))
  {
    hide ElementsOf, EntriesOf, RenderItems, RenderMembers, Newline, Indent, NulFree;
  }

  lemma NoRender(fmt: bool, depth: nat)
    ensures RenderItems([], fmt, depth) == [] && RenderMembers([], fmt, depth) == []
  {
  }

  lemma {:induction false} ElementsSpell(items: seq<Json>, before: Text, fmt: bool, depth: nat)
    requires (forall i :: 0 <= i < |items| ==> Printable(items[i])) && Blank(before)
    ensures var es := ElementsOf(items, before, fmt, depth);
      && ProperElements(es) && ItemsOf(es) == items
      && (items != [] ==> SpellElements(es) == before + RenderItems(items, fmt, depth))
    decreases items, 0
  {
    hide Spell, SpellElements, TreeOf, Proper, Render, RenderItems, ItemsOf, SpellingOf, Printable, Blank;
    if items == [] {
      NoItemsOf();
    } else {
      var w := if fmt then " " else "";
      LayoutIsBlank(fmt, depth);
      RenderSpells(items[0], fmt, depth);
      ElementsSpell(items[1..], w, fmt, depth);
      var first, rest := Element(before, SpellingOf(items[0], fmt, depth), []), ElementsOf(items[1..], w, fmt, depth);
      ElementsPrepended(first, rest);
      assert [items[0]] + items[1..] == items;
      RenderItemsText(items, fmt, depth);
      var more := if rest == [] then "" else "," + SpellElements(rest);
      var t := Render(items[0], fmt, depth);
      assert [] + (more + "]") == more + "]";
      assert before + (t + (more + "]")) == before + (t + more) + "]";
      SameFront(SpellElements([first] + rest), before + (t + more), "]");
    }
  }

  lemma SameFront(a: Text, b: Text, end: Text)
    requires a + end == b + end
    ensures a == b
  {
    assert |a + end| == |b + end|;
    assert a == (a + end)[..|a|] && b == (b + end)[..|b|];
  }

  /** The text of elements: the first, and a comma with its blank in front of the others. */
  lemma RenderItemsText(items: seq<Json>, fmt: bool, depth: nat)
    requires items != []
    ensures RenderItems(items, fmt, depth) == Render(items[0], fmt, depth) +
      (if |items| == 1 then "" else "," + ((if fmt then " " else "") + RenderItems(items[1..], fmt, depth)))
  {
    hide Render;
    if |items| == 1 {
      NoRender(fmt, depth);
      assert items[1..] == [];
    } else {
      var rest := RenderItems(items[1..], fmt, depth);
      assert Comma(fmt) + rest == "," + ((if fmt then " " else "") + rest);
    }
  }

  lemma {:induction false} ObjectSpells(members: seq<Member>, fmt: bool, depth: nat)
    requires Printable(Object(members))
    ensures var sp := SpellingOf(Object(members), fmt, depth);
      Proper(sp) && Spell(sp) == Render(Object(members), fmt, depth) && TreeOf(sp) == Object(members)
    decreases members, 1
  {
    hide SpellingOf, EntriesOf, SpellEntries, MembersOf, Render, RenderMembers, Proper, Spell, TreeOf, Printable, Blank, Newline, Indent;
    var es := EntriesOf(members, fmt, depth + 1);
    var n, i, b := Newline(fmt), Indent(fmt, depth), RenderMembers(members, fmt, depth + 1);
    ContainerUnfold(Object(members), fmt, depth);
    LayoutIsBlank(fmt, depth);
    EntriesSpell(members, fmt, depth + 1);
    ProperObject(n + i, es);
    if members == [] {
      NoRender(fmt, depth + 1);
    }
    Braces(n, b, i);
  }

  lemma Braces(n: Text, b: Text, i: Text)
    ensures "{" + n + b + i + "}" == "{" + (n + b + i + "}")
    ensures b == [] ==> n + b + i == n + i
  {
  }

  lemma {:induction false} EntriesSpell(members: seq<Member>, fmt: bool, depth: nat)
    requires depth > 0
    requires forall i :: 0 <= i < |members| ==> NulFree(members[i].key) && Printable(members[i].value)
    ensures var es := EntriesOf(members, fmt, depth);
      && ProperEntries(es) && MembersOf(es) == members
      && (members != [] ==>
           SpellEntries(es) == Newline(fmt) + RenderMembers(members, fmt, depth) + Indent(fmt, depth - 1))
    decreases members, 0
  {
    hide Spell, SpellEntries, TreeOf, Proper, Render, RenderMembers, MembersOf, SpellingOf, Printable, Blank, Newline, Indent;
    hide PiecesOf, StringText, StringValue, ProperString, Quote, PiecesText;
    if members == [] {
      NoMembersOf();
    } else {
      var first, rest := EntryOf(members, fmt, depth), EntriesOf(members[1..], fmt, depth);
      LayoutIsBlank(fmt, depth);
      LayoutIsBlank(fmt, depth - 1);
      QuoteSpells(members[0].key);
      RenderSpells(members[0].value, fmt, depth);
      EntriesSpell(members[1..], fmt, depth);
      EntriesPrepended(first, rest);
      assert [members[0]] + members[1..] == members;
      var q, t := Quote(members[0].key), Render(members[0].value, fmt, depth);
      var head, tail := Newline(fmt) + Indent(fmt, depth), Tail(members, fmt, depth);
      var more := if rest == [] then "" else "," + SpellEntries(rest);
      FirstEntryText(first, head, q, fmt, t, more, tail);
      RenderMembersText(members, fmt, depth);
      SameFront(SpellEntries([first] + rest), head + (q + (Colon(fmt) + (t + tail))), "}");
    }
  }

  /** What stands behind the value of the first member, up to the closing brace. */
  ghost function Tail(members: seq<Member>, fmt: bool, depth: nat): Text
    requires members != [] && depth > 0
  {
    if |members| == 1 then Newline(fmt) + Indent(fmt, depth - 1)
    else "," + (Newline(fmt) + RenderMembers(members[1..], fmt, depth) + Indent(fmt, depth - 1))
  }

  lemma FirstEntryText(e: Entry, head: Text, q: Text, fmt: bool, t: Text, more: Text, tail: Text)
    requires ProperEntry(e) && e.before == head && StringText(e.key) == q && e.between == []
    requires e.behind == (if fmt then "\t" else "") && Spell(e.value) == t && e.after + more == tail
    ensures EntryText(e, more + "}") == head + (q + (Colon(fmt) + (t + tail))) + "}"
  {
    hide ProperEntry, StringText, Spell;
    var v := t + (e.after + (more + "}"));
    assert v == t + tail + "}";
    assert ":" + (e.behind + v) == Colon(fmt) + v;
    assert [] + (":" + (e.behind + v)) == Colon(fmt) + v;
    assert head + (q + (Colon(fmt) + v)) == head + (q + (Colon(fmt) + (t + tail))) + "}";
  }

  lemma RenderMembersText(members: seq<Member>, fmt: bool, depth: nat)
    requires members != [] && depth > 0
    ensures Newline(fmt) + RenderMembers(members, fmt, depth) + Indent(fmt, depth - 1) ==
      Newline(fmt) + Indent(fmt, depth) + (Quote(members[0].key) + (Colon(fmt) +
        (Render(members[0].value, fmt, depth) + Tail(members, fmt, depth))))
  {
    hide Render, Quote, Colon, Newline, Indent, RenderMembers;
    var n, i, j, q, k, t := Newline(fmt), Indent(fmt, depth), Indent(fmt, depth - 1), Quote(members[0].key), Colon(fmt),
      Render(members[0].value, fmt, depth);
    var rest := RenderMembers(members[1..], fmt, depth);
    MembersHead(members, fmt, depth);
    var end := if |members| > 1 then "," else "";
    if |members| == 1 {
      NoRender(fmt, depth);
      assert members[1..] == [];
    }
    assert end + n + rest + j == Tail(members, fmt, depth);
    Regrouped(n, i, q, k, t, end + n, rest, j);
  }

  lemma MembersHead(members: seq<Member>, fmt: bool, depth: nat)
    requires members != []
    ensures RenderMembers(members, fmt, depth) ==
      Indent(fmt, depth) + Quote(members[0].key) + Colon(fmt) + Render(members[0].value, fmt, depth)
      + ((if |members| > 1 then "," else "") + Newline(fmt)) + RenderMembers(members[1..], fmt, depth)
  {
    hide Render, Quote, Colon, Newline, Indent;
  }

  lemma Regrouped(n: Text, i: Text, q: Text, k: Text, t: Text, m: Text, r: Text, j: Text)
    ensures n + (i + q + k + t + m + r) + j == n + i + (q + (k + (t + (m + r + j))))
  {
    var w := i + q + k + t + m + r;
    assert n + w + j == n + (w + j);
    assert w + j == i + q + k + t + (m + r + j);
    Regroup(i + q + k, t, m + r + j);
    Regroup(i + q, k, t + (m + r + j));
    Regroup(i, q, k + (t + (m + r + j)));
    Regroup(n, i, q + (k + (t + (m + r + j))));
  }

  // ----- round trips

  lemma StringRoundTrip(c: Text, off: nat, s: Text)
    requires NulFree(s) && At(c, off, Quote(s))
    ensures ParseString(c, off) == Ok(s, off + |Quote(s)|)
  {
    QuoteSpells(s);
    StringParses(c, off, PiecesOf(s));
  }

  lemma {:induction false} IntRoundTrip(c: Text, off: nat, n: int)
    requires INT_MIN <= n <= INT_MAX
    requires At(c, off, IntText(n)) && Ends(c, off + |IntText(n)|)
    ensures ParseNumber(c, off) == Ok(Number(n as real, n), off + |IntText(n)|)
  {
    IntSpells(n);
    NumeralParses(c, off, NumeralOf(n), n);
  }

  lemma {:induction false} ValueRoundTrip(c: Text, off: nat, v: Json, fmt: bool, indent: nat, depth: nat)
    requires Printable(v) && depth + Nesting(v) <= NESTING_LIMIT
    requires At(c, off, Render(v, fmt, indent)) && Ends(c, off + |Render(v, fmt, indent)|)
    ensures ParseValue(c, off, depth) == Ok(v, off + |Render(v, fmt, indent)|)
  {
    RenderSpells(v, fmt, indent);
    ValueParses(c, off, SpellingOf(v, fmt, indent), depth);
  }

  lemma {:induction false} ArrayRoundTrip(c: Text, off: nat, items: seq<Json>, fmt: bool, indent: nat, depth: nat)
    requires Printable(Array(items)) && depth + Nesting(Array(items)) <= NESTING_LIMIT
    requires At(c, off, Render(Array(items), fmt, indent))
    ensures ParseArray(c, off, depth) == Ok(Array(items), off + |Render(Array(items), fmt, indent)|)
  {
    hide Render, Spell, Proper, TreeOf, Printable, Nesting, ElementsOf;
    RenderSpells(Array(items), fmt, indent);
    ArrayParses(c, off, [], ElementsOf(items, [], fmt, indent + 1), depth);
  }

  lemma {:induction false} ObjectRoundTrip(c: Text, off: nat, members: seq<Member>, fmt: bool, indent: nat, depth: nat)
    requires Printable(Object(members)) && depth + Nesting(Object(members)) <= NESTING_LIMIT
    requires At(c, off, Render(Object(members), fmt, indent))
    ensures ParseObject(c, off, depth) == Ok(Object(members), off + |Render(Object(members), fmt, indent)|)
  {
    hide Render, Spell, Proper, TreeOf, Printable, Nesting, EntriesOf;
    RenderSpells(Object(members), fmt, indent);
    ObjectParses(c, off, Newline(fmt) + Indent(fmt, indent), EntriesOf(members, fmt, indent + 1), depth);
  }

  /**
   The text of a printable tree, and the NUL behind it, parses to the tree; with
   `require_null_terminated` the parser ends on that NUL.
   */
  lemma {:induction false} DocumentRoundTrip(v: Json, fmt: bool)
    requires Printable(v) && Nesting(v) <= NESTING_LIMIT
    ensures var t := Render(v, fmt, 0);
      && ParseDocument(t + [NUL], true) == Ok(v, |t|)
      && ParseDocument(t + [NUL], false) == Ok(v, |t|)
  {
    hide Render, Spell, Proper, TreeOf, Printable, Nesting, ParseDocument, SpellingOf;
    RenderSpells(v, fmt, 0);
    var d := Document(false, [], SpellingOf(v, fmt, 0), []);
    assert SpellDocument(d) == Render(v, fmt, 0) + [NUL];
    DocumentParses(d);
  }
}
