/**
 What a printed text looks like (components/cJSON/cJSON.c:564-631, 922-1041, 1563-1622, 1743-1854): which
 bytes stand for which, and where lines, tabs and blanks are.
 */
module PrintedText {
  import opened Bytes
  import opened JsonTree
  import Spelling
  import RoundTrip

  // ----- strings and numbers

  lemma {:induction false} EscapeConcat(a: Text, b: Text)
    ensures Escape(a + b) == Escape(a) + Escape(b)
    decreases |a|
  {
    if a == [] {
      assert a + b == b;
    } else {
      assert (a + b)[1..] == a[1..] + b;
      EscapeConcat(a[1..], b);
    }
  }

  /** The text of a string is that of its parts, one behind the other, between two quotes. */
  lemma PrintedParts(a: Text, b: Text, fmt: bool, depth: nat)
    ensures Render(String([]), fmt, depth) == "\"\""
    ensures var t, u := Render(String(a), fmt, depth), Render(String(b), fmt, depth);
      |t| >= 2 && |u| >= 2 && Render(String(a + b), fmt, depth) == t[..|t| - 1] + u[1..]
  {
    EscapeConcat(a, b);
    hide Escape;
    var t, u := Render(String(a), fmt, depth), Render(String(b), fmt, depth);
    assert t[..|t| - 1] == "\"" + Escape(a) && u[1..] == Escape(b) + "\"";
    assert "\"" + (Escape(a) + Escape(b)) + "\"" == "\"" + Escape(a) + (Escape(b) + "\"");
    NothingEscaped();
  }

  lemma NothingEscaped()
    ensures Escape([]) == []
  {
  }

  /** How each byte is printed. */
  lemma PrintedByte(b: Byte, fmt: bool, depth: nat)
    ensures Render(String([b]), fmt, depth) == "\"" + (
      if b == '\"' then "\\\"" else if b == '\\' then "\\\\"
      else if b as int == 8 then "\\b" else if b as int == 12 then "\\f" else if b as int == 10 then "\\n"
      else if b as int == 13 then "\\r" else if b as int == 9 then "\\t"
      else if (b as int) < 32 then "\\u00" + [if (b as int) < 16 then '0' else '1', "0123456789abcdef"[b as int % 16]]
      else [b]) + "\""
  {
    assert Escape([b]) == EscapeByte(b) by {
      NothingEscaped();
      assert [b][1..] == [];
      assert EscapeByte(b) + [] == EscapeByte(b);
    }
    if (b as int) < 32 {
      assert HexDigit(b as int / 16) == if (b as int) < 16 then '0' else '1';
      assert HexDigit(b as int % 16) == "0123456789abcdef"[b as int % 16];
    }
  }

  /** A string without quotes, backslashes and control characters is printed as it is. */
  lemma {:induction false} PlainString(s: Text, fmt: bool, depth: nat)
    requires forall i :: 0 <= i < |s| ==> s[i] as int >= 32 && s[i] != '\"' && s[i] != '\\'
    ensures Render(String(s), fmt, depth) == "\"" + s + "\""
    decreases |s|
  {
    if s != [] {
      PlainString(s[1..], fmt, depth);
      PrintedByte(s[0], fmt, depth);
      PrintedParts([s[0]], s[1..], fmt, depth);
      hide Render;
      assert [s[0]] + s[1..] == s;
      var t, u := Render(String([s[0]]), fmt, depth), Render(String(s[1..]), fmt, depth);
      assert t[..|t| - 1] == "\"" + [s[0]] && u[1..] == s[1..] + "\"";
    }
  }

  /** An integer is printed in decimal digits without leading zeros, behind a minus when it is negative. */
  lemma PrintedInteger(d: real, i: int, fmt: bool, depth: nat)
    ensures var t, n := Render(Number(d, i), fmt, depth), if i < 0 then -i else i;
      var sign: Text := if i < 0 then "-" else "";
      && sign <= t
      && var digits := t[|sign|..];
      && digits != [] && Spelling.Digits(digits) && Spelling.Decimal(digits) == n
      && (digits[0] == '0' ==> n == 0 && |digits| == 1)
  {
    var n := if i < 0 then -i else i;
    RoundTrip.NatTextDigits(n);
    NoLeadingZero(n);
    hide NatText;
    assert IntText(i)[if i < 0 then 1 else 0..] == NatText(n);
  }

  lemma {:induction false} NoLeadingZero(n: nat)
    ensures NatText(n) != [] && (NatText(n)[0] == '0' ==> n == 0 && |NatText(n)| == 1)
  {
    if n >= 10 {
      NoLeadingZero(n / 10);
    }
  }

  // ----- lines, tabs and blanks

  /** What a line of a formatted text may begin with, behind its tabs. */
  datatype Line = MemberOrEnd | AMember | TheEnd

  /** What has been read last. */
  datatype Mode =
    | Outside
    | Literal
    | Escaped
    | LineEnd(line: Line)
    | Tabbing(tabs: nat, line: Line)
    | Comma
    | Colon
    | Wrong

  /** The brackets that are open, and what has been read last. */
  datatype Layout = Layout(open: Text, mode: Mode)

  predicate Within(open: Text, bracket: Byte) {
    open != [] && open[|open| - 1] == bracket
  }

  function Closed(open: Text): Text
    requires open != []
  {
    open[..|open| - 1]
  }

  /**
   Reads one byte outside of literals.  In a formatted text every member and every closing brace begins a
   line, a blank stands behind each comma of an array and a tab behind each colon; in a compact text there
   is nothing of that.
   */
  function OutsideStep(fmt: bool, open: Text, b: Byte): Layout {
    if b == '\"' then Layout(open, Literal)
    else if b == '[' then Layout(open + [b], Outside)
    else if b == '{' then Layout(open + [b], if fmt then LineEnd(MemberOrEnd) else Outside)
    else if b == ']' then (if Within(open, '[') then Layout(Closed(open), Outside) else Layout(open, Wrong))
    else if b == '}' then (if !fmt && Within(open, '{') then Layout(Closed(open), Outside) else Layout(open, Wrong))
    else if b == ',' then
      Layout(open, if open == [] then Wrong else if !fmt then Outside else if Within(open, '{') then LineEnd(AMember) else Comma)
    else if b == ':' then Layout(open, if !Within(open, '{') then Wrong else if fmt then Colon else Outside)
    else if b == '\n' then Layout(open, if fmt && Within(open, '{') then Tabbing(0, TheEnd) else Wrong)
    else Layout(open, if b as int <= 32 then Wrong else Outside)
  }

  /** Behind `n` tabs: a member as deep as brackets are open, or the brace that closes one of them. */
  function LineStep(open: Text, n: nat, line: Line, b: Byte): Layout {
    if b == '\t' then Layout(open, Tabbing(n + 1, line))
    else if !Within(open, '{') then Layout(open, Wrong)
    else if b == '\"' && line != TheEnd && n == |open| then Layout(open, Literal)
    else if b == '}' && line != AMember && n + 1 == |open| then Layout(Closed(open), Outside)
    else Layout(open, Wrong)
  }

  function Step(fmt: bool, l: Layout, b: Byte): Layout {
    match l.mode
    case Outside => OutsideStep(fmt, l.open, b)
    case Literal =>
      Layout(l.open, if b == '\"' then Outside else if b == '\\' then Escaped else if (b as int) < 32 then Wrong else Literal)
    case Escaped => Layout(l.open, if b as int <= 32 then Wrong else Literal)
    case LineEnd(line) => Layout(l.open, if b == '\n' then Tabbing(0, line) else Wrong)
    case Tabbing(n, line) => LineStep(l.open, n, line, b)
    case Comma => Layout(l.open, if b == ' ' then Outside else Wrong)
    case Colon => Layout(l.open, if b == '\t' then Outside else Wrong)
    case Wrong => l
  }

  function Reads(fmt: bool, l: Layout, t: Text): Layout
    decreases |t|
  {
    if t == [] then l else Reads(fmt, Step(fmt, l, t[0]), t[1..])
  }

  lemma {:induction false} ReadsConcat(fmt: bool, l: Layout, a: Text, b: Text)
    ensures Reads(fmt, l, a + b) == Reads(fmt, Reads(fmt, l, a), b)
    decreases |a|
  {
    if a == [] {
      assert a + b == b;
    } else {
      assert (a + b)[1..] == a[1..] + b;
      ReadsConcat(fmt, Step(fmt, l, a[0]), a[1..], b);
    }
  }

  lemma ReadsOne(fmt: bool, l: Layout, b: Byte)
    ensures Reads(fmt, l, [b]) == Step(fmt, l, b)
  {
  }

  lemma {:induction false} WrongStays(fmt: bool, l: Layout, t: Text)
    requires l.mode == Wrong
    ensures Reads(fmt, l, t) == l
    decreases |t|
  {
    if t != [] {
      WrongStays(fmt, l, t[1..]);
    }
  }

  // ----- the printed text is laid out

  lemma {:induction false} EscapeIsRead(fmt: bool, open: Text, s: Text)
    ensures Reads(fmt, Layout(open, Literal), Escape(s)) == Layout(open, Literal)
    decreases |s|
  {
    hide EscapeByte;
    if s != [] {
      EscapeByteIsRead(fmt, open, s[0]);
      ReadsConcat(fmt, Layout(open, Literal), EscapeByte(s[0]), Escape(s[1..]));
      EscapeIsRead(fmt, open, s[1..]);
    }
  }

  lemma EscapeByteIsRead(fmt: bool, open: Text, b: Byte)
    ensures Reads(fmt, Layout(open, Literal), EscapeByte(b)) == Layout(open, Literal)
  {
    var t, l := EscapeByte(b), Layout(open, Literal);
    if |t| == 6 {
      var d, e := HexDigit(b as int / 16), HexDigit(b as int % 16);
      assert t == ['\\', 'u'] + ['0', '0', d, e];
      ReadsConcat(fmt, l, ['\\', 'u'], ['0', '0', d, e]);
      ReadsConcat(fmt, l, ['0', '0'], [d, e]);
      assert ['0', '0'] + [d, e] == ['0', '0', d, e];
      ReadsTwo(fmt, l, '\\', 'u');
      ReadsTwo(fmt, l, '0', '0');
      ReadsTwo(fmt, l, d, e);
    } else if |t| == 2 {
      ReadsTwo(fmt, l, t[0], t[1]);
      assert t == [t[0], t[1]];
    } else {
      ReadsOne(fmt, l, b);
    }
  }

  lemma ReadsTwo(fmt: bool, l: Layout, a: Byte, b: Byte)
    ensures Reads(fmt, l, [a, b]) == Step(fmt, Step(fmt, l, a), b)
  {
    assert [a, b][1..] == [b];
    ReadsOne(fmt, Step(fmt, l, a), b);
  }

  lemma QuoteIsRead(fmt: bool, open: Text, s: Text)
    ensures Reads(fmt, Layout(open, Literal), Escape(s) + "\"") == Layout(open, Outside)
    ensures Reads(fmt, Layout(open, Outside), Quote(s)) == Layout(open, Outside)
  {
    hide Escape;
    EscapeIsRead(fmt, open, s);
    ReadsConcat(fmt, Layout(open, Literal), Escape(s), "\"");
    ReadsOne(fmt, Layout(open, Literal), '\"');
    ReadsOne(fmt, Layout(open, Outside), '\"');
    ReadsConcat(fmt, Layout(open, Outside), "\"", Escape(s) + "\"");
    assert Quote(s) == "\"" + (Escape(s) + "\"");
  }

  /** Bytes that are no token of their own. */
  lemma {:induction false} PlainIsRead(fmt: bool, open: Text, t: Text)
    requires forall i :: 0 <= i < |t| ==> t[i] == '-' || '0' <= t[i] <= '9' || 'a' <= t[i] <= 'z'
    ensures Reads(fmt, Layout(open, Outside), t) == Layout(open, Outside)
    decreases |t|
  {
    if t != [] {
      PlainIsRead(fmt, open, t[1..]);
    }
  }

  lemma NumberIsRead(fmt: bool, open: Text, i: int)
    ensures Reads(fmt, Layout(open, Outside), IntText(i)) == Layout(open, Outside)
  {
    RoundTrip.NatTextDigits(if i < 0 then -i else i);
    PlainIsRead(fmt, open, IntText(i));
  }

  /**
   The printed text of a tree at any depth keeps to the layout.
   */
  lemma {:induction false} LaidOut(v: Json, fmt: bool, open: Text)
    ensures Reads(fmt, Layout(open, Outside), Render(v, fmt, |open|)) == Layout(open, Outside)
    decreases v, 1
  {
    hide Reads, Quote, IntText, RenderItems, RenderMembers;
    match v
    case Number(_, i) => NumberIsRead(fmt, open, i);
    case String(s) => QuoteIsRead(fmt, open, s);
    case Array(items) => ArrayIsLaidOut(items, fmt, open);
    case Object(members) => ObjectIsLaidOut(members, fmt, open);
    case _ => PlainIsRead(fmt, open, Render(v, fmt, |open|));
  }

  lemma {:induction false} ArrayIsLaidOut(items: seq<Json>, fmt: bool, open: Text)
    ensures Reads(fmt, Layout(open, Outside), Render(Array(items), fmt, |open|)) == Layout(open, Outside)
    decreases items, 1
  {
    hide Reads, RenderItems;
    var inner := open + ['['];
    var body := RenderItems(items, fmt, |inner|);
    ItemsAreLaidOut(items, fmt, inner);
    assert Render(Array(items), fmt, |open|) == "[" + (body + "]");
    ReadsConcat(fmt, Layout(open, Outside), "[", body + "]");
    ReadsConcat(fmt, Layout(inner, Outside), body, "]");
    ReadsOne(fmt, Layout(open, Outside), '[');
    ReadsOne(fmt, Layout(inner, Outside), ']');
    assert Closed(inner) == open;
  }

  lemma {:induction false} ItemsAreLaidOut(items: seq<Json>, fmt: bool, open: Text)
    requires Within(open, '[')
    ensures Reads(fmt, Layout(open, Outside), RenderItems(items, fmt, |open|)) == Layout(open, Outside)
    decreases items, 0
  {
    hide Render;
    if items != [] {
      var l := Layout(open, Outside);
      var t, e, rest := Render(items[0], fmt, |open|), ItemEnd(items, fmt), RenderItems(items[1..], fmt, |open|);
      LaidOut(items[0], fmt, open);
      ItemsAreLaidOut(items[1..], fmt, open);
      ReadsConcat(fmt, l, t + e, rest);
      ReadsConcat(fmt, l, t, e);
      if |items| > 1 {
        if fmt { ReadsTwo(fmt, l, ',', ' '); } else { ReadsOne(fmt, l, ','); }
      }
    }
  }

  lemma {:induction false} ObjectIsLaidOut(members: seq<Member>, fmt: bool, open: Text)
    ensures Reads(fmt, Layout(open, Outside), Render(Object(members), fmt, |open|)) == Layout(open, Outside)
    decreases members, 2
  {
    hide Reads, RenderMembers;
    var inner := open + ['{'];
    var body := RenderMembers(members, fmt, |inner|);
    var l := Layout(inner, if fmt then Tabbing(0, if members == [] then MemberOrEnd else TheEnd) else Outside);
    MembersAreLaidOut(members, fmt, inner, MemberOrEnd);
    EndIsLaidOut(fmt, inner, l.mode);
    ReadsConcat(fmt, Layout(open, Outside), "{" + Newline(fmt), body + (Indent(fmt, |open|) + "}"));
    ReadsConcat(fmt, if fmt then Layout(inner, Tabbing(0, MemberOrEnd)) else Layout(inner, Outside), body, Indent(fmt, |open|) + "}");
    BraceIsRead(fmt, open);
    assert Render(Object(members), fmt, |open|) == "{" + Newline(fmt) + (body + (Indent(fmt, |open|) + "}"));
  }

  lemma BraceIsRead(fmt: bool, open: Text)
    ensures Reads(fmt, Layout(open, Outside), "{" + Newline(fmt)) ==
      Layout(open + ['{'], if fmt then Tabbing(0, MemberOrEnd) else Outside)
  {
    if fmt {
      ReadsTwo(fmt, Layout(open, Outside), '{', '\n');
      assert "{" + Newline(fmt) == ['{', '\n'];
    } else {
      ReadsOne(fmt, Layout(open, Outside), '{');
      assert "{" + Newline(fmt) == ['{'];
    }
  }

  lemma {:induction false} TabsAreRead(open: Text, n: nat, line: Line, k: nat)
    ensures Reads(true, Layout(open, Tabbing(n, line)), Tabs(k)) == Layout(open, Tabbing(n + k, line))
    decreases k
  {
    if k > 0 {
      assert Tabs(k)[1..] == Tabs(k - 1);
      TabsAreRead(open, n + 1, line, k - 1);
    }
  }

  /** The end of an object, on a line of its own when formatted. */
  lemma EndIsLaidOut(fmt: bool, inner: Text, mode: Mode)
    requires Within(inner, '{')
    requires mode == if fmt then Tabbing(0, if mode == Tabbing(0, TheEnd) then TheEnd else MemberOrEnd) else Outside
    ensures Reads(fmt, Layout(inner, mode), Indent(fmt, |inner| - 1) + "}") == Layout(Closed(inner), Outside)
  {
    hide Reads;
    var l := Layout(inner, mode);
    ReadsConcat(fmt, l, Indent(fmt, |inner| - 1), "}");
    if fmt {
      TabsAreRead(inner, 0, mode.line, |inner| - 1);
      ReadsOne(fmt, Layout(inner, Tabbing(|inner| - 1, mode.line)), '}');
    } else {
      ReadsNothing(fmt, l);
      ReadsOne(fmt, l, '}');
    }
  }

  lemma ReadsNothing(fmt: bool, l: Layout)
    ensures Reads(fmt, l, []) == l
  {
  }

  lemma {:induction false} MembersAreLaidOut(members: seq<Member>, fmt: bool, open: Text, line: Line)
    requires Within(open, '{') && line != TheEnd
    ensures Reads(fmt, Layout(open, if fmt then Tabbing(0, line) else Outside), RenderMembers(members, fmt, |open|)) ==
      Layout(open, if !fmt then Outside else Tabbing(0, if members == [] then line else TheEnd))
    decreases members, 1
  {
    hide Reads, Render, Quote, Indent, MemberEnd;
    var l := Layout(open, if fmt then Tabbing(0, line) else Outside);
    if members == [] {
      ReadsNothing(fmt, l);
    } else {
      var head := Indent(fmt, |open|) + Quote(members[0].key) + JsonTree.Colon(fmt);
      var t, e := Render(members[0].value, fmt, |open|), MemberEnd(members, fmt);
      var rest := RenderMembers(members[1..], fmt, |open|);
      HeadIsLaidOut(members[0].key, fmt, open, line);
      LaidOut(members[0].value, fmt, open);
      MemberEndIsRead(members, fmt, open);
      if |members| > 1 {
        MembersAreLaidOut(members[1..], fmt, open, AMember);
      } else {
        NoMembers(members[1..], fmt, |open|);
        ReadsNothing(fmt, Layout(open, if !fmt then Outside else Tabbing(0, TheEnd)));
      }
      ReadsConcat(fmt, l, head + t + e, rest);
      ReadsConcat(fmt, l, head + t, e);
      ReadsConcat(fmt, l, head, t);
    }
  }

  lemma NoMembers(members: seq<Member>, fmt: bool, depth: nat)
    ensures members == [] ==> RenderMembers(members, fmt, depth) == []
  {
  }

  lemma HeadIsLaidOut(key: Text, fmt: bool, open: Text, line: Line)
    requires Within(open, '{') && line != TheEnd
    ensures Reads(fmt, Layout(open, if fmt then Tabbing(0, line) else Outside),
                  Indent(fmt, |open|) + Quote(key) + JsonTree.Colon(fmt)) == Layout(open, Outside)
  {
    hide Reads, Escape;
    var l := Layout(open, if fmt then Tabbing(0, line) else Outside);
    var i, q, k := Indent(fmt, |open|), Quote(key), JsonTree.Colon(fmt);
    QuoteIsRead(fmt, open, key);
    ReadsConcat(fmt, l, i + q, k);
    ReadsConcat(fmt, l, i, q);
    if fmt {
      TabsAreRead(open, 0, line, |open|);
      var m := Layout(open, Tabbing(|open|, line));
      assert q == "\"" + (Escape(key) + "\"");
      ReadsConcat(fmt, m, "\"", Escape(key) + "\"");
      ReadsOne(fmt, m, '\"');
      ReadsTwo(fmt, Layout(open, Outside), ':', '\t');
    } else {
      ReadsNothing(fmt, l);
      ReadsOne(fmt, Layout(open, Outside), ':');
    }
  }

  lemma MemberEndIsRead(members: seq<Member>, fmt: bool, open: Text)
    requires members != [] && Within(open, '{')
    ensures Reads(fmt, Layout(open, Outside), MemberEnd(members, fmt)) ==
      Layout(open, if !fmt then Outside else Tabbing(0, if |members| == 1 then TheEnd else AMember))
  {
    hide Reads;
    var l := Layout(open, Outside);
    if |members| == 1 {
      if fmt { ReadsOne(fmt, l, '\n'); } else { ReadsNothing(fmt, l); }
      assert MemberEnd(members, fmt) == if fmt then ['\n'] else [];
    } else {
      if fmt { ReadsTwo(fmt, l, ',', '\n'); } else { ReadsOne(fmt, l, ','); }
      assert MemberEnd(members, fmt) == if fmt then [',', '\n'] else [','];
    }
  }

  // ----- what the layout says of a whole text

  /**
   Wherever a line of a formatted text begins, it begins with tabs and then either a member, as deep as
   there are tabs, or the closing brace of an object whose members are one deeper.
   */
  lemma LinesOfFormatted(v: Json, a: Text, k: nat, b: Byte, rest: Text)
    requires Render(v, true, 0) == a + ("\n" + (Tabs(k) + ([b] + rest))) && b != '\t'
    ensures var depth := |Reads(true, Layout([], Outside), a).open|;
      (b == '\"' && k == depth) || (b == '}' && k + 1 == depth)
  {
    hide Reads, Render;
    LaidOut(v, true, []);
    var start := Layout([], Outside);
    var l := Reads(true, start, a);
    ReadsConcat(true, start, a, "\n" + (Tabs(k) + ([b] + rest)));
    ReadsConcat(true, l, "\n", Tabs(k) + ([b] + rest));
    ReadsOne(true, l, '\n');
    var m := Step(true, l, '\n');
    if m.mode.Wrong? {
      WrongStays(true, m, Tabs(k) + ([b] + rest));
    } else {
      LineEndStep(l);
      ReadsConcat(true, m, Tabs(k), [b] + rest);
      TabsAreRead(m.open, 0, m.mode.line, k);
      var n := Layout(m.open, Tabbing(k, m.mode.line));
      ReadsConcat(true, n, [b], rest);
      ReadsOne(true, n, b);
      if Step(true, n, b).mode.Wrong? {
        WrongStays(true, Step(true, n, b), rest);
      }
    }
  }

  lemma LineEndStep(l: Layout)
    ensures var m := Step(true, l, '\n'); !m.mode.Wrong? ==> m.open == l.open && m.mode.Tabbing? && m.mode.tabs == 0
  {
  }

  /** In a compact text nothing is read but tokens and literals. */
  lemma {:induction false} CompactModes(l: Layout, t: Text)
    requires l.mode.Outside? || l.mode.Literal? || l.mode.Escaped? || l.mode.Wrong?
    ensures var m := Reads(false, l, t).mode; m.Outside? || m.Literal? || m.Escaped? || m.Wrong?
    decreases |t|
  {
    if t != [] {
      CompactModes(Step(false, l, t[0]), t[1..]);
    }
  }

  /** In a compact text there is no white space outside of literals. */
  lemma CompactHasNoSpace(v: Json, a: Text, b: Byte, rest: Text)
    requires Render(v, false, 0) == a + ([b] + rest) && b as int <= 32
    ensures Reads(false, Layout([], Outside), a).mode.Literal?
  {
    hide Reads, Render;
    LaidOut(v, false, []);
    var start := Layout([], Outside);
    var l := Reads(false, start, a);
    ReadsConcat(false, start, a, [b] + rest);
    ReadsConcat(false, l, [b], rest);
    ReadsOne(false, l, b);
    CompactModes(start, a);
    if Step(false, l, b).mode.Wrong? {
      WrongStays(false, Step(false, l, b), rest);
    }
  }
}
