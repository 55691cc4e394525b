/**
 Minifying formatted text: when the result is the compact text of the same tree.
 */
module MinifyPrinted {
  import opened Bytes
  import opened JsonTree
  import opened Minify

  /** The printed literal of `s` ends in a backslash and the closing quote. */
  predicate EndsInBackslash(s: Text) {
    s != [] && s[|s| - 1] == '\\'
  }

  /** No string and no key of `v` ends in a backslash. */
  predicate Clean(v: Json)
    decreases v
  {
    match v
    case String(s) => !EndsInBackslash(s)
    case Array(items) => CleanItems(items)
    case Object(members) => CleanMembers(members)
    case _ => true
  }

  predicate CleanItems(items: seq<Json>)
    decreases items
  {
    items == [] || (Clean(items[0]) && CleanItems(items[1..]))
  }

  predicate CleanMembers(members: seq<Member>)
    decreases members
  {
    members == [] ||
    (!EndsInBackslash(members[0].key) && Clean(members[0].value) && CleanMembers(members[1..]))
  }

  /**
   The only string of `v` that ends in a backslash is the last one of the text, with nothing but
   closing brackets of arrays behind it.
   */
  predicate Open(v: Json)
    decreases v
  {
    match v
    case String(s) => EndsInBackslash(s)
    case Array(items) => OpenItems(items)
    case _ => false
  }

  predicate OpenItems(items: seq<Json>)
    decreases items
  {
    items != [] &&
    (if |items| == 1 then Open(items[0]) else Clean(items[0]) && OpenItems(items[1..]))
  }

  /** The two texts differ at some position that both have. */
  ghost predicate Diverge(a: Text, b: Text) {
    exists k :: 0 <= k < |a| && k < |b| && a[k] != b[k]
  }

  lemma DivergePrefix(p: Text, a: Text, b: Text)
    requires Diverge(a, b)
    ensures Diverge(p + a, p + b)
  {
    var k :| 0 <= k < |a| && k < |b| && a[k] != b[k];
    assert (p + a)[|p| + k] != (p + b)[|p| + k];
  }

  lemma DivergeSuffix(a: Text, b: Text, c: Text, d: Text)
    requires Diverge(a, b)
    ensures Diverge(a + c, b + d)
  {
    var k :| 0 <= k < |a| && k < |b| && a[k] != b[k];
    assert (a + c)[k] != (b + d)[k];
  }

  // ----- pieces of text

  /** A piece without white space, slashes and quotes is copied. */
  lemma {:induction false} CopiedText(t: Text, r: Text)
    requires forall k :: 0 <= k < |t| ==> !MinifySpace(t[k]) && t[k] != '/' && t[k] != '\"'
    ensures Minified(t + r) == t + Minified(r)
    decreases |t|
  {
    if t == [] {
      assert t + r == r;
    } else {
      assert (t + r)[1..] == t[1..] + r;
      CopiedText(t[1..], r);
    }
  }

  lemma {:induction false} DroppedText(t: Text, r: Text)
    requires forall k :: 0 <= k < |t| ==> MinifySpace(t[k])
    ensures Minified(t + r) == Minified(r)
    decreases |t|
  {
    if t == [] {
      assert t + r == r;
    } else {
      assert (t + r)[1..] == t[1..] + r;
      DroppedText(t[1..], r);
    }
  }

  /** A piece without quotes is copied inside a literal; it must not end in a backslash. */
  lemma {:induction false} CopiedInString(t: Text, r: Text)
    requires forall k :: 0 <= k < |t| ==> t[k] != '\"' && t[k] != '\\'
    ensures InString(t + r) == t + InString(r)
    decreases |t|
  {
    if t == [] {
      assert t + r == r;
    } else {
      assert (t + r)[1..] == t[1..] + r;
      CopiedInString(t[1..], r);
    }
  }

  /** The shapes that an escaped byte can have. */
  lemma EscapeShapes(b: Byte)
    ensures var e := EscapeByte(b);
      || (e == [b] && b != '\"' && b != '\\')
      || (b == '\"' && e == "\\\"")
      || (b == '\\' && e == "\\\\")
      || (b != '\"' && b != '\\' && e[0] == '\\' && |e| > 1 && forall k :: 1 <= k < |e| ==> e[k] != '\"' && e[k] != '\\')
  {
  }

  lemma StartsWith(b: Byte, r: Text)
    ensures ([b] + r)[1..] == r && ([b] + r)[0] == b
  {
  }

  /** One escaped byte is copied, unless it is a backslash in front of a quote. */
  lemma CopiedByte(b: Byte, r: Text)
    requires b == '\\' ==> r != [] && r[0] != '\"'
    ensures InString(EscapeByte(b) + r) == EscapeByte(b) + InString(r)
  {
    hide InString, Minified, EscapeByte;
    var e := EscapeByte(b);
    EscapeShapes(b);
    InStringStep(e + r);
    if e == [b] {
      StartsWith(b, r);
    } else if b == '\"' {
      assert (e + r)[2..] == r;
    } else if b == '\\' {
      assert (e + r)[1..] == ['\\'] + r;
      InStringStep(['\\'] + r);
      StartsWith('\\', r);
    } else {
      assert (e + r)[1..] == e[1..] + r;
      assert [e[0]] + e[1..] == e;
      CopiedInString(e[1..], r);
    }
  }

  /** A backslash in front of the closing quote: the minifier takes the quote for an escaped one. */
  lemma BackslashAtEnd(r: Text)
    ensures InString("\\\\" + ("\"" + r)) == "\\\\" + ("\"" + InString(r))
  {
    hide InString, Minified;
    var t := "\\\\" + ("\"" + r);
    InStringStep(t);
    assert t[1..] == "\\\"" + r;
    InStringStep("\\\"" + r);
    assert ("\\\"" + r)[2..] == r;
  }

  function Behind(s: Text, r: Text): Text {
    if EndsInBackslash(s) then InString(r) else Minified(r)
  }

  lemma EscapeStep(s: Text, r: Text)
    requires s != []
    ensures Escape(s) + r == EscapeByte(s[0]) + (Escape(s[1..]) + r)
  {
  }

  lemma FirstEscaped(s: Text, r: Text)
    requires s != []
    ensures var t := Escape(s) + r; t != [] && t[0] != '\"'
  {
    EscapeShapes(s[0]);
    EscapeStep(s, r);
  }

  /** Behind a literal the minifier is outside again, unless the string ends in a backslash. */
  lemma {:induction false} LiteralText(s: Text, r: Text)
    ensures InString(Escape(s) + ("\"" + r)) == Escape(s) + ("\"" + Behind(s, r))
    decreases |s|
  {
    hide InString, Minified, EscapeByte, Escape;
    var q := "\"" + r;
    if s == [] {
      EmptyEscape();
      InStringStep(q);
      StartsWith('\"', r);
      assert Escape(s) + q == q && Escape(s) + ("\"" + Behind(s, r)) == "\"" + Behind(s, r);
    } else {
      var e := EscapeByte(s[0]);
      EscapeStep(s, q);
      EscapeStep(s, "\"" + Behind(s, r));
      LiteralText(s[1..], r);
      if s[0] == '\\' && |s| == 1 {
        EscapeShapes('\\');
        EmptyEscape();
        assert s[1..] == [] && Escape([]) + q == q;
        assert Escape([]) + ("\"" + Behind(s, r)) == "\"" + Behind(s, r);
        BackslashAtEnd(r);
      } else {
        if |s| > 1 { FirstEscaped(s[1..], q); }
        CopiedByte(s[0], Escape(s[1..]) + q);
        assert EndsInBackslash(s) <==> EndsInBackslash(s[1..]);
      }
    }
  }

  lemma EmptyEscape()
    ensures Escape([]) == []
  {
  }

  lemma QuotedText(s: Text, r: Text)
    ensures Minified(Quote(s) + r) == Quote(s) + Behind(s, r)
  {
    hide InString, Escape, Behind;
    var t := Quote(s) + r;
    assert t == "\"" + (Escape(s) + ("\"" + r));
    assert t[1..] == Escape(s) + ("\"" + r);
    LiteralText(s, r);
  }

  // ----- trees

  /** The text of a number contains nothing that the minifier treats specially. */
  lemma {:induction false} PlainNumber(n: nat)
    ensures forall k :: 0 <= k < |NatText(n)| ==> '0' <= NatText(n)[k] <= '9'
  {
    if n >= 10 {
      PlainNumber(n / 10);
    }
  }

  lemma NumberText(n: int, r: Text)
    ensures Minified(IntText(n) + r) == IntText(n) + Minified(r)
  {
    PlainNumber(if n < 0 then -n else n);
    var t := IntText(n);
    assert forall k :: 0 <= k < |t| ==> t[k] == '-' || '0' <= t[k] <= '9';
    CopiedText(t, r);
  }

  /** The first byte of a value is none that the formatted text puts between tokens. */
  lemma FirstIsToken(v: Json, fmt: bool, depth: nat)
    ensures var b := Render(v, fmt, depth)[0]; b != ' ' && b != '\t' && b != '\n'
  {
    if v.Number? {
      PlainNumber(if v.valueint < 0 then -v.valueint else v.valueint);
    }
  }

  /**
   What the minifier makes of the formatted text of `v` and a rest `r`: the compact text, and then it
   is outside of literals; the compact text, and then it is inside of one; or something that differs
   from the compact text before that ends.
   */
  ghost predicate MinifiesTo(formatted: Text, compact: Text, clean: bool, open: bool, r: Text) {
    if clean then Minified(formatted + r) == compact + Minified(r)
    else if open then Minified(formatted + r) == compact + InString(r)
    else Diverge(Minified(formatted + r), compact)
  }

  lemma {:induction false} ValueMinifies(v: Json, depth: nat, r: Text)
    ensures MinifiesTo(Render(v, true, depth), Render(v, false, depth), Clean(v), Open(v), r)
    decreases v, 1
  {
    match v
    case Null => CopiedText("null", r);
    case False => CopiedText("false", r);
    case True => CopiedText("true", r);
    case Number(_, i) => NumberText(i, r);
    case String(s) => QuotedText(s, r);
    case Array(items) =>
      hide *;
      ArrayTexts(items, depth);
      Flags(v);
      var f, c := RenderItems(items, true, depth + 1), RenderItems(items, false, depth + 1);
      ItemsMinify(items, depth + 1, "]" + r);
      ArrayMinifies(f, c, CleanItems(items), OpenItems(items), r);
    case Object(members) =>
      hide *;
      ObjectTexts(members, depth);
      Flags(v);
      var f, c := RenderMembers(members, true, depth + 1), RenderMembers(members, false, depth + 1);
      MembersMinify(members, depth + 1, Tabs(depth) + ("}" + r));
      ObjectMinifies(f, c, Tabs(depth), CleanMembers(members), r);
  }

  lemma ArrayTexts(items: seq<Json>, depth: nat)
    ensures Render(Array(items), true, depth) == "[" + RenderItems(items, true, depth + 1) + "]"
    ensures Render(Array(items), false, depth) == "[" + RenderItems(items, false, depth + 1) + "]"
  {
    hide RenderItems;
  }

  lemma Flags(v: Json)
    ensures v.Array? ==> Clean(v) == CleanItems(v.items) && Open(v) == OpenItems(v.items)
    ensures v.Object? ==> Clean(v) == CleanMembers(v.members) && !Open(v)
  {
  }

  lemma ArrayMinifies(f: Text, c: Text, clean: bool, open: bool, r: Text)
    requires MinifiesTo(f, c, clean, open, "]" + r)
    ensures MinifiesTo("[" + f + "]", "[" + c + "]", clean, open, r)
  {
    hide InString, Minified, Diverge;
    var t := f + ("]" + r);
    assert "[" + f + "]" + r == "[" + t;
    CopiedText("[", t);
    CopiedText("]", r);
    CopiedInString("]", r);
    if clean {
      assert "[" + (c + ("]" + Minified(r))) == ("[" + c + "]") + Minified(r);
    } else if open {
      assert "[" + (c + ("]" + InString(r))) == ("[" + c + "]") + InString(r);
    } else {
      DivergePrefix("[", Minified(t), c);
      DivergeSuffix("[" + Minified(t), "[" + c, "", "]");
      assert "[" + Minified(t) + "" == "[" + Minified(t);
    }
  }

  lemma {:induction false} ItemsMinify(items: seq<Json>, depth: nat, r: Text)
    ensures MinifiesTo(RenderItems(items, true, depth), RenderItems(items, false, depth), CleanItems(items), OpenItems(items), r)
    decreases items, 0
  {
    hide *;
    ItemsTexts(items, depth);
    ItemFlags(items);
    if items == [] {
      EmptyMinifies(r);
    } else if |items| == 1 {
      ValueMinifies(items[0], depth, r);
    } else {
      var f, c := Render(items[0], true, depth), Render(items[0], false, depth);
      var fs, cs := RenderItems(items[1..], true, depth), RenderItems(items[1..], false, depth);
      ValueMinifies(items[0], depth, ", " + (fs + r));
      ItemsMinify(items[1..], depth, r);
      ItemsTexts(items[1..], depth);
      FirstIsToken(items[1], false, depth);
      CleanIsNotOpen(items[0]);
      CommaMinifies(f, c, fs, cs, Clean(items[0]), Open(items[0]), CleanItems(items[1..]), OpenItems(items[1..]), r);
    }
  }

  lemma ItemsTexts(items: seq<Json>, depth: nat)
    ensures items == [] ==> RenderItems(items, true, depth) == [] && RenderItems(items, false, depth) == []
    ensures |items| == 1 ==>
      RenderItems(items, true, depth) == Render(items[0], true, depth) && RenderItems(items, false, depth) == Render(items[0], false, depth)
    ensures |items| > 1 ==>
      && RenderItems(items, true, depth) == Render(items[0], true, depth) + ", " + RenderItems(items[1..], true, depth)
      && RenderItems(items, false, depth) == Render(items[0], false, depth) + "," + RenderItems(items[1..], false, depth)
    ensures items != [] ==> RenderItems(items, false, depth) != [] && RenderItems(items, false, depth)[0] == Render(items[0], false, depth)[0]
  {
    hide Render;
  }

  lemma ItemFlags(items: seq<Json>)
    ensures items == [] ==> CleanItems(items) && !OpenItems(items)
    ensures items != [] ==> CleanItems(items) == (Clean(items[0]) && CleanItems(items[1..]))
    ensures |items| == 1 ==> CleanItems(items) == Clean(items[0]) && OpenItems(items) == Open(items[0])
    ensures |items| > 1 ==> OpenItems(items) == (Clean(items[0]) && OpenItems(items[1..]))
  {
  }

  lemma {:induction false} CleanIsNotOpen(v: Json)
    ensures Clean(v) ==> !Open(v)
    decreases v, 1
  {
    if v.Array? {
      CleanItemsAreNotOpen(v.items);
    }
  }

  lemma {:induction false} CleanItemsAreNotOpen(items: seq<Json>)
    ensures CleanItems(items) ==> !OpenItems(items)
    decreases items, 0
  {
    if items != [] {
      CleanIsNotOpen(items[0]);
      CleanItemsAreNotOpen(items[1..]);
    }
  }

  lemma EmptyMinifies(r: Text)
    ensures MinifiesTo([], [], true, false, r)
  {
    assert [] + r == r && [] + Minified(r) == Minified(r);
  }

  /** Two neighbours with a comma between them. */
  lemma CommaMinifies(f: Text, c: Text, fs: Text, cs: Text, clean: bool, open: bool, cleans: bool, opens: bool, r: Text)
    requires MinifiesTo(f, c, clean, open, ", " + (fs + r)) && MinifiesTo(fs, cs, cleans, opens, r)
    requires cs != [] && cs[0] != ' ' && (clean ==> !open)
    ensures MinifiesTo(f + ", " + fs, c + "," + cs, clean && cleans, clean && opens, r)
  {
    hide InString, Minified, Diverge;
    var t := fs + r;
    assert f + ", " + fs + r == f + (", " + t);
    if clean {
      assert ", " + t == "," + (" " + t);
      CopiedText(",", " " + t);
      DroppedText(" ", t);
      assert Minified(f + (", " + t)) == c + "," + Minified(t);
      if cleans {
        assert c + "," + (cs + Minified(r)) == (c + "," + cs) + Minified(r);
      } else if opens {
        assert c + "," + (cs + InString(r)) == (c + "," + cs) + InString(r);
      } else {
        DivergePrefix(c + ",", Minified(t), cs);
      }
    } else if open {
      CopiedInString(", ", t);
      DivergesAt(c + ",", " " + InString(t), cs);
      assert c + (", " + InString(t)) == (c + ",") + (" " + InString(t));
    } else {
      DivergeSuffix(Minified(f + (", " + t)), c, "", "," + cs);
      assert c + ("," + cs) == c + "," + cs;
      assert Minified(f + (", " + t)) + "" == Minified(f + (", " + t));
    }
  }

  lemma DivergesAt(p: Text, a: Text, b: Text)
    requires a != [] && b != [] && a[0] != b[0]
    ensures Diverge(p + a, p + b)
  {
    assert (p + a)[|p|] != (p + b)[|p|];
  }

  // ----- objects

  lemma ObjectTexts(members: seq<Member>, depth: nat)
    ensures Render(Object(members), true, depth) == "{\n" + RenderMembers(members, true, depth + 1) + Tabs(depth) + "}"
    ensures Render(Object(members), false, depth) == "{" + RenderMembers(members, false, depth + 1) + "}"
    ensures forall k :: 0 <= k < |Tabs(depth)| ==> MinifySpace(Tabs(depth)[k])
  {
    hide RenderMembers;
    var c := RenderMembers(members, false, depth + 1);
    assert "{" + "" + c + "" + "}" == "{" + c + "}";
    assert "{" + "\n" == "{\n";
  }

  /** Members minify to the compact members, or to something else before the brace behind those. */
  ghost predicate MembersMinifyTo(f: Text, c: Text, clean: bool, r: Text) {
    if clean then Minified(f + r) == c + Minified(r) else Diverge(Minified(f + r), c + "}")
  }

  lemma ObjectMinifies(f: Text, c: Text, tabs: Text, clean: bool, r: Text)
    requires MembersMinifyTo(f, c, clean, tabs + ("}" + r))
    requires forall k :: 0 <= k < |tabs| ==> MinifySpace(tabs[k])
    ensures MinifiesTo("{\n" + f + tabs + "}", "{" + c + "}", clean, false, r)
  {
    hide InString, Minified, Diverge;
    var t := tabs + ("}" + r);
    assert "{\n" + f + tabs + "}" + r == "{" + ("\n" + (f + t));
    CopiedText("{", "\n" + (f + t));
    DroppedText("\n", f + t);
    DroppedText(tabs, "}" + r);
    CopiedText("}", r);
    if clean {
      assert "{" + (c + ("}" + Minified(r))) == ("{" + c + "}") + Minified(r);
    } else {
      DivergePrefix("{", Minified(f + t), c + "}");
      assert "{" + (c + "}") == "{" + c + "}";
    }
  }

  /** A key and its value, in front of `tail`. */
  function MemberText(key: Text, colon: Text, value: Text, tail: Text): Text {
    Quote(key) + (colon + (value + tail))
  }

  lemma MemberMinifies(key: Text, f: Text, c: Text, clean: bool, open: bool, tail: Text, rest: Text)
    requires MinifiesTo(f, c, clean, open, tail) && c != [] && c[0] != '\t'
    ensures var t := Minified(MemberText(key, ":\t", f, tail));
      if EndsInBackslash(key) then Diverge(t, MemberText(key, ":", c, rest))
      else if clean then t == MemberText(key, ":", c, Minified(tail))
      else if open then t == MemberText(key, ":", c, InString(tail))
      else Diverge(t, MemberText(key, ":", c, rest))
  {
    hide InString, Minified, Diverge, EndsInBackslash, Quote;
    var q, t := Quote(key), f + tail;
    QuotedText(key, ":\t" + t);
    if EndsInBackslash(key) {
      CopiedInString(":\t", t);
      ColonDiverges(q, InString(t), c + rest);
    } else {
      ColonMinifies(t);
      if clean || open {
      } else {
        DivergeSuffix(Minified(t), c, "", rest);
        assert Minified(t) + "" == Minified(t);
        ColonPrefix(q, Minified(t), c + rest);
      }
    }
  }

  lemma ColonMinifies(t: Text)
    ensures Minified(":\t" + t) == ":" + Minified(t)
  {
    hide Minified;
    assert ":\t" + t == ":" + ("\t" + t);
    CopiedText(":", "\t" + t);
    DroppedText("\t", t);
  }

  lemma ColonDiverges(q: Text, t: Text, c: Text)
    requires c != [] && c[0] != '\t'
    ensures Diverge(q + (":\t" + t), q + (":" + c))
  {
    DivergesAt(q + ":", "\t" + t, c);
    assert q + (":\t" + t) == (q + ":") + ("\t" + t);
    assert q + (":" + c) == (q + ":") + c;
  }

  lemma ColonPrefix(q: Text, t: Text, c: Text)
    requires Diverge(t, c)
    ensures Diverge(q + (":" + t), q + (":" + c))
  {
    hide Diverge;
    DivergePrefix(q + ":", t, c);
    assert (q + ":") + t == q + (":" + t);
    assert (q + ":") + c == q + (":" + c);
  }

  lemma {:induction false} MembersMinify(members: seq<Member>, depth: nat, r: Text)
    ensures MembersMinifyTo(RenderMembers(members, true, depth), RenderMembers(members, false, depth), CleanMembers(members), r)
    decreases members, 0
  {
    hide *;
    MembersTexts(members, depth);
    MemberFlags(members);
    if members == [] {
      NoMembersMinify(r);
    } else {
      var m := members[0];
      var fs, cs := RenderMembers(members[1..], true, depth), RenderMembers(members[1..], false, depth);
      var f, c := Render(m.value, true, depth), Render(m.value, false, depth);
      FirstIsToken(m.value, false, depth);
      CleanIsNotOpen(m.value);
      if |members| == 1 {
        ValueMinifies(m.value, depth, "\n" + r);
        LastMemberMinifies(Tabs(depth), m.key, f, c, Clean(m.value), Open(m.value), r);
      } else {
        MembersTexts(members[1..], depth);
        ValueMinifies(m.value, depth, ",\n" + (fs + r));
        MembersMinify(members[1..], depth, r);
        NextMemberMinifies(Tabs(depth), m.key, f, c, Clean(m.value), Open(m.value), fs, cs, CleanMembers(members[1..]), r);
      }
    }
  }

  lemma MembersTexts(members: seq<Member>, depth: nat)
    ensures members == [] ==> RenderMembers(members, true, depth) == [] && RenderMembers(members, false, depth) == []
    ensures |members| == 1 ==>
      && RenderMembers(members, true, depth) == Tabs(depth) + MemberText(members[0].key, ":\t", Render(members[0].value, true, depth), "\n")
      && RenderMembers(members, false, depth) == MemberText(members[0].key, ":", Render(members[0].value, false, depth), "")
    ensures |members| > 1 ==>
      && RenderMembers(members, true, depth)
         == Tabs(depth) + MemberText(members[0].key, ":\t", Render(members[0].value, true, depth), ",\n" + RenderMembers(members[1..], true, depth))
      && RenderMembers(members, false, depth)
         == MemberText(members[0].key, ":", Render(members[0].value, false, depth), "," + RenderMembers(members[1..], false, depth))
    ensures members != [] ==> RenderMembers(members, false, depth) != [] && RenderMembers(members, false, depth)[0] == '\"'
    ensures forall k :: 0 <= k < |Tabs(depth)| ==> MinifySpace(Tabs(depth)[k])
  {
    if members != [] {
      hide Render, Escape, RenderItems;
      var m := members[0];
      assert MemberText(m.key, ":", Render(m.value, false, depth), "")[0] == '\"';
      FormattedMember(members, depth);
      CompactMember(members, depth);
      assert |members| == 1 ==> members[1..] == [];
    }
  }

  lemma FormattedMember(members: seq<Member>, depth: nat)
    requires members != []
    ensures RenderMembers(members, true, depth)
            == Tabs(depth) + MemberText(members[0].key, ":\t", Render(members[0].value, true, depth),
                                        (if |members| > 1 then ",\n" else "\n") + RenderMembers(members[1..], true, depth))
  {
    hide Render, Quote, Tabs;
    assert "," + "\n" == ",\n" && "" + "\n" == "\n";
  }

  lemma CompactMember(members: seq<Member>, depth: nat)
    requires members != []
    ensures RenderMembers(members, false, depth)
            == MemberText(members[0].key, ":", Render(members[0].value, false, depth),
                          (if |members| > 1 then "," else "") + RenderMembers(members[1..], false, depth))
  {
    hide Render, Quote, Tabs;
    assert "," + "" == "," && "" + "" == "";
  }

  lemma MemberFlags(members: seq<Member>)
    ensures members == [] ==> CleanMembers(members)
    ensures members != [] ==>
      CleanMembers(members) == (!EndsInBackslash(members[0].key) && Clean(members[0].value) && CleanMembers(members[1..]))
    ensures |members| == 1 ==> CleanMembers(members) == (!EndsInBackslash(members[0].key) && Clean(members[0].value))
  {
  }

  lemma NoMembersMinify(r: Text)
    ensures MembersMinifyTo([], [], true, r)
  {
    assert [] + r == r && [] + Minified(r) == Minified(r);
  }

  lemma LastMemberMinifies(tabs: Text, key: Text, f: Text, c: Text, clean: bool, open: bool, r: Text)
    requires MinifiesTo(f, c, clean, open, "\n" + r) && c != [] && c[0] != '\t' && (clean ==> !open)
    requires forall k :: 0 <= k < |tabs| ==> MinifySpace(tabs[k])
    ensures MembersMinifyTo(tabs + MemberText(key, ":\t", f, "\n"), MemberText(key, ":", c, ""), !EndsInBackslash(key) && clean, r)
  {
    hide InString, Minified, Diverge, EndsInBackslash, Quote;
    var t := MemberText(key, ":\t", f, "\n" + r);
    assert tabs + MemberText(key, ":\t", f, "\n") + r == tabs + t;
    DroppedText(tabs, t);
    MemberMinifies(key, f, c, clean, open, "\n" + r, "}");
    DroppedText("\n", r);
    CopiedInString("\n", r);
    assert MemberText(key, ":", c, "") + "}" == MemberText(key, ":", c, "}");
    assert MemberText(key, ":", c, "") + Minified(r) == MemberText(key, ":", c, Minified(r));
    if open {
      var head := Quote(key) + (":" + c);
      DivergesAt(head, "\n" + InString(r), "}");
      assert MemberText(key, ":", c, "\n" + InString(r)) == head + ("\n" + InString(r));
      assert MemberText(key, ":", c, "}") == head + "}";
    }
  }

  lemma NextMemberMinifies(tabs: Text, key: Text, f: Text, c: Text, clean: bool, open: bool, fs: Text, cs: Text, cleans: bool, r: Text)
    requires MinifiesTo(f, c, clean, open, ",\n" + (fs + r)) && c != [] && c[0] != '\t' && (clean ==> !open)
    requires MembersMinifyTo(fs, cs, cleans, r) && cs != [] && cs[0] == '\"'
    requires forall k :: 0 <= k < |tabs| ==> MinifySpace(tabs[k])
    ensures MembersMinifyTo(tabs + MemberText(key, ":\t", f, ",\n" + fs), MemberText(key, ":", c, "," + cs),
                            !EndsInBackslash(key) && clean && cleans, r)
  {
    hide InString, Minified, Diverge, EndsInBackslash, Quote;
    var t := fs + r;
    var tail := ",\n" + t;
    var rest := "," + (cs + "}");
    var head := Quote(key) + (":" + c);
    assert tabs + MemberText(key, ":\t", f, ",\n" + fs) + r == tabs + MemberText(key, ":\t", f, tail);
    DroppedText(tabs, MemberText(key, ":\t", f, tail));
    MemberMinifies(key, f, c, clean, open, tail, rest);
    assert MemberText(key, ":", c, "," + cs) + "}" == MemberText(key, ":", c, rest) == head + rest;
    if open {
      CopiedInString(",\n", t);
      DivergesAt(head + ",", "\n" + InString(t), cs + "}");
      assert MemberText(key, ":", c, InString(tail)) == (head + ",") + ("\n" + InString(t));
      assert head + rest == (head + ",") + (cs + "}");
    } else if clean {
      assert tail == "," + ("\n" + t);
      CopiedText(",", "\n" + t);
      DroppedText("\n", t);
      assert MemberText(key, ":", c, Minified(tail)) == (head + ",") + Minified(t);
      if cleans {
        assert MemberText(key, ":", c, "," + cs) + Minified(r) == (head + ",") + (cs + Minified(r));
      } else {
        DivergePrefix(head + ",", Minified(t), cs + "}");
        assert head + rest == (head + ",") + (cs + "}");
      }
    }
  }

  // ----- the theorem

  /**
   Minifying the formatted text of a tree gives its compact text exactly when no string or key ends
   in a backslash, or only the last string of the text does, with nothing but brackets behind it:
   inside literals `minify_string` does not know the escape of a backslash.
   */
  lemma MinifyFormatted(v: Json)
    ensures Minified(Render(v, true, 0)) == Render(v, false, 0) <==> Clean(v) || Open(v)
  {
    hide Minified, InString, Render, Clean, Open;
    var f, c := Render(v, true, 0), Render(v, false, 0);
    ValueMinifies(v, 0, []);
    NothingLeft();
    assert f + [] == f && c + [] == c;
  }

  /** An array in which the first of two strings is a backslash keeps its space. */
  lemma BackslashKeepsSpace()
    ensures var v := Array([String("\\"), Null]);
            Printable(v) && Minified(Render(v, true, 0)) != Render(v, false, 0)
  {
    var v := Array([String("\\"), Null]);
    MinifyFormatted(v);
    assert !Clean(v.items[0]) && !OpenItems(v.items);
  }
}
