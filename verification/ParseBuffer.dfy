/**
 The parser of components/cJSON/cJSON.c: a buffer with a moving offset, and the functions that read
 a value there into a node.
 */
module ParseBuffer {
  import opened Bytes
  import opened JsonTree
  import opened Utf16
  import opened StringRoom
  import opened Items
  import opened ItemDelete
  import opened ItemBuild
  import ParseSpec
  import Spelling
  import SpellingParses
  import RoundTrip

  lemma PrependTwice<T>(s: seq<T>, t: seq<T>, r: ParseSpec.Parsed<seq<T>>)
    ensures ParseSpec.Prepend(s, ParseSpec.Prepend(t, r)) == ParseSpec.Prepend(s + t, r)
  {
    if r.Ok? {
      assert s + (t + r.value) == s + t + r.value;
    }
  }

  lemma PrependNothing<T>(r: ParseSpec.Parsed<seq<T>>)
    ensures ParseSpec.Prepend([], r) == r
  {
    assert r.Ok? ==> [] + r.value == r.value;
  }

  /** A buffer that has `t` and a NUL in front reads as the C string of `t`. */
  lemma FilledText(s: Text, t: Text)
    requires |t| < |s| && s[..|t|] == t && s[|t|] == NUL
    ensures CString(s) == CString(t)
  {
    var r := CString(t);
    assert r <= s && (|r| < |t| ==> s[|r|] == t[|r|]);
    CStringUnique(s, r);
  }

  /** Before the second pass has read anything. */
  lemma FirstStep(c: Text, start: nat, end: nat)
    requires start <= end < |c| && Boundary(c, start, end)
    ensures InStep(c, start, start, end) && Room(c, start, start, end) == end - start - Escapes(c, start, end)
    ensures Room(c, start, start, end) >= 0
  {
    EscapesBound(c, start, end);
  }

  /** A byte that is copied as it is. */
  lemma PlainStep(c: Text, p: nat, q: nat, end: nat, before: Text) returns (r: nat)
    requires InStep(c, p, q, end) && p < end && c[p] != '\\'
    ensures InStep(c, p + 1, r, end) && 0 <= Room(c, p + 1, r, end) < Room(c, p, q, end)
    ensures ParseSpec.Prepend(before, ParseSpec.Unescape(c, p, end)) ==
            ParseSpec.Prepend(before + [c[p]], ParseSpec.Unescape(c, p + 1, end))
  {
    r := ByteStep(c, p, q, end);
    RoomIsLeft(c, p + 1, r, end);
    PrependTwice(before, [c[p]], ParseSpec.Unescape(c, p + 1, end));
  }

  lemma FailedStep(before: Text, at: nat)
    ensures ParseSpec.Prepend(before, ParseSpec.Err(at)) == ParseSpec.Err(at)
  {
  }

  lemma LastStep(c: Text, p: nat, end: nat, before: Text)
    requires end <= p && end < |c|
    ensures ParseSpec.Prepend(before, ParseSpec.Unescape(c, p, end)) == ParseSpec.Ok(before, p)
  {
    assert before + [] == before;
  }

  lemma ShortEscapeRoom(c: Text, p: nat, q: nat, end: nat)
    requires InStep(c, p, q, end) && p < end && c[p] == '\\'
    ensures Room(c, p, q, end) >= 1
  {
    var r := EscapeStep(c, p, q, end, 2, 1);
    RoomIsLeft(c, p + 2, r, end);
  }

  lemma Utf8Length(cp: int)
    requires 0 <= cp <= 0x10FFFF
    ensures |Utf8(cp)| <= 4 && (cp < 0x10000 ==> |Utf8(cp)| <= 3)
  {
  }

  lemma LiteralRoom(c: Text, p: nat, q: nat, end: nat)
    requires InStep(c, p, q, end) && p < end && c[p] == '\\'
    ensures Room(c, p, q, end) >= 0
    ensures var l := DecodeLiteral(c, p, end);
      l.Literal? ==> |Utf8(l.codepoint)| <= Room(c, p, q, end) && 2 * |Utf8(l.codepoint)| <= l.length && l.length % 2 == 0
  {
    hide DecodeLiteral, Utf8, Room;
    RoomIsLeft(c, p, q, end);
    var l := DecodeLiteral(c, p, end);
    if l.Literal? {
      Utf8Length(l.codepoint);
      var r := EscapeStep(c, p, q, end, l.length, |Utf8(l.codepoint)|);
      RoomIsLeft(c, p + l.length, r, end);
    }
  }

  /** `Unescape` at an escape of one letter. */
  lemma UnescapeShort(c: Text, p: nat, end: nat)
    requires p < end < |c| && c[p] == '\\' && c[p + 1] != 'u'
    ensures ParseSpec.Unescape(c, p, end) ==
      match ParseSpec.ShortEscape(c[p + 1])
      case None => ParseSpec.Err(p)
      case Some(b) => ParseSpec.Prepend([b], ParseSpec.Unescape(c, p + 2, end))
  {
  }

  lemma UnescapeLiteral(c: Text, p: nat, end: nat)
    requires p < end < |c| && c[p] == '\\' && c[p + 1] == 'u'
    ensures ParseSpec.Unescape(c, p, end) ==
      match DecodeLiteral(c, p, end)
      case Refused => ParseSpec.Err(p)
      case Literal(cp, n) => ParseSpec.Prepend(Utf8(cp), ParseSpec.Unescape(c, p + n, end))
  {
  }

  /** One element of an array, in front of the part of the array that is still to be read. */
  lemma ItemsStep(c: Text, off: nat, depth: nat, items: seq<Json>, v: Json, n: nat)
    requires off < |c|
    requires ParseSpec.ParseValue(c, ParseSpec.SkipWhitespace(c, off + 1), depth) == ParseSpec.Ok(v, n)
    ensures var next := ParseSpec.SkipWhitespace(c, n);
      ParseSpec.Prepend(items, ParseSpec.ParseItems(c, off, depth)) ==
        if next < |c| && c[next] == ',' then ParseSpec.Prepend(items + [v], ParseSpec.ParseItems(c, next, depth))
        else if next < |c| && c[next] == ']' then ParseSpec.Ok(items + [v], next + 1)
        else ParseSpec.Err(next)
  {
    hide ParseSpec.ParseValue;
    var next := ParseSpec.SkipWhitespace(c, n);
    if next < |c| && c[next] == ',' {
      PrependTwice(items, [v], ParseSpec.ParseItems(c, next, depth));
    }
  }

  lemma NoItems()
    ensures Building(null, null, []) && Elements([], []) && Entries([], []) && Footprints([]) == {} && NodeSets([]) == {}
  {
  }

  lemma ItemsFails(c: Text, off: nat, depth: nat, items: seq<Json>, r: ParseSpec.Parsed<seq<Json>>)
    requires off < |c|
    requires r == ParseSpec.Prepend(items, ParseSpec.ParseItems(c, off, depth))
    ensures var v := ParseSpec.ParseValue(c, ParseSpec.SkipWhitespace(c, off + 1), depth);
      v.Err? ==> r == ParseSpec.Err(v.at)
  {
    hide ParseSpec.ParseValue;
  }

  /** One member of an object, behind the brace or comma at `off`. */
  ghost function MemberAt(c: Text, off: nat, depth: nat): (r: ParseSpec.Parsed<Member>)
    requires off < |c|
    ensures r.Ok? ==> off < r.next <= |c|
  {
    if off + 1 >= |c| then ParseSpec.Err(off) else
    match ParseSpec.ParseKey(c, ParseSpec.SkipWhitespace(c, off + 1))
    case Err(at) => ParseSpec.Err(at)
    case Ok(key, colon) =>
      match ParseSpec.ParseValue(c, ParseSpec.SkipWhitespace(c, colon + 1), depth)
      case Err(at) => ParseSpec.Err(at)
      case Ok(v, n) => ParseSpec.Ok(Member(key, v), n)
  }

  lemma MembersUnfold(c: Text, off: nat, depth: nat)
    requires off < |c|
    ensures ParseSpec.ParseMembers(c, off, depth) ==
      match MemberAt(c, off, depth)
      case Err(at) => ParseSpec.Err(at)
      case Ok(m, n) =>
        var next := ParseSpec.SkipWhitespace(c, n);
        if next < |c| && c[next] == ',' then ParseSpec.Prepend([m], ParseSpec.ParseMembers(c, next, depth))
        else if next < |c| && c[next] == '}' then ParseSpec.Ok([m], next + 1)
        else ParseSpec.Err(next)
  {
    hide ParseSpec.ParseValue, ParseSpec.ParseKey, ParseSpec.SkipWhitespace, ParseSpec.Prepend;
  }

  lemma MembersStep(c: Text, off: nat, depth: nat, members: seq<Member>, r: ParseSpec.Parsed<seq<Member>>)
    requires off < |c|
    requires r == ParseSpec.Prepend(members, ParseSpec.ParseMembers(c, off, depth))
    ensures r ==
      match MemberAt(c, off, depth)
      case Err(at) => ParseSpec.Err(at)
      case Ok(m, n) =>
        var next := ParseSpec.SkipWhitespace(c, n);
        if next < |c| && c[next] == ',' then
          ParseSpec.Prepend(members + [m], ParseSpec.ParseMembers(c, next, depth))
        else if next < |c| && c[next] == '}' then ParseSpec.Ok(members + [m], next + 1)
        else ParseSpec.Err(next)
  {
    hide ParseSpec.ParseMembers, MemberAt, ParseSpec.SkipWhitespace;
    MembersUnfold(c, off, depth);
    match MemberAt(c, off, depth)
    case Err(_) =>
    case Ok(m, n) =>
      var next := ParseSpec.SkipWhitespace(c, n);
      if next < |c| && c[next] == ',' {
        PrependTwice(members, [m], ParseSpec.ParseMembers(c, next, depth));
      }
  }

  // ----- the lists under construction

  lemma Unshared(item: Item, kids: seq<Shape>)
    requires item.valuestring == null
    requires item.name != null ==> item.name !in BufferSets(kids)
    ensures OwnStrings(item, kids)
  {
  }

  lemma NoText(s: Shape)
    requires s.text == null
    ensures Below(s) == Footprints(s.kids)
  {
  }

  ghost predicate Entries(kids: seq<Shape>, members: seq<Member>)
    reads NodeSets(kids)`kind, NodeSets(kids)`valueint, NodeSets(kids)`valuedouble, BufferSets(kids)
  {
    |kids| == |members| && AllTerminated(BufferSets(kids)) &&
    forall i :: 0 <= i < |members| ==> HasText(kids[i].key, members[i].key) && Denotes(kids[i], members[i].value)
  }

  /** The strings of a tree, except the key of its root, are C strings. */
  ghost predicate Texts(s: Shape)
    reads Buffer(s.text), BufferSets(s.kids)
  {
    AllTerminated(Buffer(s.text)) && AllTerminated(BufferSets(s.kids))
  }

  lemma KeyTerminated(s: Shape, key: Text)
    requires Texts(s) && HasText(s.key, key)
    ensures AllTerminated(BufferSet(s))
  {
  }

  lemma NoKeyTerminated(s: Shape)
    requires Texts(s) && s.key == null
    ensures AllTerminated(BufferSet(s))
  {
  }

  lemma {:induction false} AddEntry(kids: seq<Shape>, members: seq<Member>, s: Shape, m: Member)
    requires Entries(kids, members) && HasText(s.key, m.key) && Denotes(s, m.value) && Texts(s)
    ensures Entries(kids + [s], members + [m])
  {
    KeyTerminated(s, m.key);
    hide Denotes, HasText, AllTerminated;
    AppendSets(kids, s);
    TerminatedUnion(BufferSets(kids), BufferSet(s));
  }

  lemma ObjectDenotes(item: Item, kids: seq<Shape>, members: seq<Member>)
    requires item.kind == IsObject && Entries(kids, members)
    ensures Denotes(Shape(item, null, item.name, kids), Object(members)) && Texts(Shape(item, null, item.name, kids))
  {
  }

  /** A node without children, and the values that it may stand for. */
  lemma ScalarBelow(item: Item)
    requires item.child == null && Buffer(item.valuestring) !! Buffer(item.name)
    ensures var s := Shape(item, item.valuestring, item.name, []);
      && Tree(s) && Separate(s) && Below(s) == Buffer(item.valuestring)
      && (item.kind == IsNull ==> Denotes(s, Null))
      && (item.kind == IsFalse ==> Denotes(s, False))
      && (item.kind == IsTrue ==> Denotes(s, True))
      && (item.kind == IsNumber ==> Denotes(s, Number(item.valuedouble, item.valueint)))
      && (item.kind == IsString ==> forall t :: HasText(item.valuestring, t) ==> Denotes(s, String(t)) && Texts(s))
      && (item.valuestring == null ==> Texts(s))
  {
    LeafTree(item);
    LeafFootprint(item, item.valuestring, item.name);
  }

  lemma ArrayDenotes(item: Item, kids: seq<Shape>, items: seq<Json>)
    requires item.kind == IsArray && Elements(kids, items)
    ensures Denotes(Shape(item, null, item.name, kids), Array(items)) && Texts(Shape(item, null, item.name, kids))
  {
  }

  lemma {:induction false} AddElement(kids: seq<Shape>, items: seq<Json>, s: Shape, v: Json)
    requires Elements(kids, items) && Denotes(s, v) && Texts(s) && s.key == null
    ensures Elements(kids + [s], items + [v])
  {
    NoKeyTerminated(s);
    hide Denotes, AllTerminated;
    AppendSets(kids, s);
    TerminatedUnion(BufferSets(kids), BufferSet(s));
  }

  ghost predicate Elements(kids: seq<Shape>, items: seq<Json>)
    reads NodeSets(kids)`kind, NodeSets(kids)`valueint, NodeSets(kids)`valuedouble, BufferSets(kids)
  {
    |kids| == |items| && AllTerminated(BufferSets(kids)) &&
    forall i :: 0 <= i < |items| ==> Denotes(kids[i], items[i])
  }

  lemma NumberStep(c: Text, off: nat, max: nat)
    requires off <= |c|
    ensures ParseSpec.NumberLength(c, off, max) ==
      if max == 0 || off >= |c| || !ParseSpec.NumberByte(c[off]) then 0 else 1 + ParseSpec.NumberLength(c, off + 1, max - 1)
  {
  }

  class ParseBuffer {
    const content: Text
    var offset: nat
    var depth: nat
    const hooks: Hooks

    constructor (content: Text, hooks: Hooks)
      ensures this.content == content && this.hooks == hooks && offset == 0 && depth == 0
    {
      this.content, this.hooks, this.offset, this.depth := content, hooks, 0, 0;
    }

    predicate CanAccess(index: nat)
      reads this`offset
    {
      offset + index < |content|
    }

    /** Whether `t` stands at the offset: `can_read` and `strncmp`. */
    predicate Reads(t: Text)
      reads this`offset
    {
      offset + |t| <= |content| && content[offset..offset + |t|] == t
    }

    // ----- white space

    method BufferSkipWhitespace()
      requires offset <= |content|
      modifies this`offset
      ensures offset == ParseSpec.SkipWhitespace(content, old(offset))
    {
      if !CanAccess(0) {
        return;
      }
      ghost var start := offset;
      while CanAccess(0) && content[offset] as int <= 32
        invariant start <= offset <= |content|
        invariant ParseSpec.SkipWhitespace(content, start) ==
                  if offset < |content| then ParseSpec.SkipWhitespace(content, offset) else |content| - 1
        decreases |content| - offset
      {
        offset := offset + 1;
      }
      if offset == |content| {
        offset := offset - 1;
      }
    }

    method SkipUtf8Bom()
      requires offset == 0
      modifies this`offset
      ensures offset == ParseSpec.SkipBom(content)
    {
      if CanAccess(4) && Reads([0xEF as char, 0xBB as char, 0xBF as char]) {
        offset := offset + 3;
      }
    }

    // ----- strings

    /** The first pass: the closing quote, and how many bytes of escapes there are. */
    method FindClosingQuote(start: nat) returns (ok: bool, end: nat, skipped: nat)
      requires start <= |content|
      ensures var e := ParseSpec.ClosingQuote(content, start);
        if ok then e == ParseSpec.Some(end) && Boundary(content, start, end) && skipped == Escapes(content, start, end)
        else e.None?
    {
      end, skipped := start, 0;
      ghost var target := ParseSpec.ClosingQuote(content, start);
      while end < |content| && content[end] != '\"'
        invariant start <= end
        invariant target == ParseSpec.ClosingQuote(content, end)
        invariant target.Some? ==>
          Escapes(content, start, target.value) == skipped + Escapes(content, end, target.value)
        decreases |content| - end
      {
        if content[end] == '\\' {
          if end + 1 >= |content| {
            return false, end, skipped;
          }
          skipped := skipped + 1;
          end := end + 1;
        }
        end := end + 1;
      }
      ok := end < |content|;
    }

    /**
     The second pass: unescapes the bytes from `start` up to the closing quote into `output`, which
     the first pass has measured; `at` is where the pass ends.
     */
    method FillOutput(start: nat, end: nat, output: array<Byte>) returns (ok: bool, at: nat, written: nat)
      requires start <= end < |content| && Boundary(content, start, end)
      requires output.Length == end - start - Escapes(content, start, end) + 2
      modifies output
      ensures var r := ParseSpec.Unescape(content, start, end);
        if ok then r.Ok? && written < output.Length && output[..written] == r.value
        else r == ParseSpec.Err(at)
    {
      hide ParseSpec.Unescape, ParseSpec.Prepend, InStep, Room, Escapes, Boundary;
      ghost var all := ParseSpec.Unescape(content, start, end);
      ghost var q := start;
      var p, o := start, 0;
      PrependNothing(all);
      FirstStep(content, start, end);
      while p < end
        invariant start <= p && InStep(content, p, q, end)
        invariant o + Room(content, p, q, end) + 1 < output.Length && o + 1 < output.Length
        invariant all == ParseSpec.Prepend(output[..o], ParseSpec.Unescape(content, p, end))
        decreases end - p
      {
        ghost var before := output[..o];
        if content[p] != '\\' {
          q := PlainStep(content, p, q, end, before);
          output[o] := content[p];
          assert output[..o + 1] == before + [content[p]];
          p, o := p + 1, o + 1;
        } else {
          var length, next := Escape(p, end, output, o, q);
          if length == 0 {
            FailedStep(before, p);
            return false, p, o;
          }
          q := EscapeStep(content, p, q, end, length, next - o);
          RoomIsLeft(content, p + length, q, end);
          PrependTwice(before, output[o..next], ParseSpec.Unescape(content, p + length, end));
          assert output[..next] == before + output[o..next];
          p, o := p + length, next;
        }
      }
      LastStep(content, p, end, output[..o]);
      return true, p, o;
    }

    /** One escape; its length, or 0 when it is refused, and the position behind the bytes written. */
    method Escape(p: nat, end: nat, output: array<Byte>, o: nat, ghost q: nat) returns (length: nat, next: nat)
      requires p < end < |content| && content[p] == '\\'
      requires InStep(content, p, q, end) && o + Room(content, p, q, end) + 1 < output.Length
      modifies output
      ensures o <= next <= output.Length && output[..o] == old(output[..o])
      ensures length > 0 ==>
        && length % 2 == 0 && 2 * (next - o) <= length && (length == 2 || p + length <= end)
        && ParseSpec.Unescape(content, p, end) ==
           ParseSpec.Prepend(output[o..next], ParseSpec.Unescape(content, p + length, end))
      ensures length == 0 ==> ParseSpec.Unescape(content, p, end) == ParseSpec.Err(p)
    {
      hide ParseSpec.Unescape, ParseSpec.Prepend, InStep, Room, DecodeLiteral;
      if content[p + 1] == 'u' {
        length, next := UnicodeEscape(p, end, output, o, q);
        return;
      }
      ShortEscapeRoom(content, p, q, end);
      UnescapeShort(content, p, end);
      length, next := 2, o;
      match content[p + 1] {
        case 'b' => output[o] := BACKSPACE;
        case 'f' => output[o] := FORM_FEED;
        case 'n' => output[o] := '\n';
        case 'r' => output[o] := '\r';
        case 't' => output[o] := '\t';
        case '\"' => output[o] := content[p + 1];
        case '\\' => output[o] := content[p + 1];
        case '/' => output[o] := content[p + 1];
        case _ => return 0, o;
      }
      next := o + 1;
      assert output[o..next] == [output[o]];
    }

    method UnicodeEscape(p: nat, end: nat, output: array<Byte>, o: nat, ghost q: nat) returns (length: nat, next: nat)
      requires p < end < |content| && content[p] == '\\' && content[p + 1] == 'u'
      requires InStep(content, p, q, end) && o + Room(content, p, q, end) + 1 < output.Length
      modifies output
      ensures o <= next <= output.Length && output[..o] == old(output[..o])
      ensures length > 0 ==>
        && length % 2 == 0 && 2 * (next - o) <= length && p + length <= end
        && ParseSpec.Unescape(content, p, end) ==
           ParseSpec.Prepend(output[o..next], ParseSpec.Unescape(content, p + length, end))
      ensures length == 0 ==> ParseSpec.Unescape(content, p, end) == ParseSpec.Err(p)
    {
      hide ParseSpec.Unescape, ParseSpec.Prepend, InStep, Room, DecodeLiteral;
      LiteralRoom(content, p, q, end);
      UnescapeLiteral(content, p, end);
      ghost var was := output[..];
      length, next := Utf16LiteralToUtf8(content, p, end, output, o);
      assert output[..o] == output[..][..o] && output[o..next] == output[..][o..next] && was[..o] == old(output[..o]);
    }

    /** Reads the string at the offset into `item`. */
    method ParseString(item: Item) returns (ok: bool)
      requires offset < |content| && item.valuestring == null
      modifies this`offset, hooks, item`kind, item`valuestring
      ensures offset <= |content|
      ensures ok ==>
        && var r := ParseSpec.ParseString(content, old(offset));
        && r.Ok? && offset == r.next && item.kind == IsString
        && item.valuestring != null && fresh(item.valuestring) && HasText(item.valuestring, r.value)
        && hooks.live == old(hooks.live) + Buffer(item.valuestring) && hooks.refused == old(hooks.refused)
      ensures !ok ==>
        && hooks.live == old(hooks.live) && item.valuestring == null && item.kind == old(item.kind)
        && (hooks.refused || ParseSpec.ParseString(content, old(offset)) == ParseSpec.Err(offset))
    {
      hide ParseSpec.Unescape, ParseSpec.ClosingQuote, Boundary, Escapes, CString;
      var start := offset + 1;
      if content[offset] != '\"' {
        offset := start;
        return false;
      }
      var found, end, skipped := FindClosingQuote(start);
      if !found {
        offset := start;
        return false;
      }
      EscapesBound(content, start, end);
      var allocationLength := end - offset - skipped;
      var output := hooks.Allocate(allocationLength + 1);
      if output == null {
        offset := start;
        return false;
      }
      var filled, at, written := FillOutput(start, end, output);
      if !filled {
        hooks.Free(output);
        offset := at;
        return false;
      }
      output[written] := NUL;
      FilledText(output[..], output[..written]);
      item.kind, item.valuestring := IsString, output;
      offset := end;
      offset := offset + 1;
      return true;
    }

    // ----- numbers

    /** Copies the bytes that belong to the number at the offset. */
    method CopyNumber(number: array<Byte>) returns (i: nat)
      requires offset <= |content| && number.Length == 64
      modifies number
      ensures i < 64 && number[..i] == content[offset..offset + ParseSpec.NumberLength(content, offset, 63)]
    {
      hide ParseSpec.NumberLength;
      i := 0;
      ghost var n := ParseSpec.NumberLength(content, offset, 63);
      NumberStep(content, offset, 63);
      while i < 63 && CanAccess(i) && ParseSpec.NumberByte(content[offset + i])
        invariant i <= 63 && offset + i <= |content|
        invariant forall k :: 0 <= k < i ==> number[k] == content[offset + k]
        invariant n == i + ParseSpec.NumberLength(content, offset + i, 63 - i)
        invariant i == 63 || !CanAccess(i) || !ParseSpec.NumberByte(content[offset + i]) ==> n == i
      {
        NumberStep(content, offset + i, 63 - i);
        NumberStep(content, offset + i + 1, 63 - i - 1);
        number[i] := content[offset + i];
        i := i + 1;
      }
      number[i] := NUL;
    }

    /** The number at the offset; `strtod` reads the text copied into a buffer of its own. */
    method ParseNumber(item: Item) returns (ok: bool)
      requires offset <= |content|
      modifies this`offset, item`kind, item`valueint, item`valuedouble
      ensures offset <= |content|
      ensures var r := ParseSpec.ParseNumber(content, old(offset));
        if ok then
          r.Ok? && offset == r.next && item.kind == IsNumber && r.value == Number(item.valuedouble, item.valueint)
        else r == ParseSpec.Err(offset) && item.kind == old(item.kind)
    {
      hide ParseSpec.Strtod, ParseSpec.NumberLength;
      var number := new Byte[64];
      var i := CopyNumber(number);
      var conversion := ParseSpec.Strtod(number[..i]);
      if conversion.consumed == 0 {
        return false;
      }
      item.valuedouble := conversion.value;
      if conversion.value >= INT_MAX as real {
        item.valueint := INT_MAX;
      } else if conversion.value <= INT_MIN as real {
        item.valueint := INT_MIN;
      } else if conversion.value >= 0.0 {
        item.valueint := conversion.value.Floor;
      } else {
        item.valueint := -(-conversion.value).Floor;
      }
      item.kind := IsNumber;
      offset := offset + conversion.consumed;
      return true;
    }

    // ----- arrays

    /** A new node at the end of the list under construction. */
    method AddItem(head0: Item?, last0: Item?, ghost kids: seq<Shape>) returns (head: Item?, last: Item?)
      requires Building(head0, last0, kids)
      modifies hooks, NodeSets(kids)`next, NodeSets(kids)`prev
      ensures last == null ==> hooks.refused && hooks.live == old(hooks.live) && head == head0 && Building(head, last0, kids)
      ensures last != null ==>
        && fresh(last) && hooks.live == old(hooks.live) + {last} && hooks.refused == old(hooks.refused)
        && last.child == null && last.valuestring == null && last.name == null
        && Growing(head, Nodes(kids) + [last]) && Trees(kids) && SeparateAll(kids)
    {
      hide Growing, Trees, SeparateAll, NodeSets, NodeSet, Building, Tree, BufferSets;
      BuildingParts(head0, last0, kids);
      assert allocated(NodeSets(kids)) && allocated(Nodes(kids));
      last := hooks.NewItem();
      head := head0;
      if last == null {
        return;
      }
      if head == null {
        head := last;
        FirstGrowing(last);
        assert Nodes(kids) + [last] == [last];
      } else {
        LinkTree(last0, last, head0, kids);
      }
    }

    /** The next element of an array: a node for it, linked behind the others, and its value. */
    method ParseNextItem(head0: Item?, last0: Item?, ghost kids0: seq<Shape>, ghost items: seq<Json>)
      returns (ok: bool, head: Item?, last: Item?, ghost kids: seq<Shape>, ghost v: Json, ghost n: nat)
      requires offset < |content| && depth <= ParseSpec.NESTING_LIMIT
      requires Building(head0, last0, kids0) && Elements(kids0, items)
      modifies this`offset, this`depth, hooks, NodeSets(kids0)`next, NodeSets(kids0)`prev
      ensures offset <= |content|
      ensures Footprints(kids0) <= Footprints(kids)
      ensures fresh(Footprints(kids) - Footprints(kids0))
      ensures hooks.live == old(hooks.live) + (Footprints(kids) - Footprints(kids0))
      ensures ok ==>
        && depth == old(depth) && hooks.refused == old(hooks.refused)
        && Building(head, last, kids) && Elements(kids, items + [v])
        && ParseSpec.ParseValue(content, ParseSpec.SkipWhitespace(content, old(offset) + 1), depth) == ParseSpec.Ok(v, n)
        && offset == ParseSpec.SkipWhitespace(content, n) && old(offset) < n <= |content|
      ensures !ok ==>
        && Deletable(head, kids)
        && (hooks.refused || ParseSpec.ParseValue(content, ParseSpec.SkipWhitespace(content, old(offset) + 1), old(depth)) == ParseSpec.Err(offset))
      decreases |content| - offset, 1
    {
      hide *;
      ghost var start := ParseSpec.SkipWhitespace(content, offset + 1);
      kids, v, n := kids0, Null, 0;
      assert allocated(NodeSets(kids0)) && allocated(BufferSets(kids0)) && allocated(Footprints(kids0));
      head, last := AddItem(head0, last0, kids0);
      if last == null {
        BuildingParts(head, last0, kids);
        BuildingDeletable(head, kids);
        return false, head, last0, kids, v, n;
      }
      offset := offset + 1;
      BufferSkipWhitespace();
      ghost var s;
      assert last !in NodeSets(kids0) && last !in Footprints(kids0);
      ok, s := ParseValue(last);
      FootprintParts(s);
      assert Footprints(kids0) !! Footprint(s);
      AppendTree(head, kids0, s);
      kids := kids0 + [s];
      if !ok {
        return;
      }
      ghost var r := ParseSpec.ParseValue(content, start, depth);
      v, n := r.value, r.next;
      AddElement(kids0, items, s, v);
      assert allocated(NodeSets(kids)) && allocated(BufferSets(kids));
      BufferSkipWhitespace();
    }

    /** The loop over the elements of an array; on failure, the list is deleted. */
    method ParseItems() returns (ok: bool, head: Item?, last: Item?, ghost kids: seq<Shape>, ghost items: seq<Json>)
      requires offset < |content| && depth <= ParseSpec.NESTING_LIMIT
      modifies this`offset, this`depth, hooks
      ensures offset <= |content|
      ensures fresh(Footprints(kids)) && hooks.live == old(hooks.live) + Footprints(kids)
      ensures ok ==>
        && depth == old(depth) && hooks.refused == old(hooks.refused)
        && Building(head, last, kids) && Elements(kids, items)
        && offset < |content| && ParseSpec.ParseItems(content, old(offset), depth) == ParseSpec.Ok(items, offset + 1)
      ensures !ok ==>
        && Footprints(kids) == {}
        && (hooks.refused || ParseSpec.ParseItems(content, old(offset), old(depth)) == ParseSpec.Err(offset))
      decreases |content| - offset, 2
    {
      hide Building, Elements, Deletable, Growing, Trees, Tree, SeparateAll, Separate, NodeSets, NodeSet, BufferSets, BufferSet;
      hide Footprints, ParseSpec.ParseValue, ParseSpec.ParseItems, ParseSpec.SkipWhitespace, ParseSpec.Prepend;
      ghost var start := ParseSpec.ParseItems(content, offset, depth);
      ghost var live := hooks.live;
      head, last, kids, items := null, null, [], [];
      NoItems();
      PrependNothing(start);
      var more := true;
      while more
        invariant offset <= |content| && (more ==> offset < |content|) && old(offset) <= offset
        invariant depth == old(depth) && hooks.refused == old(hooks.refused)
        invariant Building(head, last, kids) && Elements(kids, items)
        invariant fresh(Footprints(kids)) && hooks.live == live + Footprints(kids)
        invariant fresh(NodeSets(kids))
        invariant more ==> start == ParseSpec.Prepend(items, ParseSpec.ParseItems(content, offset, depth))
        invariant more || start ==
          if CanAccess(0) && content[offset] == ']' then ParseSpec.Ok(items, offset + 1) else ParseSpec.Err(offset)
        decreases |content| - offset, more
      {
        ghost var v, n, off, before, below := Null, 0, offset, items, Footprints(kids);
        ok, head, last, kids, v, n := ParseNextItem(head, last, kids, items);
        NodesOfFootprints(kids);
        assert live + below + (Footprints(kids) - below) == live + Footprints(kids);
        if !ok {
          ItemsFails(content, off, old(depth), before, start);
          DropList(hooks, head, kids);
          kids := [];
          return;
        }
        ItemsStep(content, off, depth, before, v, n);
        items := before + [v];
        more := CanAccess(0) && content[offset] == ',';
      }
      if !CanAccess(0) || content[offset] != ']' {
        BuildingParts(head, last, kids);
        BuildingDeletable(head, kids);
        DropList(hooks, head, kids);
        kids := [];
        return false, head, last, kids, items;
      }
      ok := true;
    }

    /** `parse_array` up to its label `success`: the children, with the offset at the bracket behind them. */
    method ParseBrackets() returns (ok: bool, head: Item?, last: Item?, ghost kids: seq<Shape>, ghost items: seq<Json>)
      requires offset < |content| && depth <= ParseSpec.NESTING_LIMIT
      modifies this`offset, this`depth, hooks
      ensures offset <= |content|
      ensures fresh(Footprints(kids)) && hooks.live == old(hooks.live) + Footprints(kids)
      ensures ok ==>
        && depth == old(depth) + 1 && hooks.refused == old(hooks.refused)
        && Building(head, last, kids) && Elements(kids, items)
        && ParseSpec.ParseArray(content, old(offset), old(depth)) == ParseSpec.Ok(Array(items), offset + 1)
      ensures !ok ==>
        && Footprints(kids) == {}
        && (hooks.refused || ParseSpec.ParseArray(content, old(offset), old(depth)) == ParseSpec.Err(offset))
      decreases |content| - offset, 3
    {
      hide Building, Elements, Tree, Trees, Footprints, NodeSets, BufferSets, Denotes, ParseSpec.ParseItems;
      NoItems();
      ok, head, last, kids, items := false, null, null, [], [];
      if depth >= ParseSpec.NESTING_LIMIT {
        return;
      }
      depth := depth + 1;
      if content[offset] != '[' {
        return;
      }
      offset := offset + 1;
      BufferSkipWhitespace();
      if CanAccess(0) && content[offset] == ']' {
        NoItems();
        ok := true;
        return;
      }
      if !CanAccess(0) {
        offset := offset - 1;
        return;
      }
      offset := offset - 1;
      ok, head, last, kids, items := ParseItems();
    }

    /** Reads the array at the offset into `item`; `s` is the tree below the item. */
    method ParseArray(item: Item) returns (ok: bool, ghost s: Shape)
      requires offset < |content| && depth <= ParseSpec.NESTING_LIMIT
      requires item.child == null && item.valuestring == null
      modifies this`offset, this`depth, hooks, item`kind, item`child
      ensures offset <= |content|
      ensures s.node == item && s.key == item.name && Tree(s) && Separate(s)
      ensures fresh(Below(s)) && hooks.live == old(hooks.live) + Below(s)
      ensures ok ==>
        && var r := ParseSpec.ParseArray(content, old(offset), old(depth));
        && r.Ok? && offset == r.next && depth == old(depth) && Denotes(s, r.value) && Texts(s)
        && hooks.refused == old(hooks.refused)
      ensures !ok ==>
        && Below(s) == {} && item.kind == old(item.kind)
        && (hooks.refused || ParseSpec.ParseArray(content, old(offset), old(depth)) == ParseSpec.Err(offset))
      decreases |content| - offset, 4
    {
      hide *;
      var head, current;
      ghost var kids, items;
      ok, head, current, kids, items := ParseBrackets();
      if !ok {
        LeafBelow(item);
        s := Shape(item, null, item.name, []);
        return;
      }
      NodesOfFootprints(kids);
      assert allocated(NodeSets(kids)) && allocated(BufferSets(kids));
      depth := depth - 1;
      offset := offset + 1;
      Unshared(item, kids);
      CloseArray(item, head, current, kids, items);
      s := Shape(item, null, item.name, kids);
    }

    /** `parse_array` from its label `success` on. */
    method CloseArray(item: Item, head: Item?, last: Item?, ghost kids: seq<Shape>, ghost items: seq<Json>)
      requires Building(head, last, kids) && Elements(kids, items) && item.valuestring == null
      requires item !in NodeSets(kids) && OwnStrings(item, kids)
      modifies NodeSets(kids)`prev, item`kind, item`child
      ensures var s := Shape(item, null, item.name, kids);
        Tree(s) && Separate(s) && Denotes(s, Array(items)) && Texts(s) && Below(s) == Footprints(kids)
    {
      hide *;
      BuildingParts(head, last, kids);
      assert allocated(NodeSets(kids)) && allocated(BufferSets(kids));
      CloseList(head, last, kids);
      item.kind, item.child := IsArray, head;
      ParentTree(item, kids);
      NoText(Shape(item, null, item.name, kids));
      ArrayDenotes(item, kids, items);
    }

    // ----- objects

    /** The key at the offset, which becomes the name of `item`, and the colon behind it. */
    method ParseName(item: Item) returns (ok: bool)
      requires offset < |content| && item.child == null && item.valuestring == null && item.name == null
      modifies this`offset, hooks, item`kind, item`valuestring, item`name
      ensures offset <= |content| && item.valuestring == null
      ensures fresh(Buffer(item.name)) && hooks.live == old(hooks.live) + Buffer(item.name)
      ensures ok ==>
        && var r := ParseSpec.ParseKey(content, old(offset));
        && r.Ok? && offset == r.next && HasText(item.name, r.value) && hooks.refused == old(hooks.refused)
      ensures !ok ==>
        hooks.refused || ParseSpec.ParseKey(content, old(offset)) == ParseSpec.Err(offset)
    {
      hide ParseSpec.ParseString, HasText;
      ok := ParseString(item);
      if !ok {
        return;
      }
      BufferSkipWhitespace();
      item.name := item.valuestring;
      item.valuestring := null;
      ok := CanAccess(0) && content[offset] == ':';
    }

    /** The key and the value of a member, behind the brace or comma at the offset. */
    method ParseMember(item: Item) returns (ok: bool, ghost s: Shape)
      requires offset < |content| && depth <= ParseSpec.NESTING_LIMIT
      requires item.child == null && item.valuestring == null && item.name == null
      modifies this`offset, this`depth, hooks
      modifies item`kind, item`valuestring, item`valueint, item`valuedouble, item`child, item`name
      ensures offset <= |content|
      ensures s.node == item && Tree(s) && Separate(s)
      ensures fresh(Below(s) + Buffer(s.key)) && hooks.live == old(hooks.live) + Below(s) + Buffer(s.key)
      ensures ok ==>
        && var r := MemberAt(content, old(offset), old(depth));
        && r.Ok? && offset == r.next && depth == old(depth)
        && HasText(s.key, r.value.key) && Denotes(s, r.value.value) && Texts(s)
        && hooks.refused == old(hooks.refused)
      ensures !ok ==>
        && Below(s) == {}
        && (hooks.refused || MemberAt(content, old(offset), old(depth)) == ParseSpec.Err(offset))
      decreases |content| - offset, 1
    {
      hide ParseSpec.ParseValue, ParseSpec.ParseKey, ParseSpec.SkipWhitespace, HasText, Denotes, Tree, Separate, Below, Texts;
      s := Shape(item, null, item.name, []);
      if !CanAccess(1) {
        LeafBelow(item);
        return false, s;
      }
      offset := offset + 1;
      BufferSkipWhitespace();
      ok := ParseName(item);
      if !ok {
        LeafBelow(item);
        s := Shape(item, null, item.name, []);
        return;
      }
      assert allocated(Buffer(item.name));
      offset := offset + 1;
      BufferSkipWhitespace();
      ok, s := ParseValue(item);
    }

    /** The next member of an object: a node for it, linked behind the others, its key and its value. */
    method ParseNextMember(head0: Item?, last0: Item?, ghost kids0: seq<Shape>, ghost members: seq<Member>)
      returns (ok: bool, head: Item?, last: Item?, ghost kids: seq<Shape>, ghost m: Member, ghost n: nat)
      requires offset < |content| && depth <= ParseSpec.NESTING_LIMIT
      requires Building(head0, last0, kids0) && Entries(kids0, members)
      modifies this`offset, this`depth, hooks, NodeSets(kids0)`next, NodeSets(kids0)`prev
      ensures offset <= |content|
      ensures Footprints(kids0) <= Footprints(kids)
      ensures fresh(Footprints(kids) - Footprints(kids0))
      ensures hooks.live == old(hooks.live) + (Footprints(kids) - Footprints(kids0))
      ensures ok ==>
        && depth == old(depth) && hooks.refused == old(hooks.refused)
        && Building(head, last, kids) && Entries(kids, members + [m])
        && MemberAt(content, old(offset), depth) == ParseSpec.Ok(m, n)
        && offset == ParseSpec.SkipWhitespace(content, n) && old(offset) < n <= |content|
      ensures !ok ==>
        && Deletable(head, kids)
        && (hooks.refused || MemberAt(content, old(offset), old(depth)) == ParseSpec.Err(offset))
      decreases |content| - offset, 2
    {
      hide *;
      ghost var r := MemberAt(content, offset, depth);
      kids, m, n := kids0, Member([], Null), 0;
      assert allocated(NodeSets(kids0)) && allocated(BufferSets(kids0)) && allocated(Footprints(kids0));
      head, last := AddItem(head0, last0, kids0);
      if last == null {
        BuildingParts(head, last0, kids);
        BuildingDeletable(head, kids);
        return false, head, last0, kids, m, n;
      }
      ghost var s;
      assert last !in NodeSets(kids0) && last !in Footprints(kids0);
      ok, s := ParseMember(last);
      FootprintParts(s);
      assert Footprints(kids0) !! Footprint(s);
      AppendTree(head, kids0, s);
      kids := kids0 + [s];
      if !ok {
        return;
      }
      m, n := r.value, r.next;
      AddEntry(kids0, members, s, m);
      assert allocated(NodeSets(kids)) && allocated(BufferSets(kids));
      BufferSkipWhitespace();
    }

    /** The loop over the members of an object; on failure, the list is deleted. */
    method ParseMembers() returns (ok: bool, head: Item?, last: Item?, ghost kids: seq<Shape>, ghost members: seq<Member>)
      requires offset < |content| && depth <= ParseSpec.NESTING_LIMIT
      modifies this`offset, this`depth, hooks
      ensures offset <= |content|
      ensures fresh(Footprints(kids)) && hooks.live == old(hooks.live) + Footprints(kids)
      ensures ok ==>
        && depth == old(depth) && hooks.refused == old(hooks.refused)
        && Building(head, last, kids) && Entries(kids, members)
        && offset < |content| && ParseSpec.ParseMembers(content, old(offset), depth) == ParseSpec.Ok(members, offset + 1)
      ensures !ok ==>
        && Footprints(kids) == {}
        && (hooks.refused || ParseSpec.ParseMembers(content, old(offset), old(depth)) == ParseSpec.Err(offset))
      decreases |content| - offset, 3
    {
      hide Building, Entries, Deletable, Growing, Trees, Tree, SeparateAll, Separate, NodeSets, NodeSet, BufferSets, BufferSet;
      hide Footprints, MemberAt, ParseSpec.ParseMembers, ParseSpec.SkipWhitespace, ParseSpec.Prepend;
      ghost var start := ParseSpec.ParseMembers(content, offset, depth);
      ghost var live := hooks.live;
      head, last, kids, members := null, null, [], [];
      NoItems();
      PrependNothing(start);
      var more := true;
      while more
        invariant offset <= |content| && (more ==> offset < |content|) && old(offset) <= offset
        invariant depth == old(depth) && hooks.refused == old(hooks.refused)
        invariant Building(head, last, kids) && Entries(kids, members)
        invariant fresh(Footprints(kids)) && hooks.live == live + Footprints(kids)
        invariant fresh(NodeSets(kids))
        invariant more ==> start == ParseSpec.Prepend(members, ParseSpec.ParseMembers(content, offset, depth))
        invariant more || start ==
          if CanAccess(0) && content[offset] == '}' then ParseSpec.Ok(members, offset + 1) else ParseSpec.Err(offset)
        decreases |content| - offset, more
      {
        ghost var m, n, off, before, below := Member([], Null), 0, offset, members, Footprints(kids);
        ok, head, last, kids, m, n := ParseNextMember(head, last, kids, members);
        NodesOfFootprints(kids);
        assert live + below + (Footprints(kids) - below) == live + Footprints(kids);
        MembersStep(content, off, old(depth), before, start);
        if !ok {
          DropList(hooks, head, kids);
          kids := [];
          return;
        }
        members := before + [m];
        more := CanAccess(0) && content[offset] == ',';
      }
      if !CanAccess(0) || content[offset] != '}' {
        BuildingParts(head, last, kids);
        BuildingDeletable(head, kids);
        DropList(hooks, head, kids);
        kids := [];
        return false, head, last, kids, members;
      }
      ok := true;
    }

    /** `parse_object` up to its label `success`: the members, with the offset at the brace behind them. */
    method ParseBraces() returns (ok: bool, head: Item?, last: Item?, ghost kids: seq<Shape>, ghost members: seq<Member>)
      requires offset < |content| && depth <= ParseSpec.NESTING_LIMIT
      modifies this`offset, this`depth, hooks
      ensures offset <= |content|
      ensures fresh(Footprints(kids)) && hooks.live == old(hooks.live) + Footprints(kids)
      ensures ok ==>
        && depth == old(depth) + 1 && hooks.refused == old(hooks.refused)
        && Building(head, last, kids) && Entries(kids, members)
        && ParseSpec.ParseObject(content, old(offset), old(depth)) == ParseSpec.Ok(Object(members), offset + 1)
      ensures !ok ==>
        && Footprints(kids) == {}
        && (hooks.refused || ParseSpec.ParseObject(content, old(offset), old(depth)) == ParseSpec.Err(offset))
      decreases |content| - offset, 4
    {
      hide Building, Entries, Tree, Trees, Footprints, NodeSets, BufferSets, Denotes, ParseSpec.ParseMembers;
      NoItems();
      ok, head, last, kids, members := false, null, null, [], [];
      if depth >= ParseSpec.NESTING_LIMIT {
        return;
      }
      depth := depth + 1;
      if !CanAccess(0) || content[offset] != '{' {
        return;
      }
      offset := offset + 1;
      BufferSkipWhitespace();
      if CanAccess(0) && content[offset] == '}' {
        NoItems();
        ok := true;
        return;
      }
      if !CanAccess(0) {
        offset := offset - 1;
        return;
      }
      offset := offset - 1;
      ok, head, last, kids, members := ParseMembers();
    }

    /** Reads the object at the offset into `item`; `s` is the tree below the item. */
    method ParseObject(item: Item) returns (ok: bool, ghost s: Shape)
      requires offset < |content| && depth <= ParseSpec.NESTING_LIMIT
      requires item.child == null && item.valuestring == null
      modifies this`offset, this`depth, hooks, item`kind, item`child
      ensures offset <= |content|
      ensures s.node == item && s.key == item.name && Tree(s) && Separate(s)
      ensures fresh(Below(s)) && hooks.live == old(hooks.live) + Below(s)
      ensures ok ==>
        && var r := ParseSpec.ParseObject(content, old(offset), old(depth));
        && r.Ok? && offset == r.next && depth == old(depth) && Denotes(s, r.value) && Texts(s)
        && hooks.refused == old(hooks.refused)
      ensures !ok ==>
        && Below(s) == {} && item.kind == old(item.kind)
        && (hooks.refused || ParseSpec.ParseObject(content, old(offset), old(depth)) == ParseSpec.Err(offset))
      decreases |content| - offset, 5
    {
      hide *;
      var head, current;
      ghost var kids, members;
      ok, head, current, kids, members := ParseBraces();
      if !ok {
        LeafBelow(item);
        s := Shape(item, null, item.name, []);
        return;
      }
      NodesOfFootprints(kids);
      assert allocated(NodeSets(kids)) && allocated(BufferSets(kids));
      depth := depth - 1;
      offset := offset + 1;
      Unshared(item, kids);
      CloseObject(item, head, current, kids, members);
      s := Shape(item, null, item.name, kids);
    }

    /** `parse_object` from its label `success` on. */
    method CloseObject(item: Item, head: Item?, last: Item?, ghost kids: seq<Shape>, ghost members: seq<Member>)
      requires Building(head, last, kids) && Entries(kids, members) && item.valuestring == null
      requires item !in NodeSets(kids) && OwnStrings(item, kids)
      modifies NodeSets(kids)`prev, item`kind, item`child
      ensures var s := Shape(item, null, item.name, kids);
        Tree(s) && Separate(s) && Denotes(s, Object(members)) && Texts(s) && Below(s) == Footprints(kids)
    {
      hide *;
      BuildingParts(head, last, kids);
      assert allocated(NodeSets(kids)) && allocated(BufferSets(kids));
      CloseList(head, last, kids);
      item.kind, item.child := IsObject, head;
      ParentTree(item, kids);
      NoText(Shape(item, null, item.name, kids));
      ObjectDenotes(item, kids, members);
    }

    // ----- values

    /** The tests of `parse_value` for the three words. */
    lemma ReadsIsAt()
      ensures Reads("null") == At(content, offset, "null")
      ensures Reads("false") == At(content, offset, "false")
      ensures Reads("true") == At(content, offset, "true")
      ensures Reads("null") || Reads("false") ==> !Reads("true")
    {
      if Reads("null") { assert content[offset..offset + 4][0] == 'n'; }
      if Reads("false") { assert content[offset..offset + 5][0] == 'f'; }
      if Reads("true") { assert content[offset..offset + 4][0] == 't'; }
    }

    /** Reads the value at the offset into `item`; `s` is the tree below the item. */
    method ParseValue(item: Item) returns (ok: bool, ghost s: Shape)
      requires offset <= |content| && depth <= ParseSpec.NESTING_LIMIT
      requires item.child == null && item.valuestring == null
      modifies this`offset, this`depth, hooks
      modifies item`kind, item`valuestring, item`valueint, item`valuedouble, item`child
      ensures offset <= |content|
      ensures s.node == item && s.key == item.name && Tree(s) && Separate(s)
      ensures fresh(Below(s)) && hooks.live == old(hooks.live) + Below(s)
      ensures ok ==>
        && var r := ParseSpec.ParseValue(content, old(offset), old(depth));
        && r.Ok? && offset == r.next && depth == old(depth) && Denotes(s, r.value) && Texts(s)
        && hooks.refused == old(hooks.refused)
      ensures ok && At(content, old(offset), "true") ==> item.valueint == 1
      ensures !ok ==>
        && Below(s) == {} && item.kind == old(item.kind)
        && (hooks.refused || ParseSpec.ParseValue(content, old(offset), old(depth)) == ParseSpec.Err(offset))
      decreases |content| - offset, 6
    {
      hide Tree, Separate, Below, Texts, Denotes, HasText, At, ParseSpec.ParseString, ParseSpec.ParseNumber, ParseSpec.ParseArray, ParseSpec.ParseObject;
      ReadsIsAt();
      if Reads("null") {
        item.kind := IsNull;
        offset := offset + 4;
        ok := true;
      } else if Reads("false") {
        item.kind := IsFalse;
        offset := offset + 5;
        ok := true;
      } else if Reads("true") {
        item.kind, item.valueint := IsTrue, 1;
        offset := offset + 4;
        ok := true;
      } else if CanAccess(0) && content[offset] == '\"' {
        ok := ParseString(item);
      } else if CanAccess(0) && (content[offset] == '-' || '0' <= content[offset] <= '9') {
        ok := ParseNumber(item);
      } else if CanAccess(0) && content[offset] == '[' {
        ok, s := ParseArray(item);
        return;
      } else if CanAccess(0) && content[offset] == '{' {
        ok, s := ParseObject(item);
        return;
      } else {
        ok := false;
      }
      s := Shape(item, item.valuestring, item.name, []);
      ScalarBelow(item);
    }
  }

  // ----- documents

  lemma ReadableDocument(s: Shape)
    requires Tree(s) && Texts(s) && s.key == null
    ensures Readable(s)
  {
    NoKeyTerminated(s);
  }

  /** Where the parser says that it gave up: the offset, or the last byte when there is nothing left. */
  function ErrorPosition(offset: nat, length: nat): (p: nat)
    ensures length > 0 ==> p < length
  {
    if offset < length then offset else if length > 0 then length - 1 else 0
  }

  /**
   `cJSON_ParseWithLengthOpts`: the tree of the value in the buffer, or NULL.  `end` is where
   `*return_parse_end` points.  A failing parse leaves nothing allocated.
   */
  method ParseWithLengthOpts(hooks: Hooks, value: Text, requireNullTerminated: bool)
    returns (item: Item?, end: nat, ghost tree: ParseSpec.Option<Shape>)
    modifies hooks
    ensures item != null ==>
      && value != []
      && var r := ParseSpec.ParseDocument(value, requireNullTerminated);
      && r.Ok? && end == r.next && hooks.refused == old(hooks.refused)
      && tree.Some? && var s := tree.value;
      && s.node == item && item.next == null && Readable(s) && Separate(s) && Denotes(s, r.value)
      && fresh(Footprint(s)) && hooks.live == old(hooks.live) + Footprint(s)
    ensures item == null ==> hooks.live == old(hooks.live)
    ensures item == null && value != [] && !hooks.refused ==>
      && var r := ParseSpec.ParseDocument(value, requireNullTerminated);
      && r.Err? && end == ErrorPosition(r.at, |value|)
  {
    hide ParseSpec.ParseValue, ParseSpec.SkipWhitespace, ParseSpec.SkipBom, Tree, Separate, Denotes, Deletable, NodeSet, NodeSets;
    hide BufferSet, BufferSets, Footprint, Footprints, Below, Buffer, Texts, Readable;
    item, end, tree := null, 0, ParseSpec.None;
    if value == [] {
      return;
    }
    var buffer := new ParseBuffer(value, hooks);
    item := hooks.NewItem();
    if item == null {
      return;
    }
    buffer.SkipUtf8Bom();
    buffer.BufferSkipWhitespace();
    ghost var start := buffer.offset;
    var ok;
    ghost var s;
    ok, s := buffer.ParseValue(item);
    tree := ParseSpec.Some(s);
    FootprintParts(s);
    if ok {
      ReadableDocument(s);
    }
    end := buffer.offset;
    if ok && requireNullTerminated {
      RootDeletable(item, s);
      assert allocated(NodeSet(s)) && allocated(NodeSets(s.kids)) && allocated(BufferSet(s));
      buffer.BufferSkipWhitespace();
      end := buffer.offset;
      ok := end < |value| && value[end] == NUL;
    }
    if !ok {
      end := ErrorPosition(end, |value|);
      RootDeletable(item, s);
      DropList(hooks, item, [s]);
      item := null;
    }
  }

  /**
   Every text that spells a tree within the nesting limit: absent a refused allocation, the nodes of
   that tree are built, and the text is read up to the NUL at its end.
   */
  method ParseSpelled(hooks: Hooks, value: Text, ghost d: Spelling.Document)
    returns (item: Item?, end: nat, ghost tree: ParseSpec.Option<Shape>)
    requires Spelling.ProperDocument(d, ParseSpec.NESTING_LIMIT) && value == Spelling.SpellDocument(d)
    modifies hooks
    ensures item != null ==>
      && tree.Some? && var s := tree.value;
      && s.node == item && item.next == null && Readable(s) && Separate(s) && Denotes(s, Spelling.TreeOf(d.root))
      && end == |value| - 1 && fresh(Footprint(s)) && hooks.refused == old(hooks.refused)
      && hooks.live == old(hooks.live) + Footprint(s)
    ensures item == null ==> hooks.refused && hooks.live == old(hooks.live)
  {
    hide *;
    SpellingParses.DocumentParses(d);
    item, end, tree := ParseWithLengthOpts(hooks, value, true);
  }

  /**
   `cJSON_ParseWithOpts` on a C string that the printer has made: absent a refused allocation, it
   succeeds, stops at the terminating NUL, and builds the tree that was printed.
   */
  method ParsePrinted(hooks: Hooks, value: Text, ghost v: Json, ghost fmt: bool)
    returns (item: Item?, end: nat, ghost tree: ParseSpec.Option<Shape>)
    requires Printable(v) && Nesting(v) <= ParseSpec.NESTING_LIMIT
    requires value == Render(v, fmt, 0) + [NUL]
    modifies hooks
    ensures item != null ==>
      && tree.Some? && var s := tree.value;
      && s.node == item && item.next == null && Readable(s) && Separate(s) && Denotes(s, v) && end == |value| - 1
      && fresh(Footprint(s)) && hooks.refused == old(hooks.refused)
      && hooks.live == old(hooks.live) + Footprint(s)
    ensures item == null ==> hooks.refused && hooks.live == old(hooks.live)
  {
    hide *;
    RoundTrip.DocumentRoundTrip(v, fmt);
    item, end, tree := ParseWithLengthOpts(hooks, value, true);
  }
}
