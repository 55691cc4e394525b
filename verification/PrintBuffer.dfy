/**
 The printer of components/cJSON/cJSON.c: a buffer that grows, or one of a fixed length, and the
 functions that write a tree into it.
 */
module PrintBuffer {
  import opened Bytes
  import opened JsonTree
  import opened Items

  lemma SpliceParts(s: Text, o: nat, t: Text)
    requires o + |t| <= |s|
    ensures Splice(s, o, t)[..o + |t|] == s[..o] + t
    ensures forall i :: o + |t| <= i < |s| ==> Splice(s, o, t)[i] == s[i]
  {
  }

  lemma PutParts(s: Text, o: nat, t: Text, terminate: bool, length: nat)
    requires o + |t| + (if terminate then 1 else 0) <= length <= |s|
    ensures var r := Splice(s, o, if terminate then t + [NUL] else t);
      && r[..o + |t|] == s[..o] + t && r[length..] == s[length..]
      && (terminate ==> r[o + |t|] == NUL)
  {
  }

  class Printer {
    var buffer: array?<Byte>
    var length: nat
    var offset: nat
    var depth: nat
    const noalloc: bool
    const format: bool

    /** A buffer that may not grow, its length, and what stands behind that length. */
    ghost const fixed: array<Byte>
    ghost const fixedLength: nat
    ghost const behind: Text

    /** Whether the allocator has refused to enlarge the buffer. */
    ghost var refused: bool

    ghost predicate Valid()
      reads this`buffer, this`length, this`offset, this`refused, fixed
    {
      && buffer != null && length <= buffer.Length && length <= Capacity() <= INT_MAX
      && (offset < length || length == 0 == offset)
      && Fixed()
    }

    /** A fixed buffer stays as long as it is, and nothing is written at or behind its length. */
    ghost predicate Fixed()
      reads this`buffer, this`length, this`refused, fixed
    {
      noalloc ==>
        && !refused && buffer == fixed && length == fixedLength <= fixed.Length
        && fixed[fixedLength..] == behind
    }

    /** How long the buffer can become. */
    ghost function Capacity(): int {
      if noalloc then fixedLength else INT_MAX
    }

    /** What has been printed so far. */
    ghost function Printed(): Text
      requires Valid()
      reads this`buffer, this`length, this`offset, this`refused, buffer, fixed
    {
      buffer[..offset]
    }

    constructor (buffer: array<Byte>, length: nat, noalloc: bool, format: bool)
      requires length <= buffer.Length && length <= INT_MAX
      ensures Valid() && this.buffer == buffer && this.length == length && offset == 0 && depth == 0
      ensures this.noalloc == noalloc && this.format == format && !refused
      ensures this.fixed == buffer && this.fixedLength == length && this.behind == buffer[length..]
    {
      this.buffer, this.length, this.offset, this.depth := buffer, length, 0, 0;
      this.noalloc, this.format, this.refused := noalloc, format, false;
      this.fixed, this.fixedLength, this.behind := buffer, length, buffer[length..];
    }

    /** `realloc`: the contents are kept, or the buffer is lost. */
    method Reallocate(newsize: nat)
      requires Valid() && length <= newsize
      modifies this`buffer, this`length, this`refused
      ensures buffer == null ==> refused
      ensures buffer != null ==>
        && fresh(buffer) && buffer.Length == newsize == length && refused == old(refused)
        && buffer[..old(length)] == old(buffer[..length])
    {
      if * {
        buffer, length, refused := null, 0, true;
      } else {
        var larger := new Byte[newsize];
        for i := 0 to length
          invariant larger[..i] == buffer[..i]
          modifies larger
        {
          larger[i] := buffer[i];
        }
        buffer, length := larger, newsize;
      }
    }

    /**
     `ensure`: makes room for `needed` bytes and one more.  Nothing printed is lost, and it fails only
     when the buffer cannot become long enough or the allocator refuses.
     */
    method Ensure(needed: nat) returns (ok: bool)
      requires Valid()
      modifies this`buffer, this`length, this`refused
      ensures ok ==> Valid() && offset + needed < length && refused == old(refused)
      ensures ok ==> Printed() == old(Printed())
      ensures ok ==> var size := needed + offset + 1;
        if size <= old(length) then length == old(length) && buffer == old(buffer)
        else fresh(buffer) && length == if size <= INT_MAX / 2 then 2 * size else INT_MAX
      ensures !ok ==> refused || old(offset) + needed + 1 > Capacity()
      ensures Fixed()
      ensures buffer == old(buffer) || buffer == null || fresh(buffer)
    {
      if buffer == null {
        return false;
      }
      if length > 0 && offset >= length {
        return false;
      }
      if needed > INT_MAX {
        return false;
      }
      var size := needed + offset + 1;
      if size <= length {
        return true;
      }
      if noalloc {
        return false;
      }
      var newsize;
      if size > INT_MAX / 2 {
        if size <= INT_MAX {
          newsize := INT_MAX;
        } else {
          return false;
        }
      } else {
        newsize := size * 2;
      }
      Reallocate(newsize);
      if buffer == null {
        return false;
      }
      assert buffer[..offset] == buffer[..old(length)][..offset];
      return true;
    }
  
    /**
     Makes room for `needed` bytes, writes `t` behind what has been printed, and a NUL behind it when
     `terminate` is set; moves the offset when `advance` is set.
     */
    method Put(t: Text, needed: nat, terminate: bool, advance: bool) returns (ok: bool)
      requires Valid() && |t| <= needed && (terminate ==> |t| < needed)
      modifies this`buffer, this`length, this`offset, this`refused, buffer
      ensures ok ==> Valid() && offset == old(offset) + (if advance then |t| else 0) && old(offset) + needed < length
      ensures ok ==> buffer[..old(offset) + |t|] == old(Printed()) + t
      ensures ok && terminate ==> buffer[old(offset) + |t|] == NUL
      ensures ok ==> refused == old(refused)
      ensures !ok ==> refused || old(offset) + needed + 1 > Capacity()
      ensures Fixed()
      ensures buffer == old(buffer) || buffer == null || fresh(buffer)
    {
      hide Splice;
      ok := Ensure(needed);
      if !ok {
        return;
      }
      var bytes := if terminate then t + [NUL] else t;
      PutParts(buffer[..], offset, t, terminate, length);
      Write(offset, bytes);
      if advance {
        offset := offset + |t|;
      }
    }

    /** Writes bytes at a position. */
    method Write(at: nat, t: Text)
      requires buffer != null && at + |t| <= buffer.Length
      modifies buffer
      ensures buffer[..] == Splice(old(buffer[..]), at, t)
    {
      ghost var was := buffer[..];
      for i := 0 to |t|
        invariant forall k :: 0 <= k < i ==> buffer[at + k] == t[k]
        invariant forall k :: 0 <= k < at || at + i <= k < buffer.Length ==> buffer[k] == was[k]
      {
        buffer[at + i] := t[i];
      }
      Spliced(was, buffer[..], at, t);
    }

    /** `t` and a NUL stand behind `p`; the offset may still be in front of the end of `t`. */
    ghost predicate Wrote(p: Text, t: Text)
      reads this`buffer, this`length, this`offset, this`refused, buffer, fixed
    {
      && Valid() && |p| + |t| + 2 <= length && |p| <= offset <= |p| + |t|
      && buffer[..|p| + |t|] == p + t && buffer[|p| + |t|] == NUL
    }

    /** Writes the end of a value whose other text stands behind `p`; the offset stays in front of it. */
    method Finish(t: Text, ghost p: Text, ghost body: Text) returns (ok: bool)
      requires Valid() && Printed() == p + body
      modifies this`buffer, this`length, this`offset, this`refused, buffer
      ensures ok ==> Wrote(p, body + t) && refused == old(refused)
      ensures !ok ==> refused || |p + body + t| + 2 > Capacity()
      ensures Fixed()
      ensures buffer == old(buffer) || buffer == null || fresh(buffer)
    {
      ok := Put(t, |t| + 1, true, false);
      assert p + body + t == p + (body + t);
    }

    /** `update_offset`: moves to the NUL behind the value just printed. */
    method UpdateOffset(ghost p: Text, ghost t: Text)
      requires Wrote(p, t) && NulFree(t)
      modifies this`offset
      ensures Valid() && offset == |p| + |t| < length && Printed() == p + t && buffer[offset] == NUL
    {
      forall i | |p| <= i < |p| + |t| ensures buffer[i] != NUL {
        assert buffer[..|p| + |t|][i] == t[i - |p|];
      }
      while buffer[offset] != NUL
        invariant offset <= |p| + |t|
        invariant |p| <= offset
        decreases |p| + |t| - offset
      {
        offset := offset + 1;
      }
    }
  
    /** The final `realloc` of `print`: a buffer of just the right size. */
    method CopyOut() returns (printed: array<Byte>)
      requires Valid() && offset < length && buffer[offset] == NUL
      ensures fresh(printed) && printed[..] == Printed() + [NUL]
    {
      printed := new Byte[offset + 1];
      for i := 0 to offset + 1
        invariant printed[..i] == buffer[..i]
      {
        printed[i] := buffer[i];
      }
    }

    // ----- values

    /** `null`, `false` and `true`: `ensure` and `strcpy`. */
    method PrintLiteral(t: Text) returns (ok: bool)
      requires Valid()
      modifies this, buffer
      ensures ok ==> Wrote(old(Printed()), t) && depth == old(depth) && refused == old(refused)
      ensures !ok ==> refused || old(offset) + |t| + 2 > Capacity()
      ensures Fixed()
      ensures buffer == old(buffer) || buffer == null || fresh(buffer)
    {
      ok := Put(t, |t| + 1, true, false);
    }

    /** The integer branch of `print_number`; here the offset moves at once. */
    method PrintNumber(valueint: int) returns (ok: bool)
      requires Valid()
      modifies this, buffer
      ensures ok ==> Wrote(old(Printed()), IntText(valueint)) && depth == old(depth) && refused == old(refused)
      ensures !ok ==> refused || old(offset) + |IntText(valueint)| + 2 > Capacity()
      ensures Fixed()
      ensures buffer == old(buffer) || buffer == null || fresh(buffer)
    {
      var digits := IntText(valueint);
      ok := Put(digits, |digits| + 1, true, true);
    }

    /** The additional characters that escaping takes. */
    static method CountEscapes(input: Text) returns (escapeCharacters: nat)
      ensures |input| + escapeCharacters == |Escape(input)|
    {
      escapeCharacters := 0;
      var i := 0;
      while i < |input|
        invariant i <= |input|
        invariant i + escapeCharacters + |Escape(input[i..])| == |Escape(input)|
      {
        var b := input[i];
        EscapeAt(input, i);
        if b == '\"' || b == '\\' || b == BACKSPACE || b == FORM_FEED || b == '\n' || b == '\r' || b == '\t' {
          escapeCharacters := escapeCharacters + 1;
        } else if b as int < 32 {
          escapeCharacters := escapeCharacters + 5;
        }
        i := i + 1;
      }
    }

    static lemma EscapeAt(input: Text, i: nat)
      requires i < |input|
      ensures Escape(input[i..]) == EscapeByte(input[i]) + Escape(input[i + 1..])
    {
      assert input[i..][1..] == input[i + 1..];
    }

    static lemma EscapeEnd(input: Text)
      ensures Escape(input[|input|..]) == []
    {
    }

    static lemma {:induction false} NothingEscaped(s: Text)
      requires |Escape(s)| == |s|
      ensures Escape(s) == s
      decreases |s|
    {
      if s != [] {
        NothingEscaped(s[1..]);
      }
    }
  
    /** Writes `t` at `at`, which is where the text ends that has been written so far. */
    method Extend(at: nat, t: Text, ghost text: Text)
      requires buffer != null && at + |t| < length <= buffer.Length && buffer[..at] == text
      modifies buffer
      ensures buffer[..at + |t|] == text + t
      ensures forall i :: at + |t| <= i < buffer.Length ==> buffer[i] == old(buffer[i])
    {
      ghost var was := buffer[..];
      Write(at, t);
      SpliceParts(was, at, t);
    }

    /** The second pass over the string: the bytes, escaped where they have to be. */
    method WriteEscaped(input: Text, at: nat, ghost text: Text) returns (end: nat)
      requires buffer != null && at + |Escape(input)| + 2 <= length <= buffer.Length && buffer[..at] == text
      modifies buffer
      ensures end == at + |Escape(input)| && buffer[..end] == text + Escape(input)
      ensures forall i :: length <= i < buffer.Length ==> buffer[i] == old(buffer[i])
    {
      hide Escape, EscapeByte;
      end := at;
      var i := 0;
      ghost var goal := text + Escape(input);
      assert input[0..] == input;
      while i < |input|
        invariant i <= |input| && at <= end
        invariant end + |Escape(input[i..])| == |goal| == at + |Escape(input)|
        invariant buffer[..end] + Escape(input[i..]) == goal
        invariant forall k :: length <= k < buffer.Length ==> buffer[k] == old(buffer[k])
      {
        EscapeAt(input, i);
        ghost var before := buffer[..end];
        end := WriteByte(input[i], end, before);
        i := i + 1;
        assert buffer[..end] + Escape(input[i..]) == before + (EscapeByte(input[i - 1]) + Escape(input[i..]));
      }
      EscapeEnd(input);
    }

    /** One byte of a string, escaped where it has to be. */
    method WriteByte(b: Byte, at: nat, ghost text: Text) returns (end: nat)
      requires buffer != null && at + |EscapeByte(b)| + 1 < length <= buffer.Length && buffer[..at] == text
      modifies buffer
      ensures end == at + |EscapeByte(b)| && buffer[..end] == text + EscapeByte(b)
      ensures forall i :: length <= i < buffer.Length ==> buffer[i] == old(buffer[i])
    {
      if b as int > 31 && b != '\"' && b != '\\' {
        Extend(at, [b], text);
        return at + 1;
      }
      var tail: Text;
      if b == '\\' || b == '\"' {
        tail := [b];
      } else if b == BACKSPACE {
        tail := "b";
      } else if b == FORM_FEED {
        tail := "f";
      } else if b == '\n' {
        tail := "n";
      } else if b == '\r' {
        tail := "r";
      } else if b == '\t' {
        tail := "t";
      } else {
        tail := "u00" + [HexDigit(b as int / 16), HexDigit(b as int % 16)];
      }
      assert "\\" + tail == EscapeByte(b);
      hide EscapeByte;
      end := WriteEscape(at, tail, text);
    }

    /** A backslash and what follows it; `sprintf` puts a NUL behind the digits of a code point. */
    method WriteEscape(at: nat, tail: Text, ghost text: Text) returns (end: nat)
      requires buffer != null && at + |tail| + 2 < length <= buffer.Length && buffer[..at] == text
      modifies buffer
      ensures end == at + 1 + |tail| && buffer[..end] == text + ("\\" + tail)
      ensures forall i :: length <= i < buffer.Length ==> buffer[i] == old(buffer[i])
    {
      Extend(at, "\\", text);
      Extend(at + 1, tail, text + "\\");
      end := at + 1 + |tail|;
      assert text + "\\" + tail == text + ("\\" + tail);
      if |tail| > 1 {
        buffer[end] := NUL;
      }
    }

    /** `print_string_ptr` for a string that is not NULL. */
    method PrintString(input: Text) returns (ok: bool)
      requires Valid()
      modifies this, buffer
      ensures ok ==> Wrote(old(Printed()), Quote(input)) && depth == old(depth) && refused == old(refused)
      ensures !ok ==> refused || old(offset) + |Quote(input)| + 2 > Capacity()
      ensures Fixed()
      ensures buffer == old(buffer) || buffer == null || fresh(buffer)
    {
      var escapes := CountEscapes(input);
      var outputLength := |input| + escapes;
      ok := Ensure(outputLength + 3);
      if !ok {
        return;
      }
      WriteString(input, escapes, buffer[..offset]);
    }

    /** The literal, into a buffer that is long enough. */
    method WriteString(input: Text, escapes: nat, ghost p: Text)
      requires Valid() && |input| + escapes == |Escape(input)| && offset + |Quote(input)| + 1 < length
      requires p == buffer[..offset]
      modifies buffer
      ensures Wrote(p, Quote(input))
      ensures forall i :: length <= i < buffer.Length ==> buffer[i] == old(buffer[i])
    {
      hide Escape, Quote, Wrote;
      var outputLength := |input| + escapes;
      QuoteParts(input, p);
      if escapes == 0 {
        NothingEscaped(input);
        Extend(offset, "\"" + input, p);
      } else {
        Extend(offset, "\"", p);
        var end := WriteEscaped(input, offset + 1, p + "\"");
      }
      assert buffer[..offset + 1 + outputLength] == p + "\"" + Escape(input);
      Extend(offset + 1 + outputLength, "\"", p + "\"" + Escape(input));
      EndString(offset + 2 + outputLength, p, Quote(input));
    }

    static lemma QuoteParts(input: Text, p: Text)
      ensures p + "\"" + Escape(input) + "\"" == p + Quote(input) && |Quote(input)| == |Escape(input)| + 2
      ensures p + ("\"" + input) == p + "\"" + input
    {
      hide Escape;
      assert p + "\"" + Escape(input) + "\"" == p + ("\"" + Escape(input) + "\"");
    }

    method EndString(at: nat, ghost p: Text, ghost t: Text)
      requires Valid() && offset == |p| && at == |p| + |t| && at + 2 <= length && buffer[..at] == p + t
      modifies buffer
      ensures Wrote(p, t)
      ensures forall i :: length <= i < buffer.Length ==> buffer[i] == old(buffer[i])
    {
      Extend(at, [NUL], p + t);
      assert buffer[..at + 1][at] == NUL && buffer[..at + 1][..at] == p + t;
    }
  
    /** The buffer is not one of the strings of the tree that is printed. */
    ghost predicate Beside(s: Shape)
      reads this`buffer
    {
      buffer == null || buffer !in BufferSet(s)
    }

    /**
     `print_value`: succeeds exactly when the text, its NUL and one byte more fit, unless the allocator
     refuses; then the text of the tree stands behind what was printed before.
     */
    method PrintValue(item: Item, ghost s: Shape, ghost v: Json) returns (ok: bool)
      requires Valid() && item == s.node && Prints(s, v) && Beside(s)
      modifies this, buffer
      ensures ok ==> Wrote(old(Printed()), Render(v, format, old(depth))) && depth == old(depth) && refused == old(refused)
      ensures !ok ==> refused || old(offset) + |Render(v, format, old(depth))| + 2 > Capacity()
      ensures Fixed()
      ensures buffer == old(buffer) || buffer == null || fresh(buffer)
      decreases v, 1
    {
      hide Prints, Tree, Denotes, Printable, BufferSet, BufferSets, NodeSet, NodeSets, HasText;
      RootPrints(s, v);
      match item.kind {
        case IsNull =>
          ok := PrintLiteral("null");
        case IsFalse =>
          ok := PrintLiteral("false");
        case IsTrue =>
          ok := PrintLiteral("true");
        case IsNumber =>
          ok := PrintNumber(item.valueint);
        case IsString =>
          var text := ReadString(item.valuestring, v.text);
          ok := PrintString(text);
        case IsArray =>
          ok := PrintArray(item, s, v.items);
        case IsObject =>
          ok := PrintObject(item, s, v.members);
        case Invalid =>
          ok := false;
      }
    }

    method PrintArray(item: Item, ghost s: Shape, ghost items: seq<Json>) returns (ok: bool)
      requires Valid() && item == s.node && Prints(s, Array(items)) && Beside(s)
      modifies this, buffer
      ensures ok ==> Wrote(old(Printed()), Render(Array(items), format, old(depth))) && depth == old(depth) && refused == old(refused)
      ensures !ok ==> refused || old(offset) + |Render(Array(items), format, old(depth))| + 2 > Capacity()
      ensures Fixed()
      ensures buffer == old(buffer) || buffer == null || fresh(buffer)
      decreases items, 2
    {
      hide Render, RenderItems, Prints, BufferSet, BufferSets, NodeSet, NodeSets, IntText, Quote, Fixed, Capacity;
      ghost var p, body, text := Printed(), RenderItems(items, format, depth + 1), Render(Array(items), format, depth);
      assert allocated(NodeSet(s)) && allocated(NodeSets(s.kids)) && allocated(BufferSet(s));
      ArrayText(items, format, depth);
      ok := Put("[", 1, false, true);
      if !ok {
        return;
      }
      depth := depth + 1;
      ok := PrintItems(item, s, items);
      if !ok {
        return;
      }
      assert p + "[" + body == p + ("[" + body);
      ok := Finish("]", p, "[" + body);
      if !ok {
        return;
      }
      assert Wrote(p, text);
      depth := depth - 1;
    }

    /** The loop over the elements. */
    method PrintItems(item: Item, ghost s: Shape, ghost items: seq<Json>) returns (ok: bool)
      requires Valid() && item == s.node && Prints(s, Array(items)) && Beside(s)
      modifies this, buffer
      ensures ok ==> Valid() && Printed() == old(Printed()) + RenderItems(items, format, depth)
      ensures ok ==> depth == old(depth) && refused == old(refused)
      ensures !ok ==> refused || old(offset) + |RenderItems(items, format, old(depth))| + 3 > Capacity()
      ensures Fixed()
      ensures buffer == old(buffer) || buffer == null || fresh(buffer)
      decreases items, 1
    {
      hide RenderItems, ItemEnd, Render, Prints, BufferSet, BufferSets, NodeSet, NodeSets;
      ItemsPrint(s, items);
      assert allocated(NodeSet(s)) && allocated(NodeSets(s.kids)) && allocated(BufferSet(s));
      ok := true;
      var current := item.child;
      ghost var i := 0;
      ghost var goal := Printed() + RenderItems(items, format, depth);
      assert items[0..] == items;
      while current != null
        invariant ok && i <= |items| == |s.kids| && current == NodeAt(s.kids, i)
        invariant Valid() && depth == old(depth) && refused == old(refused)
        invariant Prints(s, Array(items)) && Beside(s)
        invariant Printed() + RenderItems(items[i..], format, depth) == goal
        invariant buffer == old(buffer) || fresh(buffer)
        decreases |items| - i
      {
        ItemsAt(items, i, format, depth);
        ItemPrints(s, items, i);
        ok := PrintItem(current, s, items, i);
        if !ok {
          return;
        }
        current := current.next;
        i := i + 1;
      }
      NoItems(items[i..], format, depth);
    }

    static lemma ArrayText(items: seq<Json>, fmt: bool, depth: nat)
      ensures Render(Array(items), fmt, depth) == "[" + RenderItems(items, fmt, depth + 1) + "]"
    {
    }

    static lemma ItemsAt(items: seq<Json>, i: nat, fmt: bool, depth: nat)
      requires i < |items|
      ensures RenderItems(items[i..], fmt, depth)
              == Render(items[i], fmt, depth) + ItemEnd(items[i..], fmt) + RenderItems(items[i + 1..], fmt, depth)
    {
      assert items[i..][1..] == items[i + 1..];
    }

    static lemma NoItems(items: seq<Json>, fmt: bool, depth: nat)
      ensures items == [] ==> RenderItems(items, fmt, depth) == []
    {
    }

    /** One element and the comma behind it. */
    method PrintItem(current: Item, ghost s: Shape, ghost items: seq<Json>, ghost i: nat) returns (ok: bool)
      requires Valid() && i < |items| == |s.kids| && Prints(s, Array(items)) && Beside(s)
      requires current == s.kids[i].node
      modifies this, buffer
      ensures ok ==> Valid() && Printed() == old(Printed()) + Render(items[i], format, depth) + ItemEnd(items[i..], format)
      ensures ok ==> depth == old(depth) && refused == old(refused)
      ensures !ok ==>
        refused || old(offset) + |Render(items[i], format, old(depth))| + |ItemEnd(items[i..], format)| + 2 > Capacity()
      ensures Fixed()
      ensures buffer == old(buffer) || buffer == null || fresh(buffer)
      decreases items, 0
    {
      hide Render, Prints, BufferSet, BufferSets, NodeSet, NodeSets;
      ItemPrints(s, items, i);
      ghost var p, t := Printed(), Render(items[i], format, depth);
      ok := PrintValue(current, s.kids[i], items[i]);
      if !ok {
        return;
      }
      TextIsCString(items[i], format, depth);
      UpdateOffset(p, t);
      if current.next != null {
        ok := Put(Comma(format), |Comma(format)| + 1, true, true);
      }
    }

    method PrintObject(item: Item, ghost s: Shape, ghost members: seq<Member>) returns (ok: bool)
      requires Valid() && item == s.node && Prints(s, Object(members)) && Beside(s)
      modifies this, buffer
      ensures ok ==> Wrote(old(Printed()), Render(Object(members), format, old(depth))) && depth == old(depth) && refused == old(refused)
      ensures !ok ==> refused || old(offset) + |Render(Object(members), format, old(depth))| + 2 > Capacity()
      ensures Fixed()
      ensures buffer == old(buffer) || buffer == null || fresh(buffer)
      decreases members, 4
    {
      hide Render, RenderMembers, Prints, BufferSet, BufferSets, NodeSet, NodeSets, IntText, Quote, Opening, Closing;
      ghost var p := Printed();
      assert allocated(NodeSet(s)) && allocated(NodeSets(s.kids)) && allocated(BufferSet(s));
      ObjectText(members, format, depth);
      ok := Put(Opening(format), |Opening(format)| + 1, false, true);
      if !ok {
        return;
      }
      depth := depth + 1;
      ok := PrintRest(item, s, members, p);
    }

    /** The members, and the end of the object. */
    method PrintRest(item: Item, ghost s: Shape, ghost members: seq<Member>, ghost p: Text) returns (ok: bool)
      requires Valid() && item == s.node && Prints(s, Object(members)) && Beside(s)
      requires Printed() == p + Opening(format) && depth > 0
      modifies this, buffer
      ensures ok ==> Wrote(p, Render(Object(members), format, depth)) && depth == old(depth) - 1 && refused == old(refused)
      ensures !ok ==> refused || |p| + |Render(Object(members), format, old(depth) - 1)| + 2 > Capacity()
      ensures Fixed()
      ensures buffer == old(buffer) || buffer == null || fresh(buffer)
      decreases members, 3
    {
      hide Render, RenderMembers, Prints, BufferSet, BufferSets, NodeSet, NodeSets, Opening, Closing;
      ghost var body := RenderMembers(members, format, depth);
      ObjectText(members, format, depth - 1);
      ok := PrintMembers(item, s, members);
      if !ok {
        return;
      }
      assert p + Opening(format) + body == p + (Opening(format) + body);
      ok := Finish(Closing(format, depth - 1), p, Opening(format) + body);
      if !ok {
        return;
      }
      depth := depth - 1;
    }

    static function Opening(fmt: bool): Text {
      if fmt then "{\n" else "{"
    }

    static function Closing(fmt: bool, depth: nat): Text {
      if fmt then Tabs(depth) + "}" else "}"
    }

    static lemma ObjectText(members: seq<Member>, fmt: bool, depth: nat)
      ensures Render(Object(members), fmt, depth) == Opening(fmt) + RenderMembers(members, fmt, depth + 1) + Closing(fmt, depth)
      ensures Closing(fmt, depth) != []
    {
      hide RenderMembers;
      assert "{" + "\n" == "{\n" && "{" + "" == "{";
      var body := RenderMembers(members, fmt, depth + 1);
      assert "{" + body + "" == "{" + body;
    }

    /** The loop over the members. */
    method PrintMembers(item: Item, ghost s: Shape, ghost members: seq<Member>) returns (ok: bool)
      requires Valid() && item == s.node && Prints(s, Object(members)) && Beside(s)
      modifies this, buffer
      ensures ok ==> Valid() && Printed() == old(Printed()) + RenderMembers(members, format, depth)
      ensures ok ==> depth == old(depth) && refused == old(refused)
      ensures !ok ==> refused || old(offset) + |RenderMembers(members, format, old(depth))| + 2 > Capacity()
      ensures Fixed()
      ensures buffer == old(buffer) || buffer == null || fresh(buffer)
      decreases members, 2
    {
      hide RenderMembers, MemberEnd, Render, Quote, Prints, BufferSet, BufferSets, NodeSet, NodeSets;
      MembersPrint(s, members);
      assert allocated(NodeSet(s)) && allocated(NodeSets(s.kids)) && allocated(BufferSet(s));
      ok := true;
      var current := item.child;
      ghost var i := 0;
      ghost var goal := Printed() + RenderMembers(members, format, depth);
      assert members[0..] == members;
      while current != null
        invariant ok && i <= |members| == |s.kids| && current == NodeAt(s.kids, i)
        invariant Valid() && depth == old(depth) && refused == old(refused)
        invariant Prints(s, Object(members)) && Beside(s)
        invariant Printed() + RenderMembers(members[i..], format, depth) == goal
        invariant buffer == old(buffer) || fresh(buffer)
        decreases |members| - i
      {
        MembersAt(members, i, format, depth);
        MemberPrints(s, members, i);
        ok := PrintMember(current, s, members, i);
        if !ok {
          return;
        }
        current := current.next;
        i := i + 1;
      }
      NoMembers(members[i..], format, depth);
    }

    /** The text of one member. */
    static ghost function MemberText(members: seq<Member>, i: nat, fmt: bool, depth: nat): Text
      requires i < |members|
    {
      KeyText(members[i].key, fmt, depth) + (Render(members[i].value, fmt, depth) + MemberEnd(members[i..], fmt))
    }

    static ghost function KeyText(key: Text, fmt: bool, depth: nat): Text {
      Indent(fmt, depth) + Quote(key) + Colon(fmt)
    }

    static lemma MembersAt(members: seq<Member>, i: nat, fmt: bool, depth: nat)
      requires i < |members|
      ensures RenderMembers(members[i..], fmt, depth) == MemberText(members, i, fmt, depth) + RenderMembers(members[i + 1..], fmt, depth)
    {
      hide Render, Quote, Indent, Colon, MemberEnd;
      assert members[i..][1..] == members[i + 1..];
    }

    static lemma EndOf(members: seq<Member>, i: nat, fmt: bool)
      requires i < |members|
      ensures MemberEnd(members[i..], fmt) == (if i + 1 < |members| then "," else "") + Newline(fmt)
    {
    }

    static lemma NoMembers(members: seq<Member>, fmt: bool, depth: nat)
      ensures members == [] ==> RenderMembers(members, fmt, depth) == []
    {
    }

    static lemma ColonLength(fmt: bool)
      ensures |Colon(fmt)| >= 1
    {
    }

    /** The tabs, the key and the colon. */
    method PrintKey(key: Text) returns (ok: bool)
      requires Valid() && NulFree(key)
      modifies this, buffer
      ensures ok ==> Valid() && Printed() == old(Printed()) + KeyText(key, format, depth)
      ensures ok ==> depth == old(depth) && refused == old(refused)
      ensures !ok ==> refused || old(offset) + |KeyText(key, format, old(depth))| + 1 > Capacity()
      ensures Fixed()
      ensures buffer == old(buffer) || buffer == null || fresh(buffer)
    {
      hide Quote, Indent, Tabs, Colon, Fixed, Capacity;
      ColonLength(format);
      ok := PrintIndent();
      if !ok {
        return;
      }
      ok := PrintQuoted(key);
      if !ok {
        return;
      }
      ok := Put(Colon(format), |Colon(format)|, false, true);
    }

    /** A string, and the offset moved behind it. */
    method PrintQuoted(s: Text) returns (ok: bool)
      requires Valid() && NulFree(s)
      modifies this, buffer
      ensures ok ==> Valid() && Printed() == old(Printed()) + Quote(s)
      ensures ok ==> depth == old(depth) && refused == old(refused)
      ensures !ok ==> refused || old(offset) + |Quote(s)| + 2 > Capacity()
      ensures Fixed()
      ensures buffer == old(buffer) || buffer == null || fresh(buffer)
    {
      hide Quote;
      ghost var p, t := Printed(), Quote(s);
      ok := PrintString(s);
      if !ok {
        return;
      }
      QuoteIsCString(s);
      UpdateOffset(p, t);
    }

    method PrintIndent() returns (ok: bool)
      requires Valid()
      modifies this, buffer
      ensures ok ==> Valid() && Printed() == old(Printed()) + Indent(format, depth)
      ensures ok ==> depth == old(depth) && refused == old(refused)
      ensures !ok ==> refused || old(offset) + |Indent(format, old(depth))| + 1 > Capacity()
      ensures Fixed()
      ensures buffer == old(buffer) || buffer == null || fresh(buffer)
    {
      ok := true;
      if format {
        ok := Put(Tabs(depth), depth, false, true);
      }
    }

    /** One member, and the comma and the line end behind it. */
    method PrintMember(current: Item, ghost s: Shape, ghost members: seq<Member>, ghost i: nat) returns (ok: bool)
      requires Valid() && i < |members| == |s.kids| && Prints(s, Object(members)) && Beside(s)
      requires current == s.kids[i].node
      modifies this, buffer
      ensures ok ==> Valid() && Printed() == old(Printed()) + MemberText(members, i, format, depth)
      ensures ok ==> depth == old(depth) && refused == old(refused)
      ensures !ok ==> refused || old(offset) + |MemberText(members, i, format, old(depth))| + 2 > Capacity()
      ensures Fixed()
      ensures buffer == old(buffer) || buffer == null || fresh(buffer)
      decreases members, 1
    {
      hide KeyText, Render, Prints, BufferSet, BufferSets, NodeSet, NodeSets, HasText;
      MemberPrints(s, members, i);
      assert allocated(NodeSet(s)) && allocated(NodeSets(s.kids)) && allocated(BufferSet(s));
      var key := ReadString(current.name, members[i].key);
      ok := PrintKey(key);
      if !ok {
        return;
      }
      ok := PrintMemberValue(current, s, members, i);
    }

    method PrintMemberValue(current: Item, ghost s: Shape, ghost members: seq<Member>, ghost i: nat) returns (ok: bool)
      requires Valid() && i < |members| == |s.kids| && Prints(s, Object(members)) && Beside(s)
      requires current == s.kids[i].node
      modifies this, buffer
      ensures ok ==> Valid() && Printed() == old(Printed()) + (Render(members[i].value, format, depth) + MemberEnd(members[i..], format))
      ensures ok ==> depth == old(depth) && refused == old(refused)
      ensures !ok ==>
        refused || old(offset) + |Render(members[i].value, format, old(depth))| + |MemberEnd(members[i..], format)| + 2 > Capacity()
      ensures Fixed()
      ensures buffer == old(buffer) || buffer == null || fresh(buffer)
      decreases members, 0
    {
      hide Render, Prints, BufferSet, BufferSets, NodeSet, NodeSets, MemberEnd, Newline, Fixed, Capacity, Wrote;
      MemberPrints(s, members, i);
      EndOf(members, i, format);
      ghost var p, t := Printed(), Render(members[i].value, format, depth);
      ok := PrintValue(current, s.kids[i], members[i].value);
      if !ok {
        return;
      }
      TextIsCString(members[i].value, format, depth);
      UpdateOffset(p, t);
      var end := (if current.next != null then "," else "") + Newline(format);
      assert p + t + end == p + (t + end);
      ok := Put(end, |end| + 1, true, true);
    }
  }

  // ----- the nodes that are printed

  /** A tree of nodes that the printer can print. */
  ghost predicate Prints(s: Shape, v: Json)
    reads NodeSet(s)`child, NodeSet(s)`valuestring, NodeSet(s)`name, NodeSets(s.kids)`next, NodeSets(s.kids)`prev
    reads NodeSet(s)`kind, NodeSet(s)`valueint, NodeSet(s)`valuedouble, BufferSet(s)
  {
    Tree(s) && Denotes(s, v) && Printable(v)
  }

  /** The bytes of a C string. */
  method ReadString(a: array?<Byte>, ghost t: Text) returns (text: Text)
    requires HasText(a, t)
    ensures text == t && NulFree(t)
  {
    assert t <= a[..] && a[..][|t|] == NUL;
    assert forall k :: 0 <= k < |t| ==> a[k] == t[k] != NUL;
    var i := 0;
    while a[i] != NUL
      invariant i <= |t|
      decreases |t| - i
    {
      i := i + 1;
    }
    text := a[..i];
  }

  /** What a node shows of the value that is printed. */
  lemma RootPrints(s: Shape, v: Json)
    requires Prints(s, v)
    ensures match v
      case Null => s.node.kind == IsNull
      case False => s.node.kind == IsFalse
      case True => s.node.kind == IsTrue
      case Number(_, i) => s.node.kind == IsNumber && s.node.valueint == i
      case String(t) => s.node.kind == IsString && HasText(s.node.valuestring, t) && v == String(v.text)
      case Array(_) => s.node.kind == IsArray && v == Array(v.items)
      case Object(_) => s.node.kind == IsObject && v == Object(v.members)
  {
    hide Siblings, Trees, NodeSets, BufferSets;
  }

  lemma PrintableRoot(s: Shape, v: Json)
    requires Prints(s, v)
    ensures Printable(v)
  {
  }

  lemma ItemsPrint(s: Shape, items: seq<Json>)
    requires Prints(s, Array(items))
    ensures |s.kids| == |items| && s.node.child == NodeAt(s.kids, 0)
  {
    FirstKid(s);
  }

  lemma ItemPrints(s: Shape, items: seq<Json>, i: nat)
    requires Prints(s, Array(items)) && i < |items| == |s.kids|
    ensures Prints(s.kids[i], items[i]) && Printable(items[i])
    ensures s.kids[i].node.next == NodeAt(s.kids, i + 1) && BufferSet(s.kids[i]) <= BufferSet(s)
  {
    KidAt(s, i);
    KidSets(s);
    hide Tree, NodeSet, NodeSets, BufferSet, BufferSets;
    PrintableItems(items);
  }

  lemma MembersPrint(s: Shape, members: seq<Member>)
    requires Prints(s, Object(members))
    ensures |s.kids| == |members| && s.node.child == NodeAt(s.kids, 0)
  {
    FirstKid(s);
  }

  lemma MemberPrints(s: Shape, members: seq<Member>, i: nat)
    requires Prints(s, Object(members)) && i < |members| == |s.kids|
    ensures Prints(s.kids[i], members[i].value) && Printable(members[i].value) && NulFree(members[i].key)
    ensures HasText(s.kids[i].node.name, members[i].key)
    ensures s.kids[i].node.next == NodeAt(s.kids, i + 1) && BufferSet(s.kids[i]) <= BufferSet(s)
  {
    KidAt(s, i);
    KidSets(s);
    hide Tree, NodeSet, NodeSets, BufferSet, BufferSets;
    PrintableMembers(members);
  }

  lemma PrintableItems(items: seq<Json>)
    requires Printable(Array(items))
    ensures forall i :: 0 <= i < |items| ==> Printable(items[i])
  {
  }

  lemma PrintableMembers(members: seq<Member>)
    requires Printable(Object(members))
    ensures forall i :: 0 <= i < |members| ==> NulFree(members[i].key) && Printable(members[i].value)
  {
  }

  // ----- entry points

  /**
   `cJSON_PrintPreallocated`: succeeds exactly when the buffer has room for the text and two bytes
   more, then holds the text and a NUL, and is never written at or behind `length`.
   */
  method PrintPreallocated(item: Item, buffer: array<Byte>, length: int, format: bool, ghost s: Shape, ghost v: Json)
    returns (ok: bool)
    requires item == s.node && Prints(s, v) && buffer !in BufferSet(s)
    requires length <= INT_MAX && length <= buffer.Length
    modifies buffer
    ensures ok <==> |Render(v, format, 0)| + 2 <= length
    ensures ok ==> buffer[..|Render(v, format, 0)|] == Render(v, format, 0) && buffer[|Render(v, format, 0)|] == NUL
    ensures forall i :: 0 <= i < buffer.Length && length <= i ==> buffer[i] == old(buffer[i])
  {
    hide Render, Prints, BufferSet, BufferSets, NodeSet, NodeSets;
    assert allocated(NodeSet(s)) && allocated(NodeSets(s.kids)) && allocated(BufferSet(s));
    if length < 0 {
      return false;
    }
    ghost var was := buffer[..];
    var p := new Printer(buffer, length, true, format);
    assert p.Printed() == [];
    ok := p.PrintValue(item, s, v);
    forall i | length <= i < buffer.Length ensures buffer[i] == old(buffer[i]) {
      assert buffer[length..][i - length] == p.behind[i - length] == was[length..][i - length];
    }
    assert [] + Render(v, format, 0) == Render(v, format, 0);
  }

  /**
   `cJSON_Print` and `cJSON_PrintUnformatted`: a growing buffer gives the same text as a fixed one, and
   fails only when the text is too long for an `int` or the allocator refuses.
   */
  method Print(item: Item, format: bool, ghost s: Shape, ghost v: Json) returns (printed: array?<Byte>, ghost refused: bool)
    requires item == s.node && Prints(s, v)
    ensures printed == null ==> refused || |Render(v, format, 0)| + 2 > INT_MAX
    ensures printed != null ==> fresh(printed) && printed[..] == Render(v, format, 0) + [NUL]
  {
    hide Render, Prints, BufferSet, BufferSets, NodeSet, NodeSets;
    assert allocated(NodeSet(s)) && allocated(NodeSets(s.kids)) && allocated(BufferSet(s));
    ghost var t := Render(v, format, 0);
    var start := new Byte[256];
    var p := new Printer(start, 256, false, format);
    assert p.Printed() == [];
    PrintableRoot(s, v);
    var ok := p.PrintValue(item, s, v);
    refused := p.refused;
    if !ok {
      return null, refused;
    }
    assert [] + t == t;
    TextIsCString(v, format, 0);
    p.UpdateOffset([], t);
    if * {
      return null, true;
    }
    printed := p.CopyOut();
    assert printed[..] == t + [NUL];
  }

  // ----- texts are C strings

  lemma {:induction false} DigitsAreCString(n: nat)
    ensures NulFree(NatText(n))
  {
    if n >= 10 {
      DigitsAreCString(n / 10);
    }
  }

  lemma {:induction false} EscapeIsCString(s: Text)
    requires NulFree(s)
    ensures NulFree(Escape(s))
    decreases |s|
  {
    if s != [] {
      assert s[0] != NUL;
      EscapeIsCString(s[1..]);
    }
  }

  lemma QuoteIsCString(s: Text)
    requires NulFree(s)
    ensures NulFree(Quote(s))
  {
    hide Escape;
    EscapeIsCString(s);
  }

  /** The text of a tree is a C string. */
  lemma {:induction false} TextIsCString(v: Json, fmt: bool, depth: nat)
    requires Printable(v)
    ensures NulFree(Render(v, fmt, depth))
    decreases v, 1
  {
    hide Quote, RenderItems, RenderMembers;
    match v
    case Number(_, i) => DigitsAreCString(if i < 0 then -i else i);
    case String(s) => QuoteIsCString(s);
    case Array(items) => ItemsAreCString(items, fmt, depth + 1);
    case Object(members) => MembersAreCString(members, fmt, depth + 1);
    case _ =>
  }

  lemma {:induction false} ItemsAreCString(items: seq<Json>, fmt: bool, depth: nat)
    requires Printable(Array(items))
    ensures NulFree(RenderItems(items, fmt, depth))
    decreases items, 0
  {
    hide Render, Quote;
    if items != [] {
      PrintableItems(items);
      TextIsCString(items[0], fmt, depth);
      ItemsAreCString(items[1..], fmt, depth);
    }
  }

  lemma {:induction false} MembersAreCString(members: seq<Member>, fmt: bool, depth: nat)
    requires Printable(Object(members))
    ensures NulFree(RenderMembers(members, fmt, depth))
    decreases members, 0
  {
    hide Render, Quote;
    if members != [] {
      PrintableMembers(members);
      QuoteIsCString(members[0].key);
      TextIsCString(members[0].value, fmt, depth);
      MembersAreCString(members[1..], fmt, depth);
    }
  }
}
