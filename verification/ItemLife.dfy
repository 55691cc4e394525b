/**
 The life of a tree: read from its printed text, printed again, copied, compared with its copy, and
 freed (components/cJSON/cJSON.c:253-276, 1099-1192, 1207-1272, 2742-2831, 3030-3153).
 */
module ItemLife {
  import opened Bytes
  import opened JsonTree
  import opened Items
  import opened ItemDelete
  import opened ItemBuild
  import opened ItemCopy
  import opened Comparison
  import opened ItemCompare
  import ParseSpec
  import ParseBuffer
  import PrintBuffer

  /** A tree is as high as its value is nested, so one that was parsed is never too deep to be copied. */
  lemma {:induction false} HeightIsNesting(s: Shape, v: Json)
    requires Denotes(s, v)
    ensures Height(s) <= Nesting(v)
    decreases v, 1
  {
    match v
    case Array(items) =>
      ItemsHeight(s.kids, items);
    case Object(members) =>
      MembersHeight(s.kids, members);
    case _ =>
  }

  lemma {:induction false} ItemsHeight(kids: seq<Shape>, items: seq<Json>)
    requires |kids| == |items| && forall i :: 0 <= i < |items| ==> Denotes(kids[i], items[i])
    ensures Heights(kids) <= ItemsNesting(items)
    decreases items, 0
  {
    if kids != [] {
      HeightIsNesting(kids[0], items[0]);
      ItemsHeight(kids[1..], items[1..]);
    }
  }

  lemma {:induction false} MembersHeight(kids: seq<Shape>, members: seq<Member>)
    requires |kids| == |members| && forall i :: 0 <= i < |members| ==> Denotes(kids[i], members[i].value)
    ensures Heights(kids) <= MembersNesting(members)
    decreases members, 0
  {
    if kids != [] {
      HeightIsNesting(kids[0], members[0].value);
      MembersHeight(kids[1..], members[1..]);
    }
  }

  lemma {:induction false} PrintableNumbers(v: Json)
    requires Printable(v)
    ensures IntNumbers(v)
    decreases v
  {
    match v
    case Array(items) =>
      forall i | 0 <= i < |items| ensures IntNumbers(items[i]) { PrintableNumbers(items[i]); }
    case Object(members) =>
      forall i | 0 <= i < |members| ensures IntNumbers(members[i].value) { PrintableNumbers(members[i].value); }
    case _ =>
  }

  /** Deletes a whole tree. */
  method DeleteTree(hooks: Hooks, item: Item, ghost s: Shape)
    requires item == s.node && item.next == null && Tree(s) && Separate(s) && Footprint(s) <= hooks.live
    modifies hooks`live, NodeSet(s)`valuestring, NodeSet(s)`name
    ensures hooks.live == old(hooks.live) - Footprint(s)
  {
    hide *;
    RootDeletable(item, s);
    Delete(hooks, item, [s]);
  }

  /**
   Parses the text of a tree and prints the nodes: the text comes back byte for byte, in the other
   format when that is asked for, and the nodes are freed.
   */
  method ParseAndPrint(hooks: Hooks, text: Text, format: bool, ghost v: Json, ghost fmt: bool)
    returns (printed: array?<Byte>, ghost refused: bool)
    requires Printable(v) && Nesting(v) <= ParseSpec.NESTING_LIMIT && text == Render(v, fmt, 0) + [NUL]
    modifies hooks
    ensures hooks.live == old(hooks.live)
    ensures printed != null ==> printed[..] == Render(v, format, 0) + [NUL] && (format == fmt ==> printed[..] == text)
    ensures printed == null ==> refused || hooks.refused || |Render(v, format, 0)| + 2 > INT_MAX
  {
    hide *;
    printed, refused := null, false;
    var item, end;
    ghost var tree;
    item, end, tree := ParseBuffer.ParsePrinted(hooks, text, v, fmt);
    if item == null {
      return;
    }
    ghost var s := tree.value;
    ReadableTree(s);
    FootprintSets(s);
    PrintsTree(s, v);
    assert allocated(NodeSet(s)) && allocated(NodeSets(s.kids)) && allocated(BufferSet(s)) && allocated(Footprint(s));
    printed, refused := PrintBuffer.Print(item, format, s, v);
    DeleteTree(hooks, item, s);
  }

  lemma PrintsTree(s: Shape, v: Json)
    requires Readable(s) && Denotes(s, v) && Printable(v)
    ensures PrintBuffer.Prints(s, v)
  {
  }

  /**
   Parses the text of a tree, copies what was parsed, compares the copy with it, and deletes both.
   Every object that was allocated on the way is freed; the copy compares equal if and only if no key
   occurs twice with different values; and only a refused allocation stops any of the steps.
   */
  method ParseCopyCompare(hooks: Hooks, text: Text, ghost v: Json, ghost fmt: bool) returns (done: bool, equal: bool)
    requires Printable(v) && Nesting(v) <= ParseSpec.NESTING_LIMIT && text == Render(v, fmt, 0) + [NUL]
    modifies hooks
    ensures hooks.live == old(hooks.live)
    ensures !done ==> hooks.refused
    ensures done ==> (equal <==> Consistent(v))
  {
    hide *;
    done, equal := false, false;
    var item, end;
    ghost var tree;
    item, end, tree := ParseBuffer.ParsePrinted(hooks, text, v, fmt);
    if item == null {
      return;
    }
    ghost var s := tree.value;
    ReadableTree(s);
    FootprintSets(s);
    HeightIsNesting(s, v);
    LimitsAgree();
    assert allocated(NodeSet(s)) && allocated(NodeSets(s.kids)) && allocated(BufferSet(s)) && allocated(Footprint(s));
    var newitem;
    ghost var copy;
    newitem, copy := Duplicate(hooks, item, true, s);
    if newitem == null {
      DeleteTree(hooks, item, s);
      return;
    }
    ReadableTree(copy);
    FootprintSets(copy);
    assert allocated(NodeSet(copy)) && allocated(NodeSets(copy.kids)) && allocated(BufferSet(copy));
    equal := CompareItems(item, newitem, s, copy, v, v);
    PrintableNumbers(v);
    CompareIsReflexive(v);
    done := true;
    DeleteTree(hooks, newitem, copy);
    DeleteTree(hooks, item, s);
  }

  lemma LimitsAgree()
    ensures ParseSpec.NESTING_LIMIT <= CIRCULAR_LIMIT
  {
  }

  lemma ReadableTree(s: Shape)
    requires Readable(s)
    ensures Tree(s) && NodeSets(s.kids) <= NodeSet(s)
  {
  }
}
