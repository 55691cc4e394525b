/**
 The nodes of a cJSON tree on the heap (components/cJSON/include/cJSON.h:102-123), the shape of a
 tree made of them, and the allocator that hands them out.
 */
module Items {
  import opened Bytes
  import opened JsonTree

  datatype Kind = Invalid | IsFalse | IsTrue | IsNull | IsNumber | IsString | IsArray | IsObject

  class Item {
    var next: Item?
    var prev: Item?
    var child: Item?
    var kind: Kind
    var valuestring: array?<Byte>
    var valueint: int
    var valuedouble: real
    var name: array?<Byte>

    /** A node as `cJSON_New_Item` leaves it: all bytes zero. */
    constructor ()
      ensures next == null && prev == null && child == null && valuestring == null && name == null
      ensures kind == Invalid && valueint == 0 && valuedouble == 0.0
    {
      next, prev, child, valuestring, name := null, null, null, null, null;
      kind, valueint, valuedouble := Invalid, 0, 0.0;
    }
  }

  // ----- sibling lists

  ghost function After(nodes: seq<Item>, i: int): Item?
    requires 0 <= i < |nodes|
  {
    if i + 1 < |nodes| then nodes[i + 1] else null
  }

  /** The `next` chain from `head` runs through `nodes` and ends in NULL. */
  ghost predicate Chain(head: Item?, nodes: seq<Item>)
    reads nodes`next
  {
    && head == (if nodes == [] then null else nodes[0])
    && forall i :: 0 <= i < |nodes| ==> nodes[i].next == After(nodes, i)
  }

  lemma ChainTail(head: Item?, nodes: seq<Item>)
    requires Chain(head, nodes) && nodes != []
    ensures head == nodes[0] && Chain(nodes[0].next, nodes[1..])
  {
    assert nodes[0].next == After(nodes, 0);
    forall i | 0 <= i < |nodes[1..]| ensures nodes[1..][i].next == After(nodes[1..], i) {
      assert nodes[i + 1].next == After(nodes, i + 1);
    }
  }

  /** Each node but the first points back to its predecessor. */
  ghost predicate BackLinks(nodes: seq<Item>)
    reads nodes`prev
  {
    forall i :: 0 < i < |nodes| ==> nodes[i].prev == nodes[i - 1]
  }

  ghost predicate Distinct(nodes: seq<Item>) {
    forall i, j :: 0 <= i < j < |nodes| ==> nodes[i] != nodes[j]
  }

  /** A finished sibling list: the head's `prev` is the tail. */
  ghost predicate Siblings(head: Item?, nodes: seq<Item>)
    reads nodes`next, nodes`prev
  {
    && Distinct(nodes) && Chain(head, nodes) && BackLinks(nodes)
    && (nodes != [] ==> nodes[0].prev == nodes[|nodes| - 1])
  }

  /** A sibling list that is still being built: its head does not know the tail yet. */
  ghost predicate Growing(head: Item?, nodes: seq<Item>)
    reads nodes`next, nodes`prev
  {
    Distinct(nodes) && Chain(head, nodes) && BackLinks(nodes)
  }

  /** `item` becomes the last node of a growing list. */
  method LinkBehind(current: Item, item: Item, ghost head: Item?, ghost nodes: seq<Item>)
    requires Growing(head, nodes) && item !in nodes && item.next == null
    requires nodes != [] && current == nodes[|nodes| - 1]
    modifies current`next, item`prev
    ensures Growing(head, nodes + [item])
    ensures current.next == item
  {
    current.next := item;
    item.prev := current;
    ghost var more := nodes + [item];
    assert forall i :: 0 <= i < |nodes| - 1 ==> After(more, i) == After(nodes, i);
  }

  // ----- trees

  /** Which objects make up a tree. */
  datatype Shape = Shape(node: Item, text: array?<Byte>, key: array?<Byte>, kids: seq<Shape>)

  ghost function Nodes(kids: seq<Shape>): (nodes: seq<Item>)
    ensures |nodes| == |kids| && forall i :: 0 <= i < |kids| ==> nodes[i] == kids[i].node
  {
    seq(|kids|, i requires 0 <= i < |kids| => kids[i].node)
  }

  ghost function Buffer(a: array?<Byte>): set<array<Byte>> {
    if a == null then {} else {a}
  }

  ghost function NodeSet(s: Shape): (f: set<Item>)
    ensures s.node in f
    decreases s
  {
    {s.node} + NodeSets(s.kids)
  }

  ghost function NodeSets(kids: seq<Shape>): (f: set<Item>)
    ensures forall i :: 0 <= i < |kids| ==> NodeSet(kids[i]) <= f
    decreases kids
  {
    if kids == [] then {} else
      var f := NodeSet(kids[0]) + NodeSets(kids[1..]);
      assert forall i :: 0 < i < |kids| ==> kids[i] == kids[1..][i - 1];
      f
  }

  ghost function BufferSet(s: Shape): (f: set<array<Byte>>)
    ensures Buffer(s.text) <= f && Buffer(s.key) <= f
    decreases s
  {
    Buffer(s.text) + Buffer(s.key) + BufferSets(s.kids)
  }

  ghost function BufferSets(kids: seq<Shape>): (f: set<array<Byte>>)
    ensures forall i :: 0 <= i < |kids| ==> BufferSet(kids[i]) <= f
    decreases kids
  {
    if kids == [] then {} else
      var f := BufferSet(kids[0]) + BufferSets(kids[1..]);
      assert forall i :: 0 < i < |kids| ==> kids[i] == kids[1..][i - 1];
      f
  }

  ghost function Footprint(s: Shape): set<object> {
    NodeSet(s) + BufferSet(s)
  }

  ghost function Footprints(kids: seq<Shape>): set<object> {
    NodeSets(kids) + BufferSets(kids)
  }

  /** No object occurs twice in the tree. */
  ghost predicate Separate(s: Shape)
    decreases s
  {
    && s.node !in NodeSets(s.kids)
    && Buffer(s.text) !! Buffer(s.key)
    && Buffer(s.text) + Buffer(s.key) !! BufferSets(s.kids)
    && SeparateAll(s.kids)
  }

  ghost predicate SeparateAll(kids: seq<Shape>)
    decreases kids
  {
    kids == [] ||
    (&& Separate(kids[0]) && SeparateAll(kids[1..])
     && NodeSet(kids[0]) !! NodeSets(kids[1..])
     && BufferSet(kids[0]) !! BufferSets(kids[1..]))
  }

  /** The pointers of the nodes are those of the shape. */
  ghost predicate Tree(s: Shape)
    reads NodeSet(s)`child, NodeSet(s)`valuestring, NodeSet(s)`name, NodeSets(s.kids)`next, NodeSets(s.kids)`prev
    decreases s, 1
  {
    && s.node.valuestring == s.text
    && s.node.name == s.key
    && Siblings(s.node.child, Nodes(s.kids))
    && Trees(s.kids)
  }

  ghost predicate Trees(kids: seq<Shape>)
    reads NodeSets(kids)`child, NodeSets(kids)`valuestring, NodeSets(kids)`name, NodeSets(kids)`next, NodeSets(kids)`prev
    decreases kids, 0
  {
    forall i :: 0 <= i < |kids| ==> Tree(kids[i])
  }

  /** As `Tree`, but the list of children may still be growing. */
  ghost predicate Stem(s: Shape)
    reads NodeSet(s)`child, NodeSet(s)`valuestring, NodeSet(s)`name, NodeSets(s.kids)`next, NodeSets(s.kids)`prev
  {
    assert forall n <- Nodes(s.kids) :: n in NodeSets(s.kids);
    && s.node.valuestring == s.text
    && s.node.name == s.key
    && Chain(s.node.child, Nodes(s.kids))
    && Trees(s.kids)
  }

  lemma AppendTrees(kids: seq<Shape>, s: Shape)
    requires Trees(kids) && Tree(s)
    ensures Trees(kids + [s])
  {
    hide Tree;
    forall i | 0 <= i < |kids + [s]| ensures Tree((kids + [s])[i]) {
      assert (kids + [s])[i] == if i < |kids| then kids[i] else s;
    }
  }

  /** `LinkBehind` for trees: nothing below the list changes. */
  method LinkTree(current: Item, item: Item, ghost head: Item?, ghost kids: seq<Shape>)
    requires Growing(head, Nodes(kids)) && Trees(kids) && SeparateAll(kids)
    requires item !in NodeSets(kids) && item.next == null
    requires kids != [] && current == kids[|kids| - 1].node
    modifies current`next, item`prev
    ensures Growing(head, Nodes(kids) + [item]) && Trees(kids)
  {
    hide Siblings, NodeSet, NodeSets, Growing, SeparateAll, Tree, Trees;
    OutsideSubtrees(kids, item);
    EachTree(kids);
    assert forall i :: 0 <= i < |kids| ==> allocated(NodeSet(kids[i])) && allocated(NodeSets(kids[i].kids));
    LinkBehind(current, item, head, Nodes(kids));
    forall i | 0 <= i < |kids| ensures Tree(kids[i]) {
      assert Tree(kids[i]) == old(Tree(kids[i]));
    }
    EachTree(kids);
  }

  lemma EachTree(kids: seq<Shape>)
    ensures Trees(kids) <==> forall i :: 0 <= i < |kids| ==> Tree(kids[i])
  {
  }

  lemma OutsideSubtrees(kids: seq<Shape>, item: Item)
    requires SeparateAll(kids) && kids != [] && item !in NodeSets(kids)
    ensures item !in Nodes(kids)
    ensures forall i :: 0 <= i < |kids| ==>
      kids[|kids| - 1].node !in NodeSets(kids[i].kids) && item !in NodeSets(kids[i].kids)
  {
    hide NodeSets, Separate, SeparateAll;
    forall i | 0 <= i < |kids|
      ensures kids[|kids| - 1].node !in NodeSets(kids[i].kids) && item !in NodeSets(kids[i].kids) && item != kids[i].node
    {
      SeparateNodes(kids, |kids| - 1, i);
      assert item !in NodeSet(kids[i]);
    }
  }

  ghost function NodeAt(kids: seq<Shape>, i: nat): Item? {
    if i < |kids| then kids[i].node else null
  }

  lemma KidSets(s: Shape)
    ensures NodeSets(s.kids) <= NodeSet(s)
    ensures forall i :: 0 <= i < |s.kids| ==> BufferSet(s.kids[i]) <= BufferSet(s)
  {
  }

  lemma KidTrees(s: Shape)
    requires Tree(s)
    ensures Chain(s.node.child, Nodes(s.kids)) && forall i :: 0 <= i < |s.kids| ==> Tree(s.kids[i])
  {
    forall i | 0 <= i < |s.kids| ensures Tree(s.kids[i]) {
    }
  }

  /** What a walk along the children meets at position `i`. */
  lemma KidAt(s: Shape, i: nat)
    requires Tree(s) && i < |s.kids|
    ensures Tree(s.kids[i]) && NodeSet(s.kids[i]) <= NodeSets(s.kids) <= NodeSet(s)
    ensures s.node.child == NodeAt(s.kids, 0) && s.kids[i].node.next == NodeAt(s.kids, i + 1)
    ensures s.kids[i].node.name == s.kids[i].key
  {
    KidTrees(s);
    assert Nodes(s.kids)[i].next == After(Nodes(s.kids), i);
  }

  lemma FirstKid(s: Shape)
    requires Tree(s)
    ensures s.node.child == NodeAt(s.kids, 0)
  {
  }

  // ----- the strings of a tree

  /** The buffer holds a C string: there is a NUL in it. */
  ghost predicate Terminated(a: array?<Byte>)
    reads Buffer(a)
  {
    a != null ==> |CString(a[..])| < a.Length
  }

  ghost predicate AllTerminated(f: set<array<Byte>>)
    reads f
  {
    forall a <- f :: Terminated(a)
  }

  lemma TerminatedUnion(f: set<array<Byte>>, g: set<array<Byte>>)
    requires AllTerminated(f) && AllTerminated(g)
    ensures AllTerminated(f + g)
  {
  }

  /** A tree whose strings can be read. */
  ghost predicate Readable(s: Shape)
    reads NodeSet(s)`child, NodeSet(s)`valuestring, NodeSet(s)`name, NodeSets(s.kids)`next, NodeSets(s.kids)`prev
    reads BufferSet(s)
  {
    Tree(s) && AllTerminated(BufferSet(s))
  }

  // ----- the value of a tree

  ghost predicate HasText(a: array?<Byte>, t: Text)
    reads Buffer(a)
  {
    a != null && |t| < a.Length && CString(a[..]) == t
  }

  /** The tree is the value `v`; the key of its root is not looked at. */
  ghost predicate Denotes(s: Shape, v: Json)
    reads NodeSet(s)`kind, NodeSet(s)`valueint, NodeSet(s)`valuedouble, BufferSet(s)
    decreases s
  {
    match v
    case Null => s.node.kind == IsNull && s.kids == []
    case False => s.node.kind == IsFalse && s.kids == []
    case True => s.node.kind == IsTrue && s.kids == []
    case Number(d, i) => s.node.kind == IsNumber && s.kids == [] && s.node.valuedouble == d && s.node.valueint == i
    case String(t) => s.node.kind == IsString && s.kids == [] && HasText(s.text, t)
    case Array(items) =>
      s.node.kind == IsArray && |s.kids| == |items|
      && forall i :: 0 <= i < |items| ==> Denotes(s.kids[i], items[i])
    case Object(members) =>
      s.node.kind == IsObject && |s.kids| == |members|
      && forall i :: 0 <= i < |members| ==>
           HasText(s.kids[i].key, members[i].key) && Denotes(s.kids[i], members[i].value)
  }

  lemma {:induction false} AppendSets(kids: seq<Shape>, s: Shape)
    ensures NodeSets(kids + [s]) == NodeSets(kids) + NodeSet(s)
    ensures BufferSets(kids + [s]) == BufferSets(kids) + BufferSet(s)
    ensures Footprints(kids + [s]) == Footprints(kids) + Footprint(s)
    decreases |kids|
  {
    if kids == [] {
      assert kids + [s] == [s];
    } else {
      assert (kids + [s])[1..] == kids[1..] + [s];
      AppendSets(kids[1..], s);
    }
  }

  lemma AppendNodes(kids: seq<Shape>, s: Shape)
    ensures Nodes(kids + [s]) == Nodes(kids) + [s.node]
  {
  }

  lemma {:induction false} AppendSeparate(kids: seq<Shape>, s: Shape)
    requires SeparateAll(kids) && Separate(s)
    requires NodeSets(kids) !! NodeSet(s) && BufferSets(kids) !! BufferSet(s)
    ensures SeparateAll(kids + [s])
    decreases |kids|
  {
    if kids == [] {
      assert kids + [s] == [s];
    } else {
      assert (kids + [s])[1..] == kids[1..] + [s];
      AppendSets(kids[1..], s);
      AppendSeparate(kids[1..], s);
    }
  }

  /** The nodes of a list lie outside the subtrees of the list. */
  lemma {:induction false} SeparateNodes(kids: seq<Shape>, i: nat, j: nat)
    requires SeparateAll(kids) && i < |kids| && j < |kids|
    ensures kids[i].node !in NodeSets(kids[j].kids)
    ensures i != j ==> NodeSet(kids[i]) !! NodeSet(kids[j])
    decreases |kids|
  {
    if i > 0 && j > 0 {
      SeparateNodes(kids[1..], i - 1, j - 1);
    } else if i > 0 {
      assert kids[i] == kids[1..][i - 1];
    } else if j > 0 {
      assert kids[j] == kids[1..][j - 1];
    }
  }
}
