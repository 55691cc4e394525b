/**
 `cJSON_Duplicate` (components/cJSON/cJSON.c:180-199, 2739-2831).
 */
module ItemCopy {
  import opened Bytes
  import opened JsonTree
  import opened Items
  import opened ItemDelete
  import opened ItemBuild

  const CIRCULAR_LIMIT: nat := 10000

  ghost predicate SameText(a: array?<Byte>, b: array?<Byte>)
    reads Buffer(a), Buffer(b)
  {
    (a == null <==> b == null) && (a != null ==> Terminated(b) && CString(a[..]) == CString(b[..]))
  }

  /** `cJSON_strdup`; NULL when the allocation is refused. */
  method Strdup(hooks: Hooks, a: array<Byte>) returns (b: array?<Byte>)
    requires Terminated(a)
    modifies hooks
    ensures b == null ==> hooks.refused && hooks.live == old(hooks.live)
    ensures b != null ==>
      && fresh(b) && Terminated(b) && SameText(a, b)
      && hooks.live == old(hooks.live) + {b} && hooks.refused == old(hooks.refused)
  {
    ghost var t := CString(a[..]);
    var length := 0;
    while a[length] != NUL
      invariant length <= |t|
      decreases |t| - length
    {
      assert length < |t| ==> t[length] == a[..][length];
      length := length + 1;
    }
    assert length == |t|;
    b := hooks.Allocate(length + 1);
    if b != null {
      for i := 0 to length + 1
        invariant b[..i] == a[..i]
        modifies b
      {
        b[i] := a[i];
      }
      assert b[..][length] == NUL && b[..length] == t;
      CStringUnique(b[..], t);
    }
  }

  // ----- what a copy is

  /** `c` has the same nodes as `s`; with `recurse` off, only the root is compared. */
  ghost predicate Copies(s: Shape, c: Shape, recurse: bool)
    reads NodeSet(s)`kind, NodeSet(s)`valueint, NodeSet(s)`valuedouble, BufferSet(s)
    reads NodeSet(c)`kind, NodeSet(c)`valueint, NodeSet(c)`valuedouble, BufferSet(c)
    decreases s
  {
    && c.node.kind == s.node.kind
    && c.node.valueint == s.node.valueint
    && c.node.valuedouble == s.node.valuedouble
    && SameText(s.text, c.text)
    && SameText(s.key, c.key)
    && |c.kids| == (if recurse then |s.kids| else 0)
    && (recurse ==> forall i :: 0 <= i < |s.kids| ==> Copies(s.kids[i], c.kids[i], true))
  }

  /** A copy stands for every value that the original stands for. */
  lemma {:induction false} CopiesDenote(s: Shape, c: Shape, v: Json)
    requires Copies(s, c, true) && Denotes(s, v)
    ensures Denotes(c, v)
    decreases s
  {
    match v
    case Array(items) =>
      forall i | 0 <= i < |items| ensures Denotes(c.kids[i], items[i]) {
        CopiesDenote(s.kids[i], c.kids[i], items[i]);
      }
    case Object(members) =>
      forall i | 0 <= i < |members| ensures Denotes(c.kids[i], members[i].value) {
        CopiesDenote(s.kids[i], c.kids[i], members[i].value);
      }
    case _ =>
  }

  /** The levels of children below a node. */
  ghost function Height(s: Shape): nat
    decreases s
  {
    if s.kids == [] then 0 else 1 + Heights(s.kids)
  }

  ghost function Heights(kids: seq<Shape>): nat
    decreases kids
  {
    if kids == [] then 0 else Max(Height(kids[0]), Heights(kids[1..]))
  }

  // ----- copying

  /** The part of `cJSON_Duplicate_rec` in front of the children. */
  method CopyNode(hooks: Hooks, item: Item, ghost s: Shape) returns (newitem: Item?, ghost copy: Shape)
    requires s.node == item && Readable(s)
    modifies hooks
    ensures newitem == null ==> hooks.refused && hooks.live == old(hooks.live)
    ensures newitem != null ==>
      && CopiedNode(newitem, s, copy) && Tree(copy) && fresh(Footprint(copy))
      && hooks.live == old(hooks.live) + Footprint(copy) && hooks.refused == old(hooks.refused)
  {
    hide *;
    ReadableRoot(s);
    newitem := hooks.NewItem();
    copy := Shape(item, null, null, []);
    if newitem == null {
      return;
    }
    newitem.kind, newitem.valueint, newitem.valuedouble := item.kind, item.valueint, item.valuedouble;
    ghost var live := hooks.live;
    var ok := CopyStrings(hooks, item, newitem, s);
    LeafIs(newitem);
    if !ok {
      DeleteLeaf(hooks, newitem);
      return null, copy;
    }
    copy := Shape(newitem, newitem.valuestring, newitem.name, []);
    LeafFootprint(newitem, newitem.valuestring, newitem.name);
    LeafTree(newitem);
    CopiedLeaf(item, newitem, s, copy);
    assert hooks.live == live + Buffer(newitem.valuestring) + Buffer(newitem.name);
  }

  lemma ReadableRoot(s: Shape)
    requires Readable(s)
    ensures s.node.valuestring == s.text && s.node.name == s.key && Terminated(s.text) && Terminated(s.key)
  {
    assert Buffer(s.text) + Buffer(s.key) <= BufferSet(s);
  }

  lemma LeafIs(item: Item)
    ensures LeafObjects(item.valuestring, item.name, item) == {item} + Buffer(item.valuestring) + Buffer(item.name)
  {
  }

  lemma CopiedLeaf(item: Item, newitem: Item, s: Shape, copy: Shape)
    requires s.node == item && s.text == item.valuestring && s.key == item.name
    requires copy == Shape(newitem, newitem.valuestring, newitem.name, []) && Separate(copy)
    requires newitem.next == null && newitem.prev == null && newitem.child == null
    requires newitem.kind == item.kind && newitem.valueint == item.valueint && newitem.valuedouble == item.valuedouble
    requires SameText(item.valuestring, newitem.valuestring) && SameText(item.name, newitem.name)
    requires Terminated(newitem.valuestring) && Terminated(newitem.name)
    ensures CopiedNode(newitem, s, copy)
  {
    hide Separate, SameText;
    LeafFootprint(newitem, newitem.valuestring, newitem.name);
  }

  method CopyStrings(hooks: Hooks, item: Item, newitem: Item, ghost s: Shape) returns (ok: bool)
    requires newitem.valuestring == null && newitem.name == null && item != newitem
    requires Terminated(item.valuestring) && Terminated(item.name)
    modifies hooks, newitem`valuestring, newitem`name
    ensures !ok ==> hooks.refused
    ensures ok ==>
      && SameText(item.valuestring, newitem.valuestring)
      && SameText(item.name, newitem.name)
      && hooks.refused == old(hooks.refused)
    ensures Terminated(newitem.valuestring) && Terminated(newitem.name)
    ensures fresh(Buffer(newitem.valuestring)) && fresh(Buffer(newitem.name))
    ensures Buffer(newitem.valuestring) !! Buffer(newitem.name)
    ensures hooks.live == old(hooks.live) + Buffer(newitem.valuestring) + Buffer(newitem.name)
  {
    if item.valuestring != null {
      newitem.valuestring := Strdup(hooks, item.valuestring);
      if newitem.valuestring == null {
        return false;
      }
    }
    if item.name != null {
      newitem.name := Strdup(hooks, item.name);
      if newitem.name == null {
        return false;
      }
    }
    return true;
  }

  /** Hooks a new child into the copy: behind the last one, or as the first. */
  method HookChild(parent: Item, last: Item?, child: Item, ghost kids: seq<Shape>, ghost s: Shape)
    requires Growing(parent.child, Nodes(kids)) && Trees(kids) && SeparateAll(kids)
    requires last == if kids == [] then null else kids[|kids| - 1].node
    requires s.node == child && Tree(s) && child.next == null
    requires child !in NodeSets(kids) && child !in NodeSets(s.kids)
    requires parent !in NodeSets(kids) && NodeSets(kids) !! NodeSets(s.kids)
    modifies parent`child, NodeSets(kids)`next, child`prev
    ensures Growing(parent.child, Nodes(kids) + [child]) && Trees(kids)
    ensures parent !in NodeSet(s) ==> Tree(s)
  {
    assert allocated(NodeSet(s)) && allocated(NodeSets(s.kids)) && allocated(NodeSets(kids));
    hide NodeSet, NodeSets, Siblings, SeparateAll, Separate;
    if last != null {
      LinkTree(last, child, parent.child, kids);
    } else {
      parent.child := child;
    }
    assert parent !in NodeSet(s) ==> Tree(s) == old(Tree(s)) by { hide Trees, Growing; }
  }

  /** `HookChild`, seen as adding a tree to a list. */
  method AppendChild(parent: Item, last: Item?, child: Item, ghost kids: seq<Shape>, ghost s: Shape)
    requires Building(parent.child, last, kids)
    requires s.node == child && Tree(s) && Separate(s) && child.next == null
    requires Footprints(kids) !! Footprint(s)
    requires parent !in NodeSets(kids) && parent !in NodeSet(s)
    modifies parent`child, NodeSets(kids)`next, child`prev
    ensures Building(parent.child, child, kids + [s])
  {
    BuildingParts(parent.child, last, kids);
    Apart(kids, s);
    hide *;
    HookChild(parent, last, child, kids, s);
    AppendTree(parent.child, kids, s);
  }

  lemma Apart(kids: seq<Shape>, s: Shape)
    requires Footprints(kids) !! Footprint(s) && Separate(s)
    ensures s.node !in NodeSets(kids) && s.node !in NodeSets(s.kids) && NodeSets(kids) !! NodeSets(s.kids)
    ensures NodeSets(s.kids) <= NodeSet(s)
  {
    assert NodeSet(s) <= Footprint(s) && NodeSets(kids) <= Footprints(kids);
  }

  // ----- the list of copies

  /** The first children have been copied. */
  ghost predicate Copied(from: seq<Shape>, kids: seq<Shape>)
    reads NodeSets(from)`kind, NodeSets(from)`valueint, NodeSets(from)`valuedouble, BufferSets(from)
    reads NodeSets(kids)`kind, NodeSets(kids)`valueint, NodeSets(kids)`valuedouble, BufferSets(kids)
  {
    |kids| <= |from| && forall i :: 0 <= i < |kids| ==> Copies(from[i], kids[i], true)
  }

  /** The trees that are copied. */
  ghost predicate Sources(head: Item?, from: seq<Shape>)
    reads NodeSets(from)`child, NodeSets(from)`valuestring, NodeSets(from)`name, NodeSets(from)`next, NodeSets(from)`prev
    reads BufferSets(from)
  {
    assert forall n <- Nodes(from) :: n in NodeSets(from);
    Chain(head, Nodes(from)) && forall i :: 0 <= i < |from| ==> Readable(from[i])
  }

  lemma {:induction false} AppendCopied(from: seq<Shape>, kids: seq<Shape>, c: Shape)
    requires Copied(from, kids) && |kids| < |from| && Copies(from[|kids|], c, true)
    ensures Copied(from, kids + [c])
  {
    hide Copies;
    assert forall i :: 0 <= i < |kids| ==> (kids + [c])[i] == kids[i];
  }

  lemma SourceAt(head: Item?, from: seq<Shape>, i: nat)
    requires Sources(head, from) && i < |from|
    ensures Readable(from[i]) && from[i].node.next == NodeAt(from, i + 1) && head == from[0].node
  {
    assert Nodes(from)[i].next == After(Nodes(from), i);
  }

  lemma NoCopies(head: Item?, from: seq<Shape>)
    requires Sources(head, from)
    ensures Copied(from, []) && head == NodeAt(from, 0) && AllTerminated(BufferSets([]))
  {
  }

  lemma ReadableParts(s: Shape)
    requires Readable(s)
    ensures Sources(s.node.child, s.kids) && NodeSets(s.kids) <= NodeSet(s)
  {
    hide NodeSet, NodeSets, BufferSet, BufferSets, Siblings;
    KidSets(s);
    KidTrees(s);
    hide Tree;
    forall i | 0 <= i < |s.kids| ensures Readable(s.kids[i]) {
      assert BufferSet(s.kids[i]) <= BufferSet(s);
    }
  }

  // ----- how deep the tree is

  ghost predicate Shallow(from: seq<Shape>, n: nat, depth: nat) {
    forall i :: 0 <= i < n <= |from| ==> depth + 1 + Height(from[i]) <= CIRCULAR_LIMIT
  }

  lemma {:induction false} HeightOf(kids: seq<Shape>, i: nat)
    requires i < |kids|
    ensures Height(kids[i]) <= Heights(kids)
    decreases kids
  {
    if i > 0 {
      HeightOf(kids[1..], i - 1);
    }
  }

  lemma {:induction false} HeightBound(kids: seq<Shape>, h: nat)
    requires forall i :: 0 <= i < |kids| ==> Height(kids[i]) <= h
    ensures Heights(kids) <= h
    decreases kids
  {
    if kids != [] {
      assert forall i :: 0 <= i < |kids[1..]| ==> kids[1..][i] == kids[i + 1];
      HeightBound(kids[1..], h);
    }
  }

  lemma WithinLimit(s: Shape, depth: nat)
    requires depth <= CIRCULAR_LIMIT
    ensures depth + Height(s) <= CIRCULAR_LIMIT <==> Shallow(s.kids, |s.kids|, depth)
  {
    if s.kids != [] {
      forall i | 0 <= i < |s.kids| ensures Height(s.kids[i]) <= Heights(s.kids) {
        HeightOf(s.kids, i);
      }
      assert Height(s.kids[0]) >= 0;
      if depth < CIRCULAR_LIMIT && Shallow(s.kids, |s.kids|, depth) {
        HeightBound(s.kids, CIRCULAR_LIMIT - depth - 1);
      }
    }
  }

  // ----- copying trees

  /** Copies one child and hooks it in. */
  method CopyChild(hooks: Hooks, parent: Item, last: Item?, child: Item, depth: nat, ghost from: seq<Shape>, ghost kids: seq<Shape>)
    returns (newchild: Item?, ghost c: Shape)
    requires Sources(NodeAt(from, 0), from) && |kids| < |from| && child == from[|kids|].node && Readable(from[|kids|])
    requires Building(parent.child, last, kids) && Copied(from, kids) && AllTerminated(BufferSets(kids))
    requires parent !in NodeSets(from) && parent !in NodeSets(kids) && NodeSets(from) !! NodeSets(kids)
    requires depth < CIRCULAR_LIMIT
    modifies hooks, parent`child, NodeSets(kids)`next
    ensures Sources(NodeAt(from, 0), from)
    ensures newchild == null ==>
      && Building(parent.child, last, kids) && Copied(from, kids) && AllTerminated(BufferSets(kids))
      && hooks.live == old(hooks.live) && (hooks.refused || depth + 1 + Height(from[|kids|]) > CIRCULAR_LIMIT)
    ensures newchild != null ==>
      && Building(parent.child, newchild, kids + [c]) && Copied(from, kids + [c]) && AllTerminated(BufferSets(kids + [c]))
      && fresh(Footprint(c)) && Footprints(kids + [c]) == Footprints(kids) + Footprint(c)
      && hooks.live == old(hooks.live) + Footprint(c) && hooks.refused == old(hooks.refused)
      && depth + 1 + Height(from[|kids|]) <= CIRCULAR_LIMIT
    decreases from[|kids|], 3
  {
    hide *;
    assert allocated(NodeSets(kids)) && allocated(BufferSets(kids)) && allocated(NodeSets(from)) && allocated(BufferSets(from));
    assert allocated(Footprints(kids));
    newchild, c := DuplicateRec(hooks, child, depth + 1, true, from[|kids|]);
    if newchild == null {
      return;
    }
    FootprintSets(c);
    assert allocated(NodeSet(c)) && allocated(BufferSet(c));
    AppendChild(parent, last, newchild, kids, c);
    AppendCopied(from, kids, c);
    AppendSets(kids, c);
    TerminatedUnion(BufferSets(kids), BufferSet(c));
  }

  /** Copies the children of `item`; stops at the first one that cannot be copied. */
  method CopyChildren(hooks: Hooks, item: Item, parent: Item, depth: nat, ghost s: Shape)
    returns (ok: bool, last: Item?, ghost kids: seq<Shape>)
    requires Sources(item.child, s.kids)
    requires parent.child == null && parent !in NodeSets(s.kids) && depth <= CIRCULAR_LIMIT
    modifies hooks, parent`child
    ensures fresh(Footprints(kids)) && hooks.live == old(hooks.live) + Footprints(kids)
    ensures Building(parent.child, last, kids) && Copied(s.kids, kids) && AllTerminated(BufferSets(kids))
    ensures ok ==> |kids| == |s.kids| && hooks.refused == old(hooks.refused) && Shallow(s.kids, |s.kids|, depth)
    ensures !ok ==> hooks.refused || !Shallow(s.kids, |s.kids|, depth)
    decreases s, 0
  {
    hide Sources, Building, Copied, AllTerminated, NodeSets, NodeSet, BufferSets, BufferSet, Footprints, Footprint, Tree, Separate;
    hide Copies, Readable;
    var child := item.child;
    ghost var from := s.kids;
    last, kids := null, [];
    assert allocated(NodeSets(from)) && allocated(BufferSets(from));
    NoKids();
    NoCopies(child, from);
    while child != null
      invariant |kids| <= |from| && child == NodeAt(from, |kids|)
      invariant fresh(NodeSets(kids)) && fresh(BufferSets(kids)) && fresh(Footprints(kids))
      invariant Sources(NodeAt(from, 0), from)
      invariant Building(parent.child, last, kids) && Copied(from, kids) && AllTerminated(BufferSets(kids))
      invariant hooks.live == old(hooks.live) + Footprints(kids) && hooks.refused == old(hooks.refused)
      invariant Shallow(from, |kids|, depth)
      decreases |from| - |kids|
    {
      if depth >= CIRCULAR_LIMIT {
        return false, last, kids;
      }
      SourceAt(NodeAt(from, 0), from, |kids|);
      assert NodeSets(kids) !! NodeSets(from);
      var newchild, c := CopyChild(hooks, parent, last, child, depth, from, kids);
      if newchild == null {
        return false, last, kids;
      }
      child := child.next;
      kids := kids + [c];
      NodesOfFootprints(kids);
      last := newchild;
    }
    ok := true;
  }

  /**
   `cJSON_Duplicate_rec`: a tree with the same contents that shares nothing with the original.  It
   fails, with everything freed again, only when the tree is too deep or memory is refused.
   */
  method DuplicateRec(hooks: Hooks, item: Item?, depth: nat, recurse: bool, ghost s: Shape)
    returns (newitem: Item?, ghost copy: Shape)
    requires item != null ==> s.node == item && Readable(s)
    requires depth <= CIRCULAR_LIMIT
    modifies hooks
    ensures newitem == null ==>
      && hooks.live == old(hooks.live)
      && (hooks.refused || item == null || (recurse && depth + Height(s) > CIRCULAR_LIMIT))
    ensures newitem != null ==>
      && item != null && (recurse ==> depth + Height(s) <= CIRCULAR_LIMIT) && hooks.refused == old(hooks.refused)
      && copy.node == newitem && newitem.next == null && newitem.prev == null
      && Tree(copy) && Separate(copy) && AllTerminated(BufferSet(copy)) && Copies(s, copy, recurse)
      && fresh(Footprint(copy)) && hooks.live == old(hooks.live) + Footprint(copy)
    decreases s, 2
  {
    hide *;
    newitem, copy := null, s;
    if item == null {
      return;
    }
    assert allocated(NodeSet(s)) && allocated(NodeSets(s.kids)) && allocated(BufferSet(s));
    newitem, copy := CopyNode(hooks, item, s);
    if newitem == null {
      return;
    }
    CopiedParts(newitem, s, copy);
    FootprintSets(copy);
    if recurse {
      newitem, copy := CopyBelow(hooks, item, newitem, depth, s, copy);
    }
  }

  lemma CopiedParts(newitem: Item, s: Shape, leaf: Shape)
    requires CopiedNode(newitem, s, leaf)
    ensures leaf.node == newitem && newitem.next == null && newitem.prev == null && newitem.child == null
    ensures Separate(leaf) && AllTerminated(BufferSet(leaf)) && Copies(s, leaf, false)
    ensures leaf == Shape(newitem, newitem.valuestring, newitem.name, [])
    ensures NodeSet(leaf) == {newitem} && BufferSet(leaf) == Buffer(leaf.text) + Buffer(leaf.key)
    ensures Buffer(leaf.text) !! Buffer(leaf.key) && Footprint(leaf) == {newitem} + BufferSet(leaf)
  {
    hide AllTerminated, Copies;
  }

  /** The part of `cJSON_Duplicate_rec` behind the test of `recurse`. */
  method CopyBelow(hooks: Hooks, item: Item, newitem: Item, depth: nat, ghost s: Shape, ghost leaf: Shape)
    returns (result: Item?, ghost copy: Shape)
    requires s.node == item && Readable(s) && depth <= CIRCULAR_LIMIT
    requires CopiedNode(newitem, s, leaf) && Footprint(leaf) <= hooks.live
    requires NodeSet(leaf) !! NodeSet(s) && BufferSet(leaf) !! BufferSet(s)
    modifies hooks, newitem`child, newitem`valuestring, newitem`name
    ensures result == null ==>
      && hooks.live == old(hooks.live) - Footprint(leaf)
      && (hooks.refused || depth + Height(s) > CIRCULAR_LIMIT)
    ensures result != null ==>
      && result == newitem && depth + Height(s) <= CIRCULAR_LIMIT && hooks.refused == old(hooks.refused)
      && copy.node == newitem && newitem.next == null && newitem.prev == null
      && Tree(copy) && Separate(copy) && AllTerminated(BufferSet(copy)) && Copies(s, copy, true)
      && fresh(Footprint(copy) - Footprint(leaf)) && Footprint(leaf) <= Footprint(copy)
      && hooks.live == old(hooks.live) + Footprint(copy)
    decreases s, 1
  {
    hide *;
    CopiedParts(newitem, s, leaf);
    ReadableParts(s);
    NotIn(newitem, s, leaf);
    assert allocated(NodeSet(s)) && allocated(BufferSet(s)) && allocated(NodeSet(leaf)) && allocated(BufferSet(leaf));
    var ok, last;
    ghost var kids;
    ok, last, kids := CopyChildren(hooks, item, newitem, depth, s);
    NodesOfFootprints(kids);
    WithinLimit(s, depth);
    OwnCopy(newitem, leaf, kids);
    if !ok {
      DropCopy(hooks, newitem, leaf, last, kids);
      return null, leaf;
    }
    assert allocated(NodeSets(kids)) && allocated(BufferSets(kids)) && allocated(NodeSets(s.kids)) && allocated(BufferSets(s.kids));
    BuildingParts(newitem.child, last, kids);
    CloseList(newitem.child, last, kids);
    result := newitem;
    copy := Shape(newitem, newitem.valuestring, newitem.name, kids);
    ParentTree(newitem, kids);
    FinishedCopy(s, leaf, copy);
  }

  lemma NotIn(newitem: Item, s: Shape, leaf: Shape)
    requires NodeSet(leaf) !! NodeSet(s) && newitem in NodeSet(leaf)
    ensures newitem !in NodeSets(s.kids)
  {
  }

  lemma OwnCopy(newitem: Item, leaf: Shape, kids: seq<Shape>)
    requires leaf == Shape(newitem, newitem.valuestring, newitem.name, [])
    requires Buffer(leaf.text) !! Buffer(leaf.key) && BufferSet(leaf) !! BufferSets(kids)
    ensures OwnStrings(newitem, kids)
  {
  }

  lemma FinishedCopy(s: Shape, leaf: Shape, copy: Shape)
    requires leaf == copy.(kids := []) && |copy.kids| == |s.kids|
    requires Copies(s, leaf, false) && Copied(s.kids, copy.kids)
    requires AllTerminated(BufferSet(leaf)) && AllTerminated(BufferSets(copy.kids))
    ensures Copies(s, copy, true) && AllTerminated(BufferSet(copy))
    ensures Footprint(copy) == Footprint(leaf) + Footprints(copy.kids)
  {
    hide Terminated, SameText;
    assert BufferSet(copy) == BufferSet(leaf) + BufferSets(copy.kids);
  }

  lemma UnfinishedDeletable(newitem: Item, leaf: Shape, last: Item?, kids: seq<Shape>)
    requires Building(newitem.child, last, kids) && OwnStrings(newitem, kids)
    requires newitem !in NodeSets(kids) && newitem.next == null
    requires leaf == Shape(newitem, newitem.valuestring, newitem.name, [])
    ensures var copies := [leaf.(kids := kids)];
      && Deletable(newitem, copies) && NodeSets(copies) == {newitem} + NodeSets(kids)
      && Footprints(copies) == Footprint(leaf) + Footprints(kids)
  {
    var c := leaf.(kids := kids);
    BuildingParts(newitem.child, last, kids);
    LeafFootprint(newitem, newitem.valuestring, newitem.name);
    hide Building, SeparateAll, NodeSets, BufferSets, Growing, Trees;
    assert Separate(c) && Stem(c);
    assert NodeSet(c) == {newitem} + NodeSets(kids) && BufferSet(c) == BufferSet(leaf) + BufferSets(kids);
    SingleTree(newitem, c);
  }

  lemma SingleTree(item: Item, c: Shape)
    requires c.node == item && item.next == null && Stem(c) && Separate(c)
    ensures Deletable(item, [c]) && NodeSets([c]) == NodeSet(c) && Footprints([c]) == Footprint(c)
  {
    assert [c][1..] == [];
  }

  /** `cJSON_Delete` of a copy that could not be finished. */
  method DropCopy(hooks: Hooks, newitem: Item, ghost leaf: Shape, last: Item?, ghost kids: seq<Shape>)
    requires Building(newitem.child, last, kids) && OwnStrings(newitem, kids)
    requires newitem !in NodeSets(kids) && newitem.next == null
    requires leaf == Shape(newitem, newitem.valuestring, newitem.name, [])
    requires Footprint(leaf) + Footprints(kids) <= hooks.live
    modifies hooks`live, newitem`valuestring, newitem`name, NodeSets(kids)`valuestring, NodeSets(kids)`name
    ensures hooks.live == old(hooks.live) - Footprint(leaf) - Footprints(kids)
  {
    hide *;
    UnfinishedDeletable(newitem, leaf, last, kids);
    Delete(hooks, newitem, [leaf.(kids := kids)]);
  }

  /** A new node that has the contents of the root of `s`, and no children yet. */
  ghost predicate CopiedNode(newitem: Item, s: Shape, leaf: Shape)
    reads NodeSet(s)`kind, NodeSet(s)`valueint, NodeSet(s)`valuedouble, BufferSet(s)
    reads NodeSet(leaf), BufferSet(leaf), newitem
  {
    && leaf == Shape(newitem, newitem.valuestring, newitem.name, [])
    && newitem.next == null && newitem.prev == null && newitem.child == null
    && Separate(leaf) && AllTerminated(BufferSet(leaf)) && Copies(s, leaf, false)
  }

  /**
   `cJSON_Duplicate` of a whole tree: the copy stands for the same value, and for every other value
   that the original stands for.
   */
  method Duplicate(hooks: Hooks, item: Item?, recurse: bool, ghost s: Shape) returns (newitem: Item?, ghost copy: Shape)
    requires item != null ==> s.node == item && Readable(s)
    modifies hooks
    ensures newitem == null ==>
      && hooks.live == old(hooks.live)
      && (hooks.refused || item == null || (recurse && Height(s) > CIRCULAR_LIMIT))
    ensures newitem != null ==>
      && item != null && (recurse ==> Height(s) <= CIRCULAR_LIMIT)
      && copy.node == newitem && newitem.next == null && newitem.prev == null
      && Readable(copy) && Separate(copy) && Copies(s, copy, recurse)
      && fresh(Footprint(copy)) && hooks.live == old(hooks.live) + Footprint(copy)
      && (recurse ==> forall v :: Denotes(s, v) ==> Denotes(copy, v))
  {
    hide Tree, Denotes, Copies, Separate, NodeSet, NodeSets, BufferSet, BufferSets, Footprint, Height, Terminated;
    newitem, copy := DuplicateRec(hooks, item, 0, recurse, s);
    if newitem != null && recurse {
      forall v | Denotes(s, v) ensures Denotes(copy, v) {
        CopiesDenote(s, copy, v);
      }
    }
  }
}
