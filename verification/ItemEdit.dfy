/**
 The list operations of `ItemList` on whole trees: the edited tree is again a separate tree, and as a
 value it is the array with one item added, removed, inserted or replaced
 (components/cJSON/cJSON.c:1985-2016, 2216-2260, 2292-2373).
 */
module ItemEdit {
  import opened Bytes
  import opened JsonTree
  import opened Items
  import opened ItemDelete
  import opened ItemBuild
  import opened ItemList

  ghost predicate Disjoint(a: Shape, b: Shape) {
    NodeSet(a) !! NodeSet(b) && BufferSet(a) !! BufferSet(b)
  }

  // ----- separate lists, one tree at a time

  lemma {:induction false} SetsApart(kids: seq<Shape>, nodes: set<Item>, buffers: set<array<Byte>>)
    requires forall i :: 0 <= i < |kids| ==> NodeSet(kids[i]) !! nodes && BufferSet(kids[i]) !! buffers
    ensures NodeSets(kids) !! nodes && BufferSets(kids) !! buffers
    decreases |kids|
  {
    if kids != [] {
      assert forall i :: 0 <= i < |kids[1..]| ==> kids[1..][i] == kids[i + 1];
      SetsApart(kids[1..], nodes, buffers);
    }
  }

  lemma {:induction false} SeparateKids(kids: seq<Shape>)
    requires SeparateAll(kids)
    ensures forall i :: 0 <= i < |kids| ==> Separate(kids[i])
    ensures forall i, j :: 0 <= i < j < |kids| ==> Disjoint(kids[i], kids[j])
    decreases |kids|
  {
    if kids != [] {
      SeparateKids(kids[1..]);
      assert forall i :: 1 <= i < |kids| ==> kids[i] == kids[1..][i - 1];
    }
  }

  lemma {:induction false} KidsSeparate(kids: seq<Shape>)
    requires forall i :: 0 <= i < |kids| ==> Separate(kids[i])
    requires forall i, j :: 0 <= i < j < |kids| ==> Disjoint(kids[i], kids[j])
    ensures SeparateAll(kids)
    decreases |kids|
  {
    if kids != [] {
      assert forall i :: 0 <= i < |kids[1..]| ==> kids[1..][i] == kids[i + 1];
      KidsSeparate(kids[1..]);
      SetsApart(kids[1..], NodeSet(kids[0]), BufferSet(kids[0]));
    }
  }

  /** What a tree may have as a child. */
  ghost predicate MayHold(p: Shape, kid: Shape) {
    Separate(kid) && p.node !in NodeSet(kid) && Buffer(p.text) + Buffer(p.key) !! BufferSet(kid)
  }

  lemma {:induction false} SeparateParts(p: Shape)
    requires Separate(p)
    ensures Buffer(p.text) !! Buffer(p.key) && SeparateAll(p.kids)
    ensures forall i :: 0 <= i < |p.kids| ==> MayHold(p, p.kids[i])
    ensures forall i, j :: 0 <= i < j < |p.kids| ==> Disjoint(p.kids[i], p.kids[j])
  {
    SeparateKids(p.kids);
    forall i | 0 <= i < |p.kids| ensures MayHold(p, p.kids[i]) {
      assert NodeSet(p.kids[i]) <= NodeSets(p.kids) && BufferSet(p.kids[i]) <= BufferSets(p.kids);
    }
  }

  lemma PartsSeparate(p: Shape)
    requires Buffer(p.text) !! Buffer(p.key)
    requires forall i :: 0 <= i < |p.kids| ==> MayHold(p, p.kids[i])
    requires forall i, j :: 0 <= i < j < |p.kids| ==> Disjoint(p.kids[i], p.kids[j])
    ensures Separate(p)
  {
    SetsApart(p.kids, {p.node}, Buffer(p.text) + Buffer(p.key));
    KidsSeparate(p.kids);
  }

  /** A tree outside of another may become its child. */
  lemma Outside(p: Shape, s: Shape)
    requires Separate(p) && Separate(s) && Footprint(p) !! Footprint(s)
    ensures MayHold(p, s) && forall i :: 0 <= i < |p.kids| ==> Disjoint(p.kids[i], s) && Disjoint(s, p.kids[i])
  {
    assert NodeSet(s) <= Footprint(s) && BufferSet(s) <= Footprint(s);
    assert NodeSet(p) <= Footprint(p) && BufferSet(p) <= Footprint(p);
    forall i | 0 <= i < |p.kids| ensures Disjoint(p.kids[i], s) && Disjoint(s, p.kids[i]) {
      assert NodeSet(p.kids[i]) <= NodeSets(p.kids) <= NodeSet(p);
      assert BufferSet(p.kids[i]) <= BufferSets(p.kids) <= BufferSet(p);
    }
  }

  // ----- the edited shapes

  lemma {:induction false} InsertedShape(p: Shape, i: nat, s: Shape)
    requires Separate(p) && Separate(s) && Footprint(p) !! Footprint(s) && i <= |p.kids|
    ensures Separate(p.(kids := Inserted(p.kids, i, s)))
    ensures Nodes(Inserted(p.kids, i, s)) == Inserted(Nodes(p.kids), i, s.node)
  {
    hide Separate, Disjoint, MayHold, Footprint;
    SeparateParts(p);
    Outside(p, s);
    InsertedElements(p.kids, i, s);
    hide Inserted;
    var q := p.(kids := Inserted(p.kids, i, s));
    forall k | 0 <= k < |q.kids| ensures MayHold(q, q.kids[k]) {
      SameHolder(p, q, q.kids[k]);
    }
    PartsSeparate(q);
    InsertedNodes(p.kids, i, s);
  }

  lemma {:induction false} InsertedElements(kids: seq<Shape>, i: nat, s: Shape)
    requires i <= |kids|
    ensures var r := Inserted(kids, i, s);
      forall k :: 0 <= k < |r| ==> r[k] == (if k < i then kids[k] else if k == i then s else kids[k - 1])
  {
    var r := Inserted(kids, i, s);
    assert r == kids[..i] + ([s] + kids[i..]);
  }

  lemma {:induction false} InsertedNodes(kids: seq<Shape>, i: nat, s: Shape)
    requires i <= |kids|
    ensures Nodes(Inserted(kids, i, s)) == Inserted(Nodes(kids), i, s.node)
  {
    InsertedElements(kids, i, s);
  }

  lemma SameHolder(p: Shape, q: Shape, kid: Shape)
    requires q.node == p.node && q.text == p.text && q.key == p.key
    ensures MayHold(p, kid) <==> MayHold(q, kid)
  {
  }

  lemma {:induction false} RemovedShape(p: Shape, i: nat)
    requires Separate(p) && i < |p.kids|
    ensures Separate(p.(kids := Removed(p.kids, i))) && Separate(p.kids[i])
    ensures Nodes(Removed(p.kids, i)) == Removed(Nodes(p.kids), i)
  {
    hide Separate, Disjoint;
    SeparateParts(p);
    var q := p.(kids := Removed(p.kids, i));
    forall k | 0 <= k < |q.kids| ensures MayHold(q, q.kids[k]) {
      SameHolder(p, q, q.kids[k]);
    }
    PartsSeparate(q);
  }

  lemma {:induction false} UpdatedShape(p: Shape, i: nat, s: Shape)
    requires Separate(p) && Separate(s) && Footprint(p) !! Footprint(s) && i < |p.kids|
    ensures Separate(p.(kids := p.kids[i := s]))
    ensures Nodes(p.kids[i := s]) == Nodes(p.kids)[i := s.node]
  {
    hide Separate, Disjoint, MayHold, Footprint;
    SeparateParts(p);
    Outside(p, s);
    var q := p.(kids := p.kids[i := s]);
    forall k | 0 <= k < |q.kids| ensures MayHold(q, q.kids[k]) {
      SameHolder(p, q, q.kids[k]);
    }
    PartsSeparate(q);
  }

  // ----- editing trees

  /** The parts of a tree that an operation on its list of children relies on. */
  lemma ListOf(p: Shape)
    requires Tree(p) && Separate(p)
    ensures p.node.valuestring == p.text && p.node.name == p.key && Siblings(p.node.child, Nodes(p.kids))
    ensures forall i :: 0 <= i < |p.kids| ==> Tree(p.kids[i])
  {
    KidTrees(p);
    hide Separate, SeparateAll, NodeSets, Trees, Siblings;
  }

  /** The list of children does not run through their subtrees. */
  lemma {:induction false} ListOutside(p: Shape)
    requires Separate(p)
    ensures forall i :: 0 <= i < |p.kids| ==> p.node !in NodeSet(p.kids[i])
    ensures forall i :: 0 <= i < |p.kids| ==> Links(Nodes(p.kids), null) !! NodeSets(p.kids[i].kids)
  {
    SeparateParts(p);
    hide Separate, SeparateAll, NodeSet, NodeSets;
    forall i | 0 <= i < |p.kids| ensures p.node !in NodeSet(p.kids[i]) {
      assert MayHold(p, p.kids[i]);
    }
    forall i | 0 <= i < |p.kids| ensures Links(Nodes(p.kids), null) !! NodeSets(p.kids[i].kids) {
      forall j | 0 <= j < |p.kids| ensures p.kids[j].node !in NodeSets(p.kids[i].kids) {
        SeparateNodes(p.kids, j, i);
      }
    }
  }

  /** A tree outside of `p` is not touched when the links of the children of `p` and its own change. */
  lemma NotTouched(p: Shape, s: Shape)
    requires Separate(p) && Separate(s) && Footprint(p) !! Footprint(s)
    ensures p.node !in NodeSet(s) && s.node !in Nodes(p.kids) && Links(Nodes(p.kids), s.node) !! NodeSets(s.kids)
    ensures forall i :: 0 <= i < |p.kids| ==> s.node !in NodeSets(p.kids[i].kids)
  {
    hide Separate, BufferSet, Footprint;
    Outside(p, s);
    forall i | 0 <= i < |p.kids| ensures p.kids[i].node !in NodeSet(s) && s.node !in NodeSets(p.kids[i].kids) && s.node != p.kids[i].node {
      assert Disjoint(p.kids[i], s);
      KidSets(p.kids[i]);
    }
    KidSets(s);
    BesideRoot(s);
  }

  lemma BesideRoot(s: Shape)
    requires Separate(s)
    ensures s.node !in NodeSets(s.kids)
  {
  }

  /** A tree is put together again from its list of children. */
  lemma Rebuilt(q: Shape)
    requires q.node.valuestring == q.text && q.node.name == q.key && Siblings(q.node.child, Nodes(q.kids))
    requires forall i :: 0 <= i < |q.kids| ==> Tree(q.kids[i])
    ensures Tree(q)
  {
    EachTree(q.kids);
    hide Trees, Siblings;
  }

  lemma {:induction false} ArrayInsert(p: Shape, i: nat, s: Shape, items: seq<Json>, v: Json)
    requires i <= |p.kids| && Denotes(p, Array(items)) && Denotes(s, v)
    ensures i <= |items| && Denotes(p.(kids := Inserted(p.kids, i, s)), Array(Inserted(items, i, v)))
  {
    InsertedElements(p.kids, i, s);
    var r := Inserted(items, i, v);
    assert r == items[..i] + ([v] + items[i..]);
  }

  lemma {:induction false} ArrayRemove(p: Shape, i: nat, items: seq<Json>)
    requires i < |p.kids| && Denotes(p, Array(items))
    ensures i < |items| && Denotes(p.(kids := Removed(p.kids, i)), Array(Removed(items, i))) && Denotes(p.kids[i], items[i])
  {
  }

  lemma {:induction false} ArrayUpdate(p: Shape, i: nat, s: Shape, items: seq<Json>, v: Json)
    requires i < |p.kids| && Denotes(p, Array(items)) && Denotes(s, v)
    ensures i < |items| && Denotes(p.(kids := p.kids[i := s]), Array(items[i := v]))
  {
  }

  /** Inserts a tree into an array, in front of the item at `which` or at the end. */
  method InsertTree(parent: Item, which: int, newitem: Item, ghost p: Shape, ghost s: Shape) returns (ok: bool, ghost q: Shape)
    requires p.node == parent && Tree(p) && Separate(p)
    requires s.node == newitem && Tree(s) && Separate(s) && newitem.next == null
    requires Footprint(p) !! Footprint(s)
    modifies parent`child, Links(Nodes(p.kids), newitem)`next, Links(Nodes(p.kids), newitem)`prev
    ensures ok <==> which >= 0
    ensures !ok ==> q == p
    ensures ok ==> var at := if which < |p.kids| then which else |p.kids|;
      && q == p.(kids := Inserted(p.kids, at, s))
      && forall items, v :: Denotes(p, Array(items)) && Denotes(s, v) ==>
           at <= |items| && Denotes(q, Array(Inserted(items, at, v)))
    ensures Tree(q) && Separate(q)
  {
    hide Tree, Separate, Siblings, NodeSet, NodeSets, BufferSet, BufferSets, Footprint, Denotes;
    q := p;
    ListOf(p);
    ListOutside(p);
    NotTouched(p, s);
    assert forall i :: 0 <= i < |p.kids| ==> allocated(NodeSet(p.kids[i])) && allocated(NodeSets(p.kids[i].kids));
    assert allocated(NodeSet(s)) && allocated(NodeSets(s.kids));
    ok := InsertItemInArray(parent, which, newitem, Nodes(p.kids));
    forall i | 0 <= i < |p.kids| ensures Tree(p.kids[i]) {
      assert Tree(p.kids[i]) == old(Tree(p.kids[i]));
    }
    assert Tree(s) == old(Tree(s));
    if ok {
      ghost var at := if which < |p.kids| then which else |p.kids|;
      q := p.(kids := Inserted(p.kids, at, s));
      assert Nodes(p.kids) + [newitem] == Inserted(Nodes(p.kids), |p.kids|, newitem);
      InsertedTree(p, at, s);
    } else {
      Rebuilt(p);
    }
  }

  /** The list has been relinked, and nothing else has changed: the tree is the edited one. */
  lemma InsertedTree(p: Shape, at: nat, s: Shape)
    requires at <= |p.kids| && Separate(p) && Separate(s) && Footprint(p) !! Footprint(s)
    requires p.node.valuestring == p.text && p.node.name == p.key
    requires Siblings(p.node.child, Inserted(Nodes(p.kids), at, s.node))
    requires (forall i :: 0 <= i < |p.kids| ==> Tree(p.kids[i])) && Tree(s)
    ensures var q := p.(kids := Inserted(p.kids, at, s)); Tree(q) && Separate(q)
    ensures forall items, v :: Denotes(p, Array(items)) && Denotes(s, v) ==>
      at <= |items| && Denotes(p.(kids := Inserted(p.kids, at, s)), Array(Inserted(items, at, v)))
  {
    hide Tree, Separate, Siblings, NodeSet, NodeSets, BufferSet, BufferSets, Footprint, Denotes, Inserted;
    var r := Inserted(p.kids, at, s);
    var q := p.(kids := r);
    InsertedShape(p, at, s);
    InsertedElements(p.kids, at, s);
    forall k | 0 <= k < |r| ensures Tree(r[k]) {
      assert r[k] == (if k < at then p.kids[k] else if k == at then s else p.kids[k - 1]);
    }
    assert q.kids == r;
    Rebuilt(q);
    forall items, v | Denotes(p, Array(items)) && Denotes(s, v)
      ensures at <= |items| && Denotes(q, Array(Inserted(items, at, v)))
    {
      ArrayInsert(p, at, s, items, v);
    }
  }

  /** `cJSON_AddItemToArray`: adds a tree at the end of an array. */
  method AddTree(parent: Item, item: Item, ghost p: Shape, ghost s: Shape) returns (ok: bool, ghost q: Shape)
    requires p.node == parent && Tree(p) && Separate(p)
    requires s.node == item && Tree(s) && Separate(s) && item.next == null
    requires Footprint(p) !! Footprint(s)
    modifies parent`child, Links(Nodes(p.kids), item)`next, Links(Nodes(p.kids), item)`prev
    ensures ok && q == p.(kids := p.kids + [s]) && Tree(q) && Separate(q)
    ensures forall items, v :: Denotes(p, Array(items)) && Denotes(s, v) ==> Denotes(q, Array(items + [v]))
  {
    hide Tree, Separate, Siblings, NodeSet, NodeSets, BufferSet, BufferSets, Footprint, Denotes;
    q := p.(kids := p.kids + [s]);
    ListOf(p);
    ListOutside(p);
    NotTouched(p, s);
    assert forall i :: 0 <= i < |p.kids| ==> allocated(NodeSet(p.kids[i])) && allocated(NodeSets(p.kids[i].kids));
    assert allocated(NodeSet(s)) && allocated(NodeSets(s.kids));
    ok := AddItemToArray(parent, item, Nodes(p.kids));
    forall i | 0 <= i < |p.kids| ensures Tree(p.kids[i]) {
      assert Tree(p.kids[i]) == old(Tree(p.kids[i]));
    }
    assert Tree(s) == old(Tree(s));
    assert Nodes(p.kids) + [item] == Inserted(Nodes(p.kids), |p.kids|, item);
    assert q.kids == Inserted(p.kids, |p.kids|, s);
    InsertedTree(p, |p.kids|, s);
    forall items, v | Denotes(p, Array(items)) && Denotes(s, v) ensures Denotes(q, Array(items + [v])) {
      ArrayLength(p, items);
      assert items + [v] == Inserted(items, |p.kids|, v);
    }
  }

  lemma ArrayLength(p: Shape, items: seq<Json>)
    requires Denotes(p, Array(items))
    ensures |items| == |p.kids|
  {
  }

  /** Takes the tree at `which` out of an array. */
  method DetachTree(parent: Item, which: int, ghost p: Shape) returns (detached: Item?, ghost q: Shape)
    requires p.node == parent && Tree(p) && Separate(p)
    modifies parent`child, Links(Nodes(p.kids), null)`next, Links(Nodes(p.kids), null)`prev
    ensures detached != null <==> 0 <= which < |p.kids|
    ensures detached == null ==> q == p
    ensures detached != null ==>
      && var s := p.kids[which];
      && detached == s.node && detached.next == null && detached.prev == null && Tree(s) && Separate(s)
      && q == p.(kids := Removed(p.kids, which)) && Footprint(q) !! Footprint(s)
      && forall items :: Denotes(p, Array(items)) ==>
           which < |items| && Denotes(q, Array(Removed(items, which))) && Denotes(s, items[which])
    ensures Tree(q) && Separate(q)
  {
    hide Tree, Separate, Siblings, NodeSet, NodeSets, BufferSet, BufferSets, Footprint, Denotes, Removed;
    q := p;
    ListOf(p);
    ListOutside(p);
    assert forall i :: 0 <= i < |p.kids| ==> allocated(NodeSet(p.kids[i])) && allocated(NodeSets(p.kids[i].kids));
    detached := DetachItemFromArray(parent, which, Nodes(p.kids));
    forall i | 0 <= i < |p.kids| ensures Tree(p.kids[i]) {
      assert Tree(p.kids[i]) == old(Tree(p.kids[i]));
    }
    if detached != null {
      q := p.(kids := Removed(p.kids, which));
      RemovedTree(p, which);
    } else {
      Rebuilt(p);
    }
  }

  lemma RemovedTree(p: Shape, i: nat)
    requires i < |p.kids| && Separate(p)
    requires p.node.valuestring == p.text && p.node.name == p.key
    requires Siblings(p.node.child, Removed(Nodes(p.kids), i))
    requires forall i :: 0 <= i < |p.kids| ==> Tree(p.kids[i])
    ensures var q, s := p.(kids := Removed(p.kids, i)), p.kids[i];
      Tree(q) && Separate(q) && Separate(s) && Footprint(q) !! Footprint(s)
    ensures forall items :: Denotes(p, Array(items)) ==>
      i < |items| && Denotes(p.(kids := Removed(p.kids, i)), Array(Removed(items, i))) && Denotes(p.kids[i], items[i])
  {
    hide Tree, Separate, Siblings, NodeSet, NodeSets, BufferSet, BufferSets, Footprint, Denotes;
    var q := p.(kids := Removed(p.kids, i));
    RemovedShape(p, i);
    forall k | 0 <= k < |q.kids| ensures Tree(q.kids[k]) {
      assert q.kids[k] == p.kids[if k < i then k else k + 1];
    }
    Rebuilt(q);
    RemovedFootprint(p, i);
    forall items | Denotes(p, Array(items))
      ensures i < |items| && Denotes(q, Array(Removed(items, i))) && Denotes(p.kids[i], items[i])
    {
      ArrayRemove(p, i, items);
    }
  }

  lemma {:induction false} RemovedFootprint(p: Shape, i: nat)
    requires i < |p.kids| && Separate(p)
    ensures Footprint(p.(kids := Removed(p.kids, i))) !! Footprint(p.kids[i])
  {
    var q, s := p.(kids := Removed(p.kids, i)), p.kids[i];
    SeparateParts(p);
    SetsApart(q.kids, NodeSet(s), BufferSet(s));
    assert MayHold(p, s);
    assert NodeSet(q) !! NodeSet(s) && BufferSet(q) !! BufferSet(s);
  }

  /** `cJSON_ReplaceItemViaPointer`: puts a tree in the place of item `i`, whose own tree is freed. */
  method ReplaceTree(hooks: Hooks, parent: Item, item: Item, replacement: Item, ghost p: Shape, ghost i: nat, ghost s: Shape)
    returns (ok: bool, ghost q: Shape)
    requires p.node == parent && Tree(p) && Separate(p) && i < |p.kids| && item == p.kids[i].node
    requires s.node == replacement && Tree(s) && Separate(s) && Footprint(p) !! Footprint(s)
    requires Footprint(p.kids[i]) <= hooks.live
    modifies hooks`live, parent`child, Links(Nodes(p.kids), replacement)`next, Links(Nodes(p.kids), replacement)`prev
    modifies NodeSet(p.kids[i])`valuestring, NodeSet(p.kids[i])`name
    ensures ok && hooks.live == old(hooks.live) - Footprint(p.kids[i])
    ensures q == p.(kids := p.kids[i := s]) && Tree(q) && Separate(q)
    ensures forall items, v :: Denotes(p, Array(items)) && Denotes(s, v) ==>
      i < |items| && Denotes(q, Array(items[i := v]))
  {
    hide Tree, Separate, Siblings, NodeSet, NodeSets, BufferSet, BufferSets, Footprint, Denotes;
    q := p.(kids := p.kids[i := s]);
    ListOf(p);
    ListOutside(p);
    NotTouched(p, s);
    OtherTrees(p, i, s);
    NotEmpty(p);
    assert forall k :: 0 <= k < |p.kids| ==> allocated(NodeSet(p.kids[k])) && allocated(NodeSets(p.kids[k].kids));
    assert allocated(NodeSet(s)) && allocated(NodeSets(s.kids));
    ok := ReplaceItemViaPointer(hooks, parent, item, replacement, Nodes(p.kids), i, p.kids[i]);
    forall k | 0 <= k < |p.kids| && k != i ensures Tree(p.kids[k]) {
      assert Tree(p.kids[k]) == old(Tree(p.kids[k]));
    }
    assert Tree(s) == old(Tree(s));
    UpdatedTree(p, i, s);
  }

  lemma NotEmpty(p: Shape)
    requires Tree(p) && p.kids != []
    ensures p.node.child != null
  {
    FirstKid(p);
  }

  /** The trees that a replacement keeps. */
  lemma OtherTrees(p: Shape, i: nat, s: Shape)
    requires Separate(p) && Separate(s) && Footprint(p) !! Footprint(s) && i < |p.kids|
    ensures Separate(p.kids[i]) && p.node !in NodeSet(p.kids[i]) && s.node !in NodeSets(p.kids[i].kids)
    ensures NodeSet(s) !! NodeSet(p.kids[i])
    ensures forall k :: 0 <= k < |p.kids| && k != i ==> NodeSet(p.kids[k]) !! NodeSet(p.kids[i])
  {
    hide Separate, NodeSet, NodeSets, BufferSet, Footprint;
    SeparateParts(p);
    Outside(p, s);
    NotTouched(p, s);
    assert MayHold(p, p.kids[i]) && Disjoint(p.kids[i], s);
    forall k | 0 <= k < |p.kids| && k != i ensures NodeSet(p.kids[k]) !! NodeSet(p.kids[i]) {
      assert if k < i then Disjoint(p.kids[k], p.kids[i]) else Disjoint(p.kids[i], p.kids[k]);
    }
  }

  lemma UpdatedTree(p: Shape, i: nat, s: Shape)
    requires i < |p.kids| && Separate(p) && Separate(s) && Footprint(p) !! Footprint(s)
    requires p.node.valuestring == p.text && p.node.name == p.key
    requires Siblings(p.node.child, Nodes(p.kids)[i := s.node])
    requires (forall k :: 0 <= k < |p.kids| && k != i ==> Tree(p.kids[k])) && Tree(s)
    ensures var q := p.(kids := p.kids[i := s]); Tree(q) && Separate(q)
    ensures forall items, v :: Denotes(p, Array(items)) && Denotes(s, v) ==>
      i < |items| && Denotes(p.(kids := p.kids[i := s]), Array(items[i := v]))
  {
    hide Tree, Separate, Siblings, NodeSet, NodeSets, BufferSet, BufferSets, Footprint, Denotes;
    var q := p.(kids := p.kids[i := s]);
    UpdatedShape(p, i, s);
    Rebuilt(q);
    forall items, v | Denotes(p, Array(items)) && Denotes(s, v) ensures i < |items| && Denotes(q, Array(items[i := v])) {
      ArrayUpdate(p, i, s, items, v);
    }
  }
}
