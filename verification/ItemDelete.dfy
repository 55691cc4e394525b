/**
 Allocation and `cJSON_Delete` (components/cJSON/cJSON.c:241-276).
 */
module ItemDelete {
  import opened Bytes
  import opened Items

  /** The allocator: which objects are handed out, and whether a request was ever refused. */
  class Hooks {
    ghost var live: set<object>
    ghost var refused: bool

    constructor ()
      ensures live == {} && !refused
    {
      live, refused := {}, false;
    }

    method NewItem() returns (item: Item?)
      modifies this
      ensures item == null ==> refused && live == old(live)
      ensures item != null ==>
        && fresh(item) && refused == old(refused) && live == old(live) + {item}
        && item.next == null && item.prev == null && item.child == null
        && item.valuestring == null && item.name == null && item.kind == Invalid
    {
      item := null;
      if * {
        refused := true;
      } else {
        item := new Item();
        live := live + {item};
      }
    }

    method Allocate(size: nat) returns (a: array?<Byte>)
      modifies this
      ensures a == null ==> refused && live == old(live)
      ensures a != null ==> fresh(a) && a.Length == size && refused == old(refused) && live == old(live) + {a}
    {
      a := null;
      if * {
        refused := true;
      } else {
        a := new Byte[size];
        live := live + {a};
      }
    }

    /** Only what is handed out can be freed, so nothing is freed twice. */
    method Free(o: object)
      requires o in live
      modifies this`live
      ensures live == old(live) - {o}
    {
      live := live - {o};
    }
  }

  ghost predicate Deletable(item: Item?, kids: seq<Shape>)
    reads NodeSets(kids)`child, NodeSets(kids)`valuestring, NodeSets(kids)`name, NodeSets(kids)`next, NodeSets(kids)`prev
  {
    assert forall n <- Nodes(kids) :: n in NodeSets(kids);
    && Chain(item, Nodes(kids))
    && SeparateAll(kids)
    && forall i :: 0 <= i < |kids| ==> Stem(kids[i])
  }

  /** How many nodes there are in the trees. */
  ghost function Count(kids: seq<Shape>): nat
    decreases kids
  {
    if kids == [] then 0 else 1 + Count(kids[0].kids) + Count(kids[1..])
  }

  /** What `Delete` knows of the first tree of a list and of the others. */
  lemma DeletableTail(head: Item?, kids: seq<Shape>)
    requires Deletable(head, kids) && head != null
    ensures kids != [] && head == kids[0].node && Stem(kids[0]) && Separate(kids[0])
    ensures Deletable(head.next, kids[1..])
    ensures NodeSet(kids[0]) !! NodeSets(kids[1..]) && Footprint(kids[0]) !! Footprints(kids[1..])
    ensures NodeSets(kids) == NodeSet(kids[0]) + NodeSets(kids[1..])
    ensures Footprints(kids) == Footprint(kids[0]) + Footprints(kids[1..])
    ensures Count(kids) == 1 + Count(kids[0].kids) + Count(kids[1..])
  {
    ChainTail(head, Nodes(kids));
    assert Nodes(kids[1..]) == Nodes(kids)[1..];
  }

  lemma EmptyList(head: Item?, kids: seq<Shape>)
    requires Deletable(head, kids)
    ensures head == null ==> Footprints(kids) == {}
  {
    if head == null { assert Nodes(kids) == []; }
  }

  /** Frees a sibling list and everything below it, each object once. */
  method Delete(hooks: Hooks, head: Item?, ghost kids: seq<Shape>)
    requires Deletable(head, kids) && Footprints(kids) <= hooks.live
    modifies hooks`live, NodeSets(kids)`valuestring, NodeSets(kids)`name
    ensures hooks.live == old(hooks.live) - Footprints(kids)
    decreases Count(kids), 1
  {
    hide *;
    var item := head;
    ghost var rest, freed := kids, {};
    while item != null
      invariant Deletable(item, rest) && NodeSets(rest) <= NodeSets(kids) && Count(rest) <= Count(kids)
      invariant Footprints(kids) == freed + Footprints(rest) && freed !! Footprints(rest)
      invariant hooks.live == old(hooks.live) - freed
      decreases Count(rest)
    {
      DeletableTail(item, rest);
      item := DeleteFirst(hooks, item, rest);
      freed := freed + Footprint(rest[0]);
      rest := rest[1..];
    }
    EmptyList(item, rest);
  }

  /** The body of the loop. */
  method DeleteFirst(hooks: Hooks, item: Item, ghost kids: seq<Shape>) returns (next: Item?)
    requires Deletable(item, kids) && Footprints(kids) <= hooks.live
    requires kids != []
    modifies hooks`live, NodeSet(kids[0])`valuestring, NodeSet(kids[0])`name
    ensures hooks.live == old(hooks.live) - Footprint(kids[0])
    ensures Deletable(next, kids[1..])
    decreases Count(kids), 0
  {
    DeletableTail(item, kids);
    next := item.next;
    DeleteNode(hooks, item, kids[0]);
  }

  lemma DeletableKids(s: Shape)
    requires Stem(s) && Separate(s)
    ensures Deletable(s.node.child, s.kids)
    ensures Footprint(s) == {s.node} + Buffer(s.text) + Buffer(s.key) + Footprints(s.kids)
  {
    forall i | 0 <= i < |s.kids| ensures Stem(s.kids[i]) {
      assert Tree(s.kids[i]);
    }
  }

  /** Frees a node's children, its strings and the node itself. */
  method DeleteNode(hooks: Hooks, item: Item, ghost s: Shape)
    requires item == s.node && Stem(s) && Separate(s) && Footprint(s) <= hooks.live
    modifies hooks`live, NodeSet(s)`valuestring, NodeSet(s)`name
    ensures hooks.live == old(hooks.live) - Footprint(s)
    decreases Count(s.kids), 2
  {
    hide SeparateAll, Deletable, Footprint;
    DeletableKids(s);
    EmptyList(item.child, s.kids);
    ghost var live, below := hooks.live, Footprints(s.kids);
    if item.child != null {
      Delete(hooks, item.child, s.kids);
    }
    assert hooks.live == live - below;
    if item.valuestring != null {
      hooks.Free(item.valuestring);
      item.valuestring := null;
    }
    assert hooks.live == live - below - Buffer(s.text);
    if item.name != null {
      hooks.Free(item.name);
      item.name := null;
    }
    assert hooks.live == live - below - Buffer(s.text) - Buffer(s.key);
    hooks.Free(item);
  }

  /** The objects of a node without children. */
  ghost function LeafObjects(text: array?<Byte>, key: array?<Byte>, item: Item): set<object> {
    {item} + Buffer(text) + Buffer(key)
  }

  lemma LeafFootprint(item: Item, text: array?<Byte>, key: array?<Byte>)
    ensures var s := Shape(item, text, key, []);
      && NodeSet(s) == {item} && BufferSet(s) == Buffer(text) + Buffer(key)
      && Footprint(s) == LeafObjects(text, key, item)
      && (Buffer(text) !! Buffer(key) ==> Separate(s))
  {
  }

  lemma LeafTree(item: Item)
    requires item.child == null
    ensures Tree(Shape(item, item.valuestring, item.name, []))
    ensures Stem(Shape(item, item.valuestring, item.name, []))
  {
  }

  /** `cJSON_Delete` of a single node. */
  method DeleteLeaf(hooks: Hooks, item: Item)
    requires item.child == null && item.next == null && Buffer(item.valuestring) !! Buffer(item.name)
    requires LeafObjects(item.valuestring, item.name, item) <= hooks.live
    modifies hooks`live, item`valuestring, item`name
    ensures hooks.live == old(hooks.live - LeafObjects(item.valuestring, item.name, item))
  {
    ghost var s := Shape(item, item.valuestring, item.name, []);
    LeafFootprint(item, item.valuestring, item.name);
    LeafTree(item);
    ghost var kids := [s];
    assert Deletable(item, kids) && NodeSets(kids) == {item} && Footprints(kids) == Footprint(s) by {
      assert kids[1..] == [];
    }
    hide *;
    Delete(hooks, item, kids);
  }
}
