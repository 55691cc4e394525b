/**
 Building a list of children at its end, as the parser and `cJSON_Duplicate` do
 (components/cJSON/cJSON.c:1496-1559, 2787-2815).
 */
module ItemBuild {
  import opened Bytes
  import opened Items
  import opened ItemDelete

  /** The children read so far; `last` is the one that the next will be linked behind. */
  ghost predicate Building(head: Item?, last: Item?, kids: seq<Shape>)
    reads NodeSets(kids)`child, NodeSets(kids)`valuestring, NodeSets(kids)`name, NodeSets(kids)`next, NodeSets(kids)`prev
  {
    assert forall n <- Nodes(kids) :: n in NodeSets(kids);
    && Growing(head, Nodes(kids)) && Trees(kids) && SeparateAll(kids)
    && last == (if kids == [] then null else kids[|kids| - 1].node)
  }

  lemma NoKids()
    ensures Building(null, null, []) && Footprints([]) == {} && NodeSets([]) == {} && BufferSets([]) == {}
  {
  }

  lemma BuildingParts(head: Item?, last: Item?, kids: seq<Shape>)
    requires Building(head, last, kids)
    ensures Growing(head, Nodes(kids)) && Chain(head, Nodes(kids)) && Trees(kids) && SeparateAll(kids)
    ensures (head == null <==> kids == []) && (kids != [] ==> last == kids[|kids| - 1].node && last in NodeSets(kids))
    ensures forall n <- Nodes(kids) :: n in NodeSets(kids)
  {
  }

  lemma FirstGrowing(item: Item)
    requires item.next == null
    ensures Growing(item, [item])
  {
  }

  lemma BuildingIs(head: Item?, kids: seq<Shape>)
    requires Growing(head, Nodes(kids)) && Trees(kids) && SeparateAll(kids) && kids != []
    ensures Building(head, kids[|kids| - 1].node, kids)
  {
  }

  lemma BuildingDeletable(head: Item?, kids: seq<Shape>)
    requires Chain(head, Nodes(kids)) && Trees(kids) && SeparateAll(kids)
    ensures Deletable(head, kids)
  {
    hide SeparateAll, NodeSet, NodeSets;
    forall i | 0 <= i < |kids| ensures Stem(kids[i]) {
      assert Tree(kids[i]);
    }
  }

  lemma NodesOfFootprints(kids: seq<Shape>)
    ensures NodeSets(kids) <= Footprints(kids) && BufferSets(kids) <= Footprints(kids)
  {
  }

  /** The list with one more tree at its end. */
  lemma AppendTree(head: Item?, kids: seq<Shape>, s: Shape)
    requires Growing(head, Nodes(kids) + [s.node]) && Trees(kids) && SeparateAll(kids) && Tree(s) && Separate(s)
    requires Footprints(kids) !! Footprint(s)
    ensures Building(head, s.node, kids + [s]) && Deletable(head, kids + [s])
    ensures Footprints(kids + [s]) == Footprints(kids) + Footprint(s)
  {
    hide *;
    AppendTreeParts(head, kids, s);
    BuildingDeletable(head, kids + [s]);
    BuildingIs(head, kids + [s]);
  }

  lemma AppendTreeParts(head: Item?, kids: seq<Shape>, s: Shape)
    requires Growing(head, Nodes(kids) + [s.node]) && Trees(kids) && SeparateAll(kids) && Tree(s) && Separate(s)
    requires Footprints(kids) !! Footprint(s)
    ensures Growing(head, Nodes(kids + [s])) && Chain(head, Nodes(kids + [s]))
    ensures Trees(kids + [s]) && SeparateAll(kids + [s])
    ensures Footprints(kids + [s]) == Footprints(kids) + Footprint(s)
  {
    hide Trees, Tree, Separate, SeparateAll, NodeSets, NodeSet, BufferSet, BufferSets;
    AppendNodes(kids, s);
    AppendTrees(kids, s);
    AppendSets(kids, s);
    assert NodeSets(kids) !! NodeSet(s) && BufferSets(kids) !! BufferSet(s) by {
      assert NodeSets(kids) <= Footprints(kids) && NodeSet(s) <= Footprint(s);
      assert BufferSets(kids) <= Footprints(kids) && BufferSet(s) <= Footprint(s);
    }
    AppendSeparate(kids, s);
  }

  /** What the parser has allocated for a node: everything below it, and its text. */
  ghost function Below(s: Shape): set<object> {
    Buffer(s.text) + Footprints(s.kids)
  }

  lemma FootprintParts(s: Shape)
    ensures Footprint(s) == {s.node} + Buffer(s.key) + Below(s)
    ensures s.key == null ==> Footprint(s) == {s.node} + Below(s)
  {
  }

  lemma FootprintSets(s: Shape)
    ensures NodeSet(s) <= Footprint(s) && BufferSet(s) <= Footprint(s)
  {
  }

  lemma LeafBelow(item: Item)
    requires item.child == null && item.valuestring == null
    ensures var s := Shape(item, null, item.name, []);
      Tree(s) && Separate(s) && Below(s) == {}
  {
    LeafTree(item);
    LeafFootprint(item, item.valuestring, item.name);
  }

  /** The strings of a node are its own. */
  ghost predicate OwnStrings(item: Item, kids: seq<Shape>)
    reads item`valuestring, item`name
  {
    && Buffer(item.valuestring) !! Buffer(item.name)
    && Buffer(item.valuestring) + Buffer(item.name) !! BufferSets(kids)
  }

  lemma ParentTree(item: Item, kids: seq<Shape>)
    requires item !in NodeSets(kids) && OwnStrings(item, kids) && SeparateAll(kids)
    requires Siblings(item.child, Nodes(kids)) && Trees(kids)
    ensures var s := Shape(item, item.valuestring, item.name, kids);
      Tree(s) && Separate(s) && Below(s) == Buffer(item.valuestring) + Footprints(kids)
  {
    hide Siblings, NodeSets, BufferSets, SeparateAll, NodeSet, BufferSet;
  }

  lemma RootDeletable(item: Item, s: Shape)
    requires item == s.node && item.next == null && Tree(s) && Separate(s)
    ensures Deletable(item, [s]) && Footprints([s]) == Footprint(s) && NodeSets([s]) == NodeSet(s) <= Footprint(s)
  {
    assert [s][1..] == [];
  }

  /** The end of a list of children: the head learns the tail. */
  method CloseList(head: Item?, last: Item?, ghost kids: seq<Shape>)
    requires Building(head, last, kids)
    modifies NodeSets(kids)`prev
    ensures Siblings(head, Nodes(kids)) && Trees(kids)
  {
    hide Building, Trees, Tree, SeparateAll, NodeSet, NodeSets;
    BuildingParts(head, last, kids);
    HeadIsOutside(kids);
    assert forall i :: 0 <= i < |kids| ==> allocated(NodeSet(kids[i])) && allocated(NodeSets(kids[i].kids));
    if head != null {
      head.prev := last;
      forall i | 0 <= i < |kids| ensures Tree(kids[i]) {
        assert Tree(kids[i]) == old(Tree(kids[i]));
      }
    }
    Closed(head, last, kids);
  }

  lemma HeadIsOutside(kids: seq<Shape>)
    requires SeparateAll(kids)
    ensures forall i :: 0 <= i < |kids| ==> kids[0].node !in NodeSets(kids[i].kids)
  {
    forall i | 0 <= i < |kids| ensures kids[0].node !in NodeSets(kids[i].kids) {
      SeparateNodes(kids, 0, i);
    }
  }

  lemma Closed(head: Item?, last: Item?, kids: seq<Shape>)
    requires Growing(head, Nodes(kids)) && forall i :: 0 <= i < |kids| ==> Tree(kids[i])
    requires kids != [] ==> head.prev == kids[|kids| - 1].node
    ensures Siblings(head, Nodes(kids)) && Trees(kids)
  {
    hide Tree;
  }

  /** `cJSON_Delete` of the children read so far. */
  method DropList(hooks: Hooks, head: Item?, ghost kids: seq<Shape>)
    requires Deletable(head, kids) && Footprints(kids) <= hooks.live
    modifies hooks`live, NodeSets(kids)`valuestring, NodeSets(kids)`name
    ensures hooks.live == old(hooks.live) - Footprints(kids)
  {
    EmptyList(head, kids);
    if head != null {
      Delete(hooks, head, kids);
    }
  }
}
