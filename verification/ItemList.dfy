/**
 The operations that relink a list of children (components/cJSON/cJSON.c:1880-2016, 2216-2250,
 2292-2373), as operations on the sequence of the nodes in the list.
 */
module ItemList {
  import opened Bytes
  import opened JsonTree
  import opened Items
  import opened ItemDelete
  import opened ItemBuild

  function Inserted<T>(s: seq<T>, i: nat, x: T): (r: seq<T>)
    requires i <= |s|
    ensures |r| == |s| + 1
  {
    s[..i] + [x] + s[i..]
  }

  function Removed<T>(s: seq<T>, i: nat): (r: seq<T>)
    requires i < |s|
    ensures |r| == |s| - 1
  {
    s[..i] + s[i + 1..]
  }

  ghost function Elem(item: Item?): set<Item> {
    if item == null then {} else {item}
  }

  /** The nodes whose links an operation on a list may change. */
  ghost function Links(nodes: seq<Item>, item: Item?): set<Item> {
    Elem(item) + set n | n in nodes
  }

  ghost function Before(nodes: seq<Item>, i: int): Item
    requires 0 <= i < |nodes|
  {
    if i > 0 then nodes[i - 1] else nodes[|nodes| - 1]
  }

  /** `Siblings`, one node at a time. */
  ghost predicate Linked(head: Item?, nodes: seq<Item>)
    reads nodes`next, nodes`prev
  {
    && (forall i, j :: 0 <= i < j < |nodes| ==> nodes[i] != nodes[j])
    && head == (if nodes == [] then null else nodes[0])
    && forall i :: 0 <= i < |nodes| ==> nodes[i].next == After(nodes, i) && nodes[i].prev == Before(nodes, i)
  }

  lemma LinkedSiblings(head: Item?, nodes: seq<Item>)
    ensures Linked(head, nodes) <==> Siblings(head, nodes)
  {
    if Siblings(head, nodes) {
      forall i | 0 <= i < |nodes| ensures nodes[i].prev == Before(nodes, i) {
      }
    }
    if Linked(head, nodes) {
      forall i | 0 < i < |nodes| ensures nodes[i].prev == nodes[i - 1] {
        assert nodes[i].prev == Before(nodes, i);
      }
      assert nodes != [] ==> nodes[0].prev == Before(nodes, 0);
    }
  }

  /** The item at `index`, or NULL when the list is shorter. */
  method GetArrayItem(parent: Item?, index: int, ghost nodes: seq<Item>) returns (item: Item?)
    requires parent != null ==> Chain(parent.child, nodes)
    ensures item == if parent != null && 0 <= index < |nodes| then nodes[index] else null
  {
    if index < 0 || parent == null {
      return null;
    }
    var left := index;
    item := parent.child;
    ghost var i := 0;
    while item != null && left > 0
      invariant left >= 0 && i + left == index
      invariant i <= |nodes| && item == if i < |nodes| then nodes[i] else null
    {
      assert nodes[i].next == After(nodes, i);
      left := left - 1;
      item := item.next;
      i := i + 1;
    }
  }

  lemma AppendedAt(nodes: seq<Item>, item: Item, k: nat)
    requires k <= |nodes|
    ensures var more := nodes + [item];
      if k == |nodes| then
        more[k] == item && After(more, k) == null && (nodes != [] ==> Before(more, k) == nodes[|nodes| - 1])
      else
        && more[k] == nodes[k]
        && After(more, k) == (if k == |nodes| - 1 then item else After(nodes, k))
        && Before(more, k) == (if k == 0 then item else Before(nodes, k))
  {
  }

  /** The links of the others once node `i` is taken out. */
  lemma RemovedAt(nodes: seq<Item>, i: nat, k: nat)
    requires i < |nodes| && k < |nodes| - 1
    requires forall i, j :: 0 <= i < j < |nodes| ==> nodes[i] != nodes[j]
    ensures var rest, j := Removed(nodes, i), if k < i then k else k + 1;
      && rest[k] == nodes[j] && nodes[j] != nodes[i]
      && After(rest, k) == (if j == i - 1 then After(nodes, i) else After(nodes, j))
      && Before(rest, k) == (if j == i + 1 || (j == 0 && i == |nodes| - 1) then Before(nodes, i) else Before(nodes, j))
  {
  }

  /** The links once `x` stands in front of node `i`. */
  lemma InsertedAt(nodes: seq<Item>, i: nat, x: Item, k: nat)
    requires i < |nodes| && k <= |nodes|
    ensures var more := Inserted(nodes, i, x);
      if k == i then more[k] == x && After(more, k) == nodes[i] && Before(more, k) == (if i == 0 then nodes[|nodes| - 1] else nodes[i - 1])
      else
        var j := if k < i then k else k - 1;
        && more[k] == nodes[j]
        && After(more, k) == (if k == i - 1 then x else After(nodes, j))
        && Before(more, k) == (if k == i + 1 then x else Before(nodes, j))
  {
  }

  /** The links once node `i` is replaced. */
  lemma ReplacedAt(nodes: seq<Item>, i: nat, x: Item, k: nat)
    requires i < |nodes| && k < |nodes|
    ensures var r := nodes[i := x];
      && r[k] == (if k == i then x else nodes[k])
      && After(r, k) == (if k == i - 1 then x else After(nodes, k))
      && Before(r, k) == (if k == i + 1 || (k == 0 && i == |nodes| - 1) then x else Before(nodes, k))
  {
  }

  /** The links around node `i`. */
  lemma Around(nodes: seq<Item>, i: nat)
    requires i < |nodes|
    ensures After(nodes, i) in nodes || After(nodes, i) == null
    ensures Before(nodes, i) in nodes
    ensures i > 0 ==> After(nodes, i - 1) == nodes[i] && Before(nodes, i) == nodes[i - 1]
    ensures i + 1 < |nodes| ==> After(nodes, i) == nodes[i + 1] && Before(nodes, i + 1) == nodes[i]
    ensures Before(nodes, 0) == nodes[|nodes| - 1] && (After(nodes, i) == null <==> i == |nodes| - 1)
  {
  }

  /**
   Adds an item at the end.  The list stays well formed exactly when the item does not point to
   a next one: only the first item of a list has its `next` cleared here.
   */
  method AddItemToArray(parent: Item?, item: Item?, ghost nodes: seq<Item>) returns (ok: bool)
    requires parent != null ==> Siblings(parent.child, nodes)
    requires item != null ==> item !in nodes
    modifies Elem(parent)`child, Links(nodes, item)`next, Links(nodes, item)`prev
    ensures ok <==> parent != null && item != null && parent != item
    ensures ok ==> (Siblings(parent.child, nodes + [item]) <==> old(item.next) == null || nodes == [])
    ensures !ok && parent != null ==> parent.child == old(parent.child) && Siblings(parent.child, nodes)
  {
    if item == null || parent == null || parent == item {
      return false;
    }
    var child := parent.child;
    if child == null {
      parent.child := item;
      item.prev := item;
      item.next := null;
      assert nodes + [item] == [item];
    } else {
      AppendBehind(parent, child, item, nodes);
    }
    return true;
  }

  /** The branch for a list that is not empty. */
  method AppendBehind(parent: Item, child: Item, item: Item, ghost nodes: seq<Item>)
    requires Siblings(parent.child, nodes) && item !in nodes && child == parent.child
    modifies Links(nodes, item)`next, Links(nodes, item)`prev
    ensures Siblings(parent.child, nodes + [item]) <==> old(item.next) == null
  {
    hide Siblings, After, Before;
    LinkedSiblings(parent.child, nodes);
    Around(nodes, 0);
    ghost var more := nodes + [item];
    if child.prev != null {
      child.prev.next := item;
      item.prev := child.prev;
      parent.child.prev := item;
    }
    forall k | 0 <= k < |more|
      ensures (more[k].next == After(more, k) <==> k < |nodes| || item.next == null) && more[k].prev == Before(more, k)
    {
      AppendedAt(nodes, item, k);
    }
    assert more[|nodes|] == item;
    LinkedSiblings(parent.child, more);
  }

  /** Takes the item out of its parent's list. */
  method DetachItemViaPointer(parent: Item?, item: Item?, ghost nodes: seq<Item>, ghost i: nat) returns (detached: Item?)
    requires parent != null && item != null ==> Siblings(parent.child, nodes) && i < |nodes| && nodes[i] == item
    modifies Elem(parent)`child, Links(nodes, item)`next, Links(nodes, item)`prev
    ensures detached == if parent == null then null else item
    ensures detached != null ==>
      && Siblings(parent.child, Removed(nodes, i)) && item.next == null && item.prev == null
    ensures detached == null ==> (parent != null ==> parent.child == old(parent.child)) && unchanged(nodes)
  {
    hide Siblings, After, Before;
    if parent != null && item != null {
      LinkedSiblings(parent.child, nodes);
      Around(nodes, i);
      Around(nodes, 0);
    }
    if parent == null || item == null || (item != parent.child && item.prev == null) {
      return null;
    }
    if item != parent.child {
      item.prev.next := item.next;
    }
    if item.next != null {
      item.next.prev := item.prev;
    }
    if item == parent.child {
      parent.child := item.next;
    } else if item.next == null {
      parent.child.prev := item.prev;
    }
    item.prev := null;
    item.next := null;
    ghost var rest := Removed(nodes, i);
    forall k | 0 <= k < |rest| ensures rest[k].next == After(rest, k) && rest[k].prev == Before(rest, k) {
      RemovedAt(nodes, i, k);
    }
    LinkedSiblings(parent.child, rest);
    return item;
  }

  /** Inserts an item in front of the one at `which`, or at the end when there is none. */
  method InsertItemInArray(parent: Item?, which: int, newitem: Item?, ghost nodes: seq<Item>) returns (ok: bool)
    requires parent != null ==> Siblings(parent.child, nodes)
    requires newitem != null ==> newitem !in nodes
    modifies Elem(parent)`child, Links(nodes, newitem)`next, Links(nodes, newitem)`prev
    ensures ok <==> which >= 0 && newitem != null && parent != null && (which < |nodes| || parent != newitem)
    ensures ok && which < |nodes| ==> Siblings(parent.child, Inserted(nodes, which, newitem))
    ensures ok && which >= |nodes| ==>
      (Siblings(parent.child, nodes + [newitem]) <==> old(newitem.next) == null || nodes == [])
    ensures !ok && parent != null ==> parent.child == old(parent.child) && Siblings(parent.child, nodes)
  {
    hide Siblings, After, Before;
    if which < 0 || newitem == null {
      return false;
    }
    if parent != null {
      SiblingsChain(parent.child, nodes);
    }
    var after := GetArrayItem(parent, which, nodes);
    if after == null {
      ok := AddItemToArray(parent, newitem, nodes);
      return;
    }
    LinkedSiblings(parent.child, nodes);
    Around(nodes, which);
    Around(nodes, 0);
    if after != parent.child && after.prev == null {
      return false;
    }
    newitem.next := after;
    newitem.prev := after.prev;
    after.prev := newitem;
    if after == parent.child {
      parent.child := newitem;
    } else {
      newitem.prev.next := newitem;
    }
    ghost var more := Inserted(nodes, which, newitem);
    forall k | 0 <= k < |more| ensures more[k].next == After(more, k) && more[k].prev == Before(more, k) {
      InsertedAt(nodes, which, newitem, k);
    }
    LinkedSiblings(parent.child, more);
    return true;
  }

  lemma SiblingsChain(head: Item?, nodes: seq<Item>)
    requires Siblings(head, nodes)
    ensures Chain(head, nodes)
  {
  }

  /** Puts `replacement` in the place of `item`, the root of the tree `s`, which is deleted. */
  method ReplaceItemViaPointer(hooks: Hooks, parent: Item?, item: Item?, replacement: Item?,
                               ghost nodes: seq<Item>, ghost i: nat, ghost s: Shape) returns (ok: bool)
    requires parent != null && parent.child != null && item != null ==>
      Siblings(parent.child, nodes) && i < |nodes| && nodes[i] == item
    requires replacement != null && replacement != item ==> replacement !in nodes
    requires item != null ==> s.node == item && Tree(s) && Separate(s) && Footprint(s) <= hooks.live
    requires Links(nodes, replacement) !! NodeSets(s.kids) && (parent != null ==> parent !in NodeSet(s))
    modifies hooks`live, Elem(parent)`child, Links(nodes, replacement)`next, Links(nodes, replacement)`prev
    modifies NodeSet(s)`valuestring, NodeSet(s)`name
    ensures ok <==> parent != null && old(parent.child) != null && item != null && replacement != null
    ensures ok && replacement != item ==>
      Siblings(parent.child, nodes[i := replacement]) && hooks.live == old(hooks.live) - Footprint(s)
    ensures !ok || replacement == item ==>
      hooks.live == old(hooks.live) && (parent != null ==> parent.child == old(parent.child)) && unchanged(nodes)
  {
    hide Siblings, After, Before, Tree, Separate, NodeSet, NodeSets, Footprint;
    if parent == null || parent.child == null || replacement == null || item == null {
      return false;
    }
    if replacement == item {
      return true;
    }
    assert allocated(NodeSet(s)) && allocated(NodeSets(s.kids));
    Relink(parent, item, replacement, nodes, i);
    item.next := null;
    item.prev := null;
    assert Tree(s) == old(Tree(s));
    RootDeletable(item, s);
    Delete(hooks, item, [s]);
    return true;
  }

  method Relink(parent: Item, item: Item, replacement: Item, ghost nodes: seq<Item>, ghost i: nat)
    requires Siblings(parent.child, nodes) && i < |nodes| && nodes[i] == item && replacement !in nodes
    modifies parent`child, Links(nodes, replacement)`next, Links(nodes, replacement)`prev
    ensures Siblings(parent.child, nodes[i := replacement]) && item !in nodes[i := replacement]
  {
    hide Siblings, After, Before;
    LinkedSiblings(parent.child, nodes);
    Around(nodes, i);
    Around(nodes, 0);
    replacement.next := item.next;
    replacement.prev := item.prev;
    if replacement.next != null {
      replacement.next.prev := replacement;
    }
    if parent.child == item {
      if parent.child.prev == parent.child {
        replacement.prev := replacement;
      }
      parent.child := replacement;
    } else {
      if replacement.prev != null {
        replacement.prev.next := replacement;
      }
      if replacement.next == null {
        parent.child.prev := replacement;
      }
    }
    ghost var r := nodes[i := replacement];
    forall k | 0 <= k < |r| ensures r[k].next == After(r, k) && r[k].prev == Before(r, k) {
      ReplacedAt(nodes, i, replacement, k);
    }
    LinkedSiblings(parent.child, r);
  }

  /** Takes the item at `which` out of the list; NULL when there is none. */
  method DetachItemFromArray(parent: Item?, which: int, ghost nodes: seq<Item>) returns (detached: Item?)
    requires parent != null ==> Siblings(parent.child, nodes)
    modifies Elem(parent)`child, Links(nodes, null)`next, Links(nodes, null)`prev
    ensures detached == if parent != null && 0 <= which < |nodes| then nodes[which] else null
    ensures detached != null ==>
      && Siblings(parent.child, Removed(nodes, which)) && detached.next == null && detached.prev == null
    ensures detached == null ==> (parent != null ==> parent.child == old(parent.child)) && unchanged(nodes)
  {
    hide Siblings;
    if which < 0 {
      return null;
    }
    if parent != null {
      SiblingsChain(parent.child, nodes);
    }
    var item := GetArrayItem(parent, which, nodes);
    detached := DetachItemViaPointer(parent, item, nodes, which);
  }

  /** Detaching undoes inserting, and inserting undoes detaching. */
  lemma InsertAndDetach<T>(s: seq<T>, i: nat, x: T)
    ensures i <= |s| ==> Removed(Inserted(s, i, x), i) == s && Inserted(s, i, x)[i] == x
    ensures i < |s| ==> Inserted(Removed(s, i), i, s[i]) == s
  {
  }
}
