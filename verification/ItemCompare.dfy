/**
 `cJSON_Compare` and the lookup of members, on the nodes of two trees
 (components/cJSON/cJSON.c:1912-1943, 3030-3153); names are compared case-sensitively.
 */
module ItemCompare {
  import opened Bytes
  import opened JsonTree
  import opened Items
  import opened Comparison

  /** `strcmp(a, b) == 0`. */
  method SameString(a: array<Byte>, b: array<Byte>, ghost s: Text, ghost t: Text) returns (same: bool)
    requires HasText(a, s) && HasText(b, t)
    ensures same <==> s == t
  {
    assert s <= a[..] && t <= b[..] && a[..][|s|] == NUL && b[..][|t|] == NUL;
    var i := 0;
    while a[i] != NUL && a[i] == b[i]
      invariant i <= |s| && i <= |t| && s[..i] == t[..i]
      decreases |s| - i
    {
      assert i < |s| && s[i] == a[..][i];
      assert i < |t| && t[i] == b[..][i];
      i := i + 1;
    }
    same := a[i] == b[i];
    assert i < |s| ==> s[i] == a[..][i] != NUL;
    assert i < |t| ==> t[i] == b[..][i] != NUL;
  }

  /** The first member with the name, or NULL. */
  method GetObjectItem(parent: Item?, name: array?<Byte>, ghost s: Shape, ghost members: seq<Member>, ghost key: Text)
    returns (item: Item?)
    requires parent != null ==> s.node == parent && Tree(s) && Denotes(s, Object(members))
    requires name != null ==> HasText(name, key)
    ensures item ==
      if parent != null && name != null then NodeAt(s.kids, Find(members, key)) else null
  {
    hide Tree, NodeSet, NodeSets, BufferSet, BufferSets;
    if parent == null || name == null {
      return null;
    }
    FirstKid(s);
    assert allocated(NodeSet(s)) && allocated(NodeSets(s.kids)) && allocated(BufferSet(s)) && allocated(Buffer(name));
    ghost var i := 0;
    item := parent.child;
    while item != null && item.name != null
      invariant i <= |members| == |s.kids| && item == NodeAt(s.kids, i)
      invariant forall j :: 0 <= j < i ==> members[j].key != key
      invariant Tree(s) && Denotes(s, Object(members)) && HasText(name, key)
      decreases |members| - i
    {
      KidAt(s, i);
      var same := SameString(name, item.name, key, members[i].key);
      if same {
        FindFirst(members, key, i);
        return;
      }
      item := item.next;
      i := i + 1;
    }
    if i < |members| {
      KidAt(s, i);
    }
    FindNone(members, key);
    return null;
  }

  lemma {:induction false} FindFirst(members: seq<Member>, key: Text, i: nat)
    requires i < |members| && members[i].key == key && forall j :: 0 <= j < i ==> members[j].key != key
    ensures Find(members, key) == i
  {
    assert Find(members, key) <= i;
  }

  lemma {:induction false} FindNone(members: seq<Member>, key: Text)
    requires forall j :: 0 <= j < |members| ==> members[j].key != key
    ensures Find(members, key) == |members|
  {
    var i := Find(members, key);
  }

  function KindOf(v: Json): (k: Kind)
    ensures k != Invalid
  {
    match v
    case Null => IsNull
    case False => IsFalse
    case True => IsTrue
    case Number(_, _) => IsNumber
    case String(_) => IsString
    case Array(_) => IsArray
    case Object(_) => IsObject
  }

  /** What a node shows of the value that it stands for. */
  lemma NodeShows(s: Shape, v: Json)
    requires Tree(s) && Denotes(s, v)
    ensures s.node.kind == KindOf(v)
    ensures v.Number? ==> s.node.valuedouble == v.valuedouble
    ensures v.String? ==> HasText(s.node.valuestring, v.text) && s.node.valuestring != null
    ensures v.Array? ==> |s.kids| == |v.items| && v == Array(v.items)
    ensures v.Object? ==> |s.kids| == |v.members| && v == Object(v.members)
  {
    hide Siblings, Trees, NodeSets, BufferSets;
  }

  /** `Compare`, one level of it. */
  lemma CompareUnfold(v: Json, w: Json)
    ensures KindOf(v) != KindOf(w) ==> !Compare(v, w)
    ensures (v.Null? && w.Null?) || (v.False? && w.False?) || (v.True? && w.True?) ==> Compare(v, w)
    ensures v.Number? && w.Number? ==> (Compare(v, w) <==> CompareDouble(v.valuedouble, w.valuedouble))
    ensures v.String? && w.String? ==> (Compare(v, w) <==> v.text == w.text)
    ensures v.Object? && w.Object? ==> (Compare(v, w) <==> Found(v.members, w.members) && Found(w.members, v.members))
  {
    if v.Object? && w.Object? {
      ObjectUnfold(v.members, w.members);
    }
    hide Found, Find, CompareDouble;
  }

  lemma ObjectUnfold(v: seq<Member>, w: seq<Member>)
    ensures Compare(Object(v), Object(w)) <==> Found(v, w) && Found(w, v)
  {
    var a, b := Object(v), Object(w);
    if Compare(a, b) {
      forall i | 0 <= i < |v| ensures FoundAt(v, w, i) {
        assert a.members[i] == v[i];
      }
      forall j | 0 <= j < |w| ensures FoundAt(w, v, j) {
        assert b.members[j] == w[j];
      }
    }
    if Found(v, w) && Found(w, v) {
      assert forall i {:trigger v[i]} :: 0 <= i < |v| ==> FoundAt(v, w, i);
      assert forall j {:trigger w[j]} :: 0 <= j < |w| ==> FoundAt(w, v, j);
    }
  }

  lemma ArrayUnfold(v: seq<Json>, w: seq<Json>)
    ensures Compare(Array(v), Array(w)) <==> |v| == |w| && forall i :: 0 <= i < |v| ==> Compare(v[i], w[i])
  {
  }

  lemma ElementAt(s: Shape, v: seq<Json>, i: nat)
    requires Denotes(s, Array(v)) && i < |v|
    ensures i < |s.kids| == |v| && Denotes(s.kids[i], v[i]) && Rank(v[i]) < Rank(Array(v))
  {
    assert Array(v).items[i] == v[i];
  }

  lemma MemberAt(s: Shape, v: seq<Member>, i: nat)
    requires Denotes(s, Object(v)) && i < |v|
    ensures i < |s.kids| == |v| && Denotes(s.kids[i], v[i].value) && HasText(s.kids[i].key, v[i].key)
    ensures Rank(v[i].value) < Rank(Object(v))
  {
    assert Object(v).members[i] == v[i];
  }

  lemma LongerThan(s: Shape, v: seq<Json>)
    requires Denotes(s, Array(v))
    ensures |s.kids| == |v|
  {
  }

  lemma MembersOf(s: Shape, v: seq<Member>)
    requires Denotes(s, Object(v))
    ensures |s.kids| == |v|
  {
  }

  /**
   Compares two trees that share no node, or a node with itself; `equal` is what `Compare` says of
   the values of the trees, except that a node always equals itself.
   */
  method CompareItems(a: Item?, b: Item?, ghost s: Shape, ghost t: Shape, ghost v: Json, ghost w: Json)
    returns (equal: bool)
    requires a != null ==> s.node == a && Tree(s) && Denotes(s, v)
    requires b != null ==> t.node == b && Tree(t) && Denotes(t, w)
    requires a != null && b != null && a != b ==> NodeSet(s) !! NodeSet(t)
    ensures equal <==> a != null && b != null && (a == b || Compare(v, w))
    decreases Rank(v) + Rank(w), 2
  {
    hide Tree, Denotes, NodeSet, NodeSets, BufferSet, BufferSets, Compare, Rank, HasText, CompareDouble, Found;
    CompareUnfold(v, w);
    if a != null {
      NodeShows(s, v);
    }
    if b != null {
      NodeShows(t, w);
    }
    if a == null || b == null || a.kind != b.kind {
      return false;
    }
    if a == b {
      return true;
    }
    match a.kind {
      case Invalid =>
        return false;
      case IsFalse =>
        return true;
      case IsTrue =>
        return true;
      case IsNull =>
        return true;
      case IsNumber =>
        return CompareDouble(a.valuedouble, b.valuedouble);
      case IsString =>
        if a.valuestring == null || b.valuestring == null {
          return false;
        }
        equal := SameString(a.valuestring, b.valuestring, v.text, w.text);
      case IsArray =>
        equal := CompareElements(a, b, s, t, v.items, w.items);
      case IsObject =>
        assert allocated(NodeSet(s)) && allocated(NodeSets(s.kids)) && allocated(BufferSet(s));
        assert allocated(NodeSet(t)) && allocated(NodeSets(t.kids)) && allocated(BufferSet(t));
        equal := CoversMembers(a, b, s, t, v.members, w.members);
        if equal {
          equal := CoversMembers(b, a, t, s, w.members, v.members);
        }
    }
  }

  method CompareElements(a: Item, b: Item, ghost s: Shape, ghost t: Shape, ghost v: seq<Json>, ghost w: seq<Json>)
    returns (equal: bool)
    requires s.node == a && Tree(s) && Denotes(s, Array(v))
    requires t.node == b && Tree(t) && Denotes(t, Array(w))
    requires NodeSet(s) !! NodeSet(t)
    ensures equal <==> Compare(Array(v), Array(w))
    decreases Rank(Array(v)) + Rank(Array(w)), 0
  {
    hide Tree, Denotes, NodeSet, NodeSets, BufferSet, BufferSets, Compare, Rank;
    FirstKid(s);
    FirstKid(t);
    ArrayUnfold(v, w);
    LongerThan(s, v);
    LongerThan(t, w);
    assert allocated(NodeSet(s)) && allocated(NodeSets(s.kids)) && allocated(BufferSet(s));
    assert allocated(NodeSet(t)) && allocated(NodeSets(t.kids)) && allocated(BufferSet(t));
    var x, y := a.child, b.child;
    ghost var i := 0;
    while x != null && y != null
      invariant i <= |v| && i <= |w| && x == NodeAt(s.kids, i) && y == NodeAt(t.kids, i)
      invariant forall j :: 0 <= j < i ==> Compare(v[j], w[j])
      invariant Tree(s) && Denotes(s, Array(v)) && Tree(t) && Denotes(t, Array(w))
      decreases |v| - i
    {
      KidAt(s, i);
      KidAt(t, i);
      ElementAt(s, v, i);
      ElementAt(t, w, i);
      equal := CompareItems(x, y, s.kids[i], t.kids[i], v[i], w[i]);
      if !equal {
        return;
      }
      x, y := x.next, y.next;
      i := i + 1;
    }
    equal := x == y;
  }

  /** One of the two loops over the members of an object. */
  method CoversMembers(a: Item, b: Item, ghost s: Shape, ghost t: Shape, ghost v: seq<Member>, ghost w: seq<Member>)
    returns (covers: bool)
    requires s.node == a && Tree(s) && Denotes(s, Object(v))
    requires t.node == b && Tree(t) && Denotes(t, Object(w))
    requires NodeSet(s) !! NodeSet(t)
    ensures covers <==> Found(v, w)
    decreases Rank(Object(v)) + Rank(Object(w)), 1
  {
    hide Tree, Denotes, NodeSet, NodeSets, BufferSet, BufferSets, Compare, Rank, HasText, Find;
    FirstKid(s);
    MembersOf(s, v);
    MembersOf(t, w);
    assert allocated(NodeSet(s)) && allocated(NodeSets(s.kids)) && allocated(BufferSet(s));
    assert allocated(NodeSet(t)) && allocated(NodeSets(t.kids)) && allocated(BufferSet(t));
    var x := a.child;
    ghost var i := 0;
    while x != null
      invariant i <= |v| && x == NodeAt(s.kids, i)
      invariant forall k :: 0 <= k < i ==> FoundAt(v, w, k)
      invariant Tree(s) && Denotes(s, Object(v)) && Tree(t) && Denotes(t, Object(w))
      decreases |v| - i
    {
      KidAt(s, i);
      covers := CoversMember(x, b, s, t, v, w, i);
      if !covers {
        return;
      }
      x := x.next;
      i := i + 1;
    }
    return true;
  }

  /** The body of the loop: a member with the same name, and its comparison. */
  method CoversMember(x: Item, b: Item, ghost s: Shape, ghost t: Shape, ghost v: seq<Member>, ghost w: seq<Member>, ghost i: nat)
    returns (covers: bool)
    requires Tree(s) && Denotes(s, Object(v)) && i < |v| && i < |s.kids| && x == s.kids[i].node
    requires t.node == b && Tree(t) && Denotes(t, Object(w))
    requires NodeSet(s) !! NodeSet(t)
    ensures covers <==> FoundAt(v, w, i)
    decreases Rank(Object(v)) + Rank(Object(w)), 0
  {
    hide Tree, Denotes, NodeSet, NodeSets, BufferSet, BufferSets, Compare, Rank, HasText, Find;
    assert allocated(NodeSet(s)) && allocated(NodeSets(s.kids)) && allocated(BufferSet(s));
    assert allocated(NodeSet(t)) && allocated(NodeSets(t.kids)) && allocated(BufferSet(t));
    KidAt(s, i);
    MemberAt(s, v, i);
    MembersOf(t, w);
    ghost var j := Find(w, v[i].key);
    var y := GetObjectItem(b, x.name, t, w, v[i].key);
    if y == null {
      return false;
    }
    KidAt(s, i);
    MemberAt(s, v, i);
    KidAt(t, j);
    MemberAt(t, w, j);
    covers := CompareItems(x, y, s.kids[i], t.kids[j], v[i].value, w[j].value);
  }

  ghost predicate FoundAt(v: seq<Member>, w: seq<Member>, i: nat)
    requires i < |v|
  {
    var j := Find(w, v[i].key);
    j < |w| && Compare(v[i].value, w[j].value)
  }

  ghost predicate Found(v: seq<Member>, w: seq<Member>) {
    forall i :: 0 <= i < |v| ==> FoundAt(v, w, i)
  }
}
