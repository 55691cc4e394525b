/**
 Case-sensitive `cJSON_Compare` (components/cJSON/cJSON.c:557-561, 1912-1943, 3030-3153): when two
 different trees compare equal.
 */
module Comparison {
  import opened Bytes
  import opened JsonTree

  // ----- what the code computes

  function Abs(a: real): real {
    if a < 0.0 then -a else a
  }

  const DBL_EPSILON: real := 1.0 / 4503599627370496.0

  predicate CompareDouble(a: real, b: real) {
    var max := if Abs(a) > Abs(b) then Abs(a) else Abs(b);
    Abs(a - b) <= max * DBL_EPSILON
  }

  /** The position of the first member with the key, or the number of members. */
  function Find(members: seq<Member>, key: Text): (i: nat)
    ensures i <= |members|
    ensures i < |members| ==> members[i].key == key
    ensures forall j :: 0 <= j < i ==> members[j].key != key
  {
    if members == [] || members[0].key == key then 0 else
      var i := Find(members[1..], key);
      assert forall j :: 0 < j < |members| ==> members[j] == members[1..][j - 1];
      i + 1
  }

  /** A measure that goes down from a container to what it holds. */
  ghost function Rank(v: Json): (r: nat)
    ensures v.Array? ==> forall i :: 0 <= i < |v.items| ==> Rank(v.items[i]) < r
    ensures v.Object? ==> forall i :: 0 <= i < |v.members| ==> Rank(v.members[i].value) < r
    decreases v, 1
  {
    match v
    case Array(items) => 1 + RankOfItems(items)
    case Object(members) => 1 + RankOfMembers(members)
    case _ => 0
  }

  ghost function RankOfItems(items: seq<Json>): (r: nat)
    ensures forall i :: 0 <= i < |items| ==> Rank(items[i]) <= r
    decreases items, 0
  {
    if items == [] then 0 else
      var r := RankOfItems(items[1..]);
      assert forall i :: 0 < i < |items| ==> items[i] == items[1..][i - 1];
      Max(Rank(items[0]), r)
  }

  ghost function RankOfMembers(members: seq<Member>): (r: nat)
    ensures forall i :: 0 <= i < |members| ==> Rank(members[i].value) <= r
    decreases members, 0
  {
    if members == [] then 0 else
      var r := RankOfMembers(members[1..]);
      assert forall i :: 0 < i < |members| ==> members[i] == members[1..][i - 1];
      Max(Rank(members[0].value), r)
  }

  /** Whether two trees that do not share a node compare equal. */
  ghost predicate Compare(a: Json, b: Json)
    decreases Rank(a) + Rank(b)
  {
    match a
    case Null => b.Null?
    case False => b.False?
    case True => b.True?
    case Number(d, _) => b.Number? && CompareDouble(d, b.valuedouble)
    case String(t) => b.String? && t == b.text
    case Array(items) =>
      b.Array? && |items| == |b.items| && forall i :: 0 <= i < |items| ==> Compare(items[i], b.items[i])
    case Object(members) =>
      && b.Object?
      && (forall i :: 0 <= i < |members| ==>
           var j := Find(b.members, members[i].key);
           j < |b.members| && Compare(members[i].value, b.members[j].value))
      && (forall j :: 0 <= j < |b.members| ==>
           var i := Find(members, b.members[j].key);
           i < |members| && Compare(b.members[j].value, members[i].value))
  }

  // ----- the value that is compared

  /** A tree without what a comparison should not see: the order of members, and `valueint`. */
  datatype Value =
    | NullValue
    | FalseValue
    | TrueValue
    | NumberValue(number: real)
    | StringValue(text: Text)
    | ArrayValue(items: seq<Value>)
    | ObjectValue(members: map<Text, Value>)

  ghost function Keys(members: seq<Member>): (keys: set<Text>)
    ensures forall k :: k in keys <==> Find(members, k) < |members|
  {
    var keys := set i | 0 <= i < |members| :: members[i].key;
    forall k ensures k in keys <==> Find(members, k) < |members| {
      var i := Find(members, k);
      assert i < |members| ==> members[i].key in keys;
    }
    keys
  }

  /** The value of a tree; of members with the same key, the first one counts. */
  ghost function ValueOf(v: Json): Value
    decreases Rank(v)
  {
    match v
    case Null => NullValue
    case False => FalseValue
    case True => TrueValue
    case Number(d, _) => NumberValue(d)
    case String(t) => StringValue(t)
    case Array(items) => ArrayValue(seq(|items|, i requires 0 <= i < |items| => ValueOf(items[i])))
    case Object(members) =>
      ObjectValue(map k | k in Keys(members) :: ValueOf(members[Find(members, k)].value))
  }

  /** Members with the same key have the same value. */
  ghost predicate Consistent(v: Json)
    decreases Rank(v)
  {
    match v
    case Array(items) => forall i :: 0 <= i < |items| ==> Consistent(items[i])
    case Object(members) =>
      forall i :: 0 <= i < |members| ==>
        Consistent(members[i].value) &&
        ValueOf(members[i].value) == ValueOf(members[Find(members, members[i].key)].value)
    case _ => true
  }

  /** No key occurs twice in an object. */
  ghost predicate UniqueKeys(v: Json)
    decreases v
  {
    match v
    case Array(items) => forall i :: 0 <= i < |items| ==> UniqueKeys(items[i])
    case Object(members) =>
      && (forall i :: 0 <= i < |members| ==> UniqueKeys(members[i].value))
      && (forall i, j :: 0 <= i < j < |members| ==> members[i].key != members[j].key)
    case _ => true
  }

  /** Every number is an integer of the width of `int`. */
  ghost predicate IntNumbers(v: Json)
    decreases v
  {
    match v
    case Number(d, i) => IntNumber(d, i)
    case Array(items) => forall i :: 0 <= i < |items| ==> IntNumbers(items[i])
    case Object(members) => forall i :: 0 <= i < |members| ==> IntNumbers(members[i].value)
    case _ => true
  }

  // ----- numbers

  /** The tolerance is too small to confuse two integers. */
  lemma IntegersCompare(a: real, i: int, b: real, j: int)
    requires IntNumber(a, i) && IntNumber(b, j)
    ensures CompareDouble(a, b) <==> a == b
  {
    var max := if Abs(a) > Abs(b) then Abs(a) else Abs(b);
    assert 0.0 <= max <= 2147483648.0;
    assert max * DBL_EPSILON < 1.0;
    if i != j {
      assert Abs(a - b) >= 1.0;
    }
  }

  /** On other numbers the comparison is not transitive, so it is no equivalence. */
  lemma FractionsAreNotTransitive()
    ensures exists a, b, c :: CompareDouble(a, b) && CompareDouble(b, c) && !CompareDouble(a, c)
  {
    var a, b, c := 1.0, 1.0 + DBL_EPSILON, 1.0 + DBL_EPSILON + DBL_EPSILON;
    assert CompareDouble(a, b) && CompareDouble(b, c) && !CompareDouble(a, c);
  }

  // ----- the meaning of a comparison

  /**
   Two trees compare equal exactly when their values are equal and neither has a key twice with
   different values.
   */
  lemma {:induction false} CompareMeaning(a: Json, b: Json)
    requires IntNumbers(a) && IntNumbers(b)
    ensures Compare(a, b) <==> Consistent(a) && Consistent(b) && ValueOf(a) == ValueOf(b)
    decreases Rank(a) + Rank(b)
  {
    match a
    case Number(d, i) =>
      if b.Number? {
        IntegersCompare(d, i, b.valuedouble, b.valueint);
      }
    case Array(items) =>
      if b.Array? {
        CompareArrays(items, b.items);
      }
    case Object(members) =>
      if b.Object? {
        CompareObjects(members, b.members);
      }
    case _ =>
  }

  lemma {:induction false} CompareArrays(x: seq<Json>, y: seq<Json>)
    requires IntNumbers(Array(x)) && IntNumbers(Array(y))
    ensures Compare(Array(x), Array(y)) <==>
      Consistent(Array(x)) && Consistent(Array(y)) && ValueOf(Array(x)) == ValueOf(Array(y))
    decreases Rank(Array(x)) + Rank(Array(y)), 0
  {
    if |x| == |y| {
      forall i | 0 <= i < |x|
        ensures Compare(x[i], y[i]) <==> Consistent(x[i]) && Consistent(y[i]) && ValueOf(x[i]) == ValueOf(y[i])
      {
        CompareMeaning(Array(x).items[i], Array(y).items[i]);
      }
    }
    ArrayValues(x, y);
  }

  lemma ArrayValues(x: seq<Json>, y: seq<Json>)
    ensures ValueOf(Array(x)) == ValueOf(Array(y)) <==>
      |x| == |y| && forall i :: 0 <= i < |x| ==> ValueOf(x[i]) == ValueOf(y[i])
  {
    var s, t := ValueOf(Array(x)).items, ValueOf(Array(y)).items;
    assert |s| == |x| && |t| == |y|;
    assert forall i :: 0 <= i < |x| ==> s[i] == ValueOf(x[i]);
    assert forall i :: 0 <= i < |y| ==> t[i] == ValueOf(y[i]);
  }

  /** What one of the two loops over members finds. */
  ghost predicate Covers(x: seq<Member>, y: seq<Member>) {
    forall i :: 0 <= i < |x| ==>
      var j := Find(y, x[i].key);
      && j < |y| && Consistent(x[i].value) && Consistent(y[j].value)
      && ValueOf(x[i].value) == ValueOf(y[j].value)
  }

  lemma {:induction false} CompareObjects(x: seq<Member>, y: seq<Member>)
    requires IntNumbers(Object(x)) && IntNumbers(Object(y))
    ensures Compare(Object(x), Object(y)) <==>
      Consistent(Object(x)) && Consistent(Object(y)) && ValueOf(Object(x)) == ValueOf(Object(y))
    decreases Rank(Object(x)) + Rank(Object(y)), 0
  {
    forall i | 0 <= i < |x| && Find(y, x[i].key) < |y|
      ensures var v, w := x[i].value, y[Find(y, x[i].key)].value;
        Compare(v, w) <==> Consistent(v) && Consistent(w) && ValueOf(v) == ValueOf(w)
    {
      CompareMeaning(Object(x).members[i].value, Object(y).members[Find(y, x[i].key)].value);
    }
    forall j | 0 <= j < |y| && Find(x, y[j].key) < |x|
      ensures var v, w := y[j].value, x[Find(x, y[j].key)].value;
        Compare(v, w) <==> Consistent(v) && Consistent(w) && ValueOf(v) == ValueOf(w)
    {
      CompareMeaning(Object(y).members[j].value, Object(x).members[Find(x, y[j].key)].value);
    }
    hide ValueOf, Consistent;
    assert Compare(Object(x), Object(y)) <==> Covers(x, y) && Covers(y, x);
    hide Compare, Covers;
    CoversMeaning(x, y);
  }

  ghost function Entry(x: seq<Member>, key: Text): Value
    requires Find(x, key) < |x|
  {
    ValueOf(x[Find(x, key)].value)
  }

  /** The same keys, with the same values. */
  ghost predicate SameEntries(x: seq<Member>, y: seq<Member>) {
    && (forall k :: Find(x, k) < |x| <==> Find(y, k) < |y|)
    && (forall k :: Find(x, k) < |x| && Find(y, k) < |y| ==> Entry(x, k) == Entry(y, k))
  }

  lemma ObjectValues(x: seq<Member>, y: seq<Member>)
    ensures ValueOf(Object(x)) == ValueOf(Object(y)) <==> SameEntries(x, y)
  {
    hide ValueOf, Entry, Find;
    ObjectValueOf(x);
    ObjectValueOf(y);
    var s, t := ValueOf(Object(x)).members, ValueOf(Object(y)).members;
    if s == t {
      assert forall k :: k in s <==> k in t;
      assert forall k :: k in s ==> s[k] == t[k];
    }
    if SameEntries(x, y) {
      forall k ensures k in s <==> k in t {
      }
      assert s.Keys == t.Keys;
      assert forall k :: k in s ==> s[k] == t[k];
      assert s == t;
    }
  }

  lemma ObjectValueOf(x: seq<Member>)
    ensures var v := ValueOf(Object(x));
      && v.ObjectValue? && (forall k :: k in v.members <==> Find(x, k) < |x|)
      && (forall k :: k in v.members ==> v.members[k] == Entry(x, k))
  {
    assert forall k :: k in Keys(x) ==> k in ValueOf(Object(x)).members;
  }

  lemma CoversMeaning(x: seq<Member>, y: seq<Member>)
    ensures Covers(x, y) && Covers(y, x) <==>
      Consistent(Object(x)) && Consistent(Object(y)) && ValueOf(Object(x)) == ValueOf(Object(y))
  {
    hide ValueOf;
    ObjectValues(x, y);
    if Covers(x, y) && Covers(y, x) {
      CoversConsistent(x, y);
      CoversConsistent(y, x);
    }
    if Consistent(Object(x)) && Consistent(Object(y)) && ValueOf(Object(x)) == ValueOf(Object(y)) {
      ConsistentCovers(x, y);
      ConsistentCovers(y, x);
    }
  }

  lemma ConsistentCovers(x: seq<Member>, y: seq<Member>)
    requires Consistent(Object(x)) && Consistent(Object(y))
    requires SameEntries(x, y)
    ensures Covers(x, y)
  {
    hide ValueOf;
    forall i | 0 <= i < |x|
      ensures Find(y, x[i].key) < |y| && ValueOf(x[i].value) == ValueOf(y[Find(y, x[i].key)].value)
    {
      assert x[Find(x, x[i].key)].key == x[i].key;
      assert Find(x, x[i].key) < |x|;
      assert Entry(x, x[i].key) == Entry(y, x[i].key);
    }
  }

  lemma CoversConsistent(x: seq<Member>, y: seq<Member>)
    requires Covers(x, y)
    ensures Consistent(Object(x))
    ensures forall k :: Find(x, k) < |x| ==> Find(y, k) < |y| && Entry(x, k) == Entry(y, k)
  {
    hide ValueOf;
    forall i | 0 <= i < |x| ensures ValueOf(x[i].value) == Entry(x, x[i].key) {
      assert x[Find(x, x[i].key)].key == x[i].key;
    }
  }

  // ----- what follows

  lemma {:induction false} UniqueKeysAreConsistent(v: Json)
    requires UniqueKeys(v)
    ensures Consistent(v)
    decreases v
  {
    match v
    case Array(items) =>
      forall i | 0 <= i < |items| ensures Consistent(items[i]) {
        UniqueKeysAreConsistent(items[i]);
      }
    case Object(members) =>
      forall i | 0 <= i < |members|
        ensures Consistent(members[i].value) && Find(members, members[i].key) == i
      {
        UniqueKeysAreConsistent(members[i].value);
      }
    case _ =>
  }

  /** On trees without repeated keys, comparing decides equality up to the order of members. */
  lemma CompareUniqueKeys(a: Json, b: Json)
    requires IntNumbers(a) && IntNumbers(b) && UniqueKeys(a) && UniqueKeys(b)
    ensures Compare(a, b) <==> ValueOf(a) == ValueOf(b)
  {
    UniqueKeysAreConsistent(a);
    UniqueKeysAreConsistent(b);
    CompareMeaning(a, b);
  }

  lemma CompareIsSymmetric(a: Json, b: Json)
    requires IntNumbers(a) && IntNumbers(b)
    ensures Compare(a, b) <==> Compare(b, a)
  {
    CompareMeaning(a, b);
    CompareMeaning(b, a);
  }

  lemma CompareIsTransitive(a: Json, b: Json, c: Json)
    requires IntNumbers(a) && IntNumbers(b) && IntNumbers(c)
    requires Compare(a, b) && Compare(b, c)
    ensures Compare(a, c)
  {
    CompareMeaning(a, b);
    CompareMeaning(b, c);
    CompareMeaning(a, c);
  }

  /** A tree compares equal to a copy of itself exactly when repeated keys have equal values. */
  lemma CompareIsReflexive(a: Json)
    requires IntNumbers(a)
    ensures Compare(a, a) <==> Consistent(a)
  {
    CompareMeaning(a, a);
  }

  lemma RepeatedKeysAreNotReflexive()
    ensures exists a :: IntNumbers(a) && !Compare(a, a)
  {
    var a := Object([Member("k", True), Member("k", False)]);
    assert !Consistent(a) by {
      assert a.members[1].key == "k" && Find(a.members, "k") == 0;
      assert ValueOf(True) != ValueOf(False);
    }
    CompareIsReflexive(a);
    assert IntNumbers(a) && !Compare(a, a);
  }

  /** Which of the members of `x` the one of `y` is. */
  lemma SameMember(x: seq<Member>, y: seq<Member>, j: nat)
    requires UniqueKeys(Object(x)) && j < |y| && y[j] in x
    ensures Find(x, y[j].key) < |x| && x[Find(x, y[j].key)] == y[j]
  {
    var i :| 0 <= i < |x| && x[i] == y[j];
    assert Find(x, x[i].key) <= i;
    assert x[Find(x, x[i].key)].key == x[i].key;
  }

  lemma SameMembers(x: seq<Member>, y: seq<Member>)
    requires UniqueKeys(Object(x)) && (forall m <- y :: m in x) && (forall m <- x :: m in y)
    ensures Consistent(Object(y)) && SameEntries(x, y)
  {
    UniqueKeysAreConsistent(Object(x));
    hide ValueOf, Find, UniqueKeys;
    forall j | 0 <= j < |y|
      ensures Find(x, y[j].key) < |x| && x[Find(x, y[j].key)] == y[j] && y[Find(y, y[j].key)] == y[j]
    {
      FindIs(y, j);
      SameMember(x, y, j);
      SameMember(x, y, Find(y, y[j].key));
    }
    forall k ensures Find(x, k) < |x| ==> Find(y, k) < |y| {
      if Find(x, k) < |x| {
        var m := x[Find(x, k)];
        assert m in x && m in y;
        var j :| 0 <= j < |y| && y[j] == m;
        FindIs(y, j);
      }
    }
    forall k | Find(x, k) < |x| && Find(y, k) < |y| ensures Entry(x, k) == Entry(y, k) {
      assert y[Find(y, k)].key == k;
    }
  }

  lemma FindIs(x: seq<Member>, i: nat)
    requires i < |x|
    ensures Find(x, x[i].key) <= i && x[Find(x, x[i].key)].key == x[i].key
  {
  }

  /** The order of the members does not matter. */
  lemma MemberOrderDoesNotMatter(x: seq<Member>, y: seq<Member>)
    requires multiset(x) == multiset(y) && IntNumbers(Object(x)) && UniqueKeys(Object(x))
    ensures Compare(Object(x), Object(y))
  {
    forall m ensures m in x <==> m in y {
      assert m in x <==> m in multiset(x);
      assert m in y <==> m in multiset(y);
    }
    SameMembers(x, y);
    ObjectValues(x, y);
    forall j | 0 <= j < |y| ensures IntNumbers(y[j].value) {
      assert y[j] in x;
    }
    CompareMeaning(Object(x), Object(y));
    UniqueKeysAreConsistent(Object(x));
  }

  // ----- equality up to the order of members

  /** The same tree, except that the members of an object may stand in another order. */
  ghost predicate Same(a: Json, b: Json)
    decreases a
  {
    match a
    case Null => b.Null?
    case False => b.False?
    case True => b.True?
    case Number(d, _) => b.Number? && d == b.valuedouble
    case String(t) => b.String? && t == b.text
    case Array(x) => b.Array? && |x| == |b.items| && forall i :: 0 <= i < |x| ==> Same(x[i], b.items[i])
    case Object(x) =>
      && b.Object?
      && exists y: seq<Member> ::
           && multiset(y) == multiset(b.members) && |x| == |y|
           && forall i :: 0 <= i < |x| ==> x[i].key == y[i].key && Same(x[i].value, y[i].value)
  }

  ghost predicate DistinctMembers(x: seq<Member>) {
    forall i, j :: 0 <= i < j < |x| ==> x[i] != x[j]
  }

  lemma {:induction false} AtMostOnce(x: seq<Member>, m: Member)
    requires DistinctMembers(x)
    ensures multiset(x)[m] == if m in x then 1 else 0
    decreases |x|
  {
    if x != [] {
      var front, last := x[..|x| - 1], x[|x| - 1];
      assert x == front + [last];
      AtMostOnce(front, m);
    }
  }

  lemma {:induction false} SameMultiset(x: seq<Member>, y: seq<Member>)
    requires DistinctMembers(x) && DistinctMembers(y) && forall m :: m in x <==> m in y
    ensures multiset(x) == multiset(y)
  {
    forall m ensures multiset(x)[m] == multiset(y)[m] {
      AtMostOnce(x, m);
      AtMostOnce(y, m);
    }
  }

  lemma {:induction false} InMultiset(x: seq<Member>, y: seq<Member>)
    requires multiset(x) == multiset(y)
    ensures forall m :: m in x <==> m in y
  {
    forall m ensures m in x <==> m in y {
      assert m in x <==> m in multiset(x);
      assert m in y <==> m in multiset(y);
    }
  }

  /** The members of `y` in the order of `x`. */
  ghost function Ordered(x: seq<Member>, y: seq<Member>): (r: seq<Member>)
    requires forall i :: 0 <= i < |x| ==> Find(y, x[i].key) < |y|
    ensures |r| == |x| && forall i :: 0 <= i < |x| ==> r[i] == y[Find(y, x[i].key)]
  {
    seq(|x|, i requires 0 <= i < |x| => y[Find(y, x[i].key)])
  }

  /** Trees without repeated keys have the same value exactly when they are the same up to order. */
  lemma {:induction false} SameMeaning(a: Json, b: Json)
    requires UniqueKeys(a) && UniqueKeys(b)
    ensures ValueOf(a) == ValueOf(b) <==> Same(a, b)
    decreases a, 1
  {
    match a
    case Array(x) =>
      if b.Array? {
        ArrayValues(x, b.items);
        if |x| == |b.items| {
          forall i | 0 <= i < |x| ensures ValueOf(x[i]) == ValueOf(b.items[i]) <==> Same(x[i], b.items[i]) {
            SameMeaning(x[i], b.items[i]);
          }
        }
      }
    case Object(x) =>
      if b.Object? {
        ObjectValues(x, b.members);
        if SameEntries(x, b.members) {
          EntriesAreSame(x, b.members);
        }
        if Same(a, b) {
          SameHasEntries(x, b.members);
        }
      }
    case _ =>
  }

  lemma {:induction false} EntriesAreSame(x: seq<Member>, z: seq<Member>)
    requires UniqueKeys(Object(x)) && UniqueKeys(Object(z)) && SameEntries(x, z)
    ensures Same(Object(x), Object(z))
    decreases x, 0
  {
    hide ValueOf, Find;
    forall i | 0 <= i < |x| ensures Find(x, x[i].key) == i && Find(z, x[i].key) < |z| {
      FindIs(x, i);
    }
    var y := Ordered(x, z);
    forall i | 0 <= i < |x| ensures x[i].key == y[i].key && Same(x[i].value, y[i].value) {
      assert Entry(x, x[i].key) == Entry(z, x[i].key);
      assert y[i] == z[Find(z, x[i].key)];
      SameMeaning(x[i].value, y[i].value);
    }
    forall m | m in z ensures m in y {
      var j :| 0 <= j < |z| && z[j] == m;
      FindIs(z, j);
      assert Find(z, m.key) == j;
      assert Find(x, m.key) < |x|;
      var i := Find(x, m.key);
      assert y[i] == z[Find(z, x[i].key)];
    }
    SameMultiset(y, z);
  }

  lemma {:induction false} SameHasEntries(x: seq<Member>, z: seq<Member>)
    requires UniqueKeys(Object(x)) && UniqueKeys(Object(z)) && Same(Object(x), Object(z))
    ensures SameEntries(x, z)
    decreases x, 0
  {
    hide ValueOf, Find, Same, SameEntries, UniqueKeys;
    var y := SameWitness(x, z);
    InMultiset(y, z);
    SameMembers(z, y);
    forall i | 0 <= i < |x| ensures ValueOf(x[i].value) == ValueOf(y[i].value) {
      assert y[i] in z;
      UniqueInside(x, x[i]);
      UniqueInside(z, y[i]);
      SameMeaning(x[i].value, y[i].value);
    }
    EntriesByPosition(x, y);
    EntriesCompose(x, y, z);
  }

  lemma {:induction false} SameWitness(x: seq<Member>, z: seq<Member>) returns (y: seq<Member>)
    requires Same(Object(x), Object(z))
    ensures multiset(y) == multiset(z) && |x| == |y|
    ensures forall i :: 0 <= i < |x| ==> x[i].key == y[i].key && Same(x[i].value, y[i].value)
  {
    y :| multiset(y) == multiset(Object(z).members) && |x| == |y|
      && forall i :: 0 <= i < |x| ==> x[i].key == y[i].key && Same(x[i].value, y[i].value);
  }

  lemma {:induction false} UniqueInside(x: seq<Member>, m: Member)
    requires UniqueKeys(Object(x)) && m in x
    ensures UniqueKeys(m.value)
  {
  }

  lemma {:induction false} EntriesCompose(x: seq<Member>, y: seq<Member>, z: seq<Member>)
    requires SameEntries(x, y) && SameEntries(z, y)
    ensures SameEntries(x, z)
  {
    hide Entry, Find;
    forall k ensures Find(x, k) < |x| <==> Find(z, k) < |z| {
      assert Find(y, k) < |y| <==> Find(x, k) < |x|;
    }
    forall k | Find(x, k) < |x| && Find(z, k) < |z| ensures Entry(x, k) == Entry(z, k) {
      assert Find(y, k) < |y|;
    }
  }

  lemma {:induction false} EntriesByPosition(x: seq<Member>, y: seq<Member>)
    requires |x| == |y| && forall i :: 0 <= i < |x| ==> x[i].key == y[i].key && ValueOf(x[i].value) == ValueOf(y[i].value)
    ensures SameEntries(x, y)
  {
    hide ValueOf, Find;
    forall k ensures Find(x, k) == Find(y, k) {
      SameFind(x, y, k);
    }
  }

  lemma {:induction false} SameFind(x: seq<Member>, y: seq<Member>, k: Text)
    requires |x| == |y| && forall i :: 0 <= i < |x| ==> x[i].key == y[i].key
    ensures Find(x, k) == Find(y, k)
    decreases |x|
  {
    if x != [] && x[0].key != k {
      SameFind(x[1..], y[1..], k);
    }
  }

  /** What comparing decides, for trees of integers without repeated keys. */
  lemma CompareDecidesSame(a: Json, b: Json)
    requires IntNumbers(a) && IntNumbers(b) && UniqueKeys(a) && UniqueKeys(b)
    ensures Compare(a, b) <==> Same(a, b)
  {
    CompareUniqueKeys(a, b);
    SameMeaning(a, b);
  }
}
