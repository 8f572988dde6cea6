/**
 The B-Tree of 21-B-Tree/main.go as a function on immutable trees, and what it promises over every
 run of insertions: all leaves at one depth, bounded occupancy, weakly ordered keys, exact
 membership and a logarithmic height.
 */
module BTreeSpec {

  /** One node: its keys, its children and the leaf flag. */
  datatype Tree = Node(keys: seq<int>, children: seq<Tree>, leaf: bool)

  const EMPTY_LEAF := Node([], [], true)

  // ---------- Operations ----------

  /** Where the search loop stops: the first index whose key is not below `key`. */
  function LowerIndex(keys: seq<int>, key: int): (i: nat)
    ensures i <= |keys|
    ensures forall j | 0 <= j < i :: keys[j] < key
    ensures i < |keys| ==> key <= keys[i]
  {
    if keys == [] || key <= keys[0] then 0 else 1 + LowerIndex(keys[1..], key)
  }

  /** Where the insertion loop stops: one past the last index whose key is not above `key`. */
  function UpperIndex(keys: seq<int>, key: int): (i: nat)
    ensures i <= |keys|
    ensures forall j | i <= j < |keys| :: key < keys[j]
    ensures i > 0 ==> keys[i - 1] <= key
  {
    if keys == [] || keys[|keys| - 1] <= key then |keys| else UpperIndex(keys[..|keys| - 1], key)
  }

  /** All leaves lie exactly `h` levels below `t`, and a node has one child more than it has keys. */
  ghost predicate Uniform(t: Tree, h: nat)
    decreases h
  {
    if t.leaf then h == 0 && t.children == []
    else
      && h > 0
      && |t.children| == |t.keys| + 1
      && forall i | 0 <= i < |t.children| :: Uniform(t.children[i], h - 1)
  }

  function Search(t: Tree, h: nat, key: int): bool
    requires Uniform(t, h)
    decreases h
  {
    var i := LowerIndex(t.keys, key);
    if i < |t.keys| && key == t.keys[i] then true
    else if t.leaf then false
    else Search(t.children[i], h - 1, key)
  }

  /** A full node, whose halves both keep at least `d - 1` keys. */
  ghost predicate Full(t: Tree, d: nat) {
    && d > 0 && |t.keys| == 2 * d - 1
    && |t.children| == if t.leaf then 0 else 2 * d
  }

  ghost predicate Splittable(t: Tree, d: nat, index: nat) {
    && !t.leaf && |t.children| == |t.keys| + 1 && index < |t.children|
    && Full(t.children[index], d)
  }

  /** The two halves of a full node around its median key. */
  function LeftHalf(full: Tree, d: nat): Tree
    requires Full(full, d)
  {
    Node(full.keys[..d - 1], if full.leaf then full.children else full.children[..d], full.leaf)
  }

  function RightHalf(full: Tree, d: nat): Tree
    requires Full(full, d)
  {
    Node(full.keys[d..], if full.leaf then [] else full.children[d..], full.leaf)
  }

  function SplitChild(t: Tree, d: nat, index: nat): Tree
    requires Splittable(t, d, index)
  {
    var full := t.children[index];
    Node(t.keys[..index] + [full.keys[d - 1]] + t.keys[index..],
         t.children[..index] + [LeftHalf(full, d), RightHalf(full, d)] + t.children[index + 1..],
         t.leaf)
  }

  lemma HalvesShape(full: Tree, d: nat)
    requires Full(full, d)
    ensures var m := if full.leaf then 0 else d;
            && LeftHalf(full, d) == Node(full.keys[..d - 1], full.children[..m], full.leaf)
            && RightHalf(full, d) == Node(full.keys[d..], full.children[m..], full.leaf)
  {
  }

  /** The node the descent enters from `t`, after the preventive split if the child was full. */
  function Prepared(t: Tree, d: nat, h: nat, key: int): (t': Tree)
    requires d > 0 && Uniform(t, h) && !t.leaf
    ensures Uniform(t', h) && !t'.leaf
  {
    var i := UpperIndex(t.keys, key);
    if |t.children[i].keys| == 2 * d - 1 then
      SplitUniform(t, d, h, i);
      SplitChild(t, d, i)
    else t
  }

  function Entered(t: Tree, d: nat, h: nat, key: int): (i: nat)
    requires d > 0 && Uniform(t, h) && !t.leaf
    ensures i < |Prepared(t, d, h, key).children|
  {
    var i := UpperIndex(t.keys, key);
    if |t.children[i].keys| == 2 * d - 1 && key > t.children[i].keys[d - 1] then i + 1 else i
  }

  function InsertLeaf(keys: seq<int>, key: int): seq<int> {
    var i := UpperIndex(keys, key);
    if i > 0 && keys[i - 1] == key then keys else keys[..i] + [key] + keys[i..]
  }

  function InsertNonFull(t: Tree, d: nat, h: nat, key: int): (t': Tree)
    requires d > 0 && Uniform(t, h)
    ensures t'.leaf == t.leaf
    decreases h
  {
    if t.leaf then t.(keys := InsertLeaf(t.keys, key))
    else
      var p := Prepared(t, d, h, key);
      var i := Entered(t, d, h, key);
      p.(children := p.children[i := InsertNonFull(p.children[i], d, h - 1, key)])
  }

  /** The root after the preventive split, which is where the tree grows by one level. */
  function GrownRoot(t: Tree, d: nat): Tree
    requires d > 0
    requires |t.keys| == 2 * d - 1 ==> Full(t, d)
  {
    if |t.keys| == 2 * d - 1 then
      assert Splittable(Node([], [t], false), d, 0);
      SplitChild(Node([], [t], false), d, 0)
    else t
  }

  function GrownHeight(t: Tree, d: nat, h: nat): nat {
    if |t.keys| == 2 * d - 1 then h + 1 else h
  }

  function Insert(t: Tree, d: nat, h: nat, key: int): Tree
    requires d > 0 && Uniform(t, h)
  {
    GrownUniform(t, d, h);
    InsertNonFull(GrownRoot(t, d), d, GrownHeight(t, d, h), key)
  }

  lemma SplitUniform(t: Tree, d: nat, h: nat, index: nat)
    requires d > 0 && Uniform(t, h) && !t.leaf && index < |t.children|
    requires |t.children[index].keys| == 2 * d - 1
    ensures Splittable(t, d, index)
    ensures Uniform(SplitChild(t, d, index), h)
  {
    var full := t.children[index];
    assert Uniform(full, h - 1);
    var t' := SplitChild(t, d, index);
    assert Uniform(LeftHalf(full, d), h - 1);
    assert Uniform(RightHalf(full, d), h - 1);
    forall i | 0 <= i < |t'.children| ensures Uniform(t'.children[i], h - 1) {
      if i > index + 1 { assert t'.children[i] == t.children[i - 1]; }
    }
  }

  lemma GrownUniform(t: Tree, d: nat, h: nat)
    requires d > 0 && Uniform(t, h)
    ensures Uniform(GrownRoot(t, d), GrownHeight(t, d, h))
  {
    if |t.keys| == 2 * d - 1 {
      var next := Node([], [t], false);
      assert Uniform(next, h + 1);
      SplitUniform(next, d, h + 1, 0);
    }
  }

  // ---------- Membership ----------

  ghost predicate Holds(t: Tree, x: int) {
    x in t.keys || HoldsAny(t.children, x)
  }

  ghost predicate HoldsAny(ts: seq<Tree>, x: int) {
    exists i | 0 <= i < |ts| :: Holds(ts[i], x)
  }

  ghost predicate Sorted(keys: seq<int>) {
    forall i, j | 0 <= i < j < |keys| :: keys[i] <= keys[j]
  }

  /** Separator `j` of a node bounds `x`, which sits below child `i`; equality is allowed. */
  ghost predicate OnItsSide(keys: seq<int>, i: nat, j: nat, x: int)
    requires j < |keys|
  {
    if j < i then keys[j] <= x else x <= keys[j]
  }

  ghost predicate Separated(t: Tree) {
    forall i, j, x | 0 <= i < |t.children| && 0 <= j < |t.keys| && Holds(t.children[i], x) ::
      OnItsSide(t.keys, i, j, x)
  }

  /** Weak order: everything left of a separator is at most it, everything right at least it. */
  ghost predicate Ordered(t: Tree) {
    && Sorted(t.keys)
    && Separated(t)
    && forall i | 0 <= i < |t.children| :: Ordered(t.children[i])
  }

  lemma HoldsConcat(a: seq<Tree>, b: seq<Tree>, x: int)
    ensures HoldsAny(a + b, x) <==> HoldsAny(a, x) || HoldsAny(b, x)
  {
    if HoldsAny(a, x) {
      var i :| 0 <= i < |a| && Holds(a[i], x);
      assert Holds((a + b)[i], x);
    }
    if HoldsAny(b, x) {
      var i :| 0 <= i < |b| && Holds(b[i], x);
      assert Holds((a + b)[|a| + i], x);
    }
  }

  /** A search finds a key exactly when some node of the tree holds it, duplicates included. */
  lemma {:induction false} SearchIffHolds(t: Tree, h: nat, key: int)
    requires Uniform(t, h) && Ordered(t)
    ensures Search(t, h, key) <==> Holds(t, key)
    decreases h
  {
    var i := LowerIndex(t.keys, key);
    if !(i < |t.keys| && key == t.keys[i]) {
      assert key !in t.keys;
      if !t.leaf {
        SearchIffHolds(t.children[i], h - 1, key);
        forall j | 0 <= j < |t.children| && Holds(t.children[j], key) ensures j == i {
          OutsideMisses(t, i, j, key);
        }
      }
    }
  }

  lemma OutsideMisses(t: Tree, i: nat, j: nat, key: int)
    requires Separated(t) && i < |t.children| == |t.keys| + 1 && j < |t.children|
    requires forall c | 0 <= c < i :: t.keys[c] < key
    requires i < |t.keys| ==> key < t.keys[i]
    requires Holds(t.children[j], key)
    ensures i == j
  {
    var separator := if j < i then j else i;
    assert separator < |t.keys| ==> OnItsSide(t.keys, j, separator, key);
  }

  lemma LeafHolds(keys: seq<int>, key: int, x: int)
    ensures x in InsertLeaf(keys, key) <==> x in keys || x == key
  {
    var i := UpperIndex(keys, key);
    assert keys == keys[..i] + keys[i..];
  }

  /** In a leaf the key goes to its place, unless it is there already. */
  lemma LeafInsertion(t: Tree, d: nat, h: nat, key: int)
    requires d > 0 && Uniform(t, h) && t.leaf
    ensures var i := UpperIndex(t.keys, key);
      InsertNonFull(t, d, h, key) ==
        if i > 0 && t.keys[i - 1] == key then t
        else Node(t.keys[..i] + [key] + t.keys[i..], t.children, true)
  {
  }

  /** In an inner node the key goes into the prepared child. */
  lemma InnerInsertion(t: Tree, d: nat, h: nat, key: int)
    requires d > 0 && Uniform(t, h) && !t.leaf
    ensures var p, i := Prepared(t, d, h, key), Entered(t, d, h, key);
      InsertNonFull(t, d, h, key)
      == p.(children := p.children[i := InsertNonFull(p.children[i], d, h - 1, key)])
  {
  }

  lemma LeafHoldsKeys(t: Tree, keys: seq<int>, x: int)
    requires t.leaf && t.children == []
    ensures (Holds(t, x) <==> x in t.keys) && (Holds(t.(keys := keys), x) <==> x in keys)
  {
  }

  lemma HalvesHold(full: Tree, d: nat, x: int)
    requires Full(full, d)
    ensures Holds(full, x) <==> Holds(LeftHalf(full, d), x) || x == full.keys[d - 1] || Holds(RightHalf(full, d), x)
  {
    var l, r := LeftHalf(full, d), RightHalf(full, d);
    assert full.keys == l.keys + [full.keys[d - 1]] + r.keys;
    assert full.children == l.children + r.children;
    HoldsConcat(l.children, r.children, x);
  }

  lemma SplitHolds(t: Tree, d: nat, index: nat, x: int)
    requires Splittable(t, d, index)
    ensures Holds(SplitChild(t, d, index), x) <==> Holds(t, x)
  {
    var full := t.children[index];
    HalvesHold(full, d, x);
    var l, r := LeftHalf(full, d), RightHalf(full, d);
    var a, b := t.children[..index], t.children[index + 1..];
    assert t.keys == t.keys[..index] + t.keys[index..];
    assert t.children == a + [full] + b;
    HoldsConcat(a, [full], x);
    HoldsConcat(a + [full], b, x);
    HoldsConcat(a, [l, r], x);
    HoldsConcat(a + [l, r], b, x);
    assert HoldsAny([full], x) <==> Holds([full][0], x);
    assert HoldsAny([l, r], x) <==> Holds([l, r][0], x) || Holds([l, r][1], x);
  }

  lemma PreparedHolds(t: Tree, d: nat, h: nat, key: int, x: int)
    requires d > 0 && Uniform(t, h) && !t.leaf
    ensures Holds(Prepared(t, d, h, key), x) <==> Holds(t, x)
  {
    var i := UpperIndex(t.keys, key);
    if |t.children[i].keys| == 2 * d - 1 { SplitUniform(t, d, h, i); SplitHolds(t, d, i, x); }
  }

  lemma {:induction false} InsertNonFullHolds(t: Tree, d: nat, h: nat, key: int, x: int)
    requires d > 0 && Uniform(t, h)
    ensures Holds(InsertNonFull(t, d, h, key), x) <==> Holds(t, x) || x == key
    decreases h
  {
    hide Prepared, Entered, Holds;
    if t.leaf {
      LeafHolds(t.keys, key, x);
      LeafHoldsKeys(t, InsertLeaf(t.keys, key), x);
    } else {
      var p, i := Prepared(t, d, h, key), Entered(t, d, h, key);
      PreparedHolds(t, d, h, key, x);
      InsertNonFullHolds(p.children[i], d, h - 1, key, x);
      ReplacedHolds(p, i, InsertNonFull(p.children[i], d, h - 1, key), key, x);
    }
  }

  /** Replacing a child by one that holds one key more. */
  lemma ReplacedHolds(p: Tree, i: nat, c: Tree, key: int, x: int)
    requires i < |p.children|
    requires Holds(c, x) <==> Holds(p.children[i], x) || x == key
    ensures Holds(p.(children := p.children[i := c]), x) <==> Holds(p, x) || x == key
  {
    var a, b := p.children[..i], p.children[i + 1..];
    assert p.children == a + [p.children[i]] + b;
    assert p.children[i := c] == a + [c] + b;
    HoldsConcat(a, [c], x);
    HoldsConcat(a + [c], b, x);
    HoldsConcat(a, [p.children[i]], x);
    HoldsConcat(a + [p.children[i]], b, x);
    assert HoldsAny([c], x) <==> Holds([c][0], x);
    assert HoldsAny([p.children[i]], x) <==> Holds([p.children[i]][0], x);
  }

  // ---------- Order ----------

  lemma LeafSorted(keys: seq<int>, key: int)
    requires Sorted(keys)
    ensures Sorted(InsertLeaf(keys, key))
  {
  }

  lemma HalvesOrdered(full: Tree, d: nat)
    requires Full(full, d) && Ordered(full)
    ensures Ordered(LeftHalf(full, d)) && Ordered(RightHalf(full, d))
  {
    var l, r := LeftHalf(full, d), RightHalf(full, d);
    forall i, j, x | 0 <= i < |l.children| && 0 <= j < |l.keys| && Holds(l.children[i], x)
      ensures OnItsSide(l.keys, i, j, x)
    {
      assert OnItsSide(full.keys, i, j, x);
    }
    forall i, j, x | 0 <= i < |r.children| && 0 <= j < |r.keys| && Holds(r.children[i], x)
      ensures OnItsSide(r.keys, i, j, x)
    {
      assert r.children[i] == full.children[d + i];
      assert OnItsSide(full.keys, d + i, d + j, x);
    }
  }

  /** The median bounds everything in the two halves. */
  lemma HalvesBounded(full: Tree, d: nat, x: int)
    requires Full(full, d) && Sorted(full.keys) && Separated(full)
    ensures Holds(LeftHalf(full, d), x) ==> x <= full.keys[d - 1]
    ensures Holds(RightHalf(full, d), x) ==> full.keys[d - 1] <= x
  {
    var l, r := LeftHalf(full, d), RightHalf(full, d);
    if HoldsAny(l.children, x) {
      var i :| 0 <= i < |l.children| && Holds(l.children[i], x);
      assert OnItsSide(full.keys, i, d - 1, x);
    }
    if HoldsAny(r.children, x) {
      var i :| 0 <= i < |r.children| && Holds(r.children[i], x);
      assert r.children[i] == full.children[d + i];
      assert OnItsSide(full.keys, d + i, d - 1, x);
    }
  }

  lemma SplitSorted(t: Tree, d: nat, index: nat)
    requires Splittable(t, d, index) && Sorted(t.keys) && Separated(t)
    ensures Sorted(SplitChild(t, d, index).keys)
  {
    var full := t.children[index];
    var m := full.keys[d - 1];
    assert Holds(t.children[index], m);
    forall j | 0 <= j < |t.keys| ensures if j < index then t.keys[j] <= m else m <= t.keys[j] {
      assert OnItsSide(t.keys, index, j, m);
    }
  }

  /** One child and one separator of the split node. */
  lemma SplitSeparated(t: Tree, d: nat, index: nat, i: nat, j: nat, x: int)
    requires Splittable(t, d, index) && Sorted(t.keys) && Separated(t)
    requires Sorted(t.children[index].keys) && Separated(t.children[index])
    requires var t' := SplitChild(t, d, index);
             i < |t'.children| && j < |t'.keys| && Holds(t'.children[i], x)
    ensures OnItsSide(SplitChild(t, d, index).keys, i, j, x)
  {
    hide Holds, LeftHalf, RightHalf;
    var full := t.children[index];
    var m := full.keys[d - 1];
    HalvesBounded(full, d, x);
    HalvesHold(full, d, x);
    HalvesHold(full, d, m);
    // where the child and the separator stood before the split
    var i0 := if i <= index then i else i - 1;
    var j0 := if j <= index then j else j - 1;
    assert Holds(t.children[i0], x);
    if j != index {
      assert OnItsSide(t.keys, i0, j0, x);
    } else if i < index {
      assert OnItsSide(t.keys, i, i, x) && OnItsSide(t.keys, index, i, m);
    } else if i > index + 1 {
      assert OnItsSide(t.keys, i0, index, x) && OnItsSide(t.keys, index, index, m);
    }
  }

  lemma SplitOrdered(t: Tree, d: nat, index: nat)
    requires Splittable(t, d, index) && Ordered(t)
    ensures Ordered(SplitChild(t, d, index))
  {
    var full := t.children[index];
    HalvesOrdered(full, d);
    SplitSorted(t, d, index);
    var t' := SplitChild(t, d, index);
    forall i | 0 <= i < |t'.children| ensures Ordered(t'.children[i]) {
      if i > index + 1 { assert t'.children[i] == t.children[i - 1]; }
    }
    forall i, j, x | 0 <= i < |t'.children| && 0 <= j < |t'.keys| && Holds(t'.children[i], x)
      ensures OnItsSide(t'.keys, i, j, x)
    {
      SplitSeparated(t, d, index, i, j, x);
    }
  }

  lemma PreparedOrdered(t: Tree, d: nat, h: nat, key: int)
    requires d > 0 && Uniform(t, h) && !t.leaf && Ordered(t)
    ensures Ordered(Prepared(t, d, h, key))
  {
    var i := UpperIndex(t.keys, key);
    if |t.children[i].keys| == 2 * d - 1 { SplitUniform(t, d, h, i); SplitOrdered(t, d, i); }
  }

  /** The child entered after the preventive split is one whose interval contains the key. */
  lemma EnteredInterval(t: Tree, d: nat, h: nat, key: int)
    requires d > 0 && Uniform(t, h) && !t.leaf && Sorted(t.keys)
    ensures var p, i := Prepared(t, d, h, key), Entered(t, d, h, key);
            forall j | 0 <= j < |p.keys| :: OnItsSide(p.keys, i, j, key)
  {
    var i := UpperIndex(t.keys, key);
    assert forall j | 0 <= j < |t.keys| :: OnItsSide(t.keys, i, j, key);
    if |t.children[i].keys| == 2 * d - 1 {
      SplitUniform(t, d, h, i);
      SplitInterval(t, d, i, key);
    }
  }

  lemma SplitInterval(t: Tree, d: nat, i: nat, key: int)
    requires Splittable(t, d, i)
    requires forall j | 0 <= j < |t.keys| :: OnItsSide(t.keys, i, j, key)
    ensures var p, i' := SplitChild(t, d, i), if key > t.children[i].keys[d - 1] then i + 1 else i;
            forall j | 0 <= j < |p.keys| :: OnItsSide(p.keys, i', j, key)
  {
    var p, i' := SplitChild(t, d, i), if key > t.children[i].keys[d - 1] then i + 1 else i;
    forall j | 0 <= j < |p.keys| ensures OnItsSide(p.keys, i', j, key) {
      assert j < i ==> OnItsSide(t.keys, i, j, key);
      assert j > i ==> OnItsSide(t.keys, i, j - 1, key);
    }
  }

  lemma {:induction false} InsertNonFullOrdered(t: Tree, d: nat, h: nat, key: int)
    requires d > 0 && Uniform(t, h) && Ordered(t)
    ensures Ordered(InsertNonFull(t, d, h, key))
    decreases h
  {
    hide Holds, OnItsSide, Prepared, Entered;
    if t.leaf {
      LeafSorted(t.keys, key);
    } else {
      var p, i := Prepared(t, d, h, key), Entered(t, d, h, key);
      PreparedOrdered(t, d, h, key);
      EnteredInterval(t, d, h, key);
      InsertNonFullOrdered(p.children[i], d, h - 1, key);
      forall x ensures Holds(InsertNonFull(p.children[i], d, h - 1, key), x) <==> Holds(p.children[i], x) || x == key {
        InsertNonFullHolds(p.children[i], d, h - 1, key, x);
      }
      ReplacedOrdered(p, i, InsertNonFull(p.children[i], d, h - 1, key), key);
    }
  }

  lemma ReplacedOrdered(p: Tree, i: nat, c: Tree, key: int)
    requires i < |p.children| && Ordered(p) && Ordered(c)
    requires forall x :: Holds(c, x) <==> Holds(p.children[i], x) || x == key
    requires forall j | 0 <= j < |p.keys| :: OnItsSide(p.keys, i, j, key)
    ensures Ordered(p.(children := p.children[i := c]))
  {
    var t := p.(children := p.children[i := c]);
    forall c, j, x | 0 <= c < |t.children| && 0 <= j < |t.keys| && Holds(t.children[c], x)
      ensures OnItsSide(t.keys, c, j, x)
    {
      assert x != key || c != i ==> Holds(p.children[c], x);
    }
  }

  // ---------- Occupancy ----------

  /** At least `least` keys here, at least `d - 1` in every node below, never more than `2d - 1`. */
  ghost predicate Occupied(t: Tree, d: nat, least: nat) {
    && least <= |t.keys| <= 2 * d - 1
    && forall i | 0 <= i < |t.children| :: Occupied(t.children[i], d, d - 1)
  }

  lemma SplitOccupied(t: Tree, d: nat, index: nat, least: nat)
    requires Splittable(t, d, index) && Occupied(t, d, least) && |t.keys| < 2 * d - 1
    ensures Occupied(SplitChild(t, d, index), d, least + 1)
  {
    var full, t' := t.children[index], SplitChild(t, d, index);
    assert Occupied(LeftHalf(full, d), d, d - 1);
    assert Occupied(RightHalf(full, d), d, d - 1);
    forall i | 0 <= i < |t'.children| ensures Occupied(t'.children[i], d, d - 1) {
      if i > index + 1 { assert t'.children[i] == t.children[i - 1]; }
    }
  }

  /** The preventive split leaves room in the entered child, so no node ever overflows. */
  lemma PreparedOccupied(t: Tree, d: nat, h: nat, key: int, least: nat)
    requires d > 0 && Uniform(t, h) && !t.leaf && Occupied(t, d, least) && |t.keys| < 2 * d - 1
    ensures Occupied(Prepared(t, d, h, key), d, least)
    ensures |Prepared(t, d, h, key).children[Entered(t, d, h, key)].keys| < 2 * d - 1
  {
    var i := UpperIndex(t.keys, key);
    if |t.children[i].keys| == 2 * d - 1 {
      SplitUniform(t, d, h, i);
      SplitOccupied(t, d, i, least);
    }
  }

  lemma {:induction false} InsertNonFullOccupied(t: Tree, d: nat, h: nat, key: int, least: nat)
    requires d > 0 && Uniform(t, h) && Occupied(t, d, least) && |t.keys| < 2 * d - 1
    ensures Occupied(InsertNonFull(t, d, h, key), d, least)
    decreases h
  {
    if !t.leaf {
      var p, i := Prepared(t, d, h, key), Entered(t, d, h, key);
      PreparedOccupied(t, d, h, key, least);
      InsertNonFullOccupied(p.children[i], d, h - 1, key, d - 1);
    }
  }

  // ---------- Key slots ----------

  ghost function Slots(t: Tree): nat {
    |t.keys| + SlotsOf(t.children)
  }

  ghost function SlotsOf(ts: seq<Tree>): nat {
    if ts == [] then 0 else Slots(ts[0]) + SlotsOf(ts[1..])
  }

  lemma {:induction false} SlotsConcat(a: seq<Tree>, b: seq<Tree>)
    ensures SlotsOf(a + b) == SlotsOf(a) + SlotsOf(b)
  {
    if a == [] {
      assert a + b == b;
    } else {
      SlotsConcat(a[1..], b);
      assert (a + b)[1..] == a[1..] + b;
    }
  }

  lemma SlotsAround(ts: seq<Tree>, i: nat, mid: seq<Tree>)
    requires i < |ts|
    ensures SlotsOf(ts[..i] + mid + ts[i + 1..]) == SlotsOf(ts) - Slots(ts[i]) + SlotsOf(mid)
  {
    var a, b := ts[..i], ts[i + 1..];
    assert ts == a + [ts[i]] + b;
    SlotsConcat(a, [ts[i]]);
    SlotsConcat(a + [ts[i]], b);
    SlotsConcat(a, mid);
    SlotsConcat(a + mid, b);
    assert SlotsOf([ts[i]]) == Slots(ts[i]);
  }

  lemma SplitSlots(t: Tree, d: nat, index: nat)
    requires Splittable(t, d, index)
    ensures Slots(SplitChild(t, d, index)) == Slots(t)
  {
    var full := t.children[index];
    var l, r := LeftHalf(full, d), RightHalf(full, d);
    SlotsAround(t.children, index, [l, r]);
    SlotsConcat([l], [r]);
    assert [l, r] == [l] + [r];
    assert SlotsOf([l]) == Slots(l) && SlotsOf([r]) == Slots(r);
    assert full.children == l.children + r.children;
    SlotsConcat(l.children, r.children);
  }

  /** The leaf in which the insertion of `key` ends, as the preventive splits leave it. */
  ghost function TargetLeaf(t: Tree, d: nat, h: nat, key: int): Tree
    requires d > 0 && Uniform(t, h)
    decreases h
  {
    if t.leaf then t else TargetLeaf(Prepared(t, d, h, key).children[Entered(t, d, h, key)], d, h - 1, key)
  }

  /** An insertion adds one key slot unless the leaf it ends in already holds the key. */
  lemma {:induction false} InsertNonFullSlots(t: Tree, d: nat, h: nat, key: int)
    requires d > 0 && Uniform(t, h) && Ordered(t)
    ensures Slots(InsertNonFull(t, d, h, key))
         == Slots(t) + if key in TargetLeaf(t, d, h, key).keys then 0 else 1
    decreases h
  {
    if !t.leaf {
      hide Prepared, Entered, Ordered;
      var p, i := Prepared(t, d, h, key), Entered(t, d, h, key);
      PreparedSlots(t, d, h, key);
      PreparedOrdered(t, d, h, key);
      var c := InsertNonFull(p.children[i], d, h - 1, key);
      InsertNonFullSlots(p.children[i], d, h - 1, key);
      ReplacedSlots(p, i, c);
    }
  }

  lemma ReplacedSlots(p: Tree, i: nat, c: Tree)
    requires i < |p.children|
    ensures Slots(p.(children := p.children[i := c])) == Slots(p) - Slots(p.children[i]) + Slots(c)
  {
    SlotsAround(p.children, i, [c]);
    assert p.children[i := c] == p.children[..i] + [c] + p.children[i + 1..];
    assert SlotsOf([c]) == Slots(c);
  }

  lemma PreparedSlots(t: Tree, d: nat, h: nat, key: int)
    requires d > 0 && Uniform(t, h) && !t.leaf
    ensures Slots(Prepared(t, d, h, key)) == Slots(t)
  {
    var i := UpperIndex(t.keys, key);
    if |t.children[i].keys| == 2 * d - 1 {
      SplitUniform(t, d, h, i);
      SplitSlots(t, d, i);
    }
  }

  // ---------- Height ----------

  ghost function Pow(b: nat, e: nat): (r: nat)
    ensures b > 0 ==> r > 0
  {
    if e == 0 then 1 else b * Pow(b, e - 1)
  }

  /** A node below the root with `h` levels beneath it spans at least `d^(h+1) - 1` key slots. */
  lemma {:induction false} InnerSlots(t: Tree, d: nat, h: nat)
    requires d > 0 && Uniform(t, h) && Occupied(t, d, d - 1)
    ensures Slots(t) + 1 >= Pow(d, h + 1)
    decreases h
  {
    if t.leaf {
      assert Pow(d, 1) == d * Pow(d, 0);
    } else {
      forall i | 0 <= i < |t.children| ensures Slots(t.children[i]) + 1 >= Pow(d, h) {
        InnerSlots(t.children[i], d, h - 1);
      }
      ManySlots(t.children, Pow(d, h));
      AtLeastTimes(|t.children|, d, Pow(d, h));
    }
  }

  lemma {:induction false} ManySlots(ts: seq<Tree>, each: nat)
    requires forall i | 0 <= i < |ts| :: Slots(ts[i]) + 1 >= each
    ensures SlotsOf(ts) + |ts| >= |ts| * each
  {
    if ts != [] {
      ManySlots(ts[1..], each);
    }
  }

  lemma AtLeastTimes(a: nat, b: nat, c: nat)
    requires a >= b
    ensures a * c >= b * c
  {
  }

  lemma RootSlots(t: Tree, d: nat, h: nat)
    requires d > 0 && h > 0 && Uniform(t, h) && Occupied(t, d, 1)
    ensures Slots(t) + 1 >= 2 * Pow(d, h)
  {
    forall i | 0 <= i < |t.children| ensures Slots(t.children[i]) + 1 >= Pow(d, h) {
      InnerSlots(t.children[i], d, h - 1);
    }
    ManySlots(t.children, Pow(d, h));
    AtLeastTimes(|t.children|, 2, Pow(d, h));
  }

  /** How many nodes a search looks at. */
  ghost function Visits(t: Tree, h: nat, key: int): nat
    requires Uniform(t, h)
    decreases h
  {
    var i := LowerIndex(t.keys, key);
    if (i < |t.keys| && key == t.keys[i]) || t.leaf then 1 else 1 + Visits(t.children[i], h - 1, key)
  }

  lemma {:induction false} VisitsBound(t: Tree, h: nat, key: int)
    requires Uniform(t, h)
    ensures Visits(t, h, key) <= h + 1
    decreases h
  {
    if !t.leaf && Visits(t, h, key) > 1 {
      VisitsBound(t.children[LowerIndex(t.keys, key)], h - 1, key);
    }
  }

  // ---------- Runs ----------

  datatype State = State(root: Tree, height: nat)

  /** What every reachable tree satisfies. */
  ghost predicate WellFormed(s: State, d: nat) {
    && d > 0
    && Uniform(s.root, s.height)
    && Occupied(s.root, d, if s.root.leaf then 0 else 1)
    && Ordered(s.root)
  }

  /** The tree after inserting `ks` in order into an empty tree of minimum degree `d`. */
  ghost function Run(d: nat, ks: seq<int>): (s: State)
    requires d > 0
    ensures Uniform(s.root, s.height)
  {
    if ks == [] then State(EMPTY_LEAF, 0)
    else
      var s := Run(d, ks[..|ks| - 1]);
      GrownUniform(s.root, d, s.height);
      InsertUniform(s.root, d, s.height, ks[|ks| - 1]);
      State(Insert(s.root, d, s.height, ks[|ks| - 1]), GrownHeight(s.root, d, s.height))
  }

  lemma InsertUniform(t: Tree, d: nat, h: nat, key: int)
    requires d > 0 && Uniform(t, h)
    ensures Uniform(Insert(t, d, h, key), GrownHeight(t, d, h))
  {
    GrownUniform(t, d, h);
    InsertNonFullUniform(GrownRoot(t, d), d, GrownHeight(t, d, h), key);
  }

  lemma {:induction false} InsertNonFullUniform(t: Tree, d: nat, h: nat, key: int)
    requires d > 0 && Uniform(t, h)
    ensures Uniform(InsertNonFull(t, d, h, key), h)
    decreases h
  {
    if !t.leaf {
      InsertNonFullUniform(Prepared(t, d, h, key).children[Entered(t, d, h, key)], d, h - 1, key);
    }
  }

  /** Growing the root keeps order, contents and key slots, and leaves it room for one more key. */
  lemma GrownRootKeeps(s: State, d: nat)
    requires WellFormed(s, d) && d >= 2
    ensures var r := GrownRoot(s.root, d);
            && Ordered(r) && Occupied(r, d, if r.leaf then 0 else 1) && |r.keys| < 2 * d - 1
            && Slots(r) == Slots(s.root) && forall x :: Holds(r, x) <==> Holds(s.root, x)
  {
    if |s.root.keys| == 2 * d - 1 {
      var next := Node([], [s.root], false);
      assert Splittable(next, d, 0);
      assert Occupied(next, d, 0);
      SplitOccupied(next, d, 0, 0);
      SplitOrdered(next, d, 0);
      SplitSlots(next, d, 0);
      assert SlotsOf([s.root]) == Slots(s.root);
      forall x ensures Holds(GrownRoot(s.root, d), x) <==> Holds(s.root, x) {
        SplitHolds(next, d, 0, x);
        assert HoldsAny([s.root], x) <==> Holds([s.root][0], x);
      }
    }
  }

  lemma InsertKeeps(s: State, d: nat, key: int)
    requires WellFormed(s, d) && d >= 2
    ensures WellFormed(State(Insert(s.root, d, s.height, key), GrownHeight(s.root, d, s.height)), d)
    ensures forall x :: Holds(Insert(s.root, d, s.height, key), x) <==> Holds(s.root, x) || x == key
    ensures Slots(Insert(s.root, d, s.height, key)) <= Slots(s.root) + 1
  {
    var r, h := GrownRoot(s.root, d), GrownHeight(s.root, d, s.height);
    GrownUniform(s.root, d, s.height);
    GrownRootKeeps(s, d);
    InsertUniform(s.root, d, s.height, key);
    InsertNonFullOrdered(r, d, h, key);
    InsertNonFullOccupied(r, d, h, key, if r.leaf then 0 else 1);
    InsertNonFullSlots(r, d, h, key);
    forall x ensures Holds(Insert(s.root, d, s.height, key), x) <==> Holds(s.root, x) || x == key {
      InsertNonFullHolds(r, d, h, key, x);
    }
  }

  /** Every run keeps the shape, the order and the occupancy, and holds exactly what was inserted. */
  lemma {:induction false} RunInvariant(d: nat, ks: seq<int>)
    requires d >= 2
    ensures WellFormed(Run(d, ks), d)
    ensures forall x :: Holds(Run(d, ks).root, x) <==> x in ks
    ensures Slots(Run(d, ks).root) <= |ks|
  {
    if ks != [] {
      var front, key := ks[..|ks| - 1], ks[|ks| - 1];
      assert ks == front + [key];
      RunInvariant(d, front);
      InsertKeeps(Run(d, front), d, key);
    }
  }

  /** `Search` answers true exactly for the keys inserted so far, repeated insertions included. */
  lemma SearchExact(d: nat, ks: seq<int>, key: int)
    requires d >= 2
    ensures Search(Run(d, ks).root, Run(d, ks).height, key) <==> key in ks
  {
    RunInvariant(d, ks);
    SearchIffHolds(Run(d, ks).root, Run(d, ks).height, key);
  }

  /** After n insertions a search looks at h + 1 nodes at most, where `2 d^h <= n + 1`. */
  lemma SearchLogarithmic(d: nat, ks: seq<int>, key: int)
    requires d >= 2
    ensures var s := Run(d, ks);
            && Visits(s.root, s.height, key) <= s.height + 1
            && (s.height > 0 ==> 2 * Pow(d, s.height) <= Slots(s.root) + 1 <= |ks| + 1)
  {
    var s := Run(d, ks);
    RunInvariant(d, ks);
    VisitsBound(s.root, s.height, key);
    if s.height > 0 { RootSlots(s.root, d, s.height); }
  }

  /**
   Inserting a key again is ignored exactly when the leaf the insertion ends in holds it: a copy
   met in an internal node does not stop the insertion.
   */
  lemma DuplicateIgnoredIff(d: nat, ks: seq<int>, key: int)
    requires d >= 2
    ensures var s := Run(d, ks); Uniform(GrownRoot(s.root, d), GrownHeight(s.root, d, s.height))
    ensures var s := Run(d, ks);
            Slots(Run(d, ks + [key]).root) == Slots(s.root)
            <==> key in TargetLeaf(GrownRoot(s.root, d), d, GrownHeight(s.root, d, s.height), key).keys
  {
    hide Ordered, Occupied, Slots, Holds, TargetLeaf, InsertNonFull, GrownRoot, Uniform;
    var s := Run(d, ks);
    RunGrows(d, ks, key);
    RunInvariant(d, ks);
    GrownRootKeeps(s, d);
    InsertNonFullSlots(GrownRoot(s.root, d), d, GrownHeight(s.root, d, s.height), key);
  }

  lemma RunLast(d: nat, ks: seq<int>, key: int)
    requires d > 0
    ensures var s := Run(d, ks);
            Run(d, ks + [key]) == State(Insert(s.root, d, s.height, key), GrownHeight(s.root, d, s.height))
  {
    assert (ks + [key])[..|ks|] == ks;
  }

  /** One insertion of a run: the root grows if it must, and then has room for the descent. */
  lemma RunGrows(d: nat, ks: seq<int>, key: int)
    requires d > 0
    ensures var s := Run(d, ks);
            var root, h := GrownRoot(s.root, d), GrownHeight(s.root, d, s.height);
            && Uniform(s.root, s.height) && Uniform(root, h)
            && Run(d, ks + [key]) == State(InsertNonFull(root, d, h, key), h)
  {
    RunLast(d, ks, key);
    GrownUniform(Run(d, ks).root, d, Run(d, ks).height);
  }

  lemma FullLeafRoot(a: int, b: int, c: int, key: int)
    requires a < b < c < key
    ensures Insert(Node([a, b, c], [], true), 2, 0, key)
         == Node([b], [Node([a], [], true), Node([c, key], [], true)], false)
  {
    var t := Node([a, b, c], [], true);
    GrownUniform(t, 2, 0);
    var r := GrownRoot(t, 2);
    assert LeftHalf(t, 2).keys == [a] && RightHalf(t, 2).keys == [c];
    assert r.keys == [b];
    assert r.children == [Node([a], [], true), Node([c], [], true)];
    assert Entered(r, 2, 1, key) == 1;
    assert InsertLeaf([c], key) == [c, key];
  }

  lemma RisingLeafRun(d: nat, ks: seq<int>, key: int)
    requires d > 0 && |ks| < 2 * d - 1 && Run(d, ks) == State(Node(ks, [], true), 0)
    requires forall j | 0 <= j < |ks| :: ks[j] < key
    ensures Run(d, ks + [key]) == State(Node(ks + [key], [], true), 0)
  {
    RunLast(d, ks, key);
    assert UpperIndex(ks, key) == |ks|;
  }

  lemma FourKeys(a: int, b: int, c: int, key: int)
    requires a < b < c < key
    ensures Run(2, [a, b, c] + [key])
         == State(Node([b], [Node([a], [], true), Node([c, key], [], true)], false), 1)
  {
    assert [] + [a] == [a] && [a] + [b] == [a, b] && [a, b] + [c] == [a, b, c];
    RisingLeafRun(2, [], a);
    RisingLeafRun(2, [a], b);
    RisingLeafRun(2, [a, b], c);
    RunLast(2, [a, b, c], key);
    FullLeafRoot(a, b, c, key);
  }

  /** Inserting four rising keys and then the second of them again stores that key twice. */
  lemma DuplicateStoredTwice(a: int, b: int, c: int, key: int)
    requires a < b < c < key
    ensures Slots(Run(2, [a, b, c] + [key] + [b]).root) == Slots(Run(2, [a, b, c] + [key]).root) + 1
    ensures Run(2, [a, b, c] + [key] + [b])
         == State(Node([b], [Node([a], [], true), Node([b, c, key], [], true)], false), 1)
  {
    FourKeys(a, b, c, key);
    var root := Run(2, [a, b, c] + [key]).root;
    RunInvariant(2, [a, b, c] + [key]);
    RunLast(2, [a, b, c] + [key], b);
    InsertNonFullSlots(root, 2, 1, b);
    SecondCopy(a, b, c, key);
  }

  lemma SecondCopy(a: int, b: int, c: int, key: int)
    requires a < b < c < key
    ensures var root := Node([b], [Node([a], [], true), Node([c, key], [], true)], false);
      && Uniform(root, 1) && TargetLeaf(root, 2, 1, b) == Node([c, key], [], true)
      && Insert(root, 2, 1, b) == Node([b], [Node([a], [], true), Node([b, c, key], [], true)], false)
  {
    var root := Node([b], [Node([a], [], true), Node([c, key], [], true)], false);
    assert Uniform(root.children[0], 0) && Uniform(root.children[1], 0);
    assert Entered(root, 2, 1, b) == 1;
    assert Prepared(root, 2, 1, b).children[1] == Node([c, key], [], true);
    assert InsertLeaf([c, key], b) == [b, c, key];
  }

  /** The descent leaves all children alone but the one right of the last key not above the new one. */
  lemma DescentTouchesOne(t: Tree, d: nat, h: nat, key: int)
    requires d > 0 && Uniform(t, h) && !t.leaf
    requires |t.children[UpperIndex(t.keys, key)].keys| != 2 * d - 1
    ensures var i := UpperIndex(t.keys, key);
      && Uniform(t.children[i], h - 1)
      && InsertNonFull(t, d, h, key)
         == Node(t.keys, t.children[i := InsertNonFull(t.children[i], d, h - 1, key)], t.leaf)
  {
  }

  /** If that child is full, its median rises and one half is left alone; a key equal to the median goes left. */
  lemma DescentTouchesHalf(t: Tree, d: nat, h: nat, key: int, full: Tree, left: Tree, right: Tree)
    requires d > 0 && Uniform(t, h) && !t.leaf && full == t.children[UpperIndex(t.keys, key)]
    requires |full.keys| == 2 * d - 1 && Full(full, d)
    requires left == Node(full.keys[..d - 1], full.children[..if full.leaf then 0 else d], full.leaf)
    requires right == Node(full.keys[d..], full.children[if full.leaf then 0 else d..], full.leaf)
    ensures Uniform(left, h - 1) && Uniform(right, h - 1)
    ensures var i, t' := UpperIndex(t.keys, key), InsertNonFull(t, d, h, key);
      var leftward := key <= full.keys[d - 1];
      && t'.keys == t.keys[..i] + [full.keys[d - 1]] + t.keys[i..]
      && t'.children == t.children[..i]
         + [if leftward then InsertNonFull(left, d, h - 1, key) else left,
            if leftward then right else InsertNonFull(right, d, h - 1, key)]
         + t.children[i + 1..]
  {
    hide *;
    var i := UpperIndex(t.keys, key);
    SplittableAt(t, d, h, key);
    HalvesShape(full, d);
    HalvesUniform(t, d, h, i);
    DescentSplits(t, d, h, key);
    SplitChildParts(t, d, i);
    var front, back := t.children[..i], t.children[i + 1..];
    if key <= full.keys[d - 1] {
      PairUpdated(front, left, right, back, InsertNonFull(left, d, h - 1, key));
    } else {
      PairUpdated(front, left, right, back, InsertNonFull(right, d, h - 1, key));
    }
  }

  lemma PairUpdated<T>(front: seq<T>, a: T, b: T, back: seq<T>, x: T)
    ensures (front + [a, b] + back)[|front|] == a && (front + [a, b] + back)[|front| + 1] == b
    ensures (front + [a, b] + back)[|front| := x] == front + [x, b] + back
    ensures (front + [a, b] + back)[|front| + 1 := x] == front + [a, x] + back
  {
  }

  lemma SplittableAt(t: Tree, d: nat, h: nat, key: int)
    requires d > 0 && Uniform(t, h) && !t.leaf && Full(t.children[UpperIndex(t.keys, key)], d)
    ensures Splittable(t, d, UpperIndex(t.keys, key)) && h > 0
  {
  }

  lemma SplitChildParts(t: Tree, d: nat, i: nat)
    requires Splittable(t, d, i)
    ensures Full(t.children[i], d) && i <= |t.keys|
    ensures SplitChild(t, d, i).keys == t.keys[..i] + [t.children[i].keys[d - 1]] + t.keys[i..]
    ensures SplitChild(t, d, i).children
         == t.children[..i] + [LeftHalf(t.children[i], d), RightHalf(t.children[i], d)] + t.children[i + 1..]
  {
  }

  lemma HalvesUniform(t: Tree, d: nat, h: nat, index: nat)
    requires d > 0 && Uniform(t, h) && !t.leaf && Splittable(t, d, index)
    ensures Uniform(LeftHalf(t.children[index], d), h - 1) && Uniform(RightHalf(t.children[index], d), h - 1)
  {
  }

  lemma DescentSplits(t: Tree, d: nat, h: nat, key: int)
    requires d > 0 && Uniform(t, h) && !t.leaf && Splittable(t, d, UpperIndex(t.keys, key))
    ensures var i := UpperIndex(t.keys, key);
      var e, p := if key <= t.children[i].keys[d - 1] then i else i + 1, SplitChild(t, d, i);
      && e < |p.children| && Uniform(p.children[e], h - 1)
      && InsertNonFull(t, d, h, key) == p.(children := p.children[e := InsertNonFull(p.children[e], d, h - 1, key)])
  {
    SplitUniform(t, d, h, UpperIndex(t.keys, key));
    hide UpperIndex, SplitChild;
  }
}
