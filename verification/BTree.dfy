/**
 The B-Tree of 21-B-Tree/main.go on the heap: nodes whose key and child lists are edited in place.
 Every method is tied to the function of the same name in `BTreeSpec`.
 */
module BTrees {
  import opened BTreeSpec

  /** The nodes below a list of children. */
  ghost function ReprOf(cs: seq<BTreeNode>): set<BTreeNode>
    reads cs
  {
    set i, o | 0 <= i < |cs| && o in cs[i].Repr :: o
  }

  /** Valid, pairwise disjoint subtrees with the pictures `ts`. */
  ghost predicate Family(cs: seq<BTreeNode>, ts: seq<Tree>)
    reads cs, ReprOf(cs)
  {
    && |cs| == |ts|
    && (forall i | 0 <= i < |cs| :: cs[i].Valid() && cs[i].tree == ts[i])
    && (forall i, j | 0 <= i < j < |cs| :: cs[i].Repr !! cs[j].Repr)
  }

  lemma FamilySplit(cs: seq<BTreeNode>, ts: seq<Tree>, m: nat)
    requires Family(cs, ts) && m <= |cs|
    ensures Family(cs[..m], ts[..m]) && Family(cs[m..], ts[m..])
    ensures ReprOf(cs[..m]) !! ReprOf(cs[m..])
    ensures ReprOf(cs[..m]) + ReprOf(cs[m..]) == ReprOf(cs)
  {
    var a, b := cs[..m], cs[m..];
    assert forall i | 0 <= i < |b| :: b[i] == cs[m + i];
    assert forall i | m <= i < |cs| :: cs[i] == b[i - m];
  }

  lemma FamilyJoin(a: seq<BTreeNode>, ta: seq<Tree>, b: seq<BTreeNode>, tb: seq<Tree>)
    requires Family(a, ta) && Family(b, tb) && ReprOf(a) !! ReprOf(b)
    ensures Family(a + b, ta + tb) && ReprOf(a + b) == ReprOf(a) + ReprOf(b)
  {
    hide BTreeNode.Valid;
    var cs := a + b;
    assert forall i | 0 <= i < |a| :: cs[i] == a[i];
    assert forall i | 0 <= i < |b| :: cs[|a| + i] == b[i];
    ReprJoin(a, b);
    forall i, j | 0 <= i < j < |cs| ensures cs[i].Repr !! cs[j].Repr {
      if i < |a| <= j {
        InReprOf(a, i);
        InReprOf(b, j - |a|);
      }
    }
  }

  lemma ReprJoin(a: seq<BTreeNode>, b: seq<BTreeNode>)
    ensures ReprOf(a + b) == ReprOf(a) + ReprOf(b)
  {
    var cs := a + b;
    assert forall i | 0 <= i < |a| :: cs[i] == a[i];
    assert forall i | 0 <= i < |b| :: cs[|a| + i] == b[i];
  }

  lemma InReprOf(cs: seq<BTreeNode>, i: nat)
    requires i < |cs|
    ensures cs[i].Repr <= ReprOf(cs)
  {
  }

  lemma FamilyAround(cs: seq<BTreeNode>, ts: seq<Tree>, i: nat)
    requires Family(cs, ts) && i < |cs|
    ensures cs[i].Valid() && cs[i].tree == ts[i]
    ensures Family(cs[..i], ts[..i]) && Family(cs[i + 1..], ts[i + 1..])
    ensures ReprOf(cs[..i]) !! cs[i].Repr && ReprOf(cs[i + 1..]) !! cs[i].Repr
    ensures ReprOf(cs[..i]) !! ReprOf(cs[i + 1..])
    ensures ReprOf(cs) == ReprOf(cs[..i]) + cs[i].Repr + ReprOf(cs[i + 1..])
  {
    var a, b := cs[..i], cs[i + 1..];
    assert forall j | 0 <= j < |b| :: b[j] == cs[i + 1 + j];
    assert forall j | i < j < |cs| :: cs[j] == b[j - i - 1];
  }

  lemma FamilyPair(l: BTreeNode, r: BTreeNode)
    requires l.Valid() && r.Valid() && l.Repr !! r.Repr
    ensures Family([l, r], [l.tree, r.tree]) && ReprOf([l, r]) == l.Repr + r.Repr
  {
    assert [l, r][0] == l && [l, r][1] == r;
  }

  lemma FamilySingle(c: BTreeNode)
    requires c.Valid()
    ensures Family([c], [c.tree]) && ReprOf([c]) == c.Repr
  {
    assert [c][0] == c;
  }

  /** Families around a replaced stretch make one family again. */
  lemma FamilyRejoin(a: seq<BTreeNode>, ta: seq<Tree>, mid: seq<BTreeNode>, tm: seq<Tree>,
                     b: seq<BTreeNode>, tb: seq<Tree>)
    requires Family(a, ta) && Family(mid, tm) && Family(b, tb)
    requires ReprOf(a) !! ReprOf(mid) && ReprOf(a) !! ReprOf(b) && ReprOf(mid) !! ReprOf(b)
    ensures Family(a + mid + b, ta + tm + tb)
    ensures ReprOf(a + mid + b) == ReprOf(a) + ReprOf(mid) + ReprOf(b)
    ensures forall c | c in a + mid + b :: c in ReprOf(a + mid + b)
  {
    FamilyJoin(a, ta, mid, tm);
    FamilyJoin(a + mid, ta + tm, b, tb);
    Members(a + mid + b, ta + tm + tb);
  }

  lemma Members(cs: seq<BTreeNode>, ts: seq<Tree>)
    requires Family(cs, ts)
    ensures forall c | c in cs :: c in ReprOf(cs)
  {
  }

  class BTreeNode {
    var keys: seq<int>
    var children: seq<BTreeNode>
    var leaf: bool

    ghost var tree: Tree            // the immutable picture of this subtree
    ghost var Repr: set<BTreeNode>  // the nodes of this subtree

    ghost predicate Valid()
      reads this, Repr
      decreases Repr
    {
      && this in Repr
      && tree.keys == keys && tree.leaf == leaf && |tree.children| == |children|
      && (forall i | 0 <= i < |children| ::
            && children[i] in Repr && children[i].Repr <= Repr && this !in children[i].Repr
            && children[i].Valid() && children[i].tree == tree.children[i])
      && (forall i, j | 0 <= i < j < |children| :: children[i].Repr !! children[j].Repr)
    }

    constructor (leaf: bool)
      ensures Valid() && tree == Node([], [], leaf) && Repr == {this}
      ensures keys == [] && children == [] && this.leaf == leaf
    {
      keys, children, this.leaf := [], [], leaf;
      tree, Repr := Node([], [], leaf), {this};
    }

    /** The upper half of a full node, which keeps its own copy of the keys and child pointers. */
    constructor Upper(full: BTreeNode, d: nat)
      requires full.Valid() && Full(full.tree, d)
      ensures Valid() && tree == RightHalf(full.tree, d)
      ensures Repr == {this} + ReprOf(full.children[if full.leaf then 0 else d..])
    {
      keys, children, leaf := full.keys[d..], if full.leaf then [] else full.children[d..], full.leaf;
      new;
      ghost var m := if full.leaf then 0 else d;
      full.Unfold();
      FamilySplit(full.children, full.tree.children, m);
      HalvesShape(full.tree, d);
      assert children == full.children[m..];
      Repaint(RightHalf(full.tree, d));
    }

    lemma Unfold()
      requires Valid()
      ensures tree.keys == keys && tree.leaf == leaf && |tree.children| == |children| && this in Repr
      ensures Family(children, tree.children) && this !in ReprOf(children) && ReprOf(children) <= Repr
    {
    }

    /** Keeps only the first keys and children. */
    method Truncate(n: nat, m: nat, ghost t: Tree)
      requires n <= |keys| && m <= |children| && (leaf ==> children == [])
      requires t.keys == keys[..n] && t.leaf == leaf && Family(children[..m], t.children)
      requires this !in ReprOf(children[..m])
      modifies this
      ensures Valid() && tree == t && Repr == {this} + old(ReprOf(children[..m]))
    {
      hide Family, ReprOf;
      ghost var kids := children[..m];
      Members(kids, t.children);
      keys := keys[..n];
      if !leaf {
        children := children[..m];
      }
      Repaint(t);
    }

    /** Brings the ghost picture up to date with the fields. */
    ghost method Repaint(t: Tree)
      requires t.keys == keys && t.leaf == leaf && Family(children, t.children)
      requires this !in ReprOf(children)
      modifies this`tree, this`Repr
      ensures Valid() && tree == t && Repr == {this} + ReprOf(children)
      ensures ReprOf(children) == old(ReprOf(children))
    {
      tree, Repr := t, {this} + ReprOf(children);
      forall i | 0 <= i < |children| ensures children[i] in children[i].Repr && this !in children[i].Repr {
        assert old(children[i].Valid());
        assert children[i].Repr <= ReprOf(children);
      }
    }
  }

  /** What a node splits into around the full child at `index`. */
  lemma SplitParts(node: BTreeNode, d: nat, index: nat)
    requires node.Valid() && Splittable(node.tree, d, index)
    ensures node.tree.keys == node.keys && node.tree.leaf == node.leaf
    ensures index < |node.children| == |node.tree.children| && index <= |node.keys|
    ensures var kids, full, t := node.children, node.children[index], node.tree;
      && full.Valid() && Full(full.tree, d) && full.keys == full.tree.keys && |full.keys| == 2 * d - 1
      && Family(kids[..index], t.children[..index]) && Family(kids[index + 1..], t.children[index + 1..])
      && ReprOf(kids[..index]) !! full.Repr && ReprOf(kids[index + 1..]) !! full.Repr
      && ReprOf(kids[..index]) !! ReprOf(kids[index + 1..])
      && node in node.Repr && full in full.Repr
      && (var a := kids[..index]; forall c | c in a :: c in ReprOf(a))
      && (var b := kids[index + 1..]; forall c | c in b :: c in ReprOf(b))
      && ReprOf(kids[..index]) + full.Repr + ReprOf(kids[index + 1..]) <= node.Repr
      && node !in ReprOf(kids[..index]) + full.Repr + ReprOf(kids[index + 1..])
      && SplitChild(t, d, index)
         == Node(t.keys[..index] + [full.keys[d - 1]] + t.keys[index..],
                 t.children[..index] + [LeftHalf(full.tree, d), RightHalf(full.tree, d)] + t.children[index + 1..],
                 t.leaf)
  {
    node.Unfold();
    FamilyAround(node.children, node.tree.children, index);
    Members(node.children[..index], node.tree.children[..index]);
    Members(node.children[index + 1..], node.tree.children[index + 1..]);
  }

  lemma ChildParts(node: BTreeNode, h: nat, i: nat)
    requires node.Valid() && Uniform(node.tree, h) && !node.leaf && i < |node.children|
    ensures node.tree.keys == node.keys && node.tree.leaf == node.leaf
    ensures |node.children| == |node.tree.children| && h > 0
    ensures var kids, c, t := node.children, node.children[i], node.tree;
      && c.Valid() && Uniform(c.tree, h - 1) && c.tree == t.children[i]
      && Family(kids[..i], t.children[..i]) && Family(kids[i + 1..], t.children[i + 1..])
      && ReprOf(kids[..i]) !! c.Repr && ReprOf(kids[i + 1..]) !! c.Repr
      && ReprOf(kids[..i]) !! ReprOf(kids[i + 1..])
      && ReprOf(kids[..i]) + c.Repr + ReprOf(kids[i + 1..]) <= node.Repr
      && node !in ReprOf(kids[..i]) + c.Repr + ReprOf(kids[i + 1..])
      && node in node.Repr && c in c.Repr
      && (var a := kids[..i]; forall c | c in a :: c in ReprOf(a))
      && (var b := kids[i + 1..]; forall c | c in b :: c in ReprOf(b))
  {
    node.Unfold();
    FamilyAround(node.children, node.tree.children, i);
    Members(node.children[..i], node.tree.children[..i]);
    Members(node.children[i + 1..], node.tree.children[i + 1..]);
  }

  class BTree {
    var root: BTreeNode
    const minDegree: nat

    ghost var inserted: seq<int>    // every key passed to Insert, in order
    ghost var height: nat

    ghost predicate Valid()
      reads this, root, root.Repr
    {
      && minDegree >= 2
      && root.Valid()
      && State(root.tree, height) == Run(minDegree, inserted)
    }

    /** An empty tree; a minimum degree below 2 stops the program in the source. */
    constructor (minDegree: nat)
      requires minDegree >= 2
      ensures Valid() && inserted == [] && this.minDegree == minDegree
      ensures fresh(root.Repr)
    {
      root := new BTreeNode(true);
      this.minDegree := minDegree;
      inserted, height := [], 0;
    }

    /** True exactly for the keys inserted so far. */
    method Search(key: int) returns (found: bool)
      requires Valid()
      ensures found <==> key in inserted
    {
      SearchExact(minDegree, inserted, key);
      found := SearchBTree(root, key, height);
    }

    static method SearchBTree(node: BTreeNode, key: int, ghost h: nat) returns (found: bool)
      requires node.Valid() && Uniform(node.tree, h)
      ensures found == BTreeSpec.Search(node.tree, h, key)
      decreases h
    {
      var i := 0;
      while i < |node.keys| && key > node.keys[i]
        invariant i <= |node.keys|
        invariant forall j | 0 <= j < i :: node.keys[j] < key
      {
        i := i + 1;
      }
      assert i == LowerIndex(node.keys, key);
      if i < |node.keys| && key == node.keys[i] {
        return true;
      }
      if node.leaf {
        return false;
      }
      found := SearchBTree(node.children[i], key, h - 1);
    }

    /** The index the scan from the right stops at: the last key that is not above `key`, or -1. */
    static method ScanFromRight(node: BTreeNode, key: int) returns (i: int)
      ensures -1 <= i < |node.keys|
      ensures i + 1 == UpperIndex(node.keys, key)
    {
      i := |node.keys| - 1;
      while i >= 0 && key < node.keys[i]
        invariant -1 <= i < |node.keys|
        invariant forall j | i < j < |node.keys| :: key < node.keys[j]
      {
        i := i - 1;
      }
    }

    /** The upper half of a full node moves to a new sibling; the median is handed to the caller. */
    method Halve(full: BTreeNode) returns (middle: int, sibling: BTreeNode)
      requires full.Valid() && Full(full.tree, minDegree)
      modifies full
      ensures fresh(sibling) && full.Valid() && sibling.Valid() && full.Repr !! sibling.Repr
      ensures middle == old(full.keys)[minDegree - 1]
      ensures full.tree == LeftHalf(old(full.tree), minDegree)
      ensures sibling.tree == RightHalf(old(full.tree), minDegree)
      ensures full.Repr <= old(full.Repr) && sibling.Repr <= {sibling} + old(full.Repr)
    {
      ghost var before, kids := full.tree, full.children;
      ghost var m := if full.leaf then 0 else minDegree;
      full.Unfold();
      HalvesShape(before, minDegree);
      FamilySplit(kids, before.children, m);
      assert |full.keys| == 2 * minDegree - 1 && |kids| == if full.leaf then 0 else 2 * minDegree;
      hide *;
      sibling := new BTreeNode.Upper(full, minDegree);
      middle := full.keys[minDegree - 1];
      full.Truncate(minDegree - 1, if full.leaf then 0 else minDegree, LeftHalf(before, minDegree));
    }

    /** Splits the full child at `index` around its median, which moves up into `parent`. */
    method SplitChild(parent: BTreeNode, index: nat)
      requires parent.Valid() && Splittable(parent.tree, minDegree, index)
      modifies parent, parent.children[index]
      ensures parent.Valid() && parent.tree == BTreeSpec.SplitChild(old(parent.tree), minDegree, index)
      ensures fresh(parent.Repr - old(parent.Repr))
    {
      hide *;
      ghost var kids, t := parent.children, parent.tree;
      SplitParts(parent, minDegree, index);
      var full := parent.children[index];
      var middle, sibling := Halve(full);
      FamilyPair(full, sibling);
      FamilyRejoin(kids[..index], t.children[..index], [full, sibling], [full.tree, sibling.tree],
                   kids[index + 1..], t.children[index + 1..]);
      parent.keys := parent.keys[..index] + [middle] + parent.keys[index..];
      parent.children := parent.children[..index + 1] + [sibling] + parent.children[index + 1..];
      assert parent.children == kids[..index] + [full, sibling] + kids[index + 1..];
      parent.Repaint(BTreeSpec.SplitChild(t, minDegree, index));
    }

    /** Inserts below a node that has room, splitting full children on the way down. */
    method InsertNonFull(node: BTreeNode, key: int, ghost h: nat)
      requires minDegree > 0 && node.Valid() && Uniform(node.tree, h)
      modifies node.Repr
      ensures node.Valid()
      ensures node.tree == BTreeSpec.InsertNonFull(old(node.tree), minDegree, h, key)
      ensures fresh(node.Repr - old(node.Repr))
      decreases h
    {
      hide *;
      node.Unfold();
      var i := ScanFromRight(node, key);
      if node.leaf {
        InsertInLeaf(node, i, key, h);
        return;
      }
      InnerInsertion(node.tree, minDegree, h, key);
      i := SplitIfFull(node, i + 1, key, h);
      InsertBelow(node, i, key, h);
    }

    /** The leaf case: stores the key at its place unless the key before that place is the same. */
    method InsertInLeaf(node: BTreeNode, i: int, key: int, ghost h: nat)
      requires minDegree > 0 && node.Valid() && Uniform(node.tree, h) && node.leaf
      requires -1 <= i < |node.keys| && i + 1 == UpperIndex(node.keys, key)
      modifies node
      ensures node.Valid() && node.Repr <= old(node.Repr)
      ensures node.tree == BTreeSpec.InsertNonFull(old(node.tree), minDegree, h, key)
    {
      hide *;
      node.Unfold();
      LeafInsertion(node.tree, minDegree, h, key);
      ghost var before := node.tree;
      if i < 0 || node.keys[i] != key {
        node.keys := node.keys[..i + 1] + [key] + node.keys[i + 1..];
        node.Repaint(BTreeSpec.InsertNonFull(before, minDegree, h, key));
      }
    }

    /** Splits the child the descent is about to enter if it has no room. */
    method SplitIfFull(node: BTreeNode, i: nat, key: int, ghost h: nat) returns (i': nat)
      requires minDegree > 0 && node.Valid() && Uniform(node.tree, h) && !node.leaf
      requires i == UpperIndex(node.keys, key)
      modifies node.Repr
      ensures node.Valid() && node.tree == Prepared(old(node.tree), minDegree, h, key)
      ensures i' == Entered(old(node.tree), minDegree, h, key)
      ensures fresh(node.Repr - old(node.Repr))
    {
      i' := i;
      if |node.children[i].keys| == 2 * minDegree - 1 {
        SplitUniform(node.tree, minDegree, h, i);
        SplitChild(node, i);
        if key > node.keys[i] {
          i' := i' + 1;
        }
      }
    }

    /** The recursive step of the descent: only the subtree under child `i` changes. */
    method InsertBelow(node: BTreeNode, i: nat, key: int, ghost h: nat)
      requires minDegree > 0 && node.Valid() && Uniform(node.tree, h) && !node.leaf && i < |node.children|
      modifies node.Repr
      ensures node.Valid()
      ensures node.tree == old(node.tree).(children := old(node.tree).children[i :=
                BTreeSpec.InsertNonFull(old(node.tree).children[i], minDegree, h - 1, key)])
      ensures fresh(node.Repr - old(node.Repr))
      decreases h, 0
    {
      hide *;
      ghost var kids, t := node.children, node.tree;
      ChildParts(node, h, i);
      var c := node.children[i];
      InsertNonFull(c, key, h - 1);
      FamilySingle(c);
      FamilyRejoin(kids[..i], t.children[..i], [c], [c.tree], kids[i + 1..], t.children[i + 1..]);
      assert kids == kids[..i] + [c] + kids[i + 1..];
      assert t.children[i := c.tree] == t.children[..i] + [c.tree] + t.children[i + 1..];
      node.Repaint(t.(children := t.children[i := c.tree]));
    }

    /** Adds `key`; when the root is full the tree first grows by one level. */
    method Insert(key: int)
      requires Valid()
      modifies this, root.Repr
      ensures Valid() && inserted == old(inserted) + [key]
      ensures fresh(root.Repr - old(root.Repr))
    {
      hide BTreeNode.Valid, GrownRoot, GrownHeight, Run, Uniform, BTreeSpec.InsertNonFull;
      RunGrows(minDegree, inserted, key);
      ghost var h := GrownHeight(root.tree, minDegree, height);
      GrowRoot();
      InsertNonFull(root, key, h);
      height, inserted := h, inserted + [key];
    }

    /** A full root is split under a new root, which has that root as its only child. */
    method GrowRoot()
      requires minDegree >= 2 && root.Valid() && Uniform(root.tree, height)
      modifies this, root.Repr
      ensures root.Valid() && root.tree == GrownRoot(old(root.tree), minDegree)
      ensures fresh(root.Repr - old(root.Repr))
      ensures inserted == old(inserted) && height == old(height)
    {
      hide BTreeNode.Valid, Family, ReprOf;
      root.Unfold();
      if |root.keys| == 2 * minDegree - 1 {
        var next := new BTreeNode(false);
        next.children := [root];
        FamilySingle(root);
        next.Repaint(Node([], [root.tree], false));
        SplitChild(next, 0);
        root := next;
      }
    }
  }
}
