/**
 The skip list of 05-Skip-List/main.go on the heap: nodes spliced into and out of several lists by
 assigning forward pointers. The tower sequence of `SkipListSpec` says where every pointer leads.
 */
module SkipLists {
  import opened Options
  import opened SkipListSpec

  class SkipNode<V(0)> {
    const key: int
    var value: V
    var forward: seq<SkipNode?<V>>

    constructor (key: int, value: V, levels: nat)
      ensures this.key == key && this.value == value
      ensures forward == seq(levels, _ => null)
    {
      this.key, this.value, forward := key, value, seq(levels, _ => null);
    }

    /** The head, whose key is never compared and whose value is the type's default. */
    constructor Head(levels: nat)
      ensures forward == seq(levels, _ => null)
    {
      key, forward := -0x4000_0000_0000_0000, seq(levels, _ => null);
    }
  }

  /** The node of tower `n`; the head comes before tower 0. */
  ghost function At<V(0)>(nodes: seq<SkipNode<V>>, n: nat): SkipNode?<V> {
    if n + 1 < |nodes| then nodes[n + 1] else null
  }

  /** The forward pointers of every node. */
  type Pointers<V(0)> = seq<seq<SkipNode?<V>>>

  ghost function Forwards<V(0)>(nodes: seq<SkipNode<V>>): (fw: Pointers<V>)
    reads nodes`forward
    ensures |fw| == |nodes| && forall a | 0 <= a < |nodes| :: fw[a] == nodes[a].forward
  {
    if nodes == [] then []
    else Forwards(nodes[..|nodes| - 1]) + [nodes[|nodes| - 1].forward]
  }

  ghost predicate Distinct<V(0)>(nodes: seq<SkipNode<V>>) {
    forall a, b | 0 <= a < b < |nodes| :: nodes[a] != nodes[b]
  }

  /** After the head, one node per tower with its key and value. */
  ghost predicate Labelled<V(0)>(nodes: seq<SkipNode<V>>, ts: seq<Tower<V>>)
    reads nodes`value
  {
    && |nodes| == |ts| + 1
    && forall a | 1 <= a < |nodes| :: nodes[a].key == ts[a - 1].key && nodes[a].value == ts[a - 1].value
  }

  /** Every node has a pointer for each list it is threaded on. */
  ghost predicate Tall<V(0)>(fw: Pointers<V>, ts: seq<Tower<V>>, maxLevel: nat) {
    |fw| == |ts| + 1 && forall a | 0 <= a < |fw| :: |fw[a]| == HeightAt(ts, maxLevel, a)
  }

  /** Every pointer leads to the next node tall enough for its level. */
  ghost predicate ThreadedBy<V(0)>(nodes: seq<SkipNode<V>>, fw: Pointers<V>, ts: seq<Tower<V>>) {
    && |nodes| == |fw| == |ts| + 1
    && forall a, i | 0 <= a < |fw| && 0 <= i < |fw[a]| :: fw[a][i] == At(nodes, Next(ts, a, i))
  }

  /** The nodes are the towers', all different and tall enough. */
  ghost predicate Stands<V(0)>(nodes: seq<SkipNode<V>>, ts: seq<Tower<V>>, maxLevel: nat)
    reads nodes
  {
    Labelled(nodes, ts) && Distinct(nodes) && Tall(Forwards(nodes), ts, maxLevel)
  }

  ghost predicate Threaded<V(0)>(nodes: seq<SkipNode<V>>, ts: seq<Tower<V>>)
    reads nodes
  {
    ThreadedBy(nodes, Forwards(nodes), ts)
  }

  /** The number of lists node `a` is threaded on; the head is threaded on all of them. */
  ghost function HeightAt<V>(ts: seq<Tower<V>>, maxLevel: nat, a: nat): nat
    requires a <= |ts|
  {
    if a == 0 then maxLevel + 1 else ts[a - 1].height
  }

  /** `at[i]` is the last node before tower `p` that is tall enough for level `i`. */
  ghost predicate Precedes<V>(ts: seq<Tower<V>>, maxLevel: nat, p: nat, i: nat, a: nat) {
    a <= p <= |ts| && HeightAt(ts, maxLevel, a) > i && Next(ts, a, i) >= p
  }

  lemma TallAt<V(0)>(nodes: seq<SkipNode<V>>, ts: seq<Tower<V>>, maxLevel: nat, a: nat)
    requires Stands(nodes, ts, maxLevel) && a <= |ts|
    ensures |nodes| == |ts| + 1 && |nodes[a].forward| == HeightAt(ts, maxLevel, a)
  {
    assert |Forwards(nodes)[a]| == HeightAt(ts, maxLevel, a);
  }

  /** Where a pointer leads, and on which side of the key. */
  lemma Follows<V(0)>(nodes: seq<SkipNode<V>>, ts: seq<Tower<V>>, maxLevel: nat, a: nat, i: nat, key: int)
    requires Stands(nodes, ts, maxLevel) && Threaded(nodes, ts) && Sorted(ts)
    requires a < |nodes| && i < |nodes[a].forward|
    ensures var n, hit := Next(ts, a, i), nodes[a].forward[i];
      if n == |ts| then hit == null
      else
        && |nodes| == |ts| + 1 && hit == nodes[n + 1] && hit.key == ts[n].key && hit.value == ts[n].value
        && |hit.forward| > i && a <= n && (hit.key < key <==> n < Position(ts, key))
  {
    hide Forwards, Next, Position;
    var n := Next(ts, a, i);
    assert Forwards(nodes)[a][i] == At(nodes, n);
    if n < |ts| {
      assert |Forwards(nodes)[n + 1]| == HeightAt(ts, maxLevel, n + 1);
    }
  }

  /** Sets one pointer of one node. */
  method SetForward<V(0)>(node: SkipNode<V>, i: nat, to: SkipNode?<V>, ghost nodes: seq<SkipNode<V>>, ghost k: nat)
    requires Distinct(nodes) && k < |nodes| && node == nodes[k] && i < |node.forward|
    modifies node`forward
    ensures node.forward == old(node.forward)[i := to]
    ensures Forwards(nodes) == old(Forwards(nodes))[k := old(node.forward)[i := to]]
  {
    node.forward := node.forward[i := to];
  }

  class SkipList<V(0)> {
    var head: SkipNode<V>
    var level: nat
    const maxLevel: nat

    ghost var nodes: seq<SkipNode<V>>
    ghost var towers: seq<Tower<V>>
    ghost var calls: seq<Op<V>>

    ghost function Repr(): set<SkipNode<V>>
      reads this
    {
      set n | n in nodes
    }

    ghost predicate Valid()
      reads this, nodes
    {
      && Stands(nodes, towers, maxLevel) && Threaded(nodes, towers)
      && nodes[0] == head
      && Sorted(towers) && Standing(towers, maxLevel)
      && level == Level(towers) <= maxLevel
      && towers == Run(calls)
    }

    constructor (maxLevel: int)
      ensures Valid() && calls == [] && fresh(Repr())
      ensures this.maxLevel == if maxLevel <= 0 then 16 else maxLevel
    {
      var m := if maxLevel <= 0 then 16 else maxLevel;
      this.maxLevel := m;
      var h := new SkipNode<V>.Head(m + 1);
      head, level := h, 0;
      nodes, towers, calls := [h], [], [];
    }

    /** The value stored under `key`, if any. */
    method Search(key: int) returns (r: Option<V>)
      requires Valid()
      ensures r == if key in RunMap(calls) then Some(RunMap(calls)[key]) else None
    {
      Answers(key);
      r := Lookup(key);
    }

    /** What a lookup through the towers finds is what a plain map fed the same calls holds. */
    lemma Answers(key: int)
      requires Valid()
      ensures Find(towers, key) == if key in RunMap(calls) then Some(RunMap(calls)[key]) else None
      ensures Present(towers, key) <==> key in RunMap(calls)
    {
      hide Forwards, Run, RunMap, Contents, Position;
      RunRefinesMap(calls);
      FindIsLookup(towers, key);
    }

    method Lookup(key: int) returns (r: Option<V>)
      requires Valid()
      ensures r == Find(towers, key)
    {
      hide Forwards, Position, Next, Level, Run, Stands, Threaded, Sorted, Standing;
      var node: SkipNode<V> := head;
      ghost var a: nat := 0;
      TallAt(nodes, towers, maxLevel, 0);
      for i := level + 1 downto 0
        invariant OnTheWay(key, node, a, i)
        invariant i == 0 ==> a < |nodes| && Next(towers, a, 0) >= Position(towers, key) && |node.forward| > 0
      {
        node, a := Walk(key, node, i, a);
      }
      NextOnGround(towers, maxLevel, a);
      Follows(nodes, towers, maxLevel, a, 0, key);
      var hit := node.forward[0];
      if hit != null && hit.key == key {
        return Some(hit.value);
      }
      return None;
    }

    /** The walk stands at node `a`, before the key, and can go on at the level below `i`. */
    ghost predicate OnTheWay(key: int, node: SkipNode<V>, a: nat, i: nat)
      reads this, nodes
    {
      a <= Position(towers, key) && a < |nodes| && node == nodes[a] && |node.forward| >= i
    }

    /** The inner loop: goes as far as level `i` leads before the key. */
    method Walk(key: int, start: SkipNode<V>, i: nat, ghost from: nat) returns (node: SkipNode<V>, ghost a: nat)
      requires Valid() && OnTheWay(key, start, from, i + 1)
      ensures OnTheWay(key, node, a, i + 1)
      ensures |node.forward| > i && (node.forward[i] == null || node.forward[i].key >= key)
      ensures Precedes(towers, maxLevel, Position(towers, key), i, a)
      ensures Next(towers, a, i) >= Position(towers, key)
    {
      hide Forwards, Position, Next, Level, Run, Stands, Threaded, Sorted, Standing;
      node, a := start, from;
      Follows(nodes, towers, maxLevel, a, i, key);
      while node.forward[i] != null && node.forward[i].key < key
        invariant OnTheWay(key, node, a, i + 1)
        decreases |nodes| - a
      {
        Follows(nodes, towers, maxLevel, a, i, key);
        node, a := node.forward[i], Next(towers, a, i) + 1;
      }
      Follows(nodes, towers, maxLevel, a, i, key);
      TallAt(nodes, towers, maxLevel, a);
    }

    /** The walk of `Insert` and `Delete`, which remembers where it turns down on each level. */
    method Descend(key: int) returns (node: SkipNode<V>, update: seq<SkipNode?<V>>, ghost at: seq<nat>)
      requires Valid()
      ensures var p := Position(towers, key); node == nodes[p] && |node.forward| > 0
      ensures |update| == |at| == maxLevel + 1
      ensures forall l | 0 <= l <= level ::
        Precedes(towers, maxLevel, Position(towers, key), l, at[l]) && update[l] == nodes[at[l]]
    {
      hide Forwards, Position, Next, Level, Run, Stands, Threaded, Sorted, Standing;
      update, at := seq(maxLevel + 1, _ => null), seq(maxLevel + 1, _ => 0);
      node := head;
      ghost var a: nat := 0;
      TallAt(nodes, towers, maxLevel, 0);
      for i := level + 1 downto 0
        invariant OnTheWay(key, node, a, i)
        invariant i == 0 ==> a < |nodes| && Next(towers, a, 0) >= Position(towers, key) && |node.forward| > 0
        invariant |update| == |at| == maxLevel + 1
        invariant forall l | i <= l <= level ::
          Precedes(towers, maxLevel, Position(towers, key), l, at[l]) && update[l] == nodes[at[l]]
      {
        node, a := Walk(key, node, i, a);
        update, at := update[i := node], at[i := a];
      }
      NextOnGround(towers, maxLevel, a);
    }

    /** Splices `created` in behind the remembered nodes, one level at a time. */
    method Splice(created: SkipNode<V>, update: seq<SkipNode?<V>>, ghost p: nat, ghost at: seq<nat>)
      requires Stands(nodes, towers, maxLevel) && Threaded(nodes, towers)
      requires created !in nodes && |created.forward| <= |update| == |at|
      requires forall l | 0 <= l < |created.forward| ::
        Precedes(towers, maxLevel, p, l, at[l]) && update[l] == nodes[at[l]]
      modifies created`forward, nodes`forward
      ensures |created.forward| == old(|created.forward|)
      ensures Stands(nodes, towers, maxLevel)
      ensures Spliced(nodes, Forwards(nodes), towers, at, created, created.forward, |created.forward|)
    {
      hide Forwards, Next, At, Threaded, Spliced, Labelled, Distinct, Tall;
      ghost var n := |created.forward|;
      NothingSpliced(nodes, towers, at, created);
      for i := 0 to |created.forward|
        invariant |created.forward| == n && Stands(nodes, towers, maxLevel)
        invariant Spliced(nodes, Forwards(nodes), towers, at, created, created.forward, i)
      {
        assert Precedes(towers, maxLevel, p, i, at[i]);
        TallAt(nodes, towers, maxLevel, at[i]);
        SpliceLevel(created, update[i], i, at);
      }
    }

    method SpliceLevel(created: SkipNode<V>, pred: SkipNode<V>, i: nat, ghost at: seq<nat>)
      requires Stands(nodes, towers, maxLevel)
      requires Spliced(nodes, Forwards(nodes), towers, at, created, created.forward, i)
      requires created !in nodes && i < |created.forward| && i < |at|
      requires at[i] < |nodes| && pred == nodes[at[i]] && i < |pred.forward|
      modifies created`forward, pred`forward
      ensures |created.forward| == old(|created.forward|)
      ensures Stands(nodes, towers, maxLevel)
      ensures Spliced(nodes, Forwards(nodes), towers, at, created, created.forward, i + 1)
    {
      hide Forwards, Spliced, Labelled, Distinct, Tall;
      ghost var fw, cf := Forwards(nodes), created.forward;
      SpliceStep(nodes, fw, towers, at, created, cf, i);
      TallStill(fw, towers, maxLevel, at[i], i, created);
      created.forward := created.forward[i := pred.forward[i]];
      assert Forwards(nodes) == fw;
      SetForward(pred, i, created, nodes, at[i]);
    }

    /** Adds `key` or updates its value; `newLevel` is what the coin flips gave. */
    method Insert(key: int, value: V, newLevel: nat)
      requires Valid() && newLevel <= maxLevel
      modifies this, Repr()
      ensures Valid() && calls == old(calls) + [Put(key, value, newLevel)]
      ensures fresh(Repr() - old(Repr()))
    {
      hide Forwards, Valid, Run;
      Unfold();
      var node, update, at := Descend(key);
      FoundIsPresent(key);
      var existing := node.forward[0];
      if existing != null && existing.key == key {
        Overwrite(existing, key, value, newLevel);
      } else {
        InsertNew(key, value, newLevel, update, at);
      }
    }

    lemma Unfold()
      requires Valid()
      ensures Stands(nodes, towers, maxLevel) && nodes[0] == head && Threaded(nodes, towers)
      ensures Sorted(towers) && Standing(towers, maxLevel) && towers == Run(calls)
      ensures level == Level(towers) <= maxLevel
    {
    }

    /** The node after the walk holds the key exactly when the key is present. */
    lemma FoundIsPresent(key: int)
      requires Valid()
      ensures var p := Position(towers, key);
        |nodes[p].forward| > 0 ==>
          var hit := nodes[p].forward[0];
          && (Present(towers, key) <==> hit != null && hit.key == key)
          && (Present(towers, key) ==> p + 1 < |nodes| && hit == nodes[p + 1])
    {
      NextOnGround(towers, maxLevel, Position(towers, key));
    }

    method Overwrite(existing: SkipNode<V>, key: int, value: V, ghost newLevel: nat)
      requires Valid() && Present(towers, key)
      requires Position(towers, key) + 1 < |nodes| && existing == nodes[Position(towers, key) + 1]
      modifies existing`value, this`towers, this`calls
      ensures Valid() && calls == old(calls) + [Put(key, value, newLevel)]
    {
      hide Forwards, Run, Position, Next, Level, Sorted;
      RunStep(calls, Put(key, value, newLevel));
      InsertSorted(towers, key, value, newLevel);
      OverwriteKeepsHeights(towers, key, value, newLevel);
      existing.value := value;
      towers, calls := SkipListSpec.Insert(towers, key, value, newLevel), calls + [Put(key, value, newLevel)];
    }

    method InsertNew(key: int, value: V, newLevel: nat, update0: seq<SkipNode?<V>>, ghost at0: seq<nat>)
      requires Valid() && newLevel <= maxLevel && !Present(towers, key)
      requires |update0| == |at0| == maxLevel + 1
      requires forall l | 0 <= l <= level ::
        Precedes(towers, maxLevel, Position(towers, key), l, at0[l]) && update0[l] == nodes[at0[l]]
      modifies this, nodes`forward
      ensures Valid() && calls == old(calls) + [Put(key, value, newLevel)]
      ensures forall n | n in nodes :: n in old(nodes) || fresh(n)
    {
      hide Forwards, Valid, Run, Position, Sorted, Standing, Level, Next, SkipListSpec.Insert, Present;
      hide Labelled, Distinct, Tall, Stands, Threaded, Spliced, InsertAt;
      Unfold();
      ghost var p, t := Position(towers, key), Tower(key, value, newLevel + 1);
      TallAt(nodes, towers, maxLevel, 0);
      var update, at := RaiseTo(newLevel, p, update0, at0);
      var created := new SkipNode<V>(key, value, newLevel + 1);
      Splice(created, update, p, at);
      SplicedIsThreaded(nodes, towers, maxLevel, at, created, p, t);
      InsertionSpec(towers, key, value, newLevel, maxLevel);
      RunStep(calls, Put(key, value, newLevel));
      Record(NodesWith(nodes, p, created), InsertAt(towers, p, t), Put(key, value, newLevel));
      Refold();
    }

    /** What the list shows after a call that changed it. */
    ghost method Record(ns: seq<SkipNode<V>>, ts: seq<Tower<V>>, call: Op<V>)
      modifies `nodes, `towers, `calls
      ensures nodes == ns && towers == ts && calls == old(calls) + [call]
    {
      nodes, towers, calls := ns, ts, calls + [call];
    }

    lemma Refold()
      requires |nodes| > 0 && Stands(nodes, towers, maxLevel) && nodes[0] == head && Threaded(nodes, towers)
      requires Sorted(towers) && Standing(towers, maxLevel) && towers == Run(calls)
      requires level == Level(towers) <= maxLevel
      ensures Valid()
    {
    }

    /** Levels above the current top start at the head. */
    method RaiseTo(newLevel: nat, ghost p: nat, update0: seq<SkipNode?<V>>, ghost at0: seq<nat>)
      returns (update: seq<SkipNode?<V>>, ghost at: seq<nat>)
      requires Valid() && newLevel <= maxLevel && p <= |towers|
      requires |update0| == |at0| == maxLevel + 1
      requires forall l | 0 <= l <= level :: Precedes(towers, maxLevel, p, l, at0[l]) && update0[l] == nodes[at0[l]]
      modifies `level
      ensures |update| == |at| == maxLevel + 1
      ensures forall l | 0 <= l <= newLevel :: Precedes(towers, maxLevel, p, l, at[l]) && update[l] == nodes[at[l]]
      ensures level == if newLevel > old(level) then newLevel else old(level)
    {
      hide Forwards, Run, Next, Level, Sorted;
      update, at := update0, at0;
      if newLevel > level {
        LevelIsTop(towers);
        for i := level + 1 to newLevel + 1
          invariant |update| == |at| == maxLevel + 1
          invariant forall l | 0 <= l < i :: Precedes(towers, maxLevel, p, l, at[l]) && update[l] == nodes[at[l]]
        {
          NextUnique(towers, 0, i, |towers|);
          update, at := update[i := head], at[i := 0];
        }
        level := newLevel;
      }
    }

    /** Removes `key`; true exactly when it was there. */
    method Delete(key: int) returns (found: bool)
      requires Valid()
      modifies this, Repr()
      ensures Valid() && calls == old(calls) + [Drop(key)]
      ensures found <==> key in RunMap(old(calls))
      ensures Repr() <= old(Repr())
    {
      hide Forwards, Valid, Run, RunMap, Position, Present, Next, Level, Sorted, Threaded;
      Unfold();
      Answers(key);
      var node, update, at := Descend(key);
      FoundIsPresent(key);
      RunStep(calls, Drop(key));
      var target := node.forward[0];
      if target == null || target.key != key {
        DeleteMiss(key);
        return false;
      }
      Remove(key, target, update, at);
      return true;
    }

    ghost method DeleteMiss(key: int)
      requires Valid() && !Present(towers, key)
      modifies `calls
      ensures Valid() && calls == old(calls) + [Drop(key)]
    {
      RunStep(calls, Drop(key));
      calls := calls + [Drop(key)];
    }

    method Remove(key: int, target: SkipNode<V>, update: seq<SkipNode?<V>>, ghost at: seq<nat>)
      requires Valid() && Present(towers, key)
      requires var p := Position(towers, key); p + 1 < |nodes| && target == nodes[p + 1]
      requires |update| == |at| == maxLevel + 1
      requires forall l | 0 <= l <= level ::
        Precedes(towers, maxLevel, Position(towers, key), l, at[l]) && update[l] == nodes[at[l]]
      modifies this, nodes`forward
      ensures Valid() && calls == old(calls) + [Drop(key)]
      ensures forall n | n in nodes :: n in old(nodes)
    {
      hide Forwards, Valid, Run, Position, Sorted, Standing, Level, Next, Threaded, Present, Labelled, Distinct, Tall;
      hide Stands;
      Unfold();
      ghost var p := Position(towers, key);
      TallAt(nodes, towers, maxLevel, 0);
      Unlink(target, update, p, at);
      UnlinkedIsThreaded(nodes, towers, maxLevel, at, p);
      DeletionSpec(towers, key, maxLevel);
      RunStep(calls, Drop(key));
      Record(nodes[..p + 1] + nodes[p + 2..], RemoveAt(towers, p), Drop(key));
      Trim();
      Refold();
    }

    /** Unlinks `target` level by level, up to the first list it is not threaded on. */
    method Unlink(target: SkipNode<V>, update: seq<SkipNode?<V>>, ghost p: nat, ghost at: seq<nat>)
      requires Stands(nodes, towers, maxLevel) && Threaded(nodes, towers) && level == Level(towers) <= maxLevel
      requires p < |towers| && target == nodes[p + 1] && |update| == |at| == maxLevel + 1
      requires forall l | 0 <= l <= level :: Precedes(towers, maxLevel, p, l, at[l]) && update[l] == nodes[at[l]]
      modifies nodes`forward
      ensures Stands(nodes, towers, maxLevel)
      ensures towers[p].height <= level + 1
      ensures Unlinked(nodes, Forwards(nodes), towers, at, p, towers[p].height)
    {
      hide Forwards, Level, Next, At, Unlinked, Threaded, Labelled, Distinct, Tall;
      LevelIsTop(towers);
      NothingUnlinked(nodes, towers, at, p);
      var i := 0;
      TallAt(nodes, towers, maxLevel, at[0]);
      while i <= level && update[i].forward[i] == target
        invariant i <= towers[p].height && i <= level + 1
        invariant i <= level ==> at[i] < |nodes| && i < |nodes[at[i]].forward|
        invariant Stands(nodes, towers, maxLevel) && Unlinked(nodes, Forwards(nodes), towers, at, p, i)
        decreases level + 1 - i
      {
        UnlinkLevel(target, update[i], i, p, at);
        i := i + 1;
        if i <= level {
          TallAt(nodes, towers, maxLevel, at[i]);
        }
      }
      if i <= level && i < towers[p].height {
        StillLinked(nodes, towers, maxLevel, at, p, i);
        assert false;
      }
    }

    method UnlinkLevel(target: SkipNode<V>, pred: SkipNode<V>, i: nat, ghost p: nat, ghost at: seq<nat>)
      requires Stands(nodes, towers, maxLevel) && Unlinked(nodes, Forwards(nodes), towers, at, p, i)
      requires p < |towers| && |nodes| == |towers| + 1 && target == nodes[p + 1] && i < |at|
      requires Precedes(towers, maxLevel, p, i, at[i]) && at[i] < |nodes| && pred == nodes[at[i]]
      requires i < |pred.forward| && pred.forward[i] == target
      modifies pred`forward
      ensures Stands(nodes, towers, maxLevel) && Unlinked(nodes, Forwards(nodes), towers, at, p, i + 1)
      ensures i < towers[p].height
    {
      hide Forwards, Unlinked, Labelled, Distinct, Tall, Precedes;
      ghost var fw := Forwards(nodes);
      UnlinkStep(nodes, fw, towers, maxLevel, at, p, i);
      TallStill(fw, towers, maxLevel, at[i], i, fw[p + 1][i]);
      SetForward(pred, i, if i < |target.forward| then target.forward[i] else null, nodes, at[i]);
    }

    /** Lowers the level past the lists that have become empty. */
    method Trim()
      requires Stands(nodes, towers, maxLevel) && nodes[0] == head && Threaded(nodes, towers)
      requires level <= maxLevel && forall a | 0 <= a < |towers| :: towers[a].height <= level + 1
      modifies `level
      ensures level == Level(towers) <= maxLevel
    {
      hide Forwards, Level, Next, Stands, Threaded;
      TallAt(nodes, towers, maxLevel, 0);
      while level > 0 && head.forward[level] == null
        invariant level <= maxLevel
        invariant forall a | 0 <= a < |towers| :: towers[a].height <= level + 1
      {
        HeadLeads(nodes, towers, maxLevel, level);
        level := level - 1;
      }
      HeadLeads(nodes, towers, maxLevel, level);
      LevelUnique(towers, level);
    }
  }

  /** The head's pointer on a level says whether any tower stands there. */
  lemma HeadLeads<V(0)>(nodes: seq<SkipNode<V>>, ts: seq<Tower<V>>, maxLevel: nat, l: nat)
    requires Stands(nodes, ts, maxLevel) && Threaded(nodes, ts) && l <= maxLevel
    ensures |nodes| > 0 && l < |nodes[0].forward|
    ensures nodes[0].forward[l] == null <==> Next(ts, 0, l) == |ts|
  {
    hide Forwards, Next;
    assert |Forwards(nodes)[0]| == maxLevel + 1;
    assert Forwards(nodes)[0][l] == At(nodes, Next(ts, 0, l));
  }

  /** Replacing a pointer changes no node's height. */
  lemma TallStill<V(0)>(fw: Pointers<V>, ts: seq<Tower<V>>, maxLevel: nat, k: nat, i: nat, to: SkipNode?<V>)
    requires Tall(fw, ts, maxLevel) && k < |fw| && i < |fw[k]|
    ensures Tall(fw[k := fw[k][i := to]], ts, maxLevel)
  {
  }

  /** The lists below level `i` skip the node of tower `p`. */
  ghost predicate Unlinked<V(0)>(nodes: seq<SkipNode<V>>, fw: Pointers<V>, ts: seq<Tower<V>>, at: seq<nat>,
                                 p: nat, i: nat) {
    && |nodes| == |fw| == |ts| + 1 && p < |ts| && i <= |at|
    && (forall b, l | 0 <= b < |fw| && 0 <= l < |fw[b]| ::
          fw[b][l] == At(nodes, if l < i && b == at[l] then Next(ts, p + 1, l) else Next(ts, b, l)))
  }

  lemma NothingUnlinked<V(0)>(nodes: seq<SkipNode<V>>, ts: seq<Tower<V>>, at: seq<nat>, p: nat)
    requires Threaded(nodes, ts) && p < |ts|
    ensures Unlinked(nodes, Forwards(nodes), ts, at, p, 0)
  {
    hide Forwards, Next, At;
  }

  /** A pointer to tower `p` on level `i` shows the tower stands there, and is redirected past it. */
  lemma UnlinkStep<V(0)>(nodes: seq<SkipNode<V>>, fw: Pointers<V>, ts: seq<Tower<V>>, maxLevel: nat, at: seq<nat>,
                         p: nat, i: nat)
    requires Distinct(nodes) && Tall(fw, ts, maxLevel) && Unlinked(nodes, fw, ts, at, p, i) && i < |at|
    requires at[i] < |fw| && i < |fw[at[i]]| && fw[at[i]][i] == nodes[p + 1]
    ensures i < ts[p].height == |fw[p + 1]|
    ensures Unlinked(nodes, fw[at[i] := fw[at[i]][i := fw[p + 1][i]]], ts, at, p, i + 1)
  {
    hide Forwards, Next;
    assert At(nodes, Next(ts, at[i], i)) == nodes[p + 1];
    assert Next(ts, at[i], i) == p;
    hide At, Distinct, Tall;
    assert |fw[p + 1]| == ts[p].height;
    UnlinkedNext(nodes, fw, ts, at, p, i);
  }

  lemma UnlinkedNext<V(0)>(nodes: seq<SkipNode<V>>, fw: Pointers<V>, ts: seq<Tower<V>>, at: seq<nat>, p: nat, i: nat)
    requires Unlinked(nodes, fw, ts, at, p, i) && i < |at| && at[i] < |fw| && i < |fw[at[i]]| && i < |fw[p + 1]|
    ensures Unlinked(nodes, fw[at[i] := fw[at[i]][i := fw[p + 1][i]]], ts, at, p, i + 1)
  {
    hide Forwards, Next, At;
  }

  /** On every list the target stands on, its remembered predecessor still leads to it. */
  lemma StillLinked<V(0)>(nodes: seq<SkipNode<V>>, ts: seq<Tower<V>>, maxLevel: nat, at: seq<nat>, p: nat, i: nat)
    requires Stands(nodes, ts, maxLevel) && Unlinked(nodes, Forwards(nodes), ts, at, p, i) && i < |at|
    requires i < ts[p].height && Precedes(ts, maxLevel, p, i, at[i])
    ensures nodes[at[i]].forward[i] == nodes[p + 1]
  {
    hide Forwards, Labelled, Distinct;
    NextSkips(ts, at[i], p, i);
    NextUnique(ts, p, i, p);
    hide Next;
    assert |Forwards(nodes)[at[i]]| == HeightAt(ts, maxLevel, at[i]);
    assert Forwards(nodes)[at[i]][i] == At(nodes, Next(ts, at[i], i));
  }

  lemma DeletionSpec<V(0)>(ts: seq<Tower<V>>, key: int, maxLevel: nat)
    requires Sorted(ts) && Standing(ts, maxLevel) && Present(ts, key)
    ensures var ts' := Delete(ts, key);
      && ts' == RemoveAt(ts, Position(ts, key)) && Sorted(ts') && Standing(ts', maxLevel)
      && forall a | 0 <= a < |ts'| :: ts'[a].height <= Level(ts) + 1
  {
    hide Level, Next, Position, RemoveAt, Sorted, Standing;
    LevelIsTop(ts);
    DeleteSorted(ts, key);
    Without(ts, Position(ts, key), maxLevel, Level(ts) + 1);
  }

  /** The towers left keep within any bounds all towers kept within. */
  lemma Without<V(0)>(ts: seq<Tower<V>>, p: nat, maxLevel: nat, top: nat)
    requires p < |ts| && Standing(ts, maxLevel) && forall a | 0 <= a < |ts| :: ts[a].height <= top
    ensures Standing(RemoveAt(ts, p), maxLevel)
    ensures var ts' := RemoveAt(ts, p); forall a | 0 <= a < |ts'| :: ts'[a].height <= top
  {
    var ts' := RemoveAt(ts, p);
    assert forall a | 0 <= a < |ts'| :: ts'[a] == ts[if a < p then a else a + 1];
  }

  /** Once every level is unlinked, the shorter node list is threaded as its towers say. */
  lemma UnlinkedIsThreaded<V(0)>(nodes: seq<SkipNode<V>>, ts: seq<Tower<V>>, maxLevel: nat, at: seq<nat>, p: nat)
    requires Stands(nodes, ts, maxLevel) && p < |ts| && ts[p].height <= |at|
    requires Unlinked(nodes, Forwards(nodes), ts, at, p, ts[p].height)
    requires forall l | 0 <= l < ts[p].height :: Precedes(ts, maxLevel, p, l, at[l])
    ensures Stands(nodes[..p + 1] + nodes[p + 2..], RemoveAt(ts, p), maxLevel)
    ensures Threaded(nodes[..p + 1] + nodes[p + 2..], RemoveAt(ts, p))
  {
    hide Forwards, Next, ThreadedBy, Unlinked, Precedes;
    var fw, nodes' := Forwards(nodes), nodes[..p + 1] + nodes[p + 2..];
    LabelledWithout(nodes, ts, p);
    TallWithout(fw, ts, maxLevel, p);
    assert Forwards(nodes') == PointersWithout(fw, p);
    ThreadedWithout(nodes, fw, ts, maxLevel, at, p);
  }

  ghost function PointersWithout<V(0)>(fw: Pointers<V>, p: nat): Pointers<V>
    requires p + 1 < |fw|
  {
    fw[..p + 1] + fw[p + 2..]
  }

  ghost function PointersWith<V(0)>(fw: Pointers<V>, p: nat, cf: seq<SkipNode?<V>>): Pointers<V>
    requires p < |fw|
  {
    fw[..p + 1] + [cf] + fw[p + 1..]
  }

  lemma LabelledWithout<V(0)>(nodes: seq<SkipNode<V>>, ts: seq<Tower<V>>, p: nat)
    requires Labelled(nodes, ts) && Distinct(nodes) && p < |ts|
    ensures Labelled(nodes[..p + 1] + nodes[p + 2..], RemoveAt(ts, p))
    ensures Distinct(nodes[..p + 1] + nodes[p + 2..])
  {
    var nodes' := nodes[..p + 1] + nodes[p + 2..];
    assert forall a | 0 <= a < |nodes'| :: nodes'[a] == nodes[if a <= p then a else a + 1];
  }

  lemma TallWithout<V(0)>(fw: Pointers<V>, ts: seq<Tower<V>>, maxLevel: nat, p: nat)
    requires Tall(fw, ts, maxLevel) && p < |ts|
    ensures Tall(PointersWithout(fw, p), RemoveAt(ts, p), maxLevel)
  {
    var fw' := PointersWithout(fw, p);
    assert forall a | 0 <= a < |fw'| :: fw'[a] == fw[if a <= p then a else a + 1];
  }

  lemma ThreadedWithout<V(0)>(nodes: seq<SkipNode<V>>, fw: Pointers<V>, ts: seq<Tower<V>>, maxLevel: nat,
                              at: seq<nat>, p: nat)
    requires Tall(fw, ts, maxLevel) && p < |ts| && ts[p].height <= |at|
    requires Unlinked(nodes, fw, ts, at, p, ts[p].height)
    requires forall l | 0 <= l < ts[p].height :: Precedes(ts, maxLevel, p, l, at[l])
    ensures |nodes| == |fw| == |ts| + 1
    ensures ThreadedBy(nodes[..p + 1] + nodes[p + 2..], PointersWithout(fw, p), RemoveAt(ts, p))
  {
    hide Forwards, Next, At, Tall, Precedes;
    var nodes', fw' := nodes[..p + 1] + nodes[p + 2..], PointersWithout(fw, p);
    Reinsert(ts, p);
    forall a, l | 0 <= a < |fw'| && 0 <= l < |fw'[a]| ensures fw'[a][l] == At(nodes', Next(RemoveAt(ts, p), a, l)) {
      UnlinkedPointer(nodes, fw, ts, maxLevel, at, p, a, l);
    }
  }

  lemma UnlinkedPointer<V(0)>(nodes: seq<SkipNode<V>>, fw: Pointers<V>, ts: seq<Tower<V>>, maxLevel: nat,
                              at: seq<nat>, p: nat, a: nat, l: nat)
    requires Tall(fw, ts, maxLevel) && p < |ts| && ts[p].height <= |at| && |RemoveAt(ts, p)| == |ts| - 1
    requires Unlinked(nodes, fw, ts, at, p, ts[p].height)
    requires forall l | 0 <= l < ts[p].height :: Precedes(ts, maxLevel, p, l, at[l])
    requires a < |ts| && l < |PointersWithout(fw, p)[a]|
    ensures PointersWithout(fw, p)[a][l] == At(nodes[..p + 1] + nodes[p + 2..], Next(RemoveAt(ts, p), a, l))
  {
    hide Forwards, Next, At, RemoveAt, InsertAt, Precedes;
    var ts', t := RemoveAt(ts, p), ts[p];
    Reinsert(ts, p);
    AtWithout(nodes, p, Next(ts', a, l));
    if a <= p {
      NextBefore(ts', p, t, a, l);
      if l < t.height {
        SplicedHere(ts, maxLevel, at, p, a, l);
        if a == at[l] {
          NextAfter(ts', p, t, p, l);
          NextSkips(ts', a, p, l);
        }
      }
    } else {
      NextAfter(ts', p, t, a, l);
      if l < t.height { SplicedBefore(ts, maxLevel, p, at, l); }
    }
  }

  lemma Reinsert<V(0)>(ts: seq<Tower<V>>, p: nat)
    requires p < |ts|
    ensures |RemoveAt(ts, p)| == |ts| - 1 && InsertAt(RemoveAt(ts, p), p, ts[p]) == ts
  {
  }

  lemma AtWithout<V(0)>(nodes: seq<SkipNode<V>>, p: nat, n: nat)
    requires p + 1 < |nodes|
    ensures At(nodes[..p + 1] + nodes[p + 2..], n) == At(nodes, if n < p then n else n + 1)
  {
  }

  lemma InsertionSpec<V(0)>(ts: seq<Tower<V>>, key: int, value: V, newLevel: nat, maxLevel: nat)
    requires Sorted(ts) && Standing(ts, maxLevel) && !Present(ts, key) && newLevel <= maxLevel
    ensures var ts' := Insert(ts, key, value, newLevel);
      && ts' == InsertAt(ts, Position(ts, key), Tower(key, value, newLevel + 1))
      && Sorted(ts') && Standing(ts', maxLevel)
      && Level(ts') == if newLevel > Level(ts) then newLevel else Level(ts)
  {
    InsertSorted(ts, key, value, newLevel);
    LevelGrows(ts, Position(ts, key), Tower(key, value, newLevel + 1));
  }

  /** The lists below level `i` lead through `created`, whose pointers are `cf`; the others still past it. */
  ghost predicate Spliced<V(0)>(nodes: seq<SkipNode<V>>, fw: Pointers<V>, ts: seq<Tower<V>>, at: seq<nat>,
                                created: SkipNode<V>, cf: seq<SkipNode?<V>>, i: nat) {
    && |nodes| == |fw| == |ts| + 1 && i <= |cf| && i <= |at|
    && (forall l | 0 <= l < i :: at[l] <= |ts| && cf[l] == At(nodes, Next(ts, at[l], l)))
    && (forall b, l | 0 <= b < |fw| && 0 <= l < |fw[b]| ::
          fw[b][l] == if l < i && b == at[l] then created else At(nodes, Next(ts, b, l)))
  }

  lemma NothingSpliced<V(0)>(nodes: seq<SkipNode<V>>, ts: seq<Tower<V>>, at: seq<nat>, created: SkipNode<V>)
    requires Threaded(nodes, ts)
    ensures Spliced(nodes, Forwards(nodes), ts, at, created, created.forward, 0)
  {
    hide Forwards, Next, At;
  }

  lemma SpliceStep<V(0)>(nodes: seq<SkipNode<V>>, fw: Pointers<V>, ts: seq<Tower<V>>, at: seq<nat>,
                         created: SkipNode<V>, cf: seq<SkipNode?<V>>, i: nat)
    requires Spliced(nodes, fw, ts, at, created, cf, i)
    requires i < |cf| && i < |at| && at[i] < |fw| && i < |fw[at[i]]|
    ensures Spliced(nodes, fw[at[i] := fw[at[i]][i := created]], ts, at, created, cf[i := fw[at[i]][i]], i + 1)
  {
    hide Forwards, Next, At;
  }

  ghost function NodesWith<V(0)>(nodes: seq<SkipNode<V>>, p: nat, created: SkipNode<V>): seq<SkipNode<V>>
    requires p < |nodes|
  {
    nodes[..p + 1] + [created] + nodes[p + 1..]
  }

  /** Once every level is spliced, the longer node list is threaded as its towers say. */
  lemma SplicedIsThreaded<V(0)>(nodes: seq<SkipNode<V>>, ts: seq<Tower<V>>, maxLevel: nat, at: seq<nat>,
                                created: SkipNode<V>, p: nat, t: Tower<V>)
    requires Stands(nodes, ts, maxLevel) && p <= |ts| && created !in nodes
    requires t == Tower(created.key, created.value, |created.forward|) && t.height <= |at|
    requires Spliced(nodes, Forwards(nodes), ts, at, created, created.forward, t.height)
    requires forall l | 0 <= l < t.height :: Precedes(ts, maxLevel, p, l, at[l])
    ensures Stands(NodesWith(nodes, p, created), InsertAt(ts, p, t), maxLevel)
    ensures Threaded(NodesWith(nodes, p, created), InsertAt(ts, p, t))
  {
    hide Forwards, Next, ThreadedBy, Spliced, Precedes;
    var fw, cf := Forwards(nodes), created.forward;
    LabelledWith(nodes, ts, p, created, t);
    TallWith(fw, ts, maxLevel, p, cf, t);
    assert Forwards(NodesWith(nodes, p, created)) == PointersWith(fw, p, cf);
    ThreadedWith(nodes, fw, ts, maxLevel, at, created, cf, p, t);
  }

  lemma LabelledWith<V(0)>(nodes: seq<SkipNode<V>>, ts: seq<Tower<V>>, p: nat, created: SkipNode<V>, t: Tower<V>)
    requires Labelled(nodes, ts) && Distinct(nodes) && p <= |ts| && created !in nodes
    requires t.key == created.key && t.value == created.value
    ensures Labelled(NodesWith(nodes, p, created), InsertAt(ts, p, t)) && Distinct(NodesWith(nodes, p, created))
  {
    var nodes' := NodesWith(nodes, p, created);
    assert forall a | 0 <= a <= p :: nodes'[a] == nodes[a];
    assert forall a | p + 1 < a < |nodes'| :: nodes'[a] == nodes[a - 1];
  }

  lemma TallWith<V(0)>(fw: Pointers<V>, ts: seq<Tower<V>>, maxLevel: nat, p: nat, cf: seq<SkipNode?<V>>, t: Tower<V>)
    requires Tall(fw, ts, maxLevel) && p <= |ts| && t.height == |cf|
    ensures Tall(PointersWith(fw, p, cf), InsertAt(ts, p, t), maxLevel)
  {
    var fw' := PointersWith(fw, p, cf);
    assert forall a | 0 <= a <= p :: fw'[a] == fw[a];
    assert forall a | p + 1 < a < |fw'| :: fw'[a] == fw[a - 1];
  }

  lemma ThreadedWith<V(0)>(nodes: seq<SkipNode<V>>, fw: Pointers<V>, ts: seq<Tower<V>>, maxLevel: nat, at: seq<nat>,
                           created: SkipNode<V>, cf: seq<SkipNode?<V>>, p: nat, t: Tower<V>)
    requires Tall(fw, ts, maxLevel) && p <= |ts| && t.height == |cf| <= |at|
    requires Spliced(nodes, fw, ts, at, created, cf, t.height)
    requires forall l | 0 <= l < t.height :: Precedes(ts, maxLevel, p, l, at[l])
    ensures |nodes| == |fw| == |ts| + 1
    ensures ThreadedBy(NodesWith(nodes, p, created), PointersWith(fw, p, cf), InsertAt(ts, p, t))
  {
    hide Forwards, Next, At, Tall, Precedes;
    var nodes', fw', ts' := NodesWith(nodes, p, created), PointersWith(fw, p, cf), InsertAt(ts, p, t);
    forall a, l | 0 <= a < |fw'| && 0 <= l < |fw'[a]| ensures fw'[a][l] == At(nodes', Next(ts', a, l)) {
      SplicedPointer(nodes, fw, ts, maxLevel, at, created, cf, p, t, a, l);
    }
  }

  lemma SplicedPointer<V(0)>(nodes: seq<SkipNode<V>>, fw: Pointers<V>, ts: seq<Tower<V>>, maxLevel: nat, at: seq<nat>,
                             created: SkipNode<V>, cf: seq<SkipNode?<V>>, p: nat, t: Tower<V>, a: nat, l: nat)
    requires Tall(fw, ts, maxLevel) && p <= |ts| && t.height == |cf| <= |at| && |InsertAt(ts, p, t)| == |ts| + 1
    requires Spliced(nodes, fw, ts, at, created, cf, t.height)
    requires forall l | 0 <= l < t.height :: Precedes(ts, maxLevel, p, l, at[l])
    requires a <= |ts| + 1 && l < |PointersWith(fw, p, cf)[a]|
    ensures PointersWith(fw, p, cf)[a][l] == At(NodesWith(nodes, p, created), Next(InsertAt(ts, p, t), a, l))
  {
    hide Forwards, Next, At, InsertAt, Precedes, NodesWith;
    if a <= p {
      NextBefore(ts, p, t, a, l);
      AtWith(nodes, p, created, Next(ts, a, l));
      if l < t.height { SplicedHere(ts, maxLevel, at, p, a, l); }
    } else if a == p + 1 {
      SplicedNew(ts, maxLevel, p, t, at, l);
      AtWith(nodes, p, created, Next(ts, p, l));
    } else {
      NextAfter(ts, p, t, a - 1, l);
      AtWith(nodes, p, created, Next(ts, a - 1, l));
      if l < t.height { SplicedBefore(ts, maxLevel, p, at, l); }
    }
  }

  lemma SplicedBefore<V(0)>(ts: seq<Tower<V>>, maxLevel: nat, p: nat, at: seq<nat>, l: nat)
    requires l < |at| && Precedes(ts, maxLevel, p, l, at[l])
    ensures at[l] <= p
  {
  }

  lemma SplicedNew<V(0)>(ts: seq<Tower<V>>, maxLevel: nat, p: nat, t: Tower<V>, at: seq<nat>, l: nat)
    requires p <= |ts| && l < |at| && Precedes(ts, maxLevel, p, l, at[l])
    ensures Next(ts, at[l], l) == Next(ts, p, l)
    ensures Next(InsertAt(ts, p, t), p + 1, l) == Next(ts, p, l) + 1
  {
    NextSkips(ts, at[l], p, l);
    NextAfter(ts, p, t, p, l);
  }

  lemma AtWith<V(0)>(nodes: seq<SkipNode<V>>, p: nat, created: SkipNode<V>, n: nat)
    requires p < |nodes|
    ensures At(NodesWith(nodes, p, created), if n < p then n else n + 1) == At(nodes, n)
    ensures At(NodesWith(nodes, p, created), p) == created
  {
  }

  /** The remembered node is the only one up to `p` whose pointer on level `l` leads beyond `p`. */
  lemma SplicedHere<V(0)>(ts: seq<Tower<V>>, maxLevel: nat, at: seq<nat>, p: nat, a: nat, l: nat)
    requires a <= p <= |ts| && l < |at| && l < HeightAt(ts, maxLevel, a) && Precedes(ts, maxLevel, p, l, at[l])
    ensures a == at[l] <==> Next(ts, a, l) >= p
  {
    if Next(ts, a, l) >= p { PredecessorUnique(ts, p, l, a, at[l]); }
  }
}
