/**
 The LRU cache of 01-LRU-Cache/main.go on the heap: one doubly linked list between two sentinels, least
 recently used first, and a map into it. Its methods carry out the rule of `LRUSpec`.
 */
module LRUCaches {
  import opened LRUSpec

  class ListNode {
    var key: int
    var value: int
    var next: ListNode?
    var prev: ListNode?

    constructor (key: int, value: int)
      ensures this.key == key && this.value == value && next == null
    {
      this.key, this.value, next, prev := key, value, null, null;
    }
  }

  /** The chain is linked both ways and meets no node twice. */
  ghost predicate Linked(chain: seq<ListNode>)
    reads chain`next, chain`prev
  {
    && (forall i, j | 0 <= i < j < |chain| :: chain[i] != chain[j])
    && (forall i | 0 <= i < |chain| - 1 :: chain[i].next == chain[i + 1])
    && (forall i | 1 <= i < |chain| :: chain[i].prev == chain[i - 1])
  }

  /** Node by node, the pairs of the rule. */
  ghost predicate Shows(nodes: seq<ListNode>, items: seq<Pair>)
    reads nodes`key, nodes`value
  {
    |nodes| == |items| && forall i | 0 <= i < |nodes| :: Pair(nodes[i].key, nodes[i].value) == items[i]
  }

  /** The map leads to exactly the listed nodes. */
  ghost predicate Indexes(index: map<int, ListNode>, nodes: seq<ListNode>, items: seq<Pair>) {
    && |nodes| == |items|
    && (forall i | 0 <= i < |items| :: items[i].key in index && index[items[i].key] == nodes[i])
    && (forall k :: k in index <==> Has(items, k))
  }

  /** The element at place i moved to the end. */
  ghost function Moved<T>(s: seq<T>, i: nat): seq<T>
    requires i < |s|
  {
    s[..i] + s[i + 1..] + [s[i]]
  }

  lemma ShowsMoved(nodes: seq<ListNode>, items: seq<Pair>, i: nat)
    requires Shows(nodes, items) && i < |items|
    ensures Shows(Moved(nodes, i), Moved(items, i))
  {
  }

  lemma IndexesMoved(index: map<int, ListNode>, nodes: seq<ListNode>, items: seq<Pair>, i: nat)
    requires Indexes(index, nodes, items) && i < |items|
    ensures Indexes(index, Moved(nodes, i), Moved(items, i))
  {
    var moved := Moved(items, i);
    forall k ensures Has(moved, k) <==> Has(items, k) {
      HasMoved(items, i, k);
    }
  }

  lemma HasMoved(items: seq<Pair>, i: nat, k: int)
    requires i < |items|
    ensures Has(Moved(items, i), k) <==> Has(items, k)
  {
    var moved := Moved(items, i);
    if j :| 0 <= j < |items| && items[j].key == k {
      assert moved[if j < i then j else if j == i then |items| - 1 else j - 1] == items[j];
    }
    if j :| 0 <= j < |moved| && moved[j].key == k {
      assert moved[j] == items[if j < i then j else if j == |items| - 1 then i else j + 1];
    }
  }

  /** A use in the rule's terms is a write and a move. */
  lemma UsedMoved(items: seq<Pair>, i: nat, value: int)
    requires Distinct(items) && i < |items|
    ensures Used(items, items[i].key, value) == Moved(items[i := Pair(items[i].key, value)], i)
    ensures ValueOf(items, items[i].key) == items[i].value
  {
    DroppedAt(items, i);
  }

  /** Where a cached key stands. */
  lemma PlaceOf(index: map<int, ListNode>, nodes: seq<ListNode>, items: seq<Pair>, key: int) returns (i: nat)
    requires Shows(nodes, items) && Indexes(index, nodes, items) && Distinct(items) && key in index
    ensures i < |items| == |nodes| && items[i].key == key && index[key] == nodes[i]
    ensures nodes[i].value == items[i].value == ValueOf(items, key)
    ensures items[i := Pair(key, items[i].value)] == items
  {
    assert Has(items, key);
    i :| i < |items| && items[i].key == key;
    DroppedAt(items, i);
  }

  lemma IndexedKeys(index: map<int, ListNode>, nodes: seq<ListNode>, items: seq<Pair>, capacity: int, key: int)
    requires Indexes(index, nodes, items) && Sound(capacity, items)
    ensures key in index <==> Has(items, key)
    ensures key !in index ==> ValueOf(items, key) == -1
    ensures Distinct(items)
  {
    if key !in index {
      MissAnswer(items, key);
    }
  }

  lemma MovedMembers<T>(s: seq<T>, i: nat)
    requires i < |s|
    ensures forall x | x in Moved(s, i) :: x in s
  {
  }

  lemma ChainMoved<T>(head: T, nodes: seq<T>, tail: T, i: nat)
    requires i < |nodes|
    ensures var chain := [head] + nodes + [tail];
      var left := chain[..i + 1] + chain[i + 2..];
      left[..|left| - 1] + [nodes[i], tail] == [head] + Moved(nodes, i) + [tail]
  {
  }

  class LRUCache {
    var size: nat
    const capacity: int
    var nodeOf: map<int, ListNode>
    const head: ListNode
    const tail: ListNode

    ghost var nodes: seq<ListNode>  // between the sentinels
    ghost var items: seq<Pair>      // what they show
    ghost var calls: seq<Call>      // every call so far

    ghost function Chain(): seq<ListNode>
      reads this
    {
      [head] + nodes + [tail]
    }

    /** All nodes of the list, the sentinels too. */
    ghost function Repr(): set<ListNode>
      reads this
    {
      {head, tail} + set n | n in nodes
    }

    ghost predicate Valid()
      reads this, nodes, head, tail
    {
      && Linked(Chain()) && Shows(nodes, items) && Indexes(nodeOf, nodes, items)
      && size == |items| && items == Run(capacity, calls) && Sound(capacity, items) && tail.next == null
    }

    constructor (capacity: int)
      ensures Valid() && calls == [] && this.capacity == capacity
      ensures fresh(Repr())
    {
      var h := new ListNode(0, 0);
      var t := new ListNode(0, 0);
      h.next := t;
      t.prev := h;
      size, this.capacity, nodeOf, head, tail := 0, capacity, map[], h, t;
      nodes, items, calls := [], [], [];
    }

    /** Links a loose node in front of the tail. */
    method AddNode(node: ListNode, ghost chain: seq<ListNode>)
      requires Linked(chain) && |chain| >= 2 && chain[|chain| - 1] == tail && node !in chain
      modifies node`next, node`prev, chain`next, chain`prev
      ensures Linked(chain[..|chain| - 1] + [node, tail]) && tail.next == old(tail.next)
    {
      ghost var n := |chain| - 1;
      assert chain[n - 1].next == tail && tail.prev == chain[n - 1];
      node.prev := tail.prev;
      node.next := tail;
      tail.prev.next := node;
      tail.prev := node;
    }

    /** Unlinks the node at place i, which is no sentinel. */
    method DeleteNode(node: ListNode, ghost chain: seq<ListNode>, ghost i: nat)
      requires Linked(chain) && 0 < i < |chain| - 1 && node == chain[i] && chain[|chain| - 1] == tail
      modifies chain`next, chain`prev
      ensures Linked(chain[..i] + chain[i + 1..]) && tail.next == old(tail.next)
    {
      assert node.prev == chain[i - 1] && node.next == chain[i + 1];
      node.prev.next := node.next;
      node.next.prev := node.prev;
    }

    /** Moves a listed node in front of the tail. */
    method Renew(node: ListNode, ghost i: nat)
      requires Linked(Chain()) && i < |nodes| && node == nodes[i]
      modifies `nodes, Chain()`next, Chain()`prev
      ensures nodes == Moved(old(nodes), i) && Linked(Chain()) && tail.next == old(tail.next)
      ensures forall n | n in nodes :: n in old(nodes)
    {
      hide Linked, Moved;
      ghost var chain := Chain();
      ghost var left := chain[..i + 1] + chain[i + 2..];
      Loose(chain, i + 1);
      DeleteNode(node, chain, i + 1);
      AddNode(node, left);
      ChainMoved(head, nodes, tail, i);
      MovedMembers(nodes, i);
      nodes := Moved(nodes, i);
    }

    /** Notes one more call, whose effect on the list is done. */
    ghost method Record(call: Call, after: seq<Pair>)
      requires capacity != 0 || call.Get?
      requires items == Run(capacity, calls) && Sound(capacity, items)
      requires after == Step(capacity, items, call)
      modifies `items, `calls
      ensures items == after == Run(capacity, calls) && Sound(capacity, items)
      ensures calls == old(calls) + [call]
    {
      StepSound(capacity, items, call);
      RunStep(capacity, calls, call);
      items, calls := after, calls + [call];
    }

    /** The value of a cached key, which becomes the most recent; -1 for any other key. */
    method Get(key: int) returns (value: int)
      requires Valid()
      modifies this, Repr()
      ensures Valid() && calls == old(calls) + [Call.Get(key)] && Repr() <= old(Repr())
      ensures if Has(old(items), key) then Pair(key, value) in old(items) else value == -1
      ensures value == ValueOf(old(items), key)
    {
      hide Linked, Shows, Indexes, Sound, Run, Used, Moved, ValueOf, Has;
      IndexedKeys(nodeOf, nodes, items, capacity, key);
      if key !in nodeOf {
        Record(Call.Get(key), items);
        return -1;
      }
      var node := nodeOf[key];
      ghost var i := PlaceOf(nodeOf, nodes, items, key);
      UsedShown(nodeOf, nodes, items, i, items[i].value);
      Renew(node, i);
      Record(Call.Get(key), Used(items, key, items[i].value));
      return node.value;
    }

    /** Overwrites the value of a cached key and makes it the most recent. */
    method Overwrite(key: int, value: int)
      requires Valid() && capacity != 0 && Has(items, key)
      modifies `nodes, `items, `calls, Chain()`next, Chain()`prev, nodes`value
      ensures Valid() && calls == old(calls) + [Call.Put(key, value)]
      ensures forall n | n in nodes :: n in old(nodes)
    {
      hide Linked, Shows, Indexes, Sound, Run, Used, Moved, ValueOf, Has;
      IndexedKeys(nodeOf, nodes, items, capacity, key);
      ghost var i := PlaceOf(nodeOf, nodes, items, key);
      var existing := nodeOf[key];
      Write(existing, value, i);
      UsedShown(nodeOf, nodes, items, i, value);
      Renew(existing, i);
      Record(Call.Put(key, value), Used(items, key, value));
    }

    method Write(node: ListNode, value: int, ghost i: nat)
      requires Linked(Chain()) && Shows(nodes, items) && i < |nodes| == |items| && node == nodes[i]
      modifies node`value
      ensures Shows(nodes, items[i := Pair(items[i].key, value)])
    {
      Apart(head, nodes, tail);
      node.value := value;
    }

    /** Unlinks and forgets the least recent key. */
    method Evict()
      requires Linked(Chain()) && Shows(nodes, items) && Indexes(nodeOf, nodes, items) && Distinct(items)
      requires size == |items| > 0
      modifies `nodes, `size, `nodeOf, Chain()`next, Chain()`prev
      ensures Linked(Chain()) && Shows(nodes, items[1..]) && Indexes(nodeOf, nodes, items[1..])
      ensures size == |items| - 1 && tail.next == old(tail.next)
      ensures forall n | n in nodes :: n in old(nodes)
    {
      hide Linked, Shows, Indexes, Has;
      ghost var chain := Chain();
      ShownTail(nodeOf, nodes, items);
      Oldest(head, nodes, tail);
      var lru := head.next;
      DeleteNode(lru, chain, 1);
      nodeOf := nodeOf - {lru.key};
      size := size - 1;
      nodes := nodes[1..];
      assert chain[..1] + chain[2..] == Chain();
    }

    /** Links a node for a new key. */
    method Enter(key: int, value: int, ghost rest: seq<Pair>)
      requires Linked(Chain()) && Shows(nodes, rest) && Indexes(nodeOf, nodes, rest) && !Has(rest, key)
      modifies `nodes, `size, `nodeOf, Chain()`next, Chain()`prev
      ensures Linked(Chain()) && Shows(nodes, rest + [Pair(key, value)])
      ensures Indexes(nodeOf, nodes, rest + [Pair(key, value)])
      ensures size == old(size) + 1 && tail.next == old(tail.next)
      ensures forall n | n in nodes :: n in old(nodes) || fresh(n)
    {
      hide Linked, Shows, Indexes, Has;
      ghost var chain := Chain();
      var newNode := new ListNode(key, value);
      AddNode(newNode, chain);
      ShownSnoc(nodeOf, nodes, rest, newNode);
      nodeOf := nodeOf[key := newNode];
      size := size + 1;
      assert chain[..|chain| - 1] + [newNode, tail] == [head] + (nodes + [newNode]) + [tail];
      nodes := nodes + [newNode];
    }

    /**
     Caches a value as the most recent. A new key first evicts the least recent one if the cache is
     full. A cache of capacity 0 would unlink its own tail here, so it is excluded.
     */
    method Put(key: int, value: int)
      requires Valid() && capacity != 0
      modifies this, Repr()
      ensures Valid() && calls == old(calls) + [Call.Put(key, value)]
      ensures fresh(Repr() - old(Repr()))
    {
      hide Linked, Shows, Indexes, Run, Used, ValueOf, Has;
      IndexedKeys(nodeOf, nodes, items, capacity, key);
      if key in nodeOf {
        Overwrite(key, value);
        return;
      }
      ghost var rest := items;
      if size == capacity {
        Evict();
        HasTail(items, key);
        rest := items[1..];
      }
      assert forall i | 0 <= i < |Chain()| :: Chain()[i] in old(Chain());
      Enter(key, value, rest);
      Record(Call.Put(key, value), rest + [Pair(key, value)]);
    }
  }

  /**
   Why `Put` excludes capacity 0: the cache counts as full, the node to evict is the tail itself, and
   unlinking it writes through the successor the tail does not have.
   */
  lemma CapacityZeroEvictsTail(cache: LRUCache)
    requires cache.Valid()
    ensures cache.capacity == 0 <==> cache.size == cache.capacity && cache.head.next == cache.tail
    ensures cache.capacity == 0 ==> cache.tail.next == null
  {
    var chain := cache.Chain();
    assert chain[0].next == chain[1];
    assert cache.nodes != [] ==> chain[1] != chain[|chain| - 1];
  }

  lemma Apart(head: ListNode, nodes: seq<ListNode>, tail: ListNode)
    requires Linked([head] + nodes + [tail])
    ensures forall i, j | 0 <= i < j < |nodes| :: nodes[i] != nodes[j]
  {
    var chain := [head] + nodes + [tail];
    assert forall i | 0 <= i < |nodes| :: chain[i + 1] == nodes[i];
  }

  lemma Oldest(head: ListNode, nodes: seq<ListNode>, tail: ListNode)
    requires Linked([head] + nodes + [tail]) && nodes != []
    ensures head.next == nodes[0]
  {
    var chain := [head] + nodes + [tail];
    assert chain[0].next == chain[1];
  }

  lemma HasTail(items: seq<Pair>, key: int)
    requires items != [] && !Has(items, key)
    ensures !Has(items[1..], key)
  {
    assert forall i | 0 <= i < |items| - 1 :: items[1..][i] == items[i + 1];
  }

  /** The pairs and the map once the first node is gone. */
  lemma ShownTail(index: map<int, ListNode>, nodes: seq<ListNode>, items: seq<Pair>)
    requires Shows(nodes, items) && Indexes(index, nodes, items) && Distinct(items) && items != []
    ensures nodes != [] && nodes[0].key == items[0].key
    ensures Shows(nodes[1..], items[1..])
    ensures Indexes(index - {items[0].key}, nodes[1..], items[1..])
  {
    var key := items[0].key;
    forall k ensures Has(items[1..], k) <==> Has(items, k) && k != key {
      if i :| 0 <= i < |items| && items[i].key == k {
        assert i > 0 ==> items[1..][i - 1].key == k;
      }
      assert forall i | 0 <= i < |items| - 1 :: items[1..][i] == items[i + 1];
    }
  }

  /** The pairs and the map with a new node at the end. */
  lemma ShownSnoc(index: map<int, ListNode>, nodes: seq<ListNode>, items: seq<Pair>, node: ListNode)
    requires Shows(nodes, items) && Indexes(index, nodes, items) && !Has(items, node.key)
    ensures Shows(nodes + [node], items + [Pair(node.key, node.value)])
    ensures Indexes(index[node.key := node], nodes + [node], items + [Pair(node.key, node.value)])
  {
    var longer := items + [Pair(node.key, node.value)];
    assert longer[|items|].key == node.key;
    forall k ensures Has(longer, k) <==> Has(items, k) || k == node.key {
      assert forall i | 0 <= i < |items| :: longer[i] == items[i];
    }
  }

  /** The pairs and the map after a use, once the node shows its new value. */
  lemma UsedShown(index: map<int, ListNode>, nodes: seq<ListNode>, items: seq<Pair>, i: nat, value: int)
    requires Distinct(items) && Indexes(index, nodes, items) && i < |items|
    requires Shows(nodes, items[i := Pair(items[i].key, value)])
    ensures Shows(Moved(nodes, i), Used(items, items[i].key, value))
    ensures Indexes(index, Moved(nodes, i), Used(items, items[i].key, value))
    ensures |Used(items, items[i].key, value)| == |items|
  {
    var key, written := items[i].key, items[i := Pair(items[i].key, value)];
    UsedMoved(items, i, value);
    ShowsMoved(nodes, written, i);
    forall k ensures Has(written, k) <==> Has(items, k) {
      HasWritten(items, i, value, k);
    }
    IndexesMoved(index, nodes, written, i);
  }

  lemma HasWritten(items: seq<Pair>, i: nat, value: int, k: int)
    requires i < |items|
    ensures Has(items[i := Pair(items[i].key, value)], k) <==> Has(items, k)
  {
    var written := items[i := Pair(items[i].key, value)];
    assert forall j | 0 <= j < |items| :: written[j].key == items[j].key;
  }

  /** A node taken out is in the chain no longer. */
  lemma Loose(chain: seq<ListNode>, i: nat)
    requires Linked(chain) && 0 < i < |chain| - 1
    ensures var left := chain[..i] + chain[i + 1..];
      chain[i] !in left && left[|left| - 1] == chain[|chain| - 1] && |left| >= 2
      && forall n | n in left :: n in chain
  {
  }
}
