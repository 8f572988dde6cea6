/**
 The LFU cache of 02-LFU-Cache/main.go on the heap: doubly linked lists between sentinels, one per
 frequency, and two maps. Its methods are stated against the eviction rule of `LFUSpec`.
 */
module LFUCaches {
  import opened LFUSpec
  import opened LFURuns

  class ListNode {
    var key: int
    var value: int
    var freq: nat
    var prev: ListNode?
    var next: ListNode?

    ghost var touched: nat  // when the key was last used

    constructor (key: int, value: int, freq: nat, ghost touched: nat)
      ensures this.key == key && this.value == value && this.freq == freq && this.touched == touched
    {
      this.key, this.value, this.freq, this.touched := key, value, freq, touched;
      prev, next := null, null;
    }
  }

  class DoublyLinkedList {
    var size: nat
    var head: ListNode
    var tail: ListNode

    ghost var chain: seq<ListNode>  // the nodes from head to tail, both sentinels included
    ghost var Repr: set<object>

    ghost predicate Valid()
      reads this, Repr
    {
      && this in Repr && (forall i | 0 <= i < |chain| :: chain[i] in Repr)
      && |chain| == size + 2 && chain[0] == head && chain[size + 1] == tail
      && (forall i, j | 0 <= i < j < |chain| :: chain[i] != chain[j])
      && (forall i | 0 <= i < |chain| - 1 :: chain[i].next == chain[i + 1])
      && (forall i | 1 <= i < |chain| :: chain[i].prev == chain[i - 1])
    }

    constructor ()
      ensures Valid() && size == 0 && fresh(Repr)
    {
      var h := new ListNode(0, 0, 0, 0);
      var t := new ListNode(0, 0, 0, 0);
      h.next := t;
      t.prev := h;
      size, head, tail := 0, h, t;
      chain, Repr := [h, t], {this, h, t};
    }

    /** Puts a node that is in no list right after the head. */
    method AddNode(node: ListNode)
      requires Valid() && node !in Repr
      modifies this, node`prev, node`next, chain`prev, chain`next
      ensures Valid() && size == old(size) + 1 && Repr == old(Repr) + {node}
      ensures chain == [old(chain)[0], node] + old(chain)[1..]
    {
      assert head.next == chain[1];
      node.prev, node.next := head, head.next;
      head.next.prev := node;
      head.next := node;
      size, chain, Repr := size + 1, [chain[0], node] + chain[1..], Repr + {node};
    }

    method Remove(node: ListNode, ghost i: nat)
      requires Valid() && 1 <= i <= size && node == chain[i]
      modifies this, chain`prev, chain`next
      ensures Valid() && size == old(size) - 1 && Repr == old(Repr) - {node}
      ensures chain == old(chain)[..i] + old(chain)[i + 1..]
    {
      assert node.prev == chain[i - 1] && node.next == chain[i + 1];
      node.prev.next := node.next;
      node.next.prev := node.prev;
      size := size - 1;
      chain, Repr := chain[..i] + chain[i + 1..], Repr - {node};
    }

    method RemoveLast() returns (last: ListNode?)
      requires Valid()
      modifies this, chain`prev, chain`next
      ensures Valid()
      ensures old(size) == 0 ==> last == null && chain == old(chain) && Repr == old(Repr) && size == 0
      ensures old(size) > 0 ==>
        && last == old(chain)[old(size)] && size == old(size) - 1 && Repr == old(Repr) - {last}
        && chain == old(chain)[..old(size)] + [old(chain)[old(size) + 1]]
    {
      if size == 0 {
        return null;
      }
      last := tail.prev;
      assert last == chain[size];
      Remove(last, size);
    }
  }

  type Lists = map<nat, DoublyLinkedList>
  type Index = map<int, ListNode>

  /** The list of frequency `f` shows exactly these items, through the nodes of the index. */
  ghost predicate Shows(list: DoublyLinkedList, f: nat, items: seq<Item>, index: Index)
    reads list, list.Repr
  {
    && list.Valid() && list.size == |items|
    && forall i | 0 <= i < |items| :: ShowsItem(list.chain[i + 1], f, items[i], index)
  }

  ghost predicate ShowsItem(node: ListNode, f: nat, item: Item, index: Index)
    reads node
  {
    && item.key in index && node == index[item.key]
    && node.key == item.key && node.value == item.value && node.touched == item.touched && node.freq == f
  }

  /** A list inside `repr` that shows its bucket. */
  ghost predicate Member(list: DoublyLinkedList, f: nat, items: seq<Item>, index: Index, repr: set<object>)
    reads repr
  {
    list in repr && list.Repr <= repr && Shows(list, f, items, index)
  }

  ghost predicate Apart(list: DoublyLinkedList, other: DoublyLinkedList, repr: set<object>)
    reads repr
  {
    list in repr && other in repr && list.Repr !! other.Repr
  }

  /** One list per frequency, each showing its bucket, inside `repr` and sharing nothing. */
  ghost predicate Family(lists: Lists, b: Buckets, index: Index, repr: set<object>)
    reads repr
  {
    && lists.Keys == b.Keys
    && (forall f {:trigger Member(lists[f], f, b[f], index, repr)} | f in lists ::
          Member(lists[f], f, b[f], index, repr))
    && (forall f, g {:trigger Apart(lists[f], lists[g], repr)} | f in lists && g in lists && f != g ::
          Apart(lists[f], lists[g], repr))
  }

  /** All lists but one. */
  lemma FamilyWithout(lists: Lists, b: Buckets, index: Index, repr: set<object>, f: nat)
    requires Family(lists, b, index, repr)
    ensures if f in lists
            then f in b && lists[f] in lists[f].Repr && lists[f].Repr <= repr && Shows(lists[f], f, b[f], index)
                 && Family(lists - {f}, b - {f}, index, repr - lists[f].Repr)
            else Family(lists - {f}, b - {f}, index, repr)
  {
    assert f in lists ==> Member(lists[f], f, b[f], index, repr);
    var rest := if f in lists then repr - lists[f].Repr else repr;
    forall g | g in lists && g != f ensures Member(lists[g], g, b[g], index, rest) {
      assert Member(lists[g], g, b[g], index, repr);
      assert f in lists ==> Apart(lists[f], lists[g], repr);
    }
    forall g, h | g in lists && h in lists && g != h && g != f && h != f ensures Apart(lists[g], lists[h], rest) {
      assert Apart(lists[g], lists[h], repr);
      assert Member(lists[g], g, b[g], index, rest) && Member(lists[h], h, b[h], index, rest);
    }
  }

  /** A list that shows its bucket and shares nothing joins the family. */
  lemma FamilyWith(lists: Lists, b: Buckets, index: Index, repr: set<object>,
                   f: nat, list: DoublyLinkedList, items: seq<Item>)
    requires Family(lists, b, index, repr) && f !in lists
    requires Shows(list, f, items, index) && list.Repr !! repr
    ensures Family(lists[f := list], b[f := items], index, repr + list.Repr)
  {
    forall g | g in lists ensures Member(lists[g], g, b[g], index, repr + list.Repr) {
      assert Member(lists[g], g, b[g], index, repr);
    }
    var lists' := lists[f := list];
    forall g, h | g in lists' && h in lists' && g != h ensures Apart(lists'[g], lists'[h], repr + list.Repr) {
      assert g in lists ==> Member(lists[g], g, b[g], index, repr);
      assert h in lists ==> Member(lists[h], h, b[h], index, repr);
      assert g in lists && h in lists ==> Apart(lists[g], lists[h], repr);
    }
  }

  /** Where a cached key's node stands. */
  lemma Located(lists: Lists, b: Buckets, index: Index, repr: set<object>, m: Entries, key: int) returns (i: nat)
    requires Family(lists, b, index, repr) && Represents(b, m) && key in m
    ensures m[key].freq in b && m[key].freq in lists && i < |b[m[key].freq]|
    ensures var f := m[key].freq;
      && b[f][i] == Item(key, m[key].value, m[key].touched)
      && i + 1 < |lists[f].chain| && key in index && lists[f].chain[i + 1] == index[key]
      && index[key].freq == f && index[key].key == key
      && index[key].value == m[key].value && index[key].touched == m[key].touched
      && index[key] in repr
  {
    var f := m[key].freq;
    assert Has(b[f], key);
    assert Member(lists[f], f, b[f], index, repr);
    i :| i < |b[f]| && b[f][i].key == key;
  }

  lemma MapWithout<K, V>(m: map<K, V>, k: K, v: V)
    ensures (m - {k})[k := v] == m[k := v]
  {
  }

  /** `AddNode` in terms of what the list shows. */
  method AddShown(list: DoublyLinkedList, node: ListNode, ghost f: nat, ghost items: seq<Item>, ghost index: Index)
    requires Shows(list, f, items, index) && node !in list.Repr && node.freq == f
    requires node.key in index && index[node.key] == node
    modifies list, node`prev, node`next, list.Repr
    ensures Shows(list, f, [Item(node.key, node.value, node.touched)] + items, index)
    ensures list.Repr == old(list.Repr) + {node}
    ensures node.freq == f && node.key == old(node.key)
    ensures node.value == old(node.value) && node.touched == old(node.touched)
  {
    ghost var chain := list.chain;
    assert list.Valid();
    list.AddNode(node);
    assert forall j | 1 <= j <= |items| :: list.chain[j + 1] == chain[j];
  }

  /** `Remove` in terms of what the list shows. */
  method RemoveShown(list: DoublyLinkedList, node: ListNode, ghost f: nat, ghost items: seq<Item>, ghost i: nat,
                     ghost index: Index)
    requires Shows(list, f, items, index) && i < |items| && node == list.chain[i + 1]
    modifies list, list.chain`prev, list.chain`next
    ensures Shows(list, f, Without(items, i), index) && list.size == |items| - 1
    ensures list.Repr == old(list.Repr) - {node}
  {
    ghost var chain := list.chain;
    list.Remove(node, i + 1);
    assert forall j | i < j < |items| :: list.chain[j] == chain[j + 1];
  }

  /** `RemoveLast` in terms of what the list shows. */
  method RemoveLastShown(list: DoublyLinkedList, ghost f: nat, ghost items: seq<Item>, ghost index: Index)
    returns (last: ListNode)
    requires Shows(list, f, items, index) && items != []
    modifies list, list.chain`prev, list.chain`next
    ensures Shows(list, f, items[..|items| - 1], index)
    ensures var k := items[|items| - 1].key; k in index && last == index[k] && last.key == k
    ensures last in old(list.Repr) && list.Repr == old(list.Repr) - {last}
  {
    ghost var chain := list.chain;
    last := list.RemoveLast();
    assert forall j | 0 <= j < |items| :: list.chain[j] == chain[j];
    ghost var rest := items[..|items| - 1];
    forall j | 0 <= j < |rest| ensures ShowsItem(list.chain[j + 1], f, rest[j], index) {
      assert ShowsItem(chain[j + 1], f, items[j], index);
    }
  }

  /** Writing a node's value changes one item of the list. */
  method StoreShown(ghost list: DoublyLinkedList, node: ListNode, value: int,
                    ghost f: nat, ghost items: seq<Item>, ghost i: nat, ghost index: Index)
    requires Shows(list, f, items, index) && i < |items| && node == list.chain[i + 1]
    modifies node`value
    ensures Shows(list, f, items[i := items[i].(value := value)], index) && node.value == value
  {
    assert list.Valid();
    node.value := value;
    assert list.Valid();
    ghost var items' := items[i := items[i].(value := value)];
    forall j | 0 <= j < |items'| ensures ShowsItem(list.chain[j + 1], f, items'[j], index) {
      assert old(ShowsItem(list.chain[j + 1], f, items[j], index));
      assert j != i ==> list.chain[j + 1] != list.chain[i + 1];
    }
  }

  /** An index that agrees on the keys of the buckets serves as well. */
  lemma Reindex(lists: Lists, b: Buckets, index: Index, repr: set<object>, m: Entries, index': Index)
    requires Family(lists, b, index, repr) && Represents(b, m)
    requires forall k | k in m && k in index :: k in index' && index'[k] == index[k]
    ensures Family(lists, b, index', repr)
  {
    forall f | f in lists ensures Member(lists[f], f, b[f], index', repr) {
      assert Member(lists[f], f, b[f], index, repr);
    }
    assert forall f, g | f in lists && g in lists && f != g :: Apart(lists[f], lists[g], repr);
  }

  class LFUCache {
    const capacity: int
    var size: nat
    var minFreq: nat
    var keyToNodes: Index
    var freqToList: Lists

    ghost var buckets: Buckets
    ghost var entries: Entries  // what is cached, as the eviction rule sees it
    ghost var now: nat          // the number of uses so far
    ghost var calls: seq<Call>  // every call so far
    ghost var Repr: set<object>

    /** The lists, the buckets, the index and the entries agree. */
    ghost predicate Agree()
      reads `freqToList, `keyToNodes, `size, `buckets, `entries, `now, `Repr, Repr
    {
      && this !in Repr
      && Family(freqToList, buckets, keyToNodes, Repr)
      && Represents(buckets, entries) && Ordered(buckets, now) && Counted(entries)
      && keyToNodes.Keys == entries.Keys && size == |entries|
    }

    /** And the least frequency is right. */
    ghost predicate Kept()
      reads `freqToList, `keyToNodes, `size, `minFreq, `buckets, `entries, `now, `Repr, Repr
    {
      Agree() && Least(buckets, entries, minFreq) && (capacity >= 0 ==> size <= capacity)
    }

    /** What is cached is what the eviction rule makes of the calls. */
    ghost predicate Valid()
      reads this, Repr
    {
      Kept() && Cache(entries, now) == Run(capacity, calls)
    }

    constructor (capacity: int)
      ensures Valid() && entries == map[] && calls == [] && this.capacity == capacity && Repr == {}
    {
      this.capacity, size, minFreq := capacity, 0, 0;
      keyToNodes, freqToList := map[], map[];
      buckets, entries, now, calls, Repr := map[], map[], 0, [], {};
    }

    /** Puts a loose node at the front of the list of its frequency, making the list if need be. */
    method PutIn(node: ListNode, ghost b: Buckets)
      requires this !in Repr && Family(freqToList, b, keyToNodes, Repr) && node !in Repr
      requires node.key in keyToNodes && keyToNodes[node.key] == node
      modifies `freqToList, `Repr, Repr, node`prev, node`next
      ensures Family(freqToList, b[node.freq := [Item(node.key, node.value, node.touched)] + Bucket(b, node.freq)],
                     keyToNodes, Repr)
      ensures this !in Repr && fresh(Repr - old(Repr) - {node})
      ensures node.freq == old(node.freq) && node.key == old(node.key)
              && node.value == old(node.value) && node.touched == old(node.touched)
    {
      hide *;
      ghost var f, lists := node.freq, freqToList;
      ghost var item := Item(node.key, node.value, node.touched);
      FamilyWithout(lists, b, keyToNodes, Repr, f);
      var list := ListFor(node.freq, b);
      ghost var rest := Repr - list.Repr;
      assert f !in lists ==> rest == Repr;
      assert Family(lists - {f}, b - {f}, keyToNodes, rest);
      AddShown(list, node, f, Bucket(b, f), keyToNodes);
      FamilyWith(lists - {f}, b - {f}, keyToNodes, rest, f, list, [item] + Bucket(b, f));
      MapWithout(b, f, [item] + Bucket(b, f));
      MapWithout(lists, f, list);
      Repr := rest + list.Repr;
    }

    /** The list of a frequency, which may have to be made. */
    method ListFor(f: nat, ghost b: Buckets) returns (list: DoublyLinkedList)
      requires Family(freqToList, b, keyToNodes, Repr)
      modifies `freqToList
      ensures freqToList == old(freqToList)[f := list]
      ensures Shows(list, f, Bucket(b, f), keyToNodes)
      ensures list in list.Repr
      ensures if f in old(freqToList) then list == old(freqToList)[f] else fresh(list.Repr)
    {
      if f in freqToList {
        list := freqToList[f];
        assert Member(list, f, b[f], keyToNodes, Repr);
      } else {
        list := new DoublyLinkedList();
        freqToList := freqToList[f := list];
      }
    }

    /** Unlinks a node, and raises the least frequency if its list was the least and is now empty. */
    method Detach(node: ListNode, ghost f: nat, ghost i: nat)
      requires this !in Repr && Family(freqToList, buckets, keyToNodes, Repr)
      requires f in freqToList && f in buckets && f == node.freq
      requires i < |buckets[f]| && i + 1 < |freqToList[f].chain| && node == freqToList[f].chain[i + 1]
      modifies `minFreq, `Repr, Repr
      ensures Family(freqToList, buckets[f := Without(buckets[f], i)], keyToNodes, Repr)
      ensures Repr == old(Repr) - {node}
      ensures node.freq == f && node.key == old(node.key) && node.value == old(node.value)
      ensures minFreq == if f == old(minFreq) && |buckets[f]| == 1 then old(minFreq) + 1 else old(minFreq)
    {
      hide *;
      FamilyWithout(freqToList, buckets, keyToNodes, Repr, f);
      var freq := node.freq;
      var list := freqToList[freq];
      ghost var rest := Repr - list.Repr;
      ShownNode(list, f, buckets[f], keyToNodes, i);
      RemoveShown(list, node, f, buckets[f], i, keyToNodes);
      if freq == minFreq && list.size == 0 {
        minFreq := minFreq + 1;
      }
      FamilyWith(freqToList - {f}, buckets - {f}, keyToNodes, rest, f, list, Without(buckets[f], i));
      MapWithout(buckets, f, Without(buckets[f], i));
      assert (freqToList - {f})[f := list] == freqToList;
      Repr := rest + list.Repr;
    }

    ghost method Record(b: Buckets, m: Entries, t: nat)
      modifies `buckets, `entries, `now
      ensures buckets == b && entries == m && now == t
    {
      buckets, entries, now := b, m, t;
    }

    /** Moves a cached node up by one frequency, to the front of its new list. */
    method Update(node: ListNode, ghost key: int)
      requires Kept() && key in entries && keyToNodes[key] == node
      modifies `minFreq, `freqToList, `buckets, `entries, `now, `Repr, Repr
      ensures Kept() && entries == Reused(old(entries), key, old(entries)[key].value, old(now))
      ensures now == old(now) + 1 && node.value == old(node.value) == old(entries)[key].value
      ensures fresh(Repr - old(Repr))
    {
      hide Family, Represents, Ordered, Least, Counted, Inv, UsedBuckets, Reused;
      ghost var b, f, value, m, t := buckets, entries[key].freq, entries[key].value, entries, now;
      FoldInv(b, entries, minFreq, now);
      ghost var i := Located(freqToList, b, keyToNodes, Repr, entries, key);
      UseKeeps(b, entries, minFreq, now, f, i, key, value);
      Move(node, f, i);
      Record(UsedBuckets(b, f, i, value, t), Reused(m, key, value, t), t + 1);
      UnfoldInv(buckets, entries, minFreq, now);
    }

    method Move(node: ListNode, ghost f: nat, ghost i: nat)
      requires this !in Repr && Family(freqToList, buckets, keyToNodes, Repr)
      requires f in freqToList && f in buckets && f == node.freq && node in Repr
      requires i < |buckets[f]| && i + 1 < |freqToList[f].chain| && node == freqToList[f].chain[i + 1]
      requires node.key in keyToNodes && keyToNodes[node.key] == node && node.key == buckets[f][i].key
      modifies `minFreq, `freqToList, `Repr, Repr
      ensures Family(freqToList, UsedBuckets(buckets, f, i, node.value, now), keyToNodes, Repr)
      ensures this !in Repr && fresh(Repr - old(Repr)) && node.value == old(node.value)
      ensures minFreq == if f == old(minFreq) && |buckets[f]| == 1 then old(minFreq) + 1 else old(minFreq)
    {
      hide Family, Bucket, Without;
      Detach(node, f, i);
      node.freq := node.freq + 1;
      node.touched := now;
      PutIn(node, buckets[f := Without(buckets[f], i)]);
    }

    /** The value of a cached key, whose use count goes up by one; -1 for any other key. */
    method Get(key: int) returns (value: int)
      requires Valid()
      modifies this, Repr
      ensures Valid() && fresh(Repr - old(Repr)) && calls == old(calls) + [Call.Get(key)]
      ensures key !in old(entries) ==> value == -1 && entries == old(entries) && now == old(now)
      ensures key in old(entries) ==> value == old(entries)[key].value && now == old(now) + 1
      ensures key in old(entries) ==>
        entries == old(entries)[key := Entry(value, old(entries)[key].freq + 1, old(now))]
    {
      hide Run, Family, Represents, Ordered, Least, Counted;
      RunStep(capacity, calls, Call.Get(key));
      value := Find(key);
      calls := calls + [Call.Get(key)];
    }

    /** What `Get` does to the lists. */
    method Find(key: int) returns (value: int)
      requires Kept()
      modifies `minFreq, `freqToList, `buckets, `entries, `now, `Repr, Repr
      ensures Kept() && fresh(Repr - old(Repr))
      ensures key !in old(entries) ==> value == -1 && entries == old(entries) && now == old(now)
      ensures key in old(entries) ==> value == old(entries)[key].value && now == old(now) + 1
      ensures key in old(entries) ==> entries == Reused(old(entries), key, value, old(now))
    {
      if key !in keyToNodes {
        return -1;
      }
      var node := keyToNodes[key];
      ghost var i := Located(freqToList, buckets, keyToNodes, Repr, entries, key);
      Update(node, key);
      value := node.value;
    }

    /** Overwrites the value of a cached key, without yet counting a use. */
    method Store(node: ListNode, key: int, value: int)
      requires Kept() && key in entries && keyToNodes[key] == node
      modifies node`value, `buckets, `entries
      ensures Kept() && entries == Stored(old(entries), key, value)
      ensures key in keyToNodes && keyToNodes[key] == node && key in entries
    {
      hide Family, Represents, Ordered, Least, Counted, Inv, Stored;
      ghost var b, f, lists := buckets, entries[key].freq, freqToList;
      ghost var i := Located(lists, b, keyToNodes, Repr, entries, key);
      ghost var items := b[f][i := b[f][i].(value := value)];
      FoldInv(b, entries, minFreq, now);
      StoreKeeps(b, entries, minFreq, now, f, i, key, value);
      FamilyWithout(lists, b, keyToNodes, Repr, f);
      ghost var rest := Repr - lists[f].Repr;
      ShownNode(lists[f], f, b[f], keyToNodes, i);
      StoreShown(lists[f], node, value, f, b[f], i, keyToNodes);
      FamilyWith(lists - {f}, b - {f}, keyToNodes, rest, f, lists[f], items);
      MapWithout(b, f, items);
      assert (lists - {f})[f := lists[f]] == lists && rest + lists[f].Repr == Repr;
      buckets, entries := StoredBuckets(b, f, i, value), Stored(entries, key, value);
      UnfoldInv(buckets, entries, minFreq, now);
    }

    /** Unlinks the last node of the least bucket's list. */
    method Unlink() returns (removed: ListNode, ghost victim: int)
      requires this !in Repr && Family(freqToList, buckets, keyToNodes, Repr)
      requires minFreq in buckets && buckets[minFreq] != []
      modifies `Repr, Repr
      ensures Family(freqToList, EvictedBuckets(buckets, minFreq), keyToNodes, Repr) && Repr <= old(Repr)
      ensures victim == buckets[minFreq][|buckets[minFreq]| - 1].key == removed.key
    {
      hide Family, Shows;
      ghost var low, items := minFreq, buckets[minFreq][..|buckets[minFreq]| - 1];
      FamilyWithout(freqToList, buckets, keyToNodes, Repr, low);
      InLists(freqToList, buckets, keyToNodes, Repr, low);
      var list := freqToList[minFreq];
      ghost var rest := Repr - list.Repr;
      ShownNode(list, low, buckets[low], keyToNodes, 0);
      victim := buckets[low][|buckets[low]| - 1].key;
      removed := RemoveLastShown(list, low, buckets[low], keyToNodes);
      FamilyWith(freqToList - {low}, buckets - {low}, keyToNodes, rest, low, list, items);
      MapWithout(buckets, low, items);
      assert (freqToList - {low})[low := list] == freqToList;
      Repr := rest + list.Repr;
    }

    /** Removes the rule's victim. */
    method Evict()
      requires Kept() && size > 0
      modifies `size, `keyToNodes, `buckets, `entries, `Repr, Repr
      ensures Agree() && old(entries) != map[] && entries == Evicted(old(entries), Victim(old(entries)))
      ensures Repr <= old(Repr) && now == old(now) && size == old(size) - 1
    {
      hide *;
      Evictable();
      ghost var b, m := EvictedBuckets(buckets, minFreq), Evicted(entries, Victim(entries));
      var removed := UnlinkLast();
      Forget(removed, b, m);
      Refold();
    }

    /** The last node of the least bucket holds the victim. */
    lemma Evictable()
      requires Kept() && size > 0
      ensures this !in Repr && Family(freqToList, buckets, keyToNodes, Repr)
      ensures minFreq in buckets && buckets[minFreq] != [] && entries != map[]
      ensures buckets[minFreq][|buckets[minFreq]| - 1].key == Victim(entries)
      ensures Represents(EvictedBuckets(buckets, minFreq), Evicted(entries, Victim(entries)))
      ensures Ordered(EvictedBuckets(buckets, minFreq), now) && Counted(Evicted(entries, Victim(entries)))
      ensures keyToNodes.Keys == entries.Keys && size == |entries|
      ensures Evicted(entries, Victim(entries)).Keys == keyToNodes.Keys - {Victim(entries)}
      ensures |Evicted(entries, Victim(entries))| == size - 1
    {
      hide Family, Represents, Ordered, Least, Counted, IsVictim;
      EvictionSpec(buckets, entries, minFreq, now);
      VictimUnique(buckets, entries, minFreq, now, buckets[minFreq][|buckets[minFreq]| - 1].key, Victim(entries));
    }

    lemma Refold()
      requires this !in Repr && Family(freqToList, buckets, keyToNodes, Repr)
      requires Represents(buckets, entries) && Ordered(buckets, now) && Counted(entries)
      requires keyToNodes.Keys == entries.Keys && size == |entries|
      ensures Agree()
    {
    }

    /** Unlinks the last node of the least bucket; the index need not know its key any longer. */
    method UnlinkLast() returns (removed: ListNode)
      requires this !in Repr && Family(freqToList, buckets, keyToNodes, Repr)
      requires minFreq in buckets && buckets[minFreq] != []
      requires var victim := buckets[minFreq][|buckets[minFreq]| - 1].key;
               Represents(EvictedBuckets(buckets, minFreq), Evicted(entries, victim))
      modifies `Repr, Repr
      ensures removed.key == buckets[minFreq][|buckets[minFreq]| - 1].key
      ensures Family(freqToList, EvictedBuckets(buckets, minFreq), keyToNodes - {removed.key}, Repr)
      ensures this !in Repr && Repr <= old(Repr)
    {
      hide Family, Represents, EvictedBuckets;
      ghost var victim;
      removed, victim := Unlink();
      DropKey(freqToList, EvictedBuckets(buckets, minFreq), keyToNodes, Repr, Evicted(entries, victim), victim);
    }

    method Forget(removed: ListNode, ghost b: Buckets, ghost m: Entries)
      requires size > 0
      modifies `keyToNodes, `size, `buckets, `entries
      ensures keyToNodes == old(keyToNodes) - {removed.key} && keyToNodes.Keys == old(keyToNodes).Keys - {removed.key}
      ensures size == old(size) - 1 && buckets == b && entries == m
    {
      keyToNodes := keyToNodes - {removed.key};
      size := size - 1;
      buckets, entries := b, m;
    }

    /** Caches a new key with frequency 1. */
    method Enter(key: int, value: int)
      requires Agree() && key !in entries && (capacity >= 0 ==> size < capacity)
      modifies `size, `minFreq, `keyToNodes, `freqToList, `buckets, `entries, `now, `Repr, Repr
      ensures Kept() && entries == Entered(old(entries), key, value, old(now))
      ensures now == old(now) + 1 && fresh(Repr - old(Repr))
    {
      hide Family, Represents, Ordered, Least, Counted, Entered;
      var newNode := new ListNode(key, value, 1, now);
      AddKey(freqToList, buckets, keyToNodes, Repr, entries, key, newNode);
      IndexWith(newNode, key);
      LinkNew(newNode);
    }

    method IndexWith(newNode: ListNode, key: int)
      modifies `keyToNodes
      ensures keyToNodes == old(keyToNodes)[key := newNode] && keyToNodes.Keys == old(keyToNodes).Keys + {key}
    {
      keyToNodes := keyToNodes[key := newNode];
    }

    /** Puts an indexed new node into the list of frequency 1, which becomes the least. */
    method LinkNew(newNode: ListNode)
      requires this !in Repr && newNode !in Repr && Family(freqToList, buckets, keyToNodes, Repr)
      requires Represents(buckets, entries) && Ordered(buckets, now) && Counted(entries)
      requires newNode.freq == 1 && newNode.touched == now && newNode.key !in entries
      requires newNode.key in keyToNodes && keyToNodes[newNode.key] == newNode
      requires keyToNodes.Keys == entries.Keys + {newNode.key} && size == |entries|
      requires capacity >= 0 ==> size < capacity
      modifies `size, `minFreq, `freqToList, `buckets, `entries, `now, `Repr, Repr, newNode`prev, newNode`next
      ensures Kept() && entries == Entered(old(entries), newNode.key, newNode.value, old(now))
      ensures newNode.key == old(newNode.key) && newNode.value == old(newNode.value)
      ensures now == old(now) + 1 && fresh(Repr - old(Repr) - {newNode})
    {
      hide *;
      ghost var b, m, t, key, value := buckets, entries, now, newNode.key, newNode.value;
      ghost var b', m' := EnteredBuckets(b, key, value, t), Entered(m, key, value, t);
      EnterKeeps(b, m, t, key, value);
      EnteredAtFront(b, key, value, t);
      PutIn(newNode, b);
      Enlarge(b', m', t + 1);
      FoldEntered();
    }

    /** One key more, of the least frequency there is. */
    method Enlarge(ghost b: Buckets, ghost m: Entries, ghost t: nat)
      modifies `size, `minFreq, `buckets, `entries, `now
      ensures size == old(size) + 1 && minFreq == 1 && buckets == b && entries == m && now == t
    {
      minFreq := 1;
      size := size + 1;
      buckets, entries, now := b, m, t;
    }

    lemma FoldEntered()
      requires this !in Repr && Family(freqToList, buckets, keyToNodes, Repr)
      requires Inv(buckets, entries, minFreq, now)
      requires keyToNodes.Keys == entries.Keys && size == |entries| && (capacity >= 0 ==> size <= capacity)
      ensures Kept()
    {
      hide Family, Represents, Ordered, Least, Counted;
    }

    /**
     Caches a value. A key cached already is used once more; otherwise a full cache first evicts the
     key of least frequency and, among those, of oldest last use.
     */
    method Put(key: int, value: int)
      requires Valid()
      modifies this, Repr
      ensures Valid() && fresh(Repr - old(Repr)) && calls == old(calls) + [Call.Put(key, value)]
      ensures now == if capacity == 0 then old(now) else old(now) + 1
      ensures capacity == 0 ==> entries == old(entries)
      ensures capacity != 0 && key in old(entries) ==>
        entries == old(entries)[key := Entry(value, old(entries)[key].freq + 1, old(now))]
      ensures capacity != 0 && key !in old(entries) && |old(entries)| == capacity ==>
        && old(entries) != map[]
        && entries == (old(entries) - {Victim(old(entries))})[key := Entry(value, 1, old(now))]
      ensures capacity != 0 && key !in old(entries) && |old(entries)| != capacity ==>
        entries == old(entries)[key := Entry(value, 1, old(now))]
    {
      hide Run, Step, Family, Represents, Ordered, Least, Counted, IsVictim, Reused, Entered, Evicted;
      RunStep(capacity, calls, Call.Put(key, value));
      PutStep(capacity, entries, now, key, value);
      Place(key, value);
      calls := calls + [Call.Put(key, value)];
    }

    /** What `Put` does to the lists. */
    method Place(key: int, value: int)
      requires Kept()
      modifies `size, `minFreq, `keyToNodes, `freqToList, `buckets, `entries, `now, `Repr, Repr
      ensures Kept() && fresh(Repr - old(Repr))
      ensures now == if capacity == 0 then old(now) else old(now) + 1
      ensures capacity == 0 ==> entries == old(entries)
      ensures capacity != 0 && key in old(entries) ==>
        entries == Reused(old(entries), key, value, old(now))
      ensures capacity != 0 && key !in old(entries) && |old(entries)| == capacity ==>
        && old(entries) != map[]
        && entries == Entered(Evicted(old(entries), Victim(old(entries))), key, value, old(now))
      ensures capacity != 0 && key !in old(entries) && |old(entries)| != capacity ==>
        entries == Entered(old(entries), key, value, old(now))
    {
      hide Family, Represents, Ordered, Least, Counted, IsVictim, Entered, Reused, Stored;
      if capacity == 0 {
        return;
      }
      if key in keyToNodes {
        Touch(key, value);
        return;
      }
      if size == capacity {
        Evict();
      }
      Enter(key, value);
    }

    /** The branch of `Put` for a key cached already. */
    method Touch(key: int, value: int)
      requires Kept() && key in entries
      modifies `minFreq, `freqToList, `buckets, `entries, `now, `Repr, Repr
      ensures Kept() && fresh(Repr - old(Repr)) && now == old(now) + 1
      ensures entries == Reused(old(entries), key, value, old(now))
    {
      hide Family, Represents, Ordered, Least, Counted, Reused, Stored;
      ghost var i := Located(freqToList, buckets, keyToNodes, Repr, entries, key);
      var node := keyToNodes[key];
      StoreThenUse(entries, key, value, now);
      StoredAt(entries, key, value);
      Store(node, key, value);
      Update(node, key);
    }
  }

  lemma EnteredAtFront(b: Buckets, key: int, value: int, t: nat)
    ensures EnteredBuckets(b, key, value, t) == b[1 := [Item(key, value, t)] + Bucket(b, 1)]
  {
  }

  lemma StoredAt(m: Entries, key: int, value: int)
    requires key in m
    ensures Stored(m, key, value)[key].value == value
  {
  }

  /** The index may forget a key that is no longer in the buckets. */
  lemma DropKey(lists: Lists, b: Buckets, index: Index, repr: set<object>, m: Entries, key: int)
    requires Family(lists, b, index, repr) && Represents(b, m) && key !in m
    ensures Family(lists, b, index - {key}, repr)
  {
    Reindex(lists, b, index, repr, m, index - {key});
  }

  /** The index may learn a key that is not in the buckets. */
  lemma AddKey(lists: Lists, b: Buckets, index: Index, repr: set<object>, m: Entries, key: int, node: ListNode)
    requires Family(lists, b, index, repr) && Represents(b, m) && key !in m
    ensures Family(lists, b, index[key := node], repr)
  {
    Reindex(lists, b, index, repr, m, index[key := node]);
  }

  lemma InLists(lists: Lists, b: Buckets, index: Index, repr: set<object>, f: nat)
    requires Family(lists, b, index, repr)
    ensures f in lists <==> f in b
  {
  }

  lemma ShownNode(list: DoublyLinkedList, f: nat, items: seq<Item>, index: Index, i: nat)
    requires Shows(list, f, items, index) && i < |items|
    ensures list.chain[i + 1] in list.Repr && forall n | n in list.chain :: n in list.Repr
  {
  }
}
