/**
 The chaining hash table of 03-Hash-Table/bucket-hash-table.go on the heap: buckets that point at
 linked entries, relinked in place and rebuilt when the table grows or shrinks.
 */
module BucketHashTables {
  import opened ChainingSpec
  import opened Hashing
  import opened Options

  class KeyValuePair {
    const key: string
    var value: string
    var next: KeyValuePair?

    constructor (key: string, value: string, next: KeyValuePair?)
      ensures this.key == key && this.value == value && this.next == next
    {
      this.key, this.value, this.next := key, value, next;
    }
  }

  ghost function NodeAt(nodes: seq<KeyValuePair>, j: nat): KeyValuePair? {
    if j < |nodes| then nodes[j] else null
  }

  ghost predicate ShowsPair(node: KeyValuePair, next: KeyValuePair?, p: Pair)
    reads node
  {
    node.key == p.key && node.value == p.value && node.next == next
  }

  /** The entries linked from `head` are `nodes` and hold the pairs of `c`. */
  ghost predicate Linked(head: KeyValuePair?, nodes: seq<KeyValuePair>, c: Chain)
    reads nodes
  {
    && |nodes| == |c| && head == NodeAt(nodes, 0)
    && (forall j | 0 <= j < |nodes| :: ShowsPair(nodes[j], NodeAt(nodes, j + 1), c[j]))
    && (forall j, k | 0 <= j < k < |nodes| :: nodes[j] != nodes[k])
  }

  ghost predicate Within(nodes: seq<KeyValuePair>, repr: set<object>) {
    forall j | 0 <= j < |nodes| :: nodes[j] in repr
  }

  ghost predicate Apart(a: seq<KeyValuePair>, b: seq<KeyValuePair>) {
    forall j, k | 0 <= j < |a| && 0 <= k < |b| :: a[j] != b[k]
  }

  /** Every bucket leads to its chain, and no entry is in two chains. */
  ghost predicate Rows(heads: seq<KeyValuePair?>, rows: seq<seq<KeyValuePair>>, v: View, repr: set<object>)
    reads repr
  {
    && |heads| == |rows| == |v|
    && (forall i | 0 <= i < |rows| :: Within(rows[i], repr) && Linked(heads[i], rows[i], v[i]))
    && (forall i, j | 0 <= i < j < |rows| :: Apart(rows[i], rows[j]))
  }

  /** One row is replaced by another that shares nothing with the rest. */
  lemma ReplaceRow(heads: seq<KeyValuePair?>, rows: seq<seq<KeyValuePair>>, v: View, repr: set<object>,
                   i: nat, head: KeyValuePair?, row: seq<KeyValuePair>, c: Chain)
    requires |heads| == |rows| == |v| && i < |rows|
    requires forall j | 0 <= j < |rows| && j != i :: Within(rows[j], repr) && Linked(heads[j], rows[j], v[j])
    requires forall j, k | 0 <= j < k < |rows| :: Apart(rows[j], rows[k])
    requires Within(row, repr) && Linked(head, row, c)
    requires forall j | 0 <= j < |rows| && j != i :: Apart(row, rows[j])
    ensures Rows(heads[i := head], rows[i := row], v[i := c], repr)
  {
    var rows' := rows[i := row];
    forall j, k | 0 <= j < k < |rows'| ensures Apart(rows'[j], rows'[k]) {
      if j == i { assert Apart(row, rows[k]); }
      if k == i { assert Apart(row, rows[j]); }
    }
  }

  lemma RowFacts(heads: seq<KeyValuePair?>, rows: seq<seq<KeyValuePair>>, v: View, repr: set<object>, i: nat)
    requires Rows(heads, rows, v, repr) && i < |rows|
    ensures |heads| == |rows| == |v|
    ensures Within(rows[i], repr) && Linked(heads[i], rows[i], v[i])
  {
  }

  /** A new entry in front of a chain. */
  lemma RowsPush(heads: seq<KeyValuePair?>, rows: seq<seq<KeyValuePair>>, v: View, repr: set<object>,
                 i: nat, entry: KeyValuePair)
    requires Rows(heads, rows, v, repr) && i < |rows| && entry !in repr && entry.next == heads[i]
    ensures |heads| == |rows| == |v|
    ensures Rows(heads[i := entry], rows[i := [entry] + rows[i]],
                 v[i := [Pair(entry.key, entry.value)] + v[i]], repr + {entry})
  {
    hide Linked, Apart, Within;
    var row, c := [entry] + rows[i], [Pair(entry.key, entry.value)] + v[i];
    PushLinked(heads[i], rows[i], v[i], repr, entry);
    forall j | 0 <= j < |rows| && j != i
      ensures Apart(row, rows[j]) && Within(rows[j], repr + {entry}) && Linked(heads[j], rows[j], v[j])
    {
      assert if i < j then Apart(rows[i], rows[j]) else Apart(rows[j], rows[i]);
      PushApart(rows[i], rows[j], repr, entry);
    }
    ReplaceRow(heads, rows, v, repr + {entry}, i, entry, row, c);
  }

  lemma PushLinked(head: KeyValuePair?, row: seq<KeyValuePair>, c: Chain, repr: set<object>, entry: KeyValuePair)
    requires Linked(head, row, c) && Within(row, repr) && entry !in repr && entry.next == head
    ensures Linked(entry, [entry] + row, [Pair(entry.key, entry.value)] + c)
    ensures Within([entry] + row, repr + {entry})
  {
    var row', c' := [entry] + row, [Pair(entry.key, entry.value)] + c;
    assert forall j | 1 <= j < |row'| :: row'[j] == row[j - 1] && c'[j] == c[j - 1];
  }

  lemma PushApart(row: seq<KeyValuePair>, other: seq<KeyValuePair>, repr: set<object>, entry: KeyValuePair)
    requires Apart(row, other) || Apart(other, row)
    requires Within(other, repr) && entry !in repr
    ensures Apart([entry] + row, other) && Within(other, repr + {entry})
  {
  }

  /** Overwrites the value of entry `j` of chain `i`. */
  method StoreAt(entry: KeyValuePair, value: string, ghost heads: seq<KeyValuePair?>,
                 ghost rows: seq<seq<KeyValuePair>>, ghost v: View, ghost repr: set<object>, ghost i: nat, ghost j: nat)
    requires Rows(heads, rows, v, repr) && i < |rows| && j < |rows[i]| && entry == rows[i][j]
    modifies entry`value
    ensures |v| == |rows| && j < |v[i]|
    ensures Rows(heads, rows, v[i := v[i][j := Pair(entry.key, value)]], repr)
  {
    hide Rows;
    RowFacts(heads, rows, v, repr, i);
    OtherRows(heads, rows, v, repr, i);
    entry.value := value;
    ghost var c := v[i][j := Pair(entry.key, value)];
    assert forall k | 0 <= k < |rows[i]| && k != j :: rows[i][k] != entry;
    assert Linked(heads[i], rows[i], c);
    ReplaceRow(heads, rows, v, repr, i, heads[i], rows[i], c);
    assert heads[i := heads[i]] == heads && rows[i := rows[i]] == rows;
  }

  lemma OtherRows(heads: seq<KeyValuePair?>, rows: seq<seq<KeyValuePair>>, v: View, repr: set<object>, i: nat)
    requires Rows(heads, rows, v, repr) && i < |rows|
    ensures |heads| == |rows| == |v|
    ensures forall j | 0 <= j < |rows| && j != i ::
      Within(rows[j], repr) && Linked(heads[j], rows[j], v[j]) && Apart(rows[i], rows[j])
    ensures forall j, k | 0 <= j < k < |rows| :: Apart(rows[j], rows[k])
  {
    forall j | 0 <= j < |rows| && j != i ensures Apart(rows[i], rows[j]) {
      assert if i < j then Apart(rows[i], rows[j]) else Apart(rows[j], rows[i]);
    }
  }

  /** Unlinks entry `j > 0` of one chain behind its predecessor. */
  method CutLink(prev: KeyValuePair, entry: KeyValuePair, ghost head: KeyValuePair?,
                 ghost row: seq<KeyValuePair>, ghost c: Chain, ghost j: nat)
    requires Linked(head, row, c) && 0 < j < |row| && prev == row[j - 1] && entry == row[j]
    modifies prev`next
    ensures Linked(head, row[..j] + row[j + 1..], c[..j] + c[j + 1..])
  {
    ghost var row', c' := row[..j] + row[j + 1..], c[..j] + c[j + 1..];
    assert ShowsPair(entry, NodeAt(row, j + 1), c[j]) && ShowsPair(prev, NodeAt(row, j), c[j - 1]);
    prev.next := entry.next;
    CutShape(row, c, j);
    forall k | 0 <= k < |row'| ensures ShowsPair(row'[k], NodeAt(row', k + 1), c'[k]) {
      if k != j - 1 {
        var k0 := if k < j then k else k + 1;
        assert old(ShowsPair(row[k0], NodeAt(row, k0 + 1), c[k0]));
      }
    }
  }

  lemma CutShape(row: seq<KeyValuePair>, c: Chain, j: nat)
    requires |row| == |c| && j < |row|
    requires forall k, l | 0 <= k < l < |row| :: row[k] != row[l]
    ensures var row', c' := row[..j] + row[j + 1..], c[..j] + c[j + 1..];
      && |row'| == |c'| == |row| - 1
      && (forall k | 0 <= k < j :: row'[k] == row[k] && c'[k] == c[k])
      && (forall k | j <= k < |row'| :: row'[k] == row[k + 1] && c'[k] == c[k + 1])
      && (forall k, l | 0 <= k < l < |row'| :: row'[k] != row'[l])
  {
  }

  /** Unlinks entry `j > 0` of chain `i`. */
  method CutAfter(prev: KeyValuePair, entry: KeyValuePair, ghost heads: seq<KeyValuePair?>,
                  ghost rows: seq<seq<KeyValuePair>>, ghost v: View, ghost repr: set<object>,
                  ghost i: nat, ghost j: nat)
    requires Rows(heads, rows, v, repr) && i < |rows| && 0 < j < |rows[i]|
    requires prev == rows[i][j - 1] && entry == rows[i][j]
    modifies prev`next
    ensures |v| == |rows| && j < |v[i]|
    ensures Rows(heads, rows[i := rows[i][..j] + rows[i][j + 1..]], v[i := v[i][..j] + v[i][j + 1..]], repr)
  {
    hide Rows, Linked;
    RowFacts(heads, rows, v, repr, i);
    OtherRows(heads, rows, v, repr, i);
    LinkedLengths(heads[i], rows[i], v[i]);
    ghost var row, c := rows[i][..j] + rows[i][j + 1..], v[i][..j] + v[i][j + 1..];
    CutLink(prev, entry, heads[i], rows[i], v[i], j);
    CutApart(rows, i, j, repr);
    ReplaceRow(heads, rows, v, repr, i, heads[i], row, c);
    assert heads[i := heads[i]] == heads;
  }

  lemma LinkFacts(head: KeyValuePair?, row: seq<KeyValuePair>, c: Chain)
    requires Linked(head, row, c)
    ensures |row| == |c| && head == NodeAt(row, 0)
    ensures forall j | 0 <= j < |row| :: ShowsPair(row[j], NodeAt(row, j + 1), c[j])
  {
  }

  lemma LinkedLengths(head: KeyValuePair?, row: seq<KeyValuePair>, c: Chain)
    requires Linked(head, row, c)
    ensures |row| == |c|
  {
  }

  lemma CutApart(rows: seq<seq<KeyValuePair>>, i: nat, j: nat, repr: set<object>)
    requires i < |rows| && j < |rows[i]| && Within(rows[i], repr)
    requires forall k | 0 <= k < |rows| && k != i :: Apart(rows[i], rows[k])
    ensures var row := rows[i][..j] + rows[i][j + 1..];
            Within(row, repr) && forall k | 0 <= k < |rows| && k != i :: Apart(row, rows[k])
  {
    var row := rows[i][..j] + rows[i][j + 1..];
    assert forall k | 0 <= k < |row| :: row[k] == rows[i][if k < j then k else k + 1];
  }

  /** Making a bucket point past its first entry. */
  lemma CutHead(heads: seq<KeyValuePair?>, rows: seq<seq<KeyValuePair>>, v: View, repr: set<object>, i: nat)
    requires Rows(heads, rows, v, repr) && i < |rows| && rows[i] != []
    ensures |v| == |rows| == |heads| && v[i] != []
    ensures Rows(heads[i := rows[i][0].next], rows[i := rows[i][1..]], v[i := v[i][1..]], repr)
  {
    hide Rows;
    RowFacts(heads, rows, v, repr, i);
    OtherRows(heads, rows, v, repr, i);
    var row, c := rows[i][1..], v[i][1..];
    assert ShowsPair(rows[i][0], NodeAt(rows[i], 1), v[i][0]);
    assert Linked(rows[i][0].next, row, c);
    ReplaceRow(heads, rows, v, repr, i, rows[i][0].next, row, c);
  }

  class BucketHashTable {
    var size: nat
    var capacity: nat
    var bucket: array<KeyValuePair?>
    const hashOf: Hash

    ghost var rows: seq<seq<KeyValuePair>>
    ghost var view: View
    ghost var contents: Contents
    ghost var Repr: set<object>

    ghost const initial: nat  // the capacity asked for at the start
    ghost var calls: seq<Op>
    ghost var copied: nat     // how many entries resizes have copied

    /** The buckets, their chains and the map agree. */
    ghost predicate Consistent()
      reads `size, `capacity, `bucket, `rows, `view, `contents, `Repr, bucket, Repr
    {
      && this !in Repr && bucket !in Repr
      && capacity == bucket.Length
      && Rows(bucket[..], rows, view, Repr)
      && Wf(hashOf, view, contents)
      && size == |contents|
    }

    ghost predicate Valid()
      reads this, bucket, Repr
    {
      && Consistent()
      && capacity >= MINIMUM_CAPACITY
      && Table(contents, capacity, copied) == Run(initial, calls)
    }

    constructor (capacity: int, hashOf: Hash)
      ensures Valid() && calls == [] && this.hashOf == hashOf
      ensures initial == if capacity < 0 then 0 else capacity
      ensures fresh(bucket) && Repr == {}
    {
      var n := if capacity < MINIMUM_CAPACITY then MINIMUM_CAPACITY else capacity;
      size, this.capacity, this.hashOf := 0, n, hashOf;
      bucket := new KeyValuePair?[n](_ => null);
      rows, view := seq(n, _ => []), seq(n, _ => []);
      contents, Repr, initial, calls, copied := map[], {}, if capacity < 0 then 0 else capacity, [], 0;
      new;
      EmptyWf(hashOf, n);
    }

    /** Puts a new entry at the head of its chain. */
    method Push(key: string, value: string)
      requires Consistent() && capacity > 0 && key !in contents
      modifies `size, `rows, `view, `contents, `Repr, bucket
      ensures Consistent() && contents == old(contents)[key := value] && fresh(Repr - old(Repr))
    {
      hide *;
      Unfold();
      var index := Home(hashOf, key, capacity);
      PushKeeps(hashOf, view, contents, key, value);
      PutSize(contents, key, value);
      var newEntry := new KeyValuePair(key, value, bucket[index]);
      RowsPush(bucket[..], rows, view, Repr, index, newEntry);
      ghost var heads := bucket[..][index := newEntry];
      bucket[index] := newEntry;
      assert bucket[..] == heads;
      size := size + 1;
      Record(rows[index := [newEntry] + rows[index]], view[index := [Pair(key, value)] + view[index]],
             contents[key := value], Repr + {newEntry});
      Fold();
    }

    ghost method Record(rows': seq<seq<KeyValuePair>>, view': View, contents': Contents, repr': set<object>)
      modifies `rows, `view, `contents, `Repr
      ensures rows == rows' && view == view' && contents == contents' && Repr == repr'
    {
      rows, view, contents, Repr := rows', view', contents', repr';
    }

    lemma Unfold()
      requires Consistent()
      ensures this !in Repr && bucket !in Repr && capacity == bucket.Length == |rows| == |view| > 0
      ensures Rows(bucket[..], rows, view, Repr) && Wf(hashOf, view, contents) && size == |contents|
    {
    }

    lemma Fold()
      requires this !in Repr && bucket !in Repr && capacity == bucket.Length
      requires Rows(bucket[..], rows, view, Repr) && Wf(hashOf, view, contents) && size == |contents|
      ensures Consistent()
    {
    }

    /** Walks a key's chain to its entry, or to the end. */
    method Walk(key: string) returns (entry: KeyValuePair?, prev: KeyValuePair?, ghost j: nat)
      requires Consistent()
      ensures (entry != null) <==> key in contents
      ensures capacity == |rows| == |view| > 0
      ensures var i := Home(hashOf, key, capacity);
        entry != null ==>
          && j < |rows[i]| && j < |view[i]| && entry == rows[i][j] && entry in Repr && entry.key == key
          && view[i][j] == Pair(key, entry.value) && contents[key] == entry.value
          && prev == (if j > 0 then rows[i][j - 1] else null) && (j > 0 ==> prev in Repr)
    {
      hide Rows, Wf, Run, Linked;
      Unfold();
      var index := Home(hashOf, key, capacity);
      RowFacts(bucket[..], rows, view, Repr, index);
      LinkFacts(bucket[index], rows[index], view[index]);
      InRepr(rows[index], Repr);
      ChainDecides(hashOf, view, contents, key);
      entry, prev, j := bucket[index], null, 0;
      while entry != null
        invariant j <= |rows[index]| && entry == NodeAt(rows[index], j)
        invariant prev == if j > 0 then rows[index][j - 1] else null
        invariant forall k | 0 <= k < j :: view[index][k].key != key
        decreases |rows[index]| - j
      {
        if entry.key == key {
          PairIsMapped(hashOf, view, contents, index, j);
          return;
        }
        prev := entry;
        entry := entry.next;
        j := j + 1;
      }
    }

    /** What resizes have copied stays linear in the number of calls, in every state. */
    lemma CopiesAmortized()
      requires Valid()
      ensures 4 * copied <= 20 * |calls| + 3 * Clamped(initial)
    {
      RunCost(initial, calls);
    }

    method Get(key: string) returns (r: Option<string>)
      requires Valid()
      ensures r == if key in RunMap(calls) then Some(RunMap(calls)[key]) else None
    {
      RunCost(initial, calls);
      var entry, _, _ := Walk(key);
      r := if entry != null then Some(entry.value) else None;
    }

    /** Adds or updates a key, and doubles the table when it becomes too full. */
    method Set(key: string, value: string)
      requires Valid()
      modifies this, bucket, Repr
      ensures Valid() && calls == old(calls) + [Put(key, value)] && contents == old(contents)[key := value]
      ensures fresh(Repr - old(Repr)) && (bucket == old(bucket) || fresh(bucket))
    {
      hide Rows, Wf, Run, Linked, Home, Apply, TooFull;
      RunStep(initial, calls, Put(key, value));
      ApplyPut(Run(initial, calls), key, value);
      var entry, _, j := Walk(key);
      if entry != null {
        Overwrite(entry, key, value, j);
        calls := calls + [Put(key, value)];
        return;
      }
      Push(key, value);
      if TooFull(size, capacity) {
        Resize(capacity * 2);
      }
      calls := calls + [Put(key, value)];
    }

    method Overwrite(entry: KeyValuePair, key: string, value: string, ghost j: nat)
      requires Consistent() && capacity > 0 && entry.key == key
      requires var i := Home(hashOf, key, capacity);
               && i < |rows| && i < |view| && j < |rows[i]| && j < |view[i]|
               && entry == rows[i][j] && view[i][j].key == key
      modifies entry`value, `rows, `view, `contents, `Repr
      ensures Consistent() && contents == old(contents)[key := value]
      ensures key in old(contents) && Repr == old(Repr)
    {
      hide *;
      Unfold();
      ghost var i := Home(hashOf, key, capacity);
      OverwriteKeeps(hashOf, view, contents, j, key, value);
      PutSize(contents, key, value);
      StoreAt(entry, value, bucket[..], rows, view, Repr, i, j);
      Record(rows, view[i := view[i][j := Pair(key, value)]], contents[key := value], Repr);
      Fold();
    }

    /** Removes a key, and halves the table when it becomes too sparse. */
    method Delete(key: string) returns (found: bool)
      requires Valid()
      modifies this, bucket, Repr
      ensures Valid() && calls == old(calls) + [ChainingSpec.Remove(key)] && contents == old(contents) - {key}
      ensures found <==> key in RunMap(old(calls))
      ensures fresh(Repr - old(Repr)) && (bucket == old(bucket) || fresh(bucket))
    {
      hide Rows, Wf, Run, RunMap, Apply, Clamped;
      RunStep(initial, calls, ChainingSpec.Remove(key));
      RunContents(initial, calls);
      ApplyCapacity(Run(initial, calls), ChainingSpec.Remove(key));
      RemoveExactly(Run(initial, calls), key);
      found := Remove(key);
      calls := calls + [ChainingSpec.Remove(key)];
    }

    /** Unlinks the key's entry, if there is one, and shrinks the table when it has become sparse. */
    method Remove(key: string) returns (found: bool)
      requires Consistent() && capacity > 0
      modifies `size, `capacity, `bucket, `rows, `view, `contents, `Repr, `copied, bucket, Repr
      ensures Consistent() && found == (key in old(contents))
      ensures Table(contents, capacity, copied)
        == Apply(old(Table(contents, capacity, copied)), ChainingSpec.Remove(key))
      ensures fresh(Repr - old(Repr)) && (bucket == old(bucket) || fresh(bucket))
    {
      hide Rows, Wf, Home, Apply, TooSparse;
      ApplyRemove(Table(contents, capacity, copied), key);
      var entry, prev, j := Walk(key);
      found := entry != null;
      if entry != null {
        Unlink(entry, prev, key, j);
        if TooSparse(size, capacity) {
          Resize(capacity / 2);
        }
      }
    }

    method Unlink(entry: KeyValuePair, prev: KeyValuePair?, key: string, ghost j: nat)
      requires Consistent() && capacity > 0
      requires var i := Home(hashOf, key, capacity);
        && i < |rows| && i < |view| && j < |rows[i]| && j < |view[i]| && entry == rows[i][j] && view[i][j].key == key
        && prev == (if j > 0 then rows[i][j - 1] else null)
      modifies `size, `rows, `view, `contents, `Repr, bucket, Repr
      ensures Consistent() && contents == old(contents) - {key} && key in old(contents) && Repr == old(Repr)
    {
      hide *;
      Unfold();
      var index := Home(hashOf, key, capacity);
      RemoveKeeps(hashOf, view, contents, j, key);
      RemoveSize(contents, key);
      ghost var row, c := rows[index][..j] + rows[index][j + 1..], view[index][..j] + view[index][j + 1..];
      RowFacts(bucket[..], rows, view, Repr, index);
      InRepr(rows[index], Repr);
      if prev != null {
        CutAfter(prev, entry, bucket[..], rows, view, Repr, index, j);
      } else {
        CutHead(bucket[..], rows, view, Repr, index);
        ghost var heads := bucket[..][index := entry.next];
        bucket[index] := entry.next;
        assert bucket[..] == heads;
        assert row == rows[index][1..] && c == view[index][1..];
      }
      size := size - 1;
      Record(rows[index := row], view[index := c], contents - {key}, Repr);
      Fold();
    }

    /** Copies every entry into a new bucket array, chain by chain. */
    method Resize(newCapacity: nat)
      requires Consistent()
      modifies `size, `capacity, `bucket, `rows, `view, `contents, `Repr, `copied
      ensures Consistent() && contents == old(contents) && capacity == Clamped(newCapacity)
      ensures copied == old(copied) + |old(contents)|
      ensures fresh(bucket) && fresh(Repr)
    {
      hide Rows, Wf, Moved, Home;
      var n := if newCapacity < MINIMUM_CAPACITY then MINIMUM_CAPACITY else newCapacity;
      Unfold();
      var oldBuckets := bucket;
      ghost var rs, v, all, repr, heads := rows, view, contents, Repr, bucket[..];
      ghost var before := copied;
      Clear(n);
      MoveNothing(hashOf, v, all);
      for i := 0 to oldBuckets.Length
        invariant Consistent() && capacity == n && fresh(bucket) && fresh(Repr)
        invariant oldBuckets != bucket && oldBuckets[..] == heads
        invariant |heads| == |rs| == |v| && Rows(heads, rs, v, repr)
        invariant Moved(hashOf, v, all, i, 0, contents) && copied == before + |contents|
      {
        RehashChain(oldBuckets[i], heads, rs, v, all, repr, i, before);
        MoveBucket(hashOf, v, all, i, contents);
      }
      MovedAll(hashOf, v, all, contents);
    }

    /** Starts over with empty buckets. */
    method Clear(n: nat)
      requires n > 0
      modifies `size, `capacity, `bucket, `rows, `view, `contents, `Repr
      ensures Consistent() && contents == map[] && capacity == n && fresh(bucket) && Repr == {}
    {
      hide Rows, Wf;
      capacity := n;
      bucket := new KeyValuePair?[n](_ => null);
      size := 0;
      EmptyWf(hashOf, n);
      EmptyRows(n, bucket[..]);
      Record(seq(n, _ => []), seq(n, _ => []), map[], {});
    }

    /** Rehashes one chain of the old array. */
    method RehashChain(head: KeyValuePair?, ghost heads: seq<KeyValuePair?>, ghost rs: seq<seq<KeyValuePair>>,
                       ghost v: View, ghost all: Contents, ghost repr: set<object>, ghost i: nat, ghost before: nat)
      requires Consistent() && capacity > 0
      requires |heads| == |rs| == |v| && Rows(heads, rs, v, repr) && i < |v| && head == heads[i]
      requires this !in repr && bucket !in repr && repr !! Repr
      requires Moved(hashOf, v, all, i, 0, contents) && copied == before + |contents|
      modifies `size, `rows, `view, `contents, `Repr, `copied, bucket
      ensures Consistent() && fresh(Repr - old(Repr))
      ensures Rows(heads, rs, v, repr) && repr !! Repr
      ensures Moved(hashOf, v, all, i, |v[i]|, contents) && copied == before + |contents|
    {
      hide Rows, Wf, Linked, Moved, Home;
      var entry := head;
      ghost var j := 0;
      RowFacts(heads, rs, v, repr, i);
      LinkFacts(head, rs[i], v[i]);
      while entry != null
        invariant Consistent() && fresh(Repr - old(Repr)) && repr !! Repr
        invariant Rows(heads, rs, v, repr)
        invariant j <= |rs[i]| == |v[i]| && entry == NodeAt(rs[i], j)
        invariant Moved(hashOf, v, all, i, j, contents) && copied == before + |contents|
        decreases |rs[i]| - j
      {
        entry := RehashOne(entry, heads, rs, v, all, repr, i, j, before);
        j := j + 1;
      }
    }

    /** Copies one entry into its new chain and moves on to the next. */
    method RehashOne(entry: KeyValuePair, ghost heads: seq<KeyValuePair?>, ghost rs: seq<seq<KeyValuePair>>,
                     ghost v: View, ghost all: Contents, ghost repr: set<object>, ghost i: nat, ghost j: nat,
                     ghost before: nat)
      returns (next: KeyValuePair?)
      requires Consistent() && capacity > 0
      requires |heads| == |rs| == |v| && Rows(heads, rs, v, repr) && i < |v| && j < |rs[i]| && entry == rs[i][j]
      requires this !in repr && bucket !in repr && repr !! Repr
      requires Moved(hashOf, v, all, i, j, contents) && copied == before + |contents|
      modifies `size, `rows, `view, `contents, `Repr, `copied, bucket
      ensures Consistent() && fresh(Repr - old(Repr)) && Rows(heads, rs, v, repr) && repr !! Repr
      ensures next == NodeAt(rs[i], j + 1) && j < |v[i]|
      ensures Moved(hashOf, v, all, i, j + 1, contents) && copied == before + |contents|
    {
      hide Rows, Wf, Linked, Moved, Home, Within;
      RowFacts(heads, rs, v, repr, i);
      LinkFacts(heads[i], rs[i], v[i]);
      next := entry.next;
      MoveOne(hashOf, v, all, i, j, contents);
      PutSize(contents, entry.key, entry.value);
      Push(entry.key, entry.value);
      copied := copied + 1;
    }
  }

  lemma EmptyRows(n: nat, heads: seq<KeyValuePair?>)
    requires |heads| == n && forall i | 0 <= i < n :: heads[i] == null
    ensures Rows(heads, seq(n, _ => []), seq(n, _ => []), {})
  {
  }

  lemma InRepr(row: seq<KeyValuePair>, repr: set<object>)
    requires Within(row, repr)
    ensures forall j | 0 <= j < |row| :: row[j] in repr
  {
  }

  lemma PairIsMapped(h: Hash, v: View, m: Contents, i: nat, j: nat)
    requires Wf(h, v, m) && i < |v| && j < |v[i]|
    ensures v[i][j].key in m && m[v[i][j].key] == v[i][j].value
  {
    assert Placed(h, v[i], i, |v|, m);
  }
}
