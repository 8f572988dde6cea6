/**
 The open-addressing hash table of 03-Hash-Table/open-addressing-hash-table.go: linear probing,
 tombstones, and resizing by exact load thresholds. It agrees with a plain map in every state, and
 its load never reaches the point where a probe could run out of slots.
 */
module OpenAddressing {
  import opened Hashing
  import opened Options

  /** A bucket: never used, a deleted entry, or a live one. */
  datatype Slot<+V> = Nil | Tomb | Live(key: string, value: V)

  // ---------- Probe sequences ----------

  /** The bucket `offset` steps after `home`, cyclically. */
  function At(home: nat, offset: nat, capacity: nat): (i: nat)
    requires home < capacity && offset < capacity
    ensures i < capacity
  {
    if home + offset < capacity then home + offset else home + offset - capacity
  }

  lemma AtIsModulo(home: nat, offset: nat, capacity: nat)
    requires home < capacity && offset < capacity
    ensures (home + offset) % capacity == At(home, offset, capacity)
  {
    QuotientIs(home + offset, capacity, if home + offset < capacity then 0 else 1);
  }

  /** A quotient is known by the bounds it keeps. */
  lemma QuotientIs(x: nat, n: nat, q: nat)
    requires n > 0 && n * q <= x < n * q + n
    ensures x % n == x - n * q
  {
    var p, r := x / n, x % n;
    assert x == n * p + r;
    if p < q {
      Monotone(n, p + 1, q);
    } else if q < p {
      Monotone(n, q + 1, p);
    }
  }

  lemma Monotone(n: nat, a: nat, b: nat)
    requires a <= b
    ensures n * a <= n * b
  {
  }

  /** How many steps lead from `home` to `i`. */
  ghost function Steps(home: nat, i: nat, capacity: nat): (d: nat)
    requires home < capacity && i < capacity
    ensures d < capacity && At(home, d, capacity) == i
    ensures forall o | 0 <= o < capacity && At(home, o, capacity) == i :: o == d
  {
    if i >= home then i - home else i + capacity - home
  }

  /** No never-used bucket lies on the way from `home` to `i`. */
  ghost predicate Reaches<V>(s: seq<Slot<V>>, home: nat, i: nat)
    requires home < |s| && i < |s|
  {
    forall o | 0 <= o < Steps(home, i, |s|) :: s[At(home, o, |s|)] != Nil
  }

  // ---------- Invariant ----------

  ghost predicate Unique<V>(s: seq<Slot<V>>) {
    forall i, j | 0 <= i < j < |s| && s[i].Live? && s[j].Live? :: s[i].key != s[j].key
  }

  /** Every live key can be reached from its home bucket. */
  ghost predicate Chained<V>(h: Hash, s: seq<Slot<V>>)
    requires |s| > 0
  {
    forall i | 0 <= i < |s| && s[i].Live? :: Reaches(s, Home(h, s[i].key, |s|), i)
  }

  ghost predicate Holds<V>(s: seq<Slot<V>>, key: string) {
    exists i :: 0 <= i < |s| && s[i].Live? && s[i].key == key
  }

  /** The live buckets are exactly the entries of `m`. */
  ghost predicate Maps<V>(s: seq<Slot<V>>, m: map<string, V>) {
    && (forall i | 0 <= i < |s| && s[i].Live? :: s[i].key in m && m[s[i].key] == s[i].value)
    && (forall k | k in m :: Holds(s, k))
  }

  ghost predicate Wf<V>(h: Hash, s: seq<Slot<V>>, m: map<string, V>) {
    |s| > 0 && Unique(s) && Chained(h, s) && Maps(s, m)
  }

  ghost function LiveCount<V>(s: seq<Slot<V>>): (n: nat)
    ensures n <= |s|
  {
    if s == [] then 0 else LiveCount(s[..|s| - 1]) + if s[|s| - 1].Live? then 1 else 0
  }

  ghost function UsedCount<V>(s: seq<Slot<V>>): (n: nat)
    ensures LiveCount(s) <= n <= |s|
    ensures (forall i | 0 <= i < |s| :: s[i] != Nil) ==> n == |s|
  {
    if s == [] then 0 else UsedCount(s[..|s| - 1]) + if s[|s| - 1] != Nil then 1 else 0
  }

  lemma {:induction false} CountsAfter<V>(s: seq<Slot<V>>, i: nat, x: Slot<V>)
    requires i < |s|
    ensures LiveCount(s[i := x]) == LiveCount(s) - (if s[i].Live? then 1 else 0) + (if x.Live? then 1 else 0)
    ensures UsedCount(s[i := x]) == UsedCount(s) - (if s[i] != Nil then 1 else 0) + (if x != Nil then 1 else 0)
  {
    var n := |s| - 1;
    if i < n {
      CountsAfter(s[..n], i, x);
      assert s[i := x][..n] == s[..n][i := x];
    } else {
      assert s[i := x][..n] == s[..n];
    }
  }

  /** As many live buckets as map entries. */
  lemma {:induction false} LiveCountIsSize<V>(s: seq<Slot<V>>, m: map<string, V>)
    requires Unique(s) && Maps(s, m)
    ensures LiveCount(s) == |m|
  {
    if s == [] {
      assert m.Keys == {} by { assert forall k | k in m :: Holds(s, k); }
    } else {
      var x, front := s[|s| - 1], s[..|s| - 1];
      var m' := if x.Live? then m - {x.key} else m;
      FrontMaps(s, m);
      LiveCountIsSize(front, m');
      assert m.Keys == if x.Live? then m'.Keys + {x.key} else m'.Keys;
    }
  }

  lemma FrontMaps<V>(s: seq<Slot<V>>, m: map<string, V>)
    requires s != [] && Unique(s) && Maps(s, m)
    ensures var x, front := s[|s| - 1], s[..|s| - 1];
            && (x.Live? ==> x.key in m) && Unique(front)
            && Maps(front, if x.Live? then m - {x.key} else m)
  {
    var x, front := s[|s| - 1], s[..|s| - 1];
    var m' := if x.Live? then m - {x.key} else m;
    forall k | k in m' ensures Holds(front, k) {
      assert Holds(s, k);
      var i :| 0 <= i < |s| && s[i].Live? && s[i].key == k;
      assert front[i].key == k;
    }
  }

  /** Filling buckets cuts no probe path. */
  lemma ReachesStill<V>(s: seq<Slot<V>>, s': seq<Slot<V>>, home: nat, i: nat)
    requires |s'| == |s| && home < |s| && i < |s| && Reaches(s, home, i)
    requires forall j | 0 <= j < |s| && s[j] != Nil :: s'[j] != Nil
    ensures Reaches(s', home, i)
  {
  }

  lemma StoreKeepsWf<V>(h: Hash, s: seq<Slot<V>>, m: map<string, V>, i: nat, key: string, value: V)
    requires Wf(h, s, m) && i < |s| && key !in m
    requires !s[i].Live? && Reaches(s, Home(h, key, |s|), i)
    ensures Wf(h, s[i := Live(key, value)], m[key := value])
  {
    hide Reaches, Home;
    var s' := s[i := Live(key, value)];
    forall j | 0 <= j < |s'| && s'[j].Live? ensures Reaches(s', Home(h, s'[j].key, |s'|), j) {
      ReachesStill(s, s', Home(h, s'[j].key, |s|), j);
    }
    forall k | k in m[key := value] ensures Holds(s', k) {
      if k == key {
        assert s'[i].key == key;
      } else {
        assert Holds(s, k);
        var j :| 0 <= j < |s| && s[j].Live? && s[j].key == k;
        assert s'[j].key == k;
      }
    }
  }

  lemma OverwriteKeepsWf<V>(h: Hash, s: seq<Slot<V>>, m: map<string, V>, i: nat, value: V)
    requires Wf(h, s, m) && i < |s| && s[i].Live?
    ensures s[i].key in m && Wf(h, s[i := Live(s[i].key, value)], m[s[i].key := value])
  {
    hide Reaches, Home;
    var s' := s[i := Live(s[i].key, value)];
    forall j | 0 <= j < |s'| && s'[j].Live? ensures Reaches(s', Home(h, s'[j].key, |s'|), j) {
      ReachesStill(s, s', Home(h, s'[j].key, |s|), j);
    }
    forall k | k in m ensures Holds(s', k) {
      assert Holds(s, k);
      var j :| 0 <= j < |s| && s[j].Live? && s[j].key == k;
      assert s'[j].Live? && s'[j].key == k;
    }
  }

  /** A tombstone keeps later keys reachable. */
  lemma BuryKeepsWf<V>(h: Hash, s: seq<Slot<V>>, m: map<string, V>, i: nat)
    requires Wf(h, s, m) && i < |s| && s[i].Live?
    ensures Wf(h, s[i := Tomb], m - {s[i].key})
  {
    hide Reaches, Home;
    var s' := s[i := Tomb];
    forall j | 0 <= j < |s'| && s'[j].Live? ensures Reaches(s', Home(h, s'[j].key, |s'|), j) {
      ReachesStill(s, s', Home(h, s'[j].key, |s|), j);
    }
    forall k | k in m && k != s[i].key ensures Holds(s', k) {
      assert Holds(s, k);
      var j :| 0 <= j < |s| && s[j].Live? && s[j].key == k;
      assert s'[j].Live? && s'[j].key == k;
    }
  }

  /** A probe that met a never-used bucket, or every bucket, without meeting the key: it is absent. */
  lemma ProbeMisses<V>(h: Hash, s: seq<Slot<V>>, m: map<string, V>, key: string, offset: nat)
    requires Wf(h, s, m) && offset <= |s|
    requires var home := Home(h, key, |s|);
             && (forall o | 0 <= o < offset :: !(s[At(home, o, |s|)].Live? && s[At(home, o, |s|)].key == key))
             && (offset < |s| ==> s[At(home, offset, |s|)] == Nil)
    ensures key !in m
  {
    forall i | 0 <= i < |s| && s[i].Live? ensures s[i].key != key {
      var d := Steps(Home(h, s[i].key, |s|), i, |s|);
      assert Reaches(s, Home(h, s[i].key, |s|), i);
    }
  }

  // ---------- The cost of resizing ----------

  const MINIMUM_CAPACITY := 16

  /** The counters of a table, and how many entries its resizes have copied. */
  datatype Load = Load(size: nat, used: nat, capacity: nat, copied: nat)

  /** A resize copies the live entries and leaves no tombstones. */
  function Rebuilt(l: Load, capacity: nat): Load {
    Load(l.size, l.size, if capacity < MINIMUM_CAPACITY then MINIMUM_CAPACITY else capacity, l.copied + l.size)
  }

  /** The load before a new key is stored: grown, cleaned of its tombstones, or as it was. */
  function Prepared(l: Load): Load {
    if 4 * (l.size + 1) > 3 * l.capacity then Rebuilt(l, 2 * l.capacity)
    else if 4 * (l.used + 1) > 3 * l.capacity then Rebuilt(l, l.capacity)
    else l
  }

  /** Storing a new key takes a tombstone's place, which needs a tombstone, or a nil bucket. */
  ghost predicate Stored(l: Load, after: Load) {
    var p := Prepared(l);
    && after.(used := p.used) == p.(size := p.size + 1)
    && (after.used == p.used + 1 || (after.used == p.used && p.used > p.size))
  }

  /** Burying a key keeps its bucket used, unless the table then shrinks. */
  function Buried(l: Load): Load
    requires l.size > 0
  {
    var b := l.(size := l.size - 1);
    if b.capacity > MINIMUM_CAPACITY && 4 * b.size < b.capacity then Rebuilt(b, b.capacity / 2) else b
  }

  /** A call that changes the table. */
  datatype Op<+V> = Put(key: string, value: V) | Remove(key: string)

  function Applied<V>(m: map<string, V>, op: Op<V>): map<string, V> {
    match op
    case Put(key, value) => m[key := value]
    case Remove(key) => m - {key}
  }

  /** The plain map after some calls. */
  function RunMap<V>(calls: seq<Op<V>>): map<string, V> {
    if calls == [] then map[] else Applied(RunMap(calls[..|calls| - 1]), calls[|calls| - 1])
  }

  /** What one call may do to the counters of a table that stands for the map `m`. */
  ghost predicate LoadStep<V>(m: map<string, V>, l: Load, op: Op<V>, after: Load) {
    if op.key !in m then (if op.Put? then Stored(l, after) else after == l)
    else if op.Put? then after == l
    else l.size > 0 && after == Buried(l)
  }

  /** The counters at the start and after every call: nothing is copied but by the resizes of these calls. */
  ghost predicate Traced<V>(calls: seq<Op<V>>, history: seq<Load>) {
    && |history| == |calls| + 1 && history[0].size == history[0].used == history[0].copied == 0
    && history[0].capacity >= MINIMUM_CAPACITY
    && forall i | 0 <= i < |calls| :: LoadStep(RunMap(calls[..i]), history[i], calls[i], history[i + 1])
  }

  lemma TraceStep<V>(calls: seq<Op<V>>, history: seq<Load>, op: Op<V>, l: Load)
    requires Traced(calls, history) && LoadStep(RunMap(calls), history[|calls|], op, l)
    ensures Traced(calls + [op], history + [l])
    ensures RunMap(calls + [op]) == Applied(RunMap(calls), op)
  {
    hide LoadStep, Applied;
    var calls', history' := calls + [op], history + [l];
    assert calls'[..|calls|] == calls;
    forall i | 0 <= i < |calls'|
      ensures LoadStep(RunMap(calls'[..i]), history'[i], calls'[i], history'[i + 1])
    {
      if i < |calls| {
        assert calls'[..i] == calls[..i];
        assert LoadStep(RunMap(calls[..i]), history[i], calls[i], history[i + 1]);
      }
    }
  }

  // ---------- What resizing keeps ----------

  /** The counters after a new key, by the thresholds of three quarters. */
  lemma StoredExactly(l: Load, after: Load)
    requires Stored(l, after) && l.capacity >= MINIMUM_CAPACITY
    ensures var grows, cleans := 4 * (l.size + 1) > 3 * l.capacity, 4 * (l.used + 1) > 3 * l.capacity;
      && after.size == l.size + 1
      && after.capacity == (if grows then 2 * l.capacity else l.capacity)
      && after.copied == l.copied + (if grows || cleans then l.size else 0)
      && (l.size <= l.used ==> after.size <= after.used)
      && if grows || cleans then after.used == after.size else l.used <= after.used <= l.used + 1
  {
  }

  /** The counters after a key has gone, by the threshold of one quarter. */
  lemma BuriedExactly(l: Load)
    requires l.size > 0
    ensures var after, shrinks := Buried(l), l.capacity > 16 && 4 * (l.size - 1) < l.capacity;
      && after.size == l.size - 1
      && after.capacity == (if !shrinks then l.capacity else if l.capacity < 32 then 16 else l.capacity / 2)
      && after.copied == l.copied + (if shrinks then l.size - 1 else 0)
      && after.used == if shrinks then after.size else l.used
  {
  }

  /** At most three quarters used, and at least a quarter full unless no larger than at the start. */
  ghost predicate Fitting(start: nat, l: Load) {
    && l.capacity >= 16 && l.size <= l.used && 4 * l.used <= 3 * l.capacity
    && (l.capacity <= start || 4 * l.size >= l.capacity)
  }

  /** Between any two calls the table is neither crowded nor, once it has grown, sparse. */
  lemma {:induction false} OccupancyOfRun<V>(calls: seq<Op<V>>, history: seq<Load>, i: nat)
    requires Traced(calls, history) && i <= |calls|
    ensures Fitting(history[0].capacity, history[i])
    ensures history[0].capacity == 16 ==> history[i].capacity == 16 || 4 * history[i].size >= history[i].capacity
  {
    if i > 0 {
      hide RunMap, Stored, Buried;
      OccupancyOfRun(calls, history, i - 1);
      assert LoadStep(RunMap(calls[..i - 1]), history[i - 1], calls[i - 1], history[i]);
      FittingStep(history[0].capacity, RunMap(calls[..i - 1]), history[i - 1], calls[i - 1], history[i]);
    }
  }

  lemma FittingStep<V>(start: nat, m: map<string, V>, l: Load, op: Op<V>, after: Load)
    requires start >= 16 && Fitting(start, l) && LoadStep(m, l, op, after)
    ensures Fitting(start, after)
  {
    hide Stored, Buried;
    if op.Put? && op.key !in m {
      StoredExactly(l, after);
    } else if op.Remove? && op.key in m {
      BuriedExactly(l);
    }
  }

  /** As many keys as the load bound allows, and no tombstones. */
  predicate Full(l: Load) {
    l.size == l.used && 4 * l.size == 3 * l.capacity && l.capacity >= MINIMUM_CAPACITY
  }

  /** One delete of a key and one insertion of a new one. */
  ghost predicate Pair(l: Load, after: Load) {
    l.size > 0 && Stored(Buried(l), after)
  }

  /** In a full table a delete makes the next insertion clean, and the table is full again. */
  lemma PairCopies(l: Load, after: Load)
    requires Full(l) && Pair(l, after)
    ensures Full(after) && after.capacity == l.capacity && after.size == l.size
    ensures after.copied == l.copied + l.size - 1
  {
  }

  /** A full table, and its state after each pair. */
  ghost predicate Alternates(states: seq<Load>) {
    states != [] && Full(states[0]) && forall i | 0 <= i < |states| - 1 :: Pair(states[i], states[i + 1])
  }

  function Times(n: nat, each: int): int {
    n * each
  }

  /** Every such pair of calls copies all entries but one, for any hash and any choice of keys. */
  lemma {:induction false} AlternationCopies(states: seq<Load>)
    requires Alternates(states)
    ensures var n, last := |states| - 1, states[|states| - 1];
      && Full(last) && last.capacity == states[0].capacity && last.size == states[0].size
      && last.copied == states[0].copied + Times(n, states[0].size - 1)
  {
    TimesNext(|states|, states[0].size - 1);
    if |states| > 1 {
      hide Times, Stored, Buried;
      var front, m := states[..|states| - 1], |states| - 2;
      AlternationCopies(front);
      assert Pair(states[m], states[m + 1]);
      PairCopies(states[m], states[m + 1]);
    }
  }

  lemma TimesNext(n: nat, each: int)
    ensures Times(0, each) == 0
    ensures n > 1 ==> Times(n - 1, each) == Times(n - 2, each) + each
  {
    if n > 1 {
      assert (n - 1) * each == (n - 2) * each + each;
    }
  }

  /** With enough pairs, no multiple of the calls and of the capacity bounds the copies. */
  lemma PairsOutrun(k: nat, rest: nat, size: nat)
    requires size > 2 * k + 1
    ensures var n := k * size + rest + 1; Times(n, size - 1) > k * (size + 2 * n) + rest
  {
    var n := k * size + rest + 1;
    Monotone(n, 2 * k + 1, size - 1);
    Spread(k, n, size);
  }

  lemma Spread(k: nat, n: nat, size: nat)
    ensures n * (2 * k + 1) == 2 * (k * n) + n
    ensures k * (size + 2 * n) == k * size + 2 * (k * n)
  {
  }

  // ---------- The table ----------

  class OpenAddressingHashTable<V> {
    var size: nat
    var used: nat
    var capacity: nat
    var buckets: array<Slot<V>>
    const hashOf: Hash

    ghost var contents: map<string, V>
    ghost var copied: nat           // how many entries resizes have copied
    ghost var calls: seq<Op<V>>     // every call of `Set` and `Delete` so far
    ghost var history: seq<Load>    // the counters at the start and after each of them

    ghost function Loads(): Load
      reads this
    {
      Load(size, used, capacity, copied)
    }

    /** The table is a well-formed picture of `contents`, and its counters are right. */
    ghost predicate Consistent()
      reads `size, `used, `capacity, `buckets, `contents, buckets
    {
      && capacity == buckets.Length >= MINIMUM_CAPACITY
      && size == LiveCount(buckets[..]) && used == UsedCount(buckets[..])
      && Wf(hashOf, buckets[..], contents)
    }

    /** Between operations at most three quarters of the buckets have been used. */
    ghost predicate Bounded()
      reads `size, `used, `capacity, `buckets, `contents, buckets
    {
      Consistent() && 4 * used <= 3 * capacity
    }

    /** The calls so far explain the contents and, step by step, the counters. */
    ghost predicate Valid()
      reads this, buckets
    {
      && Bounded() && contents == RunMap(calls)
      && Traced(calls, history) && history[|calls|] == Loads()
    }

    constructor (capacity: int, hashOf: Hash)
      ensures Valid() && contents == map[] && fresh(buckets) && this.hashOf == hashOf
      ensures size == used == copied == 0 && calls == [] && history == [Loads()]
      ensures this.capacity == if capacity < MINIMUM_CAPACITY then MINIMUM_CAPACITY else capacity
    {
      var n := if capacity < MINIMUM_CAPACITY then MINIMUM_CAPACITY else capacity;
      size, used, this.capacity, this.hashOf := 0, 0, n, hashOf;
      buckets := new Slot<V>[n](_ => Nil);
      contents, copied, calls, history := map[], 0, [], [Load(0, 0, n, 0)];
      new;
      NothingUsed(hashOf, buckets[..]);
    }

    /** The number of keys in the table. */
    method Size() returns (n: nat)
      requires Valid()
      ensures n == |contents|
    {
      LiveCountIsSize(buckets[..], contents);
      n := size;
    }

    predicate ShouldGrow()
      reads this
    {
      4 * size > 3 * capacity
    }

    predicate ShouldShrink()
      reads this
    {
      capacity > MINIMUM_CAPACITY && 4 * size < capacity
    }

    predicate ShouldGrowBeforeInsert()
      reads this
    {
      4 * (size + 1) > 3 * capacity
    }

    predicate ShouldCleanDeletedSlotsBeforeInsert()
      reads this
    {
      4 * (used + 1) > 3 * capacity
    }

    /** Where the key is, or the first reusable bucket on its probe path, or -1. */
    method FindSlot(key: string) returns (index: int, found: bool)
      requires Consistent()
      ensures found <==> key in contents
      ensures found ==> 0 <= index < buckets.Length && buckets[index].Live? && buckets[index].key == key
      ensures !found && index != -1 ==>
        0 <= index < buckets.Length && !buckets[index].Live?
        && FirstFree(buckets[..], Home(hashOf, key, capacity), index)
      ensures !found && index == -1 ==> used == capacity
    {
      hide Wf, LiveCount, UsedCount, Home;
      var start := Home(hashOf, key, capacity);
      var firstDeleted := -1;
      ghost var d := -1;
      for offset := 0 to capacity
        invariant NotMet(buckets[..], start, key, offset)
        invariant if firstDeleted == -1 then forall o | 0 <= o < offset :: buckets[At(start, o, capacity)].Live?
                  else 0 <= d < offset && firstDeleted == At(start, d, capacity)
                       && buckets[firstDeleted] == Tomb
                       && forall o | 0 <= o < d :: buckets[At(start, o, capacity)].Live?
      {
        AtIsModulo(start, offset, capacity);
        var i := (start + offset) % capacity;
        var entry := buckets[i];
        if entry == Nil {
          ProbeMisses(hashOf, buckets[..], contents, key, offset);
          return if firstDeleted != -1 then firstDeleted else i, false;
        }
        if entry == Tomb {
          if firstDeleted == -1 {
            firstDeleted, d := i, offset;
          }
        } else if entry.key == key {
          LiveIsMapped(hashOf, buckets[..], contents, i);
          return i, true;
        }
      }
      ProbeMisses(hashOf, buckets[..], contents, key, capacity);
      NoneFree(buckets[..], start, key);
      return firstDeleted, false;
    }

    /** Writes a new entry into the bucket a failed probe returned. */
    method Store(index: int, key: string, value: V)
      requires Consistent() && key !in contents && 0 <= index < buckets.Length && !buckets[index].Live?
      requires FirstFree(buckets[..], Home(hashOf, key, capacity), index)
      modifies this`size, this`used, this`contents, buckets
      ensures Consistent() && contents == old(contents)[key := value]
      ensures size == old(size) + 1 && buckets[..] == old(buckets[..])[index := Live(key, value)]
      ensures used == old(used) + if old(buckets[index]) == Nil then 1 else 0
    {
      hide Wf, LiveCount, UsedCount, Home, FirstFree;
      FreeReaches(buckets[..], Home(hashOf, key, capacity), index);
      StoreKeepsWf(hashOf, buckets[..], contents, index, key, value);
      CountsAfter(buckets[..], index, Live(key, value));
      ghost var s := buckets[..];
      if buckets[index] == Nil {
        used := used + 1;
      }
      buckets[index] := Live(key, value);
      assert buckets[..] == s[index := Live(key, value)];
      size := size + 1;
      contents := contents[key := value];
    }

    /** Puts an entry into a table being rebuilt; the source's panic cannot be reached. */
    method InsertRehashedEntry(key: string, value: V)
      requires Consistent() && key !in contents && used == size < capacity
      modifies this`size, this`used, this`contents, buckets
      ensures Consistent() && contents == old(contents)[key := value]
      ensures used == size == old(size) + 1
    {
      var index, found := FindSlot(key);
      if index == -1 {
        assert false;
      }
      Store(index, key, value);
    }

    /** Rebuilds the table without its tombstones. */
    method Resize(newCapacity: nat)
      requires Consistent()
      requires size < newCapacity
      modifies `size, `used, `capacity, `buckets, `contents, `copied
      ensures Consistent() && contents == old(contents)
      ensures Loads() == Rebuilt(old(Loads()), newCapacity)
      ensures fresh(buckets)
    {
      hide Wf, LiveCount, UsedCount, Maps;
      var n := if newCapacity < MINIMUM_CAPACITY then MINIMUM_CAPACITY else newCapacity;
      var oldBuckets := buckets;
      ghost var all, s := contents, buckets[..];
      capacity := n;
      buckets := new Slot<V>[n](_ => Nil);
      size, used, contents := 0, 0, map[];
      NothingUsed(hashOf, buckets[..]);
      NothingCopied(hashOf, s, all);
      for i := 0 to oldBuckets.Length
        invariant buckets != oldBuckets && fresh(buckets) && oldBuckets[..] == s
        invariant Consistent() && capacity == n && used == size == LiveCount(s[..i])
        invariant copied == old(copied) + size
        invariant Copied(s, all, i, contents)
      {
        var entry := oldBuckets[i];
        CopyOne(s, all, i, contents);
        if entry.Live? {
          InsertRehashedEntry(entry.key, entry.value);
          copied := copied + 1;
        }
      }
      AllCopied(s, all, contents);
    }

    method Get(key: string) returns (r: Option<V>)
      requires Valid()
      ensures r == if key in contents then Some(contents[key]) else None
    {
      hide Wf, LiveCount, UsedCount, Home;
      var start := Home(hashOf, key, capacity);
      for offset := 0 to capacity
        invariant NotMet(buckets[..], start, key, offset)
      {
        AtIsModulo(start, offset, capacity);
        var i := (start + offset) % capacity;
        var entry := buckets[i];
        if entry == Nil {
          ProbeMisses(hashOf, buckets[..], contents, key, offset);
          return None;
        }
        if entry.Live? && entry.key == key {
          LiveIsMapped(hashOf, buckets[..], contents, i);
          return Some(entry.value);
        }
      }
      ProbeMisses(hashOf, buckets[..], contents, key, capacity);
      return None;
    }

    /** Adds or updates a key. */
    method Set(key: string, value: V)
      requires Valid()
      modifies this, buckets
      ensures Valid() && contents == old(contents)[key := value] && calls == old(calls) + [Put(key, value)]
      ensures if key in old(contents) then Loads() == old(Loads()) else Stored(old(Loads()), Loads())
      ensures key !in old(contents) ==>
        var grows, cleans := 4 * (old(size) + 1) > 3 * old(capacity), 4 * (old(used) + 1) > 3 * old(capacity);
        && size == old(size) + 1 && capacity == (if grows then 2 * old(capacity) else old(capacity))
        && copied == old(copied) + (if grows || cleans then old(size) else 0)
        && (grows || cleans ==> used == size)
      ensures history == old(history) + [Loads()]
      ensures buckets == old(buckets) || fresh(buckets)
      ensures buckets == old(buckets) && key !in old(contents) ==>
        Placed(old(buckets[..]), buckets[..], Home(hashOf, key, old(capacity)), Live(key, value))
    {
      hide Bounded, Stored, RunMap, Traced;
      Capacious();
      Assign(key, value);
      if key !in old(contents) {
        StoredExactly(old(Loads()), Loads());
      }
      Record(old(contents), Put(key, value));
    }

    lemma Capacious()
      requires Bounded()
      ensures capacity >= MINIMUM_CAPACITY
    {
    }

    /** Notes a call that has just been carried out. */
    ghost method Record(before: map<string, V>, op: Op<V>)
      requires before == RunMap(calls) && Traced(calls, history) && contents == Applied(before, op)
      requires LoadStep(before, history[|calls|], op, Loads())
      modifies `calls, `history
      ensures calls == old(calls) + [op] && contents == RunMap(calls) && history == old(history) + [Loads()]
      ensures Traced(calls, history) && history[|calls|] == Loads()
    {
      hide LoadStep, Applied, RunMap;
      TraceStep(calls, history, op, Loads());
      calls, history := calls + [op], history + [Loads()];
    }

    /**
     The work of `Set`. The load bound makes three branches of the source dead: the forced grow
     when no bucket is found, the panic after it, and the grow after the insertion.
     */
    method Assign(key: string, value: V)
      requires Bounded()
      modifies `size, `used, `capacity, `buckets, `contents, `copied, buckets
      ensures Bounded() && contents == old(contents)[key := value]
      ensures if key in old(contents) then Loads() == old(Loads()) else Stored(old(Loads()), Loads())
      ensures buckets == old(buckets) || fresh(buckets)
      ensures buckets == old(buckets) && key !in old(contents) ==>
        Placed(old(buckets[..]), buckets[..], Home(hashOf, key, old(capacity)), Live(key, value))
    {
      hide Wf, LiveCount, UsedCount, Home, FirstFree;
      var index, found := FindSlot(key);
      if found {
        Overwrite(index, value);
        return;
      }
      var rebuilt := MakeRoom();
      if rebuilt {
        index, found := FindSlot(key);
      }
      if index == -1 {
        assert false;
      }
      ghost var s, home := buckets[..], Home(hashOf, key, capacity);
      Store(index, key, value);
      assert Placed(s, buckets[..], home, Live(key, value));
      CountsOrdered(buckets[..]);
      if ShouldGrow() {
        assert false;
      }
    }

    method Overwrite(index: int, value: V)
      requires Bounded() && 0 <= index < buckets.Length && buckets[index].Live?
      modifies `contents, buckets
      ensures Bounded() && contents == old(contents)[old(buckets[index]).key := value]
    {
      hide Wf, LiveCount, UsedCount, Home;
      var key := buckets[index].key;
      OverwriteKeepsWf(hashOf, buckets[..], contents, index, value);
      CountsAfter(buckets[..], index, Live(key, value));
      ghost var s := buckets[..];
      buckets[index] := Live(key, value);
      assert buckets[..] == s[index := Live(key, value)];
      contents := contents[key := value];
    }

    /** Grows or cleans the table if one more key could break the load bound. */
    method MakeRoom() returns (rebuilt: bool)
      requires Bounded()
      modifies `size, `used, `capacity, `buckets, `contents, `copied
      ensures Consistent() && contents == old(contents) && Loads() == Prepared(old(Loads()))
      ensures if rebuilt then fresh(buckets) else buckets == old(buckets)
      ensures 4 * (size + 1) <= 3 * capacity && 4 * (used + 1) <= 3 * capacity
    {
      hide Wf, LiveCount, UsedCount;
      CountsOrdered(buckets[..]);
      if ShouldGrowBeforeInsert() {
        Resize(capacity * 2);
        return true;
      } else if ShouldCleanDeletedSlotsBeforeInsert() {
        Resize(capacity);
        return true;
      }
      return false;
    }

    /** Buries a key; true exactly when it was there. */
    method Delete(key: string) returns (found: bool)
      requires Valid()
      modifies this, buckets
      ensures Valid() && contents == old(contents) - {key} && found == (key in old(contents))
      ensures calls == old(calls) + [Remove(key)]
      ensures if found then old(size) > 0 && Loads() == Buried(old(Loads())) else Loads() == old(Loads())
      ensures history == old(history) + [Loads()]
      ensures buckets == old(buckets) || fresh(buckets)
    {
      hide Bounded, Buried, RunMap, Traced;
      found := Take(key);
      Record(old(contents), Remove(key));
    }

    /** The work of `Delete`: probes for the key. */
    method Take(key: string) returns (found: bool)
      requires Bounded()
      modifies `size, `used, `capacity, `buckets, `contents, `copied, buckets
      ensures Bounded() && contents == old(contents) - {key} && found == (key in old(contents))
      ensures if found then old(size) > 0 && Loads() == Buried(old(Loads())) else Loads() == old(Loads())
      ensures buckets == old(buckets) || fresh(buckets)
    {
      hide Wf, LiveCount, UsedCount, Home;
      var start := Home(hashOf, key, capacity);
      for offset := 0 to capacity
        invariant Bounded() && unchanged(this)
        invariant NotMet(buckets[..], start, key, offset)
      {
        AtIsModulo(start, offset, capacity);
        var i := (start + offset) % capacity;
        var entry := buckets[i];
        if entry == Nil {
          ProbeMisses(hashOf, buckets[..], contents, key, offset);
          return false;
        }
        if entry.Live? && entry.key == key {
          Bury(key, i);
          return true;
        }
      }
      ProbeMisses(hashOf, buckets[..], contents, key, capacity);
      return false;
    }

    /** Turns a live bucket into a tombstone, and shrinks the table when it has become sparse. */
    method Bury(key: string, i: nat)
      requires Bounded() && i < buckets.Length && buckets[i].Live? && buckets[i].key == key
      modifies `size, `used, `capacity, `buckets, `contents, `copied, buckets
      ensures Bounded() && contents == old(contents) - {key} && key in old(contents)
      ensures old(size) > 0 && Loads() == Buried(old(Loads()))
      ensures buckets == old(buckets) || fresh(buckets)
    {
      hide Wf, LiveCount, UsedCount, Home;
      LiveIsMapped(hashOf, buckets[..], contents, i);
      BuryKeepsWf(hashOf, buckets[..], contents, i);
      CountsAfter(buckets[..], i, Tomb);
      ghost var s := buckets[..];
      buckets[i] := Tomb;
      assert buckets[..] == s[i := Tomb];
      size := size - 1;
      contents := contents - {key};
      if ShouldShrink() {
        Resize(capacity / 2);
      }
    }
  }

  /** The first `offset` buckets on the probe path have been used, and none holds the key. */
  ghost predicate NotMet<V>(s: seq<Slot<V>>, home: nat, key: string, offset: nat)
    requires home < |s| && offset <= |s|
  {
    forall o | 0 <= o < offset ::
      var x := s[At(home, o, |s|)]; x != Nil && !(x.Live? && x.key == key)
  }

  /** One bucket has been written: the first on the probe path that held no live entry. */
  ghost predicate Placed<V>(s: seq<Slot<V>>, after: seq<Slot<V>>, home: nat, entry: Slot<V>)
    requires home < |s|
  {
    exists i :: 0 <= i < |s| && !s[i].Live? && FirstFree(s, home, i) && after == s[i := entry]
  }

  /** `i` is the first bucket from `home` on that holds no live entry. */
  ghost predicate FirstFree<V>(s: seq<Slot<V>>, home: nat, i: nat)
    requires home < |s| && i < |s|
  {
    forall o | 0 <= o < Steps(home, i, |s|) :: s[At(home, o, |s|)].Live?
  }

  lemma LiveIsMapped<V>(h: Hash, s: seq<Slot<V>>, m: map<string, V>, i: nat)
    requires Wf(h, s, m) && i < |s| && s[i].Live?
    ensures s[i].key in m && m[s[i].key] == s[i].value
  {
  }

  /** A probe path runs through every bucket, so a path without a nil bucket means a full table. */
  lemma NoneFree<V>(s: seq<Slot<V>>, home: nat, key: string)
    requires home < |s| && NotMet(s, home, key, |s|)
    ensures UsedCount(s) == |s|
  {
    forall i | 0 <= i < |s| ensures s[i] != Nil {
      var d := Steps(home, i, |s|);
      assert s[At(home, d, |s|)] != Nil;
    }
  }

  lemma {:induction false} NothingUsed<V>(h: Hash, s: seq<Slot<V>>)
    requires forall i | 0 <= i < |s| :: s[i] == Nil
    ensures LiveCount(s) == UsedCount(s) == 0
    ensures |s| > 0 ==> Wf(h, s, map[])
  {
    if s != [] { NothingUsed(h, s[..|s| - 1]); }
  }

  lemma CountsOrdered<V>(s: seq<Slot<V>>)
    ensures LiveCount(s) <= UsedCount(s)
  {
  }

  lemma FreeReaches<V>(s: seq<Slot<V>>, home: nat, i: nat)
    requires home < |s| && i < |s| && FirstFree(s, home, i)
    ensures Reaches(s, home, i)
  {
  }

  /** `m` holds exactly the live entries among the first `n` buckets. */
  ghost predicate Copied<V>(s: seq<Slot<V>>, all: map<string, V>, n: nat, m: map<string, V>) {
    n <= |s| && Unique(s) && Maps(s, all) && Maps(s[..n], m)
  }

  lemma NothingCopied<V>(h: Hash, s: seq<Slot<V>>, all: map<string, V>)
    requires Wf(h, s, all)
    ensures Copied(s, all, 0, map[])
  {
  }

  lemma CopyOne<V>(s: seq<Slot<V>>, all: map<string, V>, i: nat, m: map<string, V>)
    requires i < |s| && Copied(s, all, i, m)
    ensures LiveCount(s[..i + 1]) == LiveCount(s[..i]) + if s[i].Live? then 1 else 0
    ensures LiveCount(s[..i + 1]) <= LiveCount(s)
    ensures s[i].Live? ==> s[i].key !in m && Copied(s, all, i + 1, m[s[i].key := s[i].value])
    ensures !s[i].Live? ==> Copied(s, all, i + 1, m)
  {
    assert s[..i + 1][..i] == s[..i];
    LiveCountMonotone(s, i + 1);
    MapsOneMore(s, i, m);
  }

  lemma MapsOneMore<V>(s: seq<Slot<V>>, i: nat, m: map<string, V>)
    requires i < |s| && Unique(s) && Maps(s[..i], m)
    ensures s[i].Live? ==> s[i].key !in m && Maps(s[..i + 1], m[s[i].key := s[i].value])
    ensures !s[i].Live? ==> Maps(s[..i + 1], m)
  {
    var x := s[i];
    var m' := if x.Live? then m[x.key := x.value] else m;
    forall k | k in m' ensures Holds(s[..i + 1], k) {
      if x.Live? && k == x.key {
        assert s[..i + 1][i].key == k;
      } else {
        assert Holds(s[..i], k);
        var j :| 0 <= j < i && s[j].Live? && s[j].key == k;
        assert s[..i + 1][j].key == k;
      }
    }
  }

  lemma {:induction false} LiveCountMonotone<V>(s: seq<Slot<V>>, i: nat)
    requires i <= |s|
    ensures LiveCount(s[..i]) <= LiveCount(s)
  {
    if i < |s| {
      LiveCountMonotone(s[..|s| - 1], i);
      assert s[..|s| - 1][..i] == s[..i];
    } else {
      assert s[..i] == s;
    }
  }

  lemma AllCopied<V>(s: seq<Slot<V>>, all: map<string, V>, m: map<string, V>)
    requires Copied(s, all, |s|, m)
    ensures m == all && LiveCount(s[..|s|]) == LiveCount(s)
  {
    assert s[..|s|] == s;
    forall k ensures k in m <==> k in all
             ensures k in m ==> m[k] == all[k] {
      if k in m || k in all {
        assert Holds(s, k);
      }
    }
  }

  /** The i-th of a family of different keys. */
  function Key(i: nat): string {
    seq(i, _ => 'a')
  }

  /** Fills a new table up to its load bound, without any resize. */
  method Fill<V>(t: OpenAddressingHashTable<V>, n: nat, value: V)
    requires t.Valid() && t.calls == [] && t.contents == map[] && t.size == t.used == t.copied == 0
    requires 4 * n == 3 * t.capacity
    modifies t, t.buckets
    ensures t.Valid() && |t.calls| == n && t.Loads() == Load(n, n, old(t.capacity), 0)
    ensures forall k | k in t.contents :: |k| < n
    ensures n > 0 ==> Key(0) in t.contents
    ensures fresh({t.buckets} - {old(t.buckets)})
  {
    hide OpenAddressingHashTable.Bounded, RunMap, Traced;
    for i := 0 to n
      invariant t.Valid() && |t.calls| == i && t.Loads() == Load(i, i, old(t.capacity), 0)
      invariant fresh({t.buckets} - {old(t.buckets)})
      invariant forall k | k in t.contents :: |k| < i
      invariant i > 0 ==> Key(0) in t.contents
    {
      assert |Key(i)| == i;
      t.Set(Key(i), value);
    }
  }

  /** Deletes one key and stores another. */
  method Replace<V>(t: OpenAddressingHashTable<V>, present: string, gone: string, value: V)
    requires t.Valid() && present in t.contents && gone !in t.contents
    modifies t, t.buckets
    ensures t.Valid() && present !in t.contents && gone in t.contents
    ensures t.calls == old(t.calls) + [Remove(present), Put(gone, value)]
    ensures Pair(old(t.Loads()), t.Loads()) && fresh({t.buckets} - {old(t.buckets)})
  {
    hide OpenAddressingHashTable.Valid, Stored, Buried;
    var found := t.Delete(present);
    t.Set(gone, value);
  }

  /** Deletes one key and stores another, n times. */
  method Alternate<V>(t: OpenAddressingHashTable<V>, n: nat, first: string, second: string, value: V)
    requires t.Valid() && Full(t.Loads()) && first in t.contents && second !in t.contents
    modifies t, t.buckets
    ensures t.Valid() && t.capacity == old(t.capacity) && fresh({t.buckets} - {old(t.buckets)})
    ensures |t.calls| == |old(t.calls)| + 2 * n
    ensures t.copied == old(t.copied) + Times(n, old(t.size) - 1)
  {
    hide OpenAddressingHashTable.Valid, Pair, Times, Full;
    var gone, present := second, first;
    ghost var states := [t.Loads()];
    for i := 0 to n
      invariant t.Valid() && present in t.contents && gone !in t.contents
      invariant Alternates(states) && |states| == i + 1 && states[i] == t.Loads() && states[0] == old(t.Loads())
      invariant |t.calls| == |old(t.calls)| + 2 * i && fresh({t.buckets} - {old(t.buckets)})
    {
      Replace(t, present, gone, value);
      states := states + [t.Loads()];
      gone, present := present, gone;
    }
    AlternationCopies(states);
  }

  /**
   There is no amortised bound: for any multiple k of the calls and m of the capacity, and whatever the
   hash, the calls of some table's history have copied more than k times their number plus m times the
   capacity.
   */
  method NoAmortisedBound<V>(k: nat, m: nat, hashOf: Hash, value: V) returns (t: OpenAddressingHashTable<V>)
    ensures t.Valid() && t.hashOf == hashOf && t.copied > k * |t.calls| + m * t.capacity
  {
    hide OpenAddressingHashTable.Valid, Times;
    var size := 12 * (k + 1);
    t := new OpenAddressingHashTable<V>(16 * (k + 1), hashOf);
    Fill(t, size, value);
    ghost var rest := m * t.capacity;
    var n := k * size + m * t.capacity + 1;
    assert |Key(size)| == size;
    Alternate(t, n, Key(0), Key(size), value);
    PairsOutrun(k, rest, size);
  }
}
