/**
 The chaining hash table of 03-Hash-Table/bucket-hash-table.go on values: chains of pairs, the map
 they stand for, and the potential that pays for resizing.
 */
module ChainingSpec {
  import opened Hashing

  datatype Pair = Pair(key: string, value: string)

  type Chain = seq<Pair>
  type View = seq<Chain>
  type Contents = map<string, string>

  const MINIMUM_CAPACITY := 16

  ghost predicate HasKey(c: Chain, key: string) {
    exists j :: 0 <= j < |c| && c[j].key == key
  }

  /** A chain holds pairs of `m` that belong in bucket `i`, each key once. */
  ghost predicate Placed(h: Hash, c: Chain, i: nat, capacity: nat, m: Contents)
    requires capacity > 0
  {
    && (forall j | 0 <= j < |c| ::
          Home(h, c[j].key, capacity) == i && c[j].key in m && m[c[j].key] == c[j].value)
    && (forall j, k | 0 <= j < k < |c| :: c[j].key != c[k].key)
  }

  /** The chains hold exactly the entries of `m`. */
  ghost predicate Wf(h: Hash, v: View, m: Contents) {
    && |v| > 0
    && (forall i | 0 <= i < |v| :: Placed(h, v[i], i, |v|, m))
    && (forall k | k in m :: HasKey(v[Home(h, k, |v|)], k))
  }

  /** A walk along a key's chain decides whether the key is in the map. */
  lemma ChainDecides(h: Hash, v: View, m: Contents, key: string)
    requires Wf(h, v, m)
    ensures key in m <==> HasKey(v[Home(h, key, |v|)], key)
  {
    var i := Home(h, key, |v|);
    assert Placed(h, v[i], i, |v|, m);
  }

  lemma PushKeeps(h: Hash, v: View, m: Contents, key: string, value: string)
    requires Wf(h, v, m) && key !in m
    ensures var i := Home(h, key, |v|); Wf(h, v[i := [Pair(key, value)] + v[i]], m[key := value])
  {
    hide Placed, HasKey;
    var i := Home(h, key, |v|);
    var v' := v[i := [Pair(key, value)] + v[i]];
    forall l | 0 <= l < |v| ensures Placed(h, v'[l], l, |v|, m[key := value]) {
      PushPlaced(h, v[l], l, |v|, m, key, value);
    }
    forall k | k in m || k == key ensures HasKey(v'[Home(h, k, |v|)], k) {
      PushHas(v[Home(h, k, |v|)], Pair(key, value), k);
    }
    assert Wf(h, v', m[key := value]);
  }

  /** Every chain, the longer one too, holds pairs of the larger map. */
  lemma PushPlaced(h: Hash, c: Chain, l: nat, capacity: nat, m: Contents, key: string, value: string)
    requires capacity > 0 && Placed(h, c, l, capacity, m) && key !in m
    ensures Placed(h, c, l, capacity, m[key := value])
    ensures Home(h, key, capacity) == l ==> Placed(h, [Pair(key, value)] + c, l, capacity, m[key := value])
  {
  }

  lemma PushHas(c: Chain, x: Pair, key: string)
    ensures HasKey(c, key) || key == x.key ==> HasKey([x] + c, key)
  {
    if key == x.key {
      assert ([x] + c)[0].key == key;
    } else if j :| 0 <= j < |c| && c[j].key == key {
      assert ([x] + c)[j + 1].key == key;
    }
  }

  lemma OverwriteKeeps(h: Hash, v: View, m: Contents, j: nat, key: string, value: string)
    requires Wf(h, v, m)
    requires var c := v[Home(h, key, |v|)]; j < |c| && c[j].key == key
    ensures var i := Home(h, key, |v|);
            key in m && Wf(h, v[i := v[i][j := Pair(key, value)]], m[key := value])
  {
    var i := Home(h, key, |v|);
    var c := v[i][j := Pair(key, value)];
    var v', m' := v[i := c], m[key := value];
    forall l | 0 <= l < |v| ensures Placed(h, v'[l], l, |v|, m') {
      assert Placed(h, v[l], l, |v|, m);
    }
    forall k | k in m' ensures HasKey(v'[Home(h, k, |v|)], k) {
      if Home(h, k, |v|) == i && k != key {
        var n :| 0 <= n < |v[i]| && v[i][n].key == k;
        assert c[n].key == k;
      } else if k == key {
        assert c[j].key == key;
      }
    }
  }

  lemma RemoveKeeps(h: Hash, v: View, m: Contents, j: nat, key: string)
    requires Wf(h, v, m)
    requires var c := v[Home(h, key, |v|)]; j < |c| && c[j].key == key
    ensures var i := Home(h, key, |v|);
            key in m && Wf(h, v[i := v[i][..j] + v[i][j + 1..]], m - {key})
  {
    hide Placed, HasKey;
    var i := Home(h, key, |v|);
    PairIn(h, v, m, i, j);
    var v' := v[i := Cut(v[i], j)];
    forall l | 0 <= l < |v| ensures Placed(h, v'[l], l, |v|, m - {key}) {
      CutPlaced(h, v, m, j, key, l);
    }
    forall k | k in m && k != key ensures HasKey(v'[Home(h, k, |v|)], k) {
      CutHas(v[Home(h, k, |v|)], j, k);
    }
    assert Wf(h, v', m - {key});
  }

  ghost function Cut(c: Chain, j: nat): Chain
    requires j < |c|
  {
    c[..j] + c[j + 1..]
  }

  lemma PairIn(h: Hash, v: View, m: Contents, i: nat, j: nat)
    requires Wf(h, v, m) && i < |v| && j < |v[i]|
    ensures v[i][j].key in m
  {
    assert Placed(h, v[i], i, |v|, m);
  }

  /** Every chain, the shortened one too, holds pairs of the smaller map. */
  lemma CutPlaced(h: Hash, v: View, m: Contents, j: nat, key: string, l: nat)
    requires Wf(h, v, m) && l < |v|
    requires var c := v[Home(h, key, |v|)]; j < |c| && c[j].key == key
    ensures var i := Home(h, key, |v|); Placed(h, v[i := Cut(v[i], j)][l], l, |v|, m - {key})
  {
    var i := Home(h, key, |v|);
    assert Placed(h, v[l], l, |v|, m);
    if l == i {
      var c := Cut(v[i], j);
      assert forall n | 0 <= n < |c| :: c[n] == v[i][if n < j then n else n + 1];
    }
  }

  lemma CutHas(c: Chain, j: nat, key: string)
    requires HasKey(c, key)
    ensures j < |c| && c[j].key != key ==> HasKey(Cut(c, j), key)
  {
    var n :| 0 <= n < |c| && c[n].key == key;
    assert j < |c| && n != j ==> Cut(c, j)[if n < j then n else n - 1].key == key;
  }

  // ---------- Rehashing ----------

  /** Keys rehashed once the walk stands before pair `j` of bucket `i`. */
  ghost predicate Passed(h: Hash, v: View, i: nat, j: nat, key: string)
    requires |v| > 0
  {
    var home := Home(h, key, |v|);
    home < i || (home == i < |v| && j <= |v[i]| && HasKey(v[i][..j], key))
  }

  /** `m` holds exactly the entries of `all` that have been rehashed. */
  ghost predicate Moved(h: Hash, v: View, all: Contents, i: nat, j: nat, m: Contents) {
    && Wf(h, v, all) && m.Keys <= all.Keys
    && (forall k | k in m :: m[k] == all[k])
    && (forall k | k in all :: k in m <==> Passed(h, v, i, j, k))
  }

  lemma MoveOne(h: Hash, v: View, all: Contents, i: nat, j: nat, m: Contents)
    requires Moved(h, v, all, i, j, m) && i < |v| && j < |v[i]|
    ensures var x := v[i][j]; x.key !in m && Moved(h, v, all, i, j + 1, m[x.key := x.value])
  {
    var x := v[i][j];
    PairPlaced(h, v, all, i, j);
    hide Wf, Passed, HasKey;
    forall k | k in all ensures k in m[x.key := x.value] <==> Passed(h, v, i, j + 1, k) {
      PassedStep(h, v, i, j, k);
    }
  }

  /** A pair is one of the map's, belongs in its bucket, and is the first there with its key. */
  lemma PairPlaced(h: Hash, v: View, all: Contents, i: nat, j: nat)
    requires Wf(h, v, all) && i < |v| && j < |v[i]|
    ensures var x := v[i][j];
      x.key in all && all[x.key] == x.value && Home(h, x.key, |v|) == i && !Passed(h, v, i, j, x.key)
  {
    assert Placed(h, v[i], i, |v|, all);
  }

  lemma PassedStep(h: Hash, v: View, i: nat, j: nat, key: string)
    requires i < |v| && j < |v[i]| && Home(h, v[i][j].key, |v|) == i
    ensures Passed(h, v, i, j + 1, key) <==> Passed(h, v, i, j, key) || key == v[i][j].key
  {
    var c := v[i];
    assert c[..j + 1] == c[..j] + [c[j]] && c[..j + 1][j] == c[j];
    if HasKey(c[..j], key) {
      var n :| 0 <= n < j && c[..j][n].key == key;
      assert c[..j + 1][n].key == key;
    }
    if HasKey(c[..j + 1], key) && key != c[j].key {
      var n :| 0 <= n < j + 1 && c[..j + 1][n].key == key;
      assert c[..j][n].key == key;
    }
  }

  lemma MoveBucket(h: Hash, v: View, all: Contents, i: nat, m: Contents)
    requires i < |v| && Moved(h, v, all, i, |v[i]|, m)
    ensures Moved(h, v, all, i + 1, 0, m)
  {
    assert v[i][..|v[i]|] == v[i];
  }

  lemma MoveNothing(h: Hash, v: View, all: Contents)
    requires Wf(h, v, all)
    ensures Moved(h, v, all, 0, 0, map[])
  {
  }

  lemma MovedAll(h: Hash, v: View, all: Contents, m: Contents)
    requires Moved(h, v, all, |v|, 0, m)
    ensures m == all
  {
  }

  lemma EmptyWf(h: Hash, capacity: nat)
    requires capacity > 0
    ensures Wf(h, seq(capacity, _ => []), map[])
  {
  }

  // ---------- What resizing costs ----------

  predicate TooFull(size: nat, capacity: nat) {
    size > 3 * capacity / 4
  }

  predicate TooSparse(size: nat, capacity: nat) {
    capacity > MINIMUM_CAPACITY && size < capacity / 4
  }

  function Clamped(capacity: nat): nat {
    if capacity < MINIMUM_CAPACITY then MINIMUM_CAPACITY else capacity
  }

  /** Four times the work saved up for the next resize. */
  ghost function Potential(size: nat, capacity: nat): nat {
    if 12 * size > 6 * capacity then 12 * size - 6 * capacity
    else if 3 * capacity > 8 * size then 3 * capacity - 8 * size
    else 0
  }

  /** Between operations the load stays within the thresholds that trigger a resize. */
  ghost predicate InRange(size: nat, capacity: nat) {
    capacity >= MINIMUM_CAPACITY && !TooFull(size, capacity)
  }

  /** An insertion, and the copy of all entries if the table then grows, costs five units. */
  lemma InsertPays(size: nat, capacity: nat)
    requires InRange(size, capacity)
    ensures var grow := TooFull(size + 1, capacity);
            var capacity' := if grow then 2 * capacity else capacity;
            && InRange(size + 1, capacity')
            && 4 * (if grow then size + 1 else 0) + Potential(size + 1, capacity') <= Potential(size, capacity) + 20
  {
  }

  /** So do a deletion and the copy of all entries if the table then shrinks. */
  lemma DeletePays(size: nat, capacity: nat)
    requires InRange(size, capacity) && size > 0
    ensures var shrink := TooSparse(size - 1, capacity);
            var capacity' := if shrink then Clamped(capacity / 2) else capacity;
            && InRange(size - 1, capacity')
            && 4 * (if shrink then size - 1 else 0) + Potential(size - 1, capacity') <= Potential(size, capacity) + 20
  {
  }

  // ---------- Runs ----------

  datatype Op = Put(key: string, value: string) | Remove(key: string)

  /** What a caller sees, and how many entries resizes have copied so far. */
  datatype Table = Table(contents: Contents, capacity: nat, copied: nat)

  ghost function Resized(t: Table, capacity: nat): Table {
    Table(t.contents, Clamped(capacity), t.copied + |t.contents|)
  }

  ghost function Apply(t: Table, op: Op): Table {
    match op
    case Put(key, value) =>
      var t' := t.(contents := t.contents[key := value]);
      if key !in t.contents && TooFull(|t'.contents|, t.capacity) then Resized(t', 2 * t.capacity) else t'
    case Remove(key) =>
      var t' := t.(contents := t.contents - {key});
      if key in t.contents && TooSparse(|t'.contents|, t.capacity) then Resized(t', t.capacity / 2) else t'
  }

  ghost function Run(capacity: nat, ops: seq<Op>): Table {
    if ops == [] then Table(map[], Clamped(capacity), 0)
    else Apply(Run(capacity, ops[..|ops| - 1]), ops[|ops| - 1])
  }

  lemma RunStep(capacity: nat, ops: seq<Op>, op: Op)
    ensures Run(capacity, ops + [op]) == Apply(Run(capacity, ops), op)
  {
    assert (ops + [op])[..|ops|] == ops;
  }

  ghost function RunMap(ops: seq<Op>): Contents {
    if ops == [] then map[]
    else
      var m := RunMap(ops[..|ops| - 1]);
      match ops[|ops| - 1]
      case Put(key, value) => m[key := value]
      case Remove(key) => m - {key}
  }

  /** A removal in the three cases the code tells apart. */
  lemma ApplyRemove(t: Table, key: string)
    ensures key !in t.contents ==> Apply(t, Remove(key)) == t
    ensures key in t.contents ==>
      var m := t.contents - {key};
      Apply(t, Remove(key)) ==
        if TooSparse(|m|, t.capacity) then Table(m, Clamped(t.capacity / 2), t.copied + |m|)
        else Table(m, t.capacity, t.copied)
  {
    assert key !in t.contents ==> t.contents - {key} == t.contents;
  }

  /** An insertion in the three cases the code tells apart. */
  lemma ApplyPut(t: Table, key: string, value: string)
    ensures var m := t.contents[key := value];
      Apply(t, Put(key, value)) ==
        if key !in t.contents && TooFull(|m|, t.capacity) then Table(m, Clamped(2 * t.capacity), t.copied + |m|)
        else Table(m, t.capacity, t.copied)
  {
  }

  lemma PutSize(m: Contents, key: string, value: string)
    ensures |m[key := value]| == |m| + if key in m then 0 else 1
  {
    assert m[key := value].Keys == m.Keys + {key};
  }

  lemma RemoveSize(m: Contents, key: string)
    ensures |m - {key}| == |m| - if key in m then 1 else 0
  {
    assert (m - {key}).Keys == m.Keys - {key};
  }

  /** One call on the table, resize included, costs five units. */
  lemma ApplyPays(t: Table, op: Op)
    requires InRange(|t.contents|, t.capacity)
    ensures var t' := Apply(t, op);
            && InRange(|t'.contents|, t'.capacity)
            && 4 * t'.copied + Potential(|t'.contents|, t'.capacity)
               <= 4 * t.copied + Potential(|t.contents|, t.capacity) + 20
  {
    hide Potential;
    match op
    case Put(key, value) =>
      PutSize(t.contents, key, value);
      InsertPays(|t.contents|, t.capacity);
    case Remove(key) =>
      RemoveSize(t.contents, key);
      if key in t.contents { DeletePays(|t.contents|, t.capacity); }
  }

  /** Over every run, what resizes copy is paid for by five units a call and the starting capacity. */
  lemma {:induction false} RunCost(capacity: nat, ops: seq<Op>)
    ensures var t := Run(capacity, ops);
            && t.contents == RunMap(ops)
            && InRange(|t.contents|, t.capacity)
            && 4 * t.copied + Potential(|t.contents|, t.capacity) <= 20 * |ops| + 3 * Clamped(capacity)
  {
    if ops != [] {
      RunCost(capacity, ops[..|ops| - 1]);
      ApplyPays(Run(capacity, ops[..|ops| - 1]), ops[|ops| - 1]);
    }
  }

  lemma RunContents(capacity: nat, ops: seq<Op>)
    ensures Run(capacity, ops).contents == RunMap(ops)
  {
    RunCost(capacity, ops);
  }

  /** An insertion doubles the capacity exactly if it leaves more than three quarters, and else keeps it. */
  lemma PutExactly(t: Table, key: string, value: string)
    requires t.capacity >= MINIMUM_CAPACITY
    ensures var t' := Apply(t, Put(key, value));
      var grows := key !in t.contents && |t'.contents| > 3 * t.capacity / 4;
      && t'.contents == t.contents[key := value]
      && t'.capacity == (if grows then 2 * t.capacity else t.capacity)
      && t'.copied == t.copied + if grows then |t'.contents| else 0
  {
  }

  /** A removal halves it, down to 16 at the least, exactly if it leaves less than one quarter. */
  lemma RemoveExactly(t: Table, key: string)
    requires t.capacity >= MINIMUM_CAPACITY
    ensures var t' := Apply(t, Remove(key));
      var shrinks := key in t.contents && t.capacity > 16 && |t'.contents| < t.capacity / 4;
      && t'.contents == t.contents - {key}
      && t'.capacity == (if !shrinks then t.capacity else if t.capacity < 32 then 16 else t.capacity / 2)
      && t'.copied == t.copied + if shrinks then |t'.contents| else 0
  {
    ApplyRemove(t, key);
    assert key !in t.contents ==> t.contents - {key} == t.contents;
  }

  /** At most three quarters full, and at least one quarter unless no larger than at the start. */
  ghost predicate Fitting(start: nat, size: nat, capacity: nat) {
    capacity >= 16 && size <= 3 * capacity / 4 && (capacity <= start || size >= capacity / 4)
  }

  lemma FittingStep(start: nat, t: Table, op: Op)
    requires start >= 16 && Fitting(start, |t.contents|, t.capacity)
    ensures Fitting(start, |Apply(t, op).contents|, Apply(t, op).capacity)
  {
    hide Apply;
    match op
    case Put(key, value) =>
      PutSize(t.contents, key, value);
      PutExactly(t, key, value);
    case Remove(key) =>
      RemoveSize(t.contents, key);
      RemoveExactly(t, key);
  }

  /** Between any two calls the table is neither crowded nor, once it has grown, sparse. */
  lemma {:induction false} OccupancyOfRun(capacity: nat, ops: seq<Op>)
    ensures var t := Run(capacity, ops);
      && Fitting(Clamped(capacity), |t.contents|, t.capacity)
      && (capacity <= 16 ==> t.capacity == 16 || |t.contents| >= t.capacity / 4)
  {
    if ops != [] {
      hide Apply;
      OccupancyOfRun(capacity, ops[..|ops| - 1]);
      FittingStep(Clamped(capacity), Run(capacity, ops[..|ops| - 1]), ops[|ops| - 1]);
    }
  }

  lemma ApplyCapacity(t: Table, op: Op)
    requires t.capacity >= MINIMUM_CAPACITY
    ensures Apply(t, op).capacity >= MINIMUM_CAPACITY
  {
  }
}
