/**
 The skip list of 05-Skip-List/main.go as a sequence of towers in key order. A tower's height is the
 number of lists it is threaded on, so the list of level `i` holds the towers of height above `i`.
 */
module SkipListSpec {
  import opened Options

  datatype Tower<V> = Tower(key: int, value: V, height: nat)

  /** Strictly sorted by key; every tower stands on level 0 and below the maximum level. */
  ghost predicate Sorted<V>(ts: seq<Tower<V>>) {
    forall a, b | 0 <= a < b < |ts| :: ts[a].key < ts[b].key
  }

  ghost predicate Standing<V>(ts: seq<Tower<V>>, maxLevel: nat) {
    forall a | 0 <= a < |ts| :: 1 <= ts[a].height <= maxLevel + 1
  }

  /** How many towers precede `key`. */
  ghost function Position<V>(ts: seq<Tower<V>>, key: int): (p: nat)
    ensures p <= |ts|
    ensures forall a | 0 <= a < p :: ts[a].key < key
    ensures p < |ts| ==> key <= ts[p].key
  {
    if ts == [] || key <= ts[0].key then 0 else 1 + Position(ts[1..], key)
  }

  ghost predicate Present<V>(ts: seq<Tower<V>>, key: int) {
    var p := Position(ts, key);
    p < |ts| && ts[p].key == key
  }

  ghost function InsertAt<V>(ts: seq<Tower<V>>, p: nat, t: Tower<V>): seq<Tower<V>>
    requires p <= |ts|
  {
    ts[..p] + [t] + ts[p..]
  }

  ghost function RemoveAt<V>(ts: seq<Tower<V>>, p: nat): seq<Tower<V>>
    requires p < |ts|
  {
    ts[..p] + ts[p + 1..]
  }

  /** An insertion whose coin flips gave `level`; they matter only when the key is new. */
  ghost function Insert<V>(ts: seq<Tower<V>>, key: int, value: V, level: nat): seq<Tower<V>> {
    var p := Position(ts, key);
    if Present(ts, key) then ts[p := ts[p].(value := value)]
    else InsertAt(ts, p, Tower(key, value, level + 1))
  }

  ghost function Delete<V>(ts: seq<Tower<V>>, key: int): seq<Tower<V>> {
    if Present(ts, key) then RemoveAt(ts, Position(ts, key)) else ts
  }

  /** The top non-empty level, or 0. */
  ghost function Level<V>(ts: seq<Tower<V>>): nat {
    if ts == [] then 0
    else
      var rest := Level(ts[1..]);
      if ts[0].height > rest + 1 then ts[0].height - 1 else rest
  }

  /** The first tower from index `a` on that is threaded on list `i`; `|ts|` when there is none. */
  ghost function Next<V>(ts: seq<Tower<V>>, a: nat, i: nat): (n: nat)
    requires a <= |ts|
    ensures a <= n <= |ts|
    ensures forall b | a <= b < n :: ts[b].height <= i
    ensures n < |ts| ==> ts[n].height > i
    decreases |ts| - a
  {
    if a == |ts| || ts[a].height > i then a else Next(ts, a + 1, i)
  }

  // ---------- Threading ----------

  lemma NextUnique<V>(ts: seq<Tower<V>>, a: nat, i: nat, n: nat)
    requires a <= n <= |ts|
    requires forall b | a <= b < n :: ts[b].height <= i
    requires n < |ts| ==> ts[n].height > i
    ensures Next(ts, a, i) == n
  {
    var m := Next(ts, a, i);
  }

  /** On level 0 every tower is its own successor. */
  lemma NextOnGround<V>(ts: seq<Tower<V>>, maxLevel: nat, a: nat)
    requires Standing(ts, maxLevel) && a <= |ts|
    ensures Next(ts, a, 0) == a
  {
  }

  /** What an insertion does to the successor of an earlier tower. */
  lemma NextBefore<V>(ts: seq<Tower<V>>, p: nat, t: Tower<V>, a: nat, i: nat)
    requires a <= p <= |ts|
    ensures var n := Next(ts, a, i);
            Next(InsertAt(ts, p, t), a, i)
            == if n < p then n else if t.height > i then p else n + 1
  {
    var n, ts' := Next(ts, a, i), InsertAt(ts, p, t);
    var m := if n < p then n else if t.height > i then p else n + 1;
    forall b | a <= b < m ensures ts'[b].height <= i {
      if b > p { assert ts'[b] == ts[b - 1]; }
    }
    assert n >= p && m < |ts'| && t.height <= i ==> ts'[m] == ts[n];
    NextUnique(ts', a, i, m);
  }

  /** What an insertion does to the successor of the new tower or of a later one. */
  lemma NextAfter<V>(ts: seq<Tower<V>>, p: nat, t: Tower<V>, a: nat, i: nat)
    requires p <= a <= |ts|
    ensures Next(InsertAt(ts, p, t), a + 1, i) == Next(ts, a, i) + 1
  {
    var n, ts' := Next(ts, a, i), InsertAt(ts, p, t);
    assert forall b | p <= b < |ts| :: ts'[b + 1] == ts[b];
    assert forall b | a + 1 <= b < n + 1 :: ts'[b] == ts[b - 1];
    NextUnique(ts', a + 1, i, n + 1);
  }

  /** A predecessor's successor on list `i` is the first tower from `p` on, once it lies beyond `p`. */
  lemma NextSkips<V>(ts: seq<Tower<V>>, a: nat, p: nat, i: nat)
    requires a <= p <= |ts| && Next(ts, a, i) >= p
    ensures Next(ts, a, i) == Next(ts, p, i)
  {
    NextUnique(ts, p, i, Next(ts, a, i));
  }

  /** Only one node at or before `p` is tall enough for list `i` and has its successor at or beyond `p`. */
  lemma PredecessorUnique<V>(ts: seq<Tower<V>>, p: nat, i: nat, a: nat, b: nat)
    requires a <= p <= |ts| && b <= p
    requires Next(ts, a, i) >= p && Next(ts, b, i) >= p
    requires a > 0 ==> ts[a - 1].height > i
    requires b > 0 ==> ts[b - 1].height > i
    ensures a == b
  {
    assert forall c | a <= c < p :: ts[c].height <= i;
    assert forall c | b <= c < p :: ts[c].height <= i;
  }

  /** Everything threaded on list `i`, in order. */
  ghost function OnLevel<V>(ts: seq<Tower<V>>, i: nat): seq<Tower<V>> {
    if ts == [] then []
    else (if ts[0].height > i then [ts[0]] else []) + OnLevel(ts[1..], i)
  }

  /** What a walk along list `i` meets, starting at the head's successor. */
  ghost function Walk<V>(ts: seq<Tower<V>>, a: nat, i: nat): seq<Tower<V>>
    requires a <= |ts|
    decreases |ts| - a
  {
    var n := Next(ts, a, i);
    if n == |ts| then [] else [ts[n]] + Walk(ts, n + 1, i)
  }

  /** Following the forward pointers of a level meets exactly the towers tall enough for it. */
  lemma {:induction false} WalkMeetsLevel<V>(ts: seq<Tower<V>>, a: nat, i: nat)
    requires a <= |ts|
    ensures Walk(ts, a, i) == OnLevel(ts[a..], i)
    decreases |ts| - a
  {
    if a < |ts| {
      assert ts[a..][1..] == ts[a + 1..];
      WalkMeetsLevel(ts, a + 1, i);
      if ts[a].height <= i { assert Next(ts, a, i) == Next(ts, a + 1, i); }
    }
  }

  ghost predicate Subsequence<T>(a: seq<T>, b: seq<T>) {
    if a == [] then true
    else if b == [] then false
    else if a[0] == b[0] then Subsequence(a[1..], b[1..])
    else Subsequence(a, b[1..])
  }

  /** Every level is strictly sorted and a subsequence of the level below. */
  lemma LevelsNest<V>(ts: seq<Tower<V>>, i: nat)
    requires Sorted(ts)
    ensures Sorted(OnLevel(ts, i))
    ensures Subsequence(OnLevel(ts, i + 1), OnLevel(ts, i))
    ensures forall t :: t in OnLevel(ts, i) <==> t in ts && t.height > i
  {
    LevelSorted(ts, i);
    LevelInLevelBelow(ts, i);
    forall t ensures t in OnLevel(ts, i) <==> t in ts && t.height > i { OnLevelMember(ts, i, t); }
  }

  lemma {:induction false} LevelSorted<V>(ts: seq<Tower<V>>, i: nat)
    requires Sorted(ts)
    ensures Sorted(OnLevel(ts, i))
  {
    if ts != [] {
      LevelSorted(ts[1..], i);
      var low := OnLevel(ts[1..], i);
      forall b | 0 <= b < |low| ensures ts[0].key < low[b].key {
        assert low[b] in low;
        OnLevelMember(ts[1..], i, low[b]);
        var a :| 1 <= a < |ts| && ts[a] == low[b];
      }
    }
  }

  lemma {:induction false} LevelInLevelBelow<V>(ts: seq<Tower<V>>, i: nat)
    requires Sorted(ts)
    ensures Subsequence(OnLevel(ts, i + 1), OnLevel(ts, i))
  {
    if ts != [] {
      LevelInLevelBelow(ts[1..], i);
      var up, low := OnLevel(ts[1..], i + 1), OnLevel(ts[1..], i);
      if ts[0].height > i + 1 {
        assert OnLevel(ts, i + 1)[1..] == up && OnLevel(ts, i)[1..] == low;
      } else {
        assert OnLevel(ts, i + 1) == up;
        assert OnLevel(ts, i) == if ts[0].height > i then [ts[0]] + low else low;
        assert ([ts[0]] + low)[1..] == low;
        if up != [] {
          OnLevelMember(ts[1..], i + 1, up[0]);
          var a :| 1 <= a < |ts| && ts[a] == up[0];
          assert ts[0].key < up[0].key;
        }
      }
    }
  }

  lemma {:induction false} OnLevelMember<V>(ts: seq<Tower<V>>, i: nat, t: Tower<V>)
    ensures t in OnLevel(ts, i) <==> t in ts && t.height > i
  {
    if ts != [] {
      OnLevelMember(ts[1..], i, t);
      assert ts == [ts[0]] + ts[1..];
    }
  }

  /** `Level` is the top of the tallest tower, which is where the head's successor turns nil. */
  lemma {:induction false} LevelIsTop<V>(ts: seq<Tower<V>>)
    ensures forall a | 0 <= a < |ts| :: ts[a].height <= Level(ts) + 1
    ensures Level(ts) > 0 ==> exists a :: 0 <= a < |ts| && ts[a].height == Level(ts) + 1
  {
    if ts != [] {
      LevelIsTop(ts[1..]);
      assert forall a | 1 <= a < |ts| :: ts[a] == ts[1..][a - 1];
      if Level(ts) > 0 && !(ts[0].height > Level(ts[1..]) + 1) {
        var a :| 0 <= a < |ts[1..]| && ts[1..][a].height == Level(ts) + 1;
        assert ts[a + 1].height == Level(ts) + 1;
      }
    }
  }

  lemma LevelUnique<V>(ts: seq<Tower<V>>, l: nat)
    requires forall a | 0 <= a < |ts| :: ts[a].height <= l + 1
    requires l > 0 ==> Next(ts, 0, l) < |ts|
    ensures Level(ts) == l
  {
    LevelIsTop(ts);
    if l > 0 { var n := Next(ts, 0, l); assert ts[n].height > l; }
  }

  lemma OverwriteKeepsHeights<V>(ts: seq<Tower<V>>, key: int, value: V, level: nat)
    requires Present(ts, key)
    ensures Level(Insert(ts, key, value, level)) == Level(ts)
    ensures forall a, i | 0 <= a <= |ts| && 0 <= i :: Next(Insert(ts, key, value, level), a, i) == Next(ts, a, i)
  {
    var ts' := Insert(ts, key, value, level);
    forall a, i | 0 <= a <= |ts| && 0 <= i ensures Next(ts', a, i) == Next(ts, a, i) {
      NextUnique(ts', a, i, Next(ts, a, i));
    }
    LevelIsTop(ts);
    if Level(ts) > 0 {
      var a :| 0 <= a < |ts| && ts[a].height == Level(ts) + 1;
      assert ts'[a].height > Level(ts);
    }
    LevelUnique(ts', Level(ts));
  }

  /** A new tower lifts the level to its own top when that is higher. */
  lemma LevelGrows<V>(ts: seq<Tower<V>>, p: nat, t: Tower<V>)
    requires p <= |ts| && t.height > 0
    ensures Level(InsertAt(ts, p, t)) == if t.height - 1 > Level(ts) then t.height - 1 else Level(ts)
  {
    hide Next, Level;
    var ts' := InsertAt(ts, p, t);
    var l := if t.height - 1 > Level(ts) then t.height - 1 else Level(ts);
    LevelIsTop(ts);
    assert forall a | p < a < |ts'| :: ts'[a] == ts[a - 1];
    if l == t.height - 1 {
      assert ts'[p].height > l;
    } else {
      var a :| 0 <= a < |ts| && ts[a].height == Level(ts) + 1;
      assert ts'[if a < p then a else a + 1].height > l;
    }
    LevelUnique(ts', l);
  }

  // ---------- The map the list stands for ----------

  ghost function Contents<V>(ts: seq<Tower<V>>): map<int, V> {
    map t | t in ts && Present(ts, t.key) :: t.key := ts[Position(ts, t.key)].value
  }

  ghost function Find<V>(ts: seq<Tower<V>>, key: int): Option<V> {
    if Present(ts, key) then Some(ts[Position(ts, key)].value) else None
  }

  lemma FindAt<V>(ts: seq<Tower<V>>, a: nat)
    requires Sorted(ts) && a < |ts|
    ensures Position(ts, ts[a].key) == a && Find(ts, ts[a].key) == Some(ts[a].value)
  {
    var p := Position(ts, ts[a].key);
    assert !(p < a) && !(a < p);
  }

  /** Looking a key up in the sorted towers is looking it up in the map. */
  lemma FindIsLookup<V>(ts: seq<Tower<V>>, key: int)
    requires Sorted(ts)
    ensures Find(ts, key) == if key in Contents(ts) then Some(Contents(ts)[key]) else None
  {
    if Present(ts, key) { assert ts[Position(ts, key)] in ts; }
  }

  lemma SameFindSameMap<V>(ts: seq<Tower<V>>, m: map<int, V>)
    requires Sorted(ts)
    requires forall k :: Find(ts, k) == if k in m then Some(m[k]) else None
    ensures Contents(ts) == m
  {
    forall k ensures k in Contents(ts) <==> k in m
             ensures k in m ==> Contents(ts)[k] == m[k] {
      FindIsLookup(ts, k);
    }
  }

  lemma InsertSorted<V>(ts: seq<Tower<V>>, key: int, value: V, level: nat)
    requires Sorted(ts)
    ensures Sorted(Insert(ts, key, value, level))
  {
    var p, ts' := Position(ts, key), Insert(ts, key, value, level);
    if !Present(ts, key) {
      assert forall a | 0 <= a < p :: ts'[a] == ts[a];
      assert forall a | p < a < |ts'| :: ts'[a] == ts[a - 1];
      assert forall a | p <= a < |ts| :: key < ts[a].key;
    }
  }

  lemma InsertFind<V>(ts: seq<Tower<V>>, key: int, value: V, level: nat, k: int)
    requires Sorted(ts)
    ensures Find(Insert(ts, key, value, level), k) == if k == key then Some(value) else Find(ts, k)
  {
    InsertSorted(ts, key, value, level);
    if k == key {
      InsertFindKey(ts, key, value, level);
    } else {
      InsertFindOther(ts, key, value, level, k);
    }
  }

  lemma InsertFindKey<V>(ts: seq<Tower<V>>, key: int, value: V, level: nat)
    requires Sorted(ts) && Sorted(Insert(ts, key, value, level))
    ensures Find(Insert(ts, key, value, level), key) == Some(value)
  {
    hide Find;
    FindAt(Insert(ts, key, value, level), Position(ts, key));
  }

  lemma InsertFindOther<V>(ts: seq<Tower<V>>, key: int, value: V, level: nat, k: int)
    requires Sorted(ts) && Sorted(Insert(ts, key, value, level)) && k != key
    ensures Find(Insert(ts, key, value, level), k) == Find(ts, k)
  {
    hide Sorted;
    var p, ts' := Position(ts, key), Insert(ts, key, value, level);
    var moved := if Present(ts, key) then 0 else 1;
    if Present(ts, k) {
      var a := Position(ts, k);
      var b := if a < p then a else a + moved;
      assert ts'[b] == ts[a];
      FindAt(ts', b);
    } else if Present(ts', k) {
      var b := Position(ts', k);
      var a := if b < p then b else b - moved;
      assert ts[a] == ts'[b];
      FindAt(ts, a);
    }
  }

  lemma DeleteSorted<V>(ts: seq<Tower<V>>, key: int)
    requires Sorted(ts)
    ensures Sorted(Delete(ts, key))
  {
  }

  lemma DeleteFind<V>(ts: seq<Tower<V>>, key: int, k: int)
    requires Sorted(ts)
    ensures Find(Delete(ts, key), k) == if k == key then None else Find(ts, k)
  {
    var p, ts' := Position(ts, key), Delete(ts, key);
    DeleteSorted(ts, key);
    if Present(ts, key) {
      if k != key && Present(ts, k) {
        var a := Position(ts, k);
        FindAt(ts', if a < p then a else a - 1);
      } else if Present(ts', k) {
        var a := Position(ts', k);
        var b := if a < p then a else a + 1;
        assert ts[b].key == k;
        FindAt(ts, b);
      }
    }
  }

  /** Insertion updates the map, whatever the coin flips gave. */
  lemma InsertIsMapUpdate<V>(ts: seq<Tower<V>>, key: int, value: V, level: nat)
    requires Sorted(ts)
    ensures Contents(Insert(ts, key, value, level)) == Contents(ts)[key := value]
  {
    hide *;
    InsertSorted(ts, key, value, level);
    var m := Contents(ts)[key := value];
    forall k ensures Find(Insert(ts, key, value, level), k) == if k in m then Some(m[k]) else None {
      InsertFind(ts, key, value, level, k);
      FindIsLookup(ts, k);
    }
    SameFindSameMap(Insert(ts, key, value, level), m);
  }

  lemma DeleteIsMapRemoval<V>(ts: seq<Tower<V>>, key: int)
    requires Sorted(ts)
    ensures Contents(Delete(ts, key)) == Contents(ts) - {key}
  {
    hide *;
    DeleteSorted(ts, key);
    var m := Contents(ts) - {key};
    forall k ensures Find(Delete(ts, key), k) == if k in m then Some(m[k]) else None {
      DeleteFind(ts, key, k);
      FindIsLookup(ts, k);
    }
    SameFindSameMap(Delete(ts, key), m);
  }

  // ---------- Runs ----------

  /** A call together with the level its coin flips would give. */
  datatype Op<V> = Put(key: int, value: V, level: nat) | Drop(key: int)

  ghost function Apply<V>(ts: seq<Tower<V>>, op: Op<V>): seq<Tower<V>> {
    match op
    case Put(key, value, level) => Insert(ts, key, value, level)
    case Drop(key) => Delete(ts, key)
  }

  ghost function Run<V>(ops: seq<Op<V>>): seq<Tower<V>> {
    if ops == [] then [] else Apply(Run(ops[..|ops| - 1]), ops[|ops| - 1])
  }

  lemma RunStep<V>(ops: seq<Op<V>>, op: Op<V>)
    ensures Run(ops + [op]) == Apply(Run(ops), op)
  {
    assert (ops + [op])[..|ops|] == ops;
  }

  /** The same calls on a plain map. */
  ghost function RunMap<V>(ops: seq<Op<V>>): map<int, V> {
    if ops == [] then map[]
    else
      var m := RunMap(ops[..|ops| - 1]);
      match ops[|ops| - 1]
      case Put(key, value, _) => m[key := value]
      case Drop(key) => m - {key}
  }

  /** Every run stays sorted and stands for the same map as a plain map fed the same calls. */
  lemma {:induction false} RunRefinesMap<V>(ops: seq<Op<V>>)
    ensures Sorted(Run(ops)) && Contents(Run(ops)) == RunMap(ops)
  {
    if ops != [] {
      var front := ops[..|ops| - 1];
      RunRefinesMap(front);
      match ops[|ops| - 1]
      case Put(key, value, level) =>
        InsertSorted(Run(front), key, value, level);
        InsertIsMapUpdate(Run(front), key, value, level);
      case Drop(key) =>
        DeleteSorted(Run(front), key);
        DeleteIsMapRemoval(Run(front), key);
    }
  }

  /** The level drawn by the last call that put the key while it was absent; -1 if none did. */
  ghost function LevelDrawn<V>(ops: seq<Op<V>>, key: int): int {
    if ops == [] then -1
    else
      var front, op := ops[..|ops| - 1], ops[|ops| - 1];
      if op.Put? && op.key == key && key !in RunMap(front) then op.level else LevelDrawn(front, key)
  }

  lemma MapPresent<V>(ts: seq<Tower<V>>, m: map<int, V>, key: int)
    requires Sorted(ts) && Contents(ts) == m
    ensures Present(ts, key) <==> key in m
  {
    FindIsLookup(ts, key);
  }

  /** An insertion leaves the other towers alone, and its own key the height it had. */
  lemma InsertTower<V>(ts: seq<Tower<V>>, key: int, value: V, level: nat, t: Tower<V>)
    requires Sorted(ts) && t in Insert(ts, key, value, level)
    ensures t.key != key ==> t in ts
    ensures t.key == key && !Present(ts, key) ==> t.height == level + 1
    ensures t.key == key && Present(ts, key) ==> exists u :: u in ts && u.key == key && u.height == t.height
  {
    hide Sorted;
    InsertSorted(ts, key, value, level);
    var p, ts' := Position(ts, key), Insert(ts, key, value, level);
    var a :| 0 <= a < |ts'| && ts'[a] == t;
    FindAt(ts', a);
    FindAt(ts', p);
    assert t.key == key ==> a == p;
    assert Present(ts, key) ==> ts[p] in ts;
  }

  lemma DeleteTower<V>(ts: seq<Tower<V>>, key: int, t: Tower<V>)
    requires Sorted(ts) && t in Delete(ts, key)
    ensures t in ts
  {
  }

  /** In every run a node stands as high as the level drawn when its key was entered, however often it is put since. */
  lemma {:induction false} HeightOfRun<V>(ops: seq<Op<V>>, t: Tower<V>)
    requires t in Run(ops)
    ensures t.height == LevelDrawn(ops, t.key) + 1
  {
    var front, op := ops[..|ops| - 1], ops[|ops| - 1];
    var ts := Run(front);
    RunRefinesMap(front);
    match op
    case Put(key, value, level) =>
      InsertTower(ts, key, value, level, t);
      MapPresent(ts, RunMap(front), key);
      if t.key != key {
        HeightOfRun(front, t);
      } else if Present(ts, key) {
        var u :| u in ts && u.key == key && u.height == t.height;
        HeightOfRun(front, u);
      }
    case Drop(key) =>
      DeleteTower(ts, key, t);
      HeightOfRun(front, t);
  }

  /** The same calls, with possibly different coin flips. */
  ghost predicate SameCalls<V>(a: seq<Op<V>>, b: seq<Op<V>>) {
    |a| == |b| && forall i | 0 <= i < |a| ::
      match (a[i], b[i])
      case (Put(k, v, _), Put(k', v', _)) => k == k' && v == v'
      case (Drop(k), Drop(k')) => k == k'
      case _ => false
  }

  /** No answer of the list depends on the coin flips. */
  lemma {:induction false} CoinFlipsInvisible<V>(a: seq<Op<V>>, b: seq<Op<V>>, key: int)
    requires SameCalls(a, b)
    ensures Find(Run(a), key) == Find(Run(b), key)
  {
    RunRefinesMap(a);
    RunRefinesMap(b);
    SameCallsSameMap(a, b);
    FindIsLookup(Run(a), key);
    FindIsLookup(Run(b), key);
  }

  lemma {:induction false} SameCallsSameMap<V>(a: seq<Op<V>>, b: seq<Op<V>>)
    requires SameCalls(a, b)
    ensures RunMap(a) == RunMap(b)
  {
    if a != [] {
      SameCallsSameMap(a[..|a| - 1], b[..|b| - 1]);
    }
  }
}
