/**
 The consistent hash ring of 08-Consistent-Hashing/main.go: points sorted by hash, each key owned by the
 node of the first point at or after its hash, and which keys change owner as nodes join and leave.
 */
module RingSpec {
  type uint32 = n: nat | n < 0x1_0000_0000

  datatype RingPoint = RingPoint(hash: uint32, node: string)

  type Ring = seq<RingPoint>

  ghost predicate Sorted(ring: Ring) {
    forall i, j | 0 <= i < j < |ring| :: ring[i].hash <= ring[j].hash
  }

  /** No two nodes share a hash. */
  ghost predicate NoTies(ring: Ring) {
    forall p, q | p in ring && q in ring && p.hash == q.hash :: p.node == q.node
  }

  /** The place of the first point at or after a hash. */
  function FirstAt(ring: Ring, hash: uint32): (i: nat)
    ensures i <= |ring|
    ensures forall j | 0 <= j < i :: ring[j].hash < hash
    ensures i < |ring| ==> ring[i].hash >= hash
  {
    if ring == [] || ring[0].hash >= hash then 0 else 1 + FirstAt(ring[1..], hash)
  }

  /** The node of the first point at or after a hash, going round. */
  function Owner(ring: Ring, hash: uint32): string
    requires ring != []
  {
    var i := FirstAt(ring, hash);
    if i < |ring| then ring[i].node else ring[0].node
  }

  /** How far a point lies from a hash, going round in the direction of growing hashes. */
  function Way(from: uint32, to: uint32): (d: uint32)
    ensures (from + d) % 0x1_0000_0000 == to
  {
    if from <= to then to - from else to + 0x1_0000_0000 - from
  }

  /** One of the node's points is no farther from the hash than any other point. */
  ghost predicate Nearest(ring: Ring, hash: uint32, node: string) {
    exists i :: 0 <= i < |ring| && ring[i].node == node && NoneNearer(ring, hash, ring[i])
  }

  ghost predicate NoneNearer(ring: Ring, hash: uint32, p: RingPoint) {
    forall j | 0 <= j < |ring| :: Way(hash, p.hash) <= Way(hash, ring[j].hash)
  }

  /** The owner of a hash has the nearest point clockwise. */
  lemma OwnerIsNearest(ring: Ring, hash: uint32)
    requires Sorted(ring) && ring != []
    ensures Nearest(ring, hash, Owner(ring, hash))
  {
    var i := FirstAt(ring, hash);
    var k := if i < |ring| then i else 0;
    assert ring[k].node == Owner(ring, hash);
    assert NoneNearer(ring, hash, ring[k]);
  }

  /** Without ties no other node has. */
  lemma OwnerExactly(ring: Ring, hash: uint32, node: string)
    requires Sorted(ring) && ring != [] && NoTies(ring)
    ensures Nearest(ring, hash, node) <==> node == Owner(ring, hash)
  {
    hide Sorted, Owner;
    OwnerIsNearest(ring, hash);
    if Nearest(ring, hash, node) {
      var i :| 0 <= i < |ring| && ring[i].node == node && NoneNearer(ring, hash, ring[i]);
      var k :| 0 <= k < |ring| && ring[k].node == Owner(ring, hash) && NoneNearer(ring, hash, ring[k]);
      assert Way(hash, ring[i].hash) == Way(hash, ring[k].hash);
      assert ring[i] in ring && ring[k] in ring;
    }
  }

  function Without(ring: Ring, node: string): Ring {
    if ring == [] then []
    else (if ring[0].node == node then [] else [ring[0]]) + Without(ring[1..], node)
  }

  lemma {:induction false} WithoutConcat(a: Ring, b: Ring, node: string)
    ensures Without(a + b, node) == Without(a, node) + Without(b, node)
  {
    if a == [] {
      assert a + b == b;
    } else {
      assert (a + b)[1..] == a[1..] + b;
      WithoutConcat(a[1..], b, node);
    }
  }

  lemma {:induction false} WithoutMembers(ring: Ring, node: string)
    ensures forall p :: p in Without(ring, node) <==> p in ring && p.node != node
    ensures forall p :: multiset(Without(ring, node))[p] == if p.node == node then 0 else multiset(ring)[p]
  {
    if ring != [] {
      WithoutMembers(ring[1..], node);
      assert ring == [ring[0]] + ring[1..];
    }
  }

  lemma {:induction false} WithoutSorted(ring: Ring, node: string)
    requires Sorted(ring)
    ensures Sorted(Without(ring, node))
  {
    if ring != [] {
      WithoutSorted(ring[1..], node);
      WithoutMembers(ring[1..], node);
      var rest := Without(ring[1..], node);
      forall j | 0 <= j < |rest| ensures ring[0].hash <= rest[j].hash {
        assert rest[j] in ring[1..];
      }
    }
  }

  // ---------- Leaving ----------

  /** All points of a ring, or of its front, that lie before a hash. */
  lemma FirstAtUnique(ring: Ring, hash: uint32, i: nat)
    requires i <= |ring| && forall j | 0 <= j < i :: ring[j].hash < hash
    requires i < |ring| ==> ring[i].hash >= hash
    ensures FirstAt(ring, hash) == i
  {
  }

  /** The points before the owner's stay before the hash, whichever of them leave. */
  lemma FrontStaysBefore(ring: Ring, node: string, hash: uint32)
    ensures forall p | p in Without(ring[..FirstAt(ring, hash)], node) :: p.hash < hash
  {
    WithoutMembers(ring[..FirstAt(ring, hash)], node);
  }

  /** The owner's point is the first to stay. */
  lemma LeavingAhead(front: Ring, owner: RingPoint, back: Ring, node: string)
    requires owner.node != node
    ensures Without(front + [owner] + back, node) == Without(front, node) + [owner] + Without(back, node)
  {
    WithoutConcat(front + [owner], back, node);
    WithoutConcat(front, [owner], node);
    assert Without([owner], node) == [owner];
  }

  /** A node's departure leaves every key it did not own where it was. */
  lemma LeavingMovesOnlyOwn(ring: Ring, node: string, hash: uint32)
    requires ring != [] && Owner(ring, hash) != node
    ensures Without(ring, node) != []
    ensures Owner(Without(ring, node), hash) == Owner(ring, hash)
  {
    hide Without;
    var k := FirstAt(ring, hash);
    FrontStaysBefore(ring, node, hash);
    if k < |ring| {
      assert ring == ring[..k] + [ring[k]] + ring[k + 1..];
      LeavingAhead(ring[..k], ring[k], ring[k + 1..], node);
      FirstAtUnique(Without(ring, node), hash, |Without(ring[..k], node)|);
    } else {
      assert ring[..k] == ring == [] + [ring[0]] + ring[1..];
      LeavingAhead([], ring[0], ring[1..], node);
      WithoutNone(node);
      FirstAtUnique(Without(ring, node), hash, |Without(ring, node)|);
    }
  }

  lemma WithoutNone(node: string)
    ensures Without([], node) == []
  {
  }

  // ---------- Joining ----------

  /** Without ties the first points agree. */
  lemma FirstsAgree(a: Ring, b: Ring)
    requires Sorted(a) && Sorted(b) && NoTies(a) && multiset(a) == multiset(b) && a != [] && b != []
    ensures a[0] == b[0]
  {
    assert a[0] in multiset(b) && b[0] in multiset(a);
    var i :| 0 <= i < |b| && b[i] == a[0];
    var j :| 0 <= j < |a| && a[j] == b[0];
    assert b[0].hash <= b[i].hash && a[0].hash <= a[j].hash;
  }

  lemma SameRest(a: Ring, b: Ring)
    requires a != [] && b != [] && a[0] == b[0] && multiset(a) == multiset(b)
    ensures multiset(a[1..]) == multiset(b[1..])
  {
    assert a == [a[0]] + a[1..] && b == [b[0]] + b[1..];
    assert multiset(a[1..]) == multiset(a) - multiset{a[0]};
  }

  /** Without ties there is only one way to sort. */
  lemma {:induction false} SortedUnique(a: Ring, b: Ring)
    requires Sorted(a) && Sorted(b) && NoTies(a) && multiset(a) == multiset(b)
    ensures a == b
  {
    assert |a| == |multiset(a)| == |b|;
    if a != [] {
      FirstsAgree(a, b);
      SameRest(a, b);
      SortedUnique(a[1..], b[1..]);
      assert a == [a[0]] + a[1..] && b == [b[0]] + b[1..];
    }
  }

  /** The ring after a node's points have joined, sorted in any way. */
  ghost predicate Joined(ring: Ring, points: Ring, node: string, after: Ring) {
    && (forall p | p in points :: p.node == node)
    && Sorted(after) && multiset(after) == multiset(ring) + multiset(points)
  }

  /** Taking a node out again restores the very ring, if no two nodes in it share a hash. */
  lemma JoinThenLeave(ring: Ring, points: Ring, node: string, after: Ring)
    requires Sorted(ring) && NoTies(ring) && (forall p | p in ring :: p.node != node)
    requires Joined(ring, points, node, after)
    ensures Without(after, node) == ring
  {
    var left := Without(after, node);
    WithoutMembers(after, node);
    WithoutSorted(after, node);
    forall p ensures multiset(left)[p] == multiset(ring)[p] {
      if p.node == node {
        assert p !in ring;
      } else {
        assert p !in points;
      }
    }
    assert multiset(left) == multiset(ring);
    SortedUnique(ring, left);
  }

  /** A new node takes keys to itself only, if no two nodes there before share a hash. */
  lemma JoiningMovesOnlyToNew(ring: Ring, points: Ring, node: string, after: Ring, hash: uint32)
    requires ring != [] && Sorted(ring) && NoTies(ring) && (forall p | p in ring :: p.node != node)
    requires Joined(ring, points, node, after)
    ensures after != []
    ensures Owner(after, hash) == node || Owner(after, hash) == Owner(ring, hash)
  {
    JoinThenLeave(ring, points, node, after);
    if Owner(after, hash) != node {
      LeavingMovesOnlyOwn(after, node, hash);
    }
  }

  /** Any point may be sorted to the front of those with its hash, and then owns that hash. */
  lemma BroughtFirst(ring: Ring, i: nat)
    requires Sorted(ring) && i < |ring|
    ensures exists other: Ring ::
      Sorted(other) && multiset(other) == multiset(ring) && other != [] && Owner(other, ring[i].hash) == ring[i].node
  {
    hide Sorted, FirstAt, Owner;
    FirstOf(ring, i);
    var k := FirstAt(ring, ring[i].hash);
    SwapKeeps(ring, k, i);
    FirstStays(ring, k, i);
    var other := ring[k := ring[i]][i := ring[k]];
    assert Sorted(other) && multiset(other) == multiset(ring) && other != []
           && Owner(other, ring[i].hash) == ring[i].node;
  }

  /** With a tie the sort may put either node first, and a key moves between two old nodes. */
  lemma TieMovesBetweenOld(ring: Ring, points: Ring, node: string, after: Ring, p: RingPoint, q: RingPoint)
    requires Sorted(ring) && (forall r | r in ring :: r.node != node) && Joined(ring, points, node, after)
    requires p in ring && q in ring && p.hash == q.hash && p.node != q.node
    ensures exists other ::
      && Joined(ring, points, node, other) && other != []
      && Owner(other, p.hash) != node && Owner(other, p.hash) != Owner(ring, p.hash)
  {
    hide Sorted, FirstAt, Owner;
    var moved := if Owner(ring, p.hash) == p.node then q else p;
    assert moved in multiset(ring);
    assert moved in multiset(after);
    var i :| 0 <= i < |after| && after[i] == moved;
    BroughtFirst(after, i);
    var other: Ring :|
      Sorted(other) && multiset(other) == multiset(after) && other != [] && Owner(other, moved.hash) == moved.node;
    assert Joined(ring, points, node, other);
  }

  /** The first point at or after the hash of some point has that hash. */
  lemma FirstOf(ring: Ring, i: nat)
    requires Sorted(ring) && i < |ring|
    ensures FirstAt(ring, ring[i].hash) <= i && ring[FirstAt(ring, ring[i].hash)].hash == ring[i].hash
  {
  }

  /** Swapping two points of the same hash keeps the place where that hash begins. */
  lemma FirstStays(ring: Ring, k: nat, i: nat)
    requires k < |ring| && i < |ring| && ring[k].hash == ring[i].hash && k == FirstAt(ring, ring[i].hash)
    ensures var other := ring[k := ring[i]][i := ring[k]];
      FirstAt(other, ring[i].hash) == k && Owner(other, ring[i].hash) == ring[i].node
  {
    hide FirstAt;
    var other := ring[k := ring[i]][i := ring[k]];
    assert forall j | 0 <= j < |ring| :: other[j].hash == ring[j].hash;
    FirstAtUnique(other, ring[i].hash, k);
  }

  lemma SwapKeeps(ring: Ring, k: nat, i: nat)
    requires Sorted(ring) && k < |ring| && i < |ring| && ring[k].hash == ring[i].hash
    ensures Sorted(ring[k := ring[i]][i := ring[k]])
    ensures multiset(ring[k := ring[i]][i := ring[k]]) == multiset(ring)
  {
    var other := ring[k := ring[i]][i := ring[k]];
    assert forall j | 0 <= j < |ring| :: other[j].hash == ring[j].hash;
  }
}

/** The ring object: a slice of points compacted, extended and sorted in place. */
module ConsistentHashing {
  import opened RingSpec

  function Digits(n: nat): string {
    var last := [(n % 10) as char + '0'];
    if n < 10 then last else Digits(n / 10) + last
  }

  /** The name of a node's replica. */
  function Label(node: string, replica: nat): string {
    node + "#" + Digits(replica)
  }

  /** The number a run of decimal digits stands for. */
  function Number(digits: string): int {
    if digits == [] then 0 else 10 * Number(digits[..|digits| - 1]) + (digits[|digits| - 1] as int - '0' as int)
  }

  ghost predicate Decimal(digits: string) {
    && digits != [] && (forall i | 0 <= i < |digits| :: '0' <= digits[i] <= '9')
    && (digits[0] == '0' ==> |digits| == 1)
  }

  /** The digits of a number are its decimal notation. */
  lemma {:induction false} DigitsRead(n: nat)
    ensures Decimal(Digits(n)) && Number(Digits(n)) == n && (n > 0 ==> Digits(n)[0] != '0')
  {
    var last := [(n % 10) as char + '0'];
    if n < 10 {
      assert last[..0] == [] && Number([]) == 0;
    } else {
      DigitsRead(n / 10);
      assert Digits(n)[..|Digits(n)| - 1] == Digits(n / 10);
    }
  }

  /** No two replicas have the same name, be they of one node or of two. */
  lemma LabelsDiffer(a: string, i: nat, b: string, j: nat)
    requires Label(a, i) == Label(b, j)
    ensures a == b && i == j
  {
    hide Digits, Number;
    DigitsRead(i);
    DigitsRead(j);
    var name := Label(a, i);
    assert name == a + "#" + Digits(i) == b + "#" + Digits(j);
    LastMark(a, Digits(i));
    LastMark(b, Digits(j));
    assert |a| == |b|;
    assert name[..|a|] == a && name[..|b|] == b;
    assert name[|a| + 1..] == Digits(i) && name[|b| + 1..] == Digits(j);
  }

  /** The mark before the digits is the last one. */
  lemma LastMark(a: string, digits: string)
    requires Decimal(digits)
    ensures (a + "#" + digits)[|a|] == '#'
    ensures forall k | |a| < k < |a + "#" + digits| :: (a + "#" + digits)[k] != '#'
  {
  }

  /** A member has a point for the name of each of its replicas. */
  lemma PointsNamed(hashOf: string -> uint32, replicas: nat, members: set<string>, ring: Ring, node: string, i: nat)
    requires Holds(hashOf, replicas, members, ring) && node in members && i < replicas
    ensures RingPoint(hashOf(node + "#" + Digits(i)), node) in ring
  {
    hide Digits;
    var points := PointsOf(hashOf, replicas, node);
    assert points[i] == RingPoint(hashOf(Label(node, i)), node);
    assert points[i] in multiset(points);
    assert multiset(ring)[points[i]] > 0;
  }

  /** All the points of one node. */
  function PointsOf(hashOf: string -> uint32, replicas: nat, node: string): Ring {
    seq(replicas, i requires 0 <= i < replicas => RingPoint(hashOf(Label(node, i)), node))
  }

  /** The ring holds each member's points, each as often as it has replicas there, and no others. */
  ghost predicate Holds(hashOf: string -> uint32, replicas: nat, members: set<string>, ring: Ring) {
    forall p :: multiset(ring)[p] == if p.node in members then multiset(PointsOf(hashOf, replicas, p.node))[p] else 0
  }

  /** The first k points are sorted. */
  ghost predicate SortedTo(ring: Ring, k: nat)
    requires k <= |ring|
  {
    forall x, y | 0 <= x < y < k :: ring[x].hash <= ring[y].hash
  }

  /** The same, but for the point at j, which belongs at or before its place. */
  ghost predicate SortedBut(ring: Ring, k: nat, j: nat)
    requires j < k <= |ring|
  {
    && (forall x, y | 0 <= x < y < k && x != j && y != j :: ring[x].hash <= ring[y].hash)
    && (forall y | j < y < k :: ring[j].hash <= ring[y].hash)
  }

  ghost predicate Permuted(ring: Ring, other: Ring) {
    multiset(ring) == multiset(other)
  }

  ghost function Swapped(ring: Ring, i: nat, j: nat): Ring
    requires i < |ring| && j < |ring|
  {
    ring[i := ring[j]][j := ring[i]]
  }

  lemma SwapDown(ring: Ring, k: nat, j: nat)
    requires 0 < j < k <= |ring| && SortedBut(ring, k, j) && ring[j - 1].hash > ring[j].hash
    ensures SortedBut(Swapped(ring, j - 1, j), k, j - 1)
  {
  }

  lemma SwapPermutes(was: Ring, ring: Ring, i: nat, j: nat)
    requires i < |ring| && j < |ring| && Permuted(was, ring)
    ensures Permuted(was, Swapped(ring, i, j))
  {
  }

  lemma StartSorted(ring: Ring, k: nat)
    requires k < |ring| && SortedTo(ring, k)
    ensures SortedBut(ring, k + 1, k)
  {
  }

  lemma EndSorted(ring: Ring, k: nat, j: nat)
    requires j < k <= |ring| && SortedBut(ring, k, j) && (j > 0 ==> ring[j - 1].hash <= ring[j].hash)
    ensures SortedTo(ring, k)
  {
  }

  /** Swaps two of the first n points. */
  method Swap(a: array<RingPoint>, ghost n: nat, i: nat, j: nat)
    requires i < n <= a.Length && j < n
    modifies a
    ensures a[..n] == Swapped(old(a[..n]), i, j)
  {
    a[i], a[j] := a[j], a[i];
  }

  /** Moves point k down to its place among those before it. */
  method SinkPoint(a: array<RingPoint>, ghost n: nat, k: nat)
    requires k < n <= a.Length && SortedTo(a[..n], k)
    modifies a
    ensures SortedTo(a[..n], k + 1) && Permuted(old(a[..n]), a[..n])
  {
    hide SortedBut, SortedTo, Swapped;
    StartSorted(a[..n], k);
    var j: nat := k;
    while j > 0 && a[j - 1].hash > a[j].hash
      invariant j <= k && SortedBut(a[..n], k + 1, j) && Permuted(old(a[..n]), a[..n])
    {
      SwapDown(a[..n], k + 1, j);
      SwapPermutes(old(a[..n]), a[..n], j - 1, j);
      Swap(a, n, j - 1, j);
      j := j - 1;
    }
    EndSorted(a[..n], k + 1, j);
  }

  /** Sorts the first n points. Callers learn nothing about the order of points with equal hashes. */
  method SortPoints(a: array<RingPoint>, n: nat)
    requires n <= a.Length
    modifies a
    ensures Sorted(a[..n]) && multiset(a[..n]) == multiset(old(a[..n]))
  {
    for i := 0 to n
      invariant SortedTo(a[..n], i) && Permuted(old(a[..n]), a[..n])
    {
      SinkPoint(a, n, i);
    }
  }

  class ConsistentHashRing {
    const replicas: nat
    const hashOf: string -> uint32
    var store: array<RingPoint>
    var size: nat
    ghost var members: set<string>

    ghost function Points(): Ring
      reads this, store
      requires size <= store.Length
    {
      store[..size]
    }

    ghost predicate Valid()
      reads this, store
    {
      size <= store.Length && Sorted(Points()) && Holds(hashOf, replicas, members, Points())
    }

    constructor (replicas: int, hashOf: string -> uint32)
      ensures Valid() && members == {} && fresh(store) && this.hashOf == hashOf
      ensures this.replicas == if replicas <= 0 then 100 else replicas
    {
      this.replicas := if replicas <= 0 then 100 else replicas;
      this.hashOf := hashOf;
      store, size, members := new RingPoint[0], 0, {};
    }

    /** Drops a node's points, sliding the others down over them. */
    method RemoveNode(node: string)
      requires Valid()
      modifies this, store
      ensures Valid() && members == old(members) - {node} && store == old(store)
      ensures Points() == Without(old(Points()), node)
    {
      hide Sorted, Holds, Without;
      ghost var ring := Points();
      WithoutSorted(ring, node);
      HoldsWithout(hashOf, replicas, members, ring, node);
      size := Compact(store, size, node);
      members := members - {node};
    }

    /** Appends a point, moving to a longer store when the old one is full. */
    method Append(point: RingPoint)
      requires size <= store.Length
      modifies this, store
      ensures size <= store.Length && Points() == old(Points()) + [point] && members == old(members)
      ensures store == old(store) || fresh(store)
    {
      if size == store.Length {
        var longer := new RingPoint[2 * size + 1](_ => point);
        for i := 0 to size
          invariant longer[..i] == store[..i]
          modifies longer
        {
          longer[i] := store[i];
        }
        store := longer;
      }
      store[size] := point;
      size := size + 1;
    }

    /** Adds a node's points, after dropping any it had, and sorts the ring again. */
    method AddNode(node: string)
      requires Valid()
      modifies this, store
      ensures Valid() && members == old(members) + {node} && (store == old(store) || fresh(store))
      ensures |Points()| == |Without(old(Points()), node)| + replicas
      ensures Joined(Without(old(Points()), node), PointsOf(hashOf, replicas, node), node, Points())
      ensures node !in old(members) ==> Joined(old(Points()), PointsOf(hashOf, replicas, node), node, Points())
    {
      hide Sorted, Holds, Without, Joined, PointsOf;
      WithoutAbsent(hashOf, replicas, members, Points(), node);
      RemoveNode(node);
      ghost var rest := Points();
      AppendPoints(node);
      assert |Points()| == |rest| + replicas;
      SortPoints(store, size);
      HoldsJoined(hashOf, replicas, members, rest, node, Points());
      members := members + {node};
    }

    method AppendPoints(node: string)
      requires size <= store.Length
      modifies this, store
      ensures size <= store.Length && members == old(members) && (store == old(store) || fresh(store))
      ensures Points() == old(Points()) + PointsOf(hashOf, replicas, node)
      ensures size == old(size) + replicas
    {
      ghost var rest, points := Points(), PointsOf(hashOf, replicas, node);
      for i := 0 to replicas
        invariant size <= store.Length && Points() == rest + points[..i] && members == old(members)
        invariant store == old(store) || fresh(store)
      {
        Append(RingPoint(hashOf(Label(node, i)), node));
      }
      assert points[..replicas] == points;
    }

    /** The owner of a key, found by binary search; an empty ring has none. */
    method GetNode(key: string) returns (node: string, ok: bool)
      requires Valid()
      ensures ok == (Points() != [])
      ensures node == if ok then Owner(Points(), hashOf(key)) else ""
      ensures ok ==> Nearest(Points(), hashOf(key), node)
    {
      if size == 0 {
        return "", false;
      }
      var hash := hashOf(key);
      var i := Search(store, size, hash);
      FirstAtUnique(Points(), hash, i);
      OwnerIsNearest(Points(), hash);
      return store[Around(i, size)].node, true;
    }
  }

  /** A place one past the end is the start again. */
  function Around(i: nat, n: nat): (r: nat)
    requires i <= n && n > 0
    ensures r == if i < n then i else 0
  {
    i % n
  }

  /** The first of n sorted points at or after a hash. */
  method Search(a: array<RingPoint>, n: nat, hash: uint32) returns (i: nat)
    requires n <= a.Length && Sorted(a[..n])
    ensures i <= n && (forall k | 0 <= k < i :: a[k].hash < hash) && (i < n ==> a[i].hash >= hash)
  {
    i := 0;
    var j: nat := n;
    while i < j
      invariant i <= j <= n
      invariant forall k | 0 <= k < i :: a[k].hash < hash
      invariant j < n ==> a[j].hash >= hash
    {
      var h: nat := (i + j) / 2;
      if a[h].hash >= hash {
        j := h;
      } else {
        SortedBelow(a[..n], h, hash);
        i := h + 1;
      }
    }
  }

  lemma SortedBelow(ring: Ring, h: nat, hash: uint32)
    requires Sorted(ring) && h < |ring| && ring[h].hash < hash
    ensures forall k | 0 <= k <= h :: ring[k].hash < hash
  {
  }

  /** Slides the points of other nodes down over those of one; gives how many are left. */
  method Compact(a: array<RingPoint>, n: nat, node: string) returns (kept: nat)
    requires n <= a.Length
    modifies a
    ensures kept <= n && a[..kept] == Without(old(a[..n]), node)
  {
    hide Without;
    ghost var ring := a[..n];
    kept := 0;
    WithoutNone(node);
    for i := 0 to n
      invariant kept <= i && a[..kept] == Without(ring[..i], node)
      invariant forall k | i <= k < n :: a[k] == ring[k]
    {
      var point := a[i];
      WithoutSnoc(ring, i, node);
      if point.node != node {
        a[kept] := point;
        kept := kept + 1;
      }
    }
    assert ring[..n] == ring;
  }

  lemma HoldsWithout(hashOf: string -> uint32, replicas: nat, members: set<string>, ring: Ring, node: string)
    requires Holds(hashOf, replicas, members, ring)
    ensures Holds(hashOf, replicas, members - {node}, Without(ring, node))
  {
    WithoutMembers(ring, node);
  }

  lemma HoldsJoined(hashOf: string -> uint32, replicas: nat, members: set<string>, rest: Ring, node: string,
                    after: Ring)
    requires Holds(hashOf, replicas, members, rest) && node !in members && Sorted(after)
    requires multiset(after) == multiset(rest + PointsOf(hashOf, replicas, node))
    ensures Holds(hashOf, replicas, members + {node}, after)
    ensures Joined(rest, PointsOf(hashOf, replicas, node), node, after)
  {
    var points := PointsOf(hashOf, replicas, node);
    assert forall p | p in points :: p.node == node;
    assert multiset(after) == multiset(rest) + multiset(points);
    forall p ensures multiset(after)[p] ==
        if p.node in members + {node} then multiset(PointsOf(hashOf, replicas, p.node))[p] else 0
    {
      if p.node != node {
        assert p !in points;
      }
    }
  }

  lemma WithoutSnoc(ring: Ring, i: nat, node: string)
    requires i < |ring|
    ensures Without(ring[..i + 1], node) == Without(ring[..i], node) + if ring[i].node == node then [] else [ring[i]]
  {
    assert ring[..i + 1] == ring[..i] + [ring[i]];
    WithoutConcat(ring[..i], [ring[i]], node);
    assert Without([ring[i]], node) == if ring[i].node == node then [] else [ring[i]];
  }

  lemma WithoutAbsent(hashOf: string -> uint32, replicas: nat, members: set<string>, ring: Ring, node: string)
    requires Holds(hashOf, replicas, members, ring)
    ensures node !in members ==> (forall p | p in ring :: p.node != node) && Without(ring, node) == ring
  {
    if node !in members {
      forall p | p in ring ensures p.node != node {
        assert multiset(ring)[p] > 0;
      }
      NothingDropped(ring, node);
    }
  }

  lemma {:induction false} NothingDropped(ring: Ring, node: string)
    requires forall p | p in ring :: p.node != node
    ensures Without(ring, node) == ring
  {
    if ring != [] {
      NothingDropped(ring[1..], node);
    }
  }

  /**
   Without ties the members alone decide the whole ring, and so every owner: the order in which nodes
   joined and left, and how the sort breaks its ties, play no part.
   */
  lemma SameMembersSameRing(r: ConsistentHashRing, s: ConsistentHashRing)
    requires r.Valid() && s.Valid() && r.hashOf == s.hashOf && r.replicas == s.replicas && r.members == s.members
    requires NoTies(r.Points())
    ensures r.Points() == s.Points()
  {
    assert multiset(r.Points()) == multiset(s.Points());
    SortedUnique(r.Points(), s.Points());
  }
}
