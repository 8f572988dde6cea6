/**
 The grow-only and up-down counters of 35-CRDT/main.go, and replicas that exchange snapshots of them
 over a network that delays, reorders and duplicates: each replica shows the net of what it has seen.
 */
module CRDTSpec {
  type Counts = map<string, nat>

  function At(m: Counts, node: string): nat {
    if node in m then m[node] else 0
  }

  function Max(a: nat, b: nat): nat {
    if a < b then b else a
  }

  /** The larger count of every node; a count of 0 is not worth an entry. */
  function Merged(a: Counts, b: Counts): Counts {
    map k | k in a.Keys + b.Keys && (k in a || b[k] > 0) :: Max(At(a, k), At(b, k))
  }

  function Bumped(m: Counts, node: string, amount: nat): Counts {
    m[node := At(m, node) + amount]
  }

  /** The sum of all counts. */
  ghost function Total(m: Counts): nat
    decreases |m|
  {
    if m == map[] then 0
    else
      var k :| k in m;
      m[k] + Total(m - {k})
  }

  /** Any count may be taken out first. */
  lemma {:induction false} TotalTakes(m: Counts, k: string)
    requires k in m
    ensures Total(m) == m[k] + Total(m - {k})
    decreases |m|
  {
    var j :| j in m && Total(m) == m[j] + Total(m - {j});
    if j != k {
      TotalTakes(m - {j}, k);
      TotalTakes(m - {k}, j);
      assert m - {j} - {k} == m - {k} - {j};
    }
  }

  /** The same for any node at all. */
  lemma TotalDrops(m: Counts, k: string)
    ensures Total(m) == At(m, k) + Total(m - {k})
    ensures |m - {k}| == if k in m then |m| - 1 else |m|
  {
    if k in m {
      TotalTakes(m, k);
      assert (m - {k}).Keys == m.Keys - {k};
    } else {
      assert m - {k} == m;
    }
  }

  lemma TotalBumped(m: Counts, node: string, amount: nat)
    ensures Total(Bumped(m, node, amount)) == Total(m) + amount
  {
    TotalDrops(m, node);
    TotalDrops(Bumped(m, node, amount), node);
    assert Bumped(m, node, amount) - {node} == m - {node};
  }

  /** Entries of 0 do not matter. */
  lemma {:induction false} TotalAgrees(a: Counts, b: Counts)
    requires forall k :: At(a, k) == At(b, k)
    ensures Total(a) == Total(b)
    decreases |a| + |b|
  {
    hide Total, At;
    if a.Keys + b.Keys == {} {
      assert a == map[] && b == map[];
    } else {
      var k :| k in a.Keys + b.Keys;
      assert At(a, k) == At(b, k);
      TotalDrops(a, k);
      TotalDrops(b, k);
      Agree(a, b, k);
      TotalAgrees(a - {k}, b - {k});
    }
  }

  lemma Agree(a: Counts, b: Counts, k: string)
    requires forall j :: At(a, j) == At(b, j)
    ensures forall j :: At(a - {k}, j) == At(b - {k}, j)
  {
    forall j ensures At(a - {k}, j) == At(b - {k}, j) {
      assert At(a, j) == At(b, j);
    }
  }

  // ---------- Replicas and their network ----------

  /** The state of an up-down counter. */
  datatype PN = PN(positive: Counts, negative: Counts)

  /** One update, by the replica whose slot it goes to. */
  datatype Update = Update(node: string, up: bool, amount: nat)

  /** A counter together with the numbers of the updates it has heard of. */
  datatype Replica = Replica(counter: PN, seen: set<nat>)

  /** Every snapshot ever sent can still arrive, any number of times. */
  datatype World = World(replicas: map<string, Replica>, network: set<Replica>, log: seq<Update>)

  datatype Event =
    | Change(node: string, up: bool, amount: nat)
    | Send(node: string)
    | Deliver(node: string, snapshot: Replica)

  function Start(): World {
    World(map[], {}, [])
  }

  function ReplicaOf(w: World, node: string): Replica {
    if node in w.replicas then w.replicas[node] else Replica(PN(map[], map[]), {})
  }

  function Changed(c: PN, node: string, up: bool, amount: nat): PN {
    if up then PN(Bumped(c.positive, node, amount), c.negative)
    else PN(c.positive, Bumped(c.negative, node, amount))
  }

  function MergedPN(c: PN, d: PN): PN {
    PN(Merged(c.positive, d.positive), Merged(c.negative, d.negative))
  }

  ghost function Value(c: PN): int {
    Total(c.positive) - Total(c.negative)
  }

  predicate Possible(w: World, e: Event) {
    e.Deliver? ==> e.snapshot in w.network
  }

  function Step(w: World, e: Event): World {
    var r := ReplicaOf(w, e.node);
    match e
    case Change(node, up, amount) =>
      World(w.replicas[node := Replica(Changed(r.counter, node, up, amount), r.seen + {|w.log|})],
            w.network, w.log + [Update(node, up, amount)])
    case Send(node) => World(w.replicas, w.network + {r}, w.log)
    case Deliver(node, s) =>
      World(w.replicas[node := Replica(MergedPN(r.counter, s.counter), r.seen + s.seen)], w.network, w.log)
  }

  function Run(w: World, events: seq<Event>): World
    decreases |events|
  {
    if events == [] then w else Run(Step(w, events[0]), events[1..])
  }

  predicate PossibleRun(w: World, events: seq<Event>)
    decreases |events|
  {
    events != [] ==> Possible(w, events[0]) && PossibleRun(Step(w, events[0]), events[1..])
  }

  // ---------- What a replica has seen ----------

  /** What the seen updates of one node add up to, in one direction. */
  function Slot(log: seq<Update>, seen: set<nat>, node: string, up: bool): nat {
    if log == [] then 0
    else
      var i := |log| - 1;
      Slot(log[..i], seen, node, up) + if i in seen && log[i].node == node && log[i].up == up then log[i].amount else 0
  }

  /** The net of all seen updates. */
  function Net(log: seq<Update>, seen: set<nat>): int {
    if log == [] then 0
    else
      var i := |log| - 1;
      Net(log[..i], seen) + if i in seen then Signed(log[i]) else 0
  }

  function Signed(u: Update): int {
    if u.up then u.amount else 0 - u.amount
  }

  /** The counter holds exactly the seen updates, and of each node the earliest ones. */
  ghost predicate Faithful(r: Replica, log: seq<Update>) {
    && (forall i | i in r.seen :: i < |log|)
    && Downward(r.seen, log)
    && (forall n :: At(r.counter.positive, n) == Slot(log, r.seen, n, true))
    && (forall n :: At(r.counter.negative, n) == Slot(log, r.seen, n, false))
  }

  /** Whoever has seen an update has seen the earlier ones of the same node. */
  ghost predicate Downward(seen: set<nat>, log: seq<Update>) {
    forall i: nat, j: nat | i < j < |log| && j in seen && log[i].node == log[j].node :: i in seen
  }

  /** A replica has seen its own updates. */
  ghost predicate KnowsOwn(r: Replica, node: string, log: seq<Update>) {
    forall i: nat | i < |log| && log[i].node == node :: i in r.seen
  }

  ghost predicate Inv(w: World) {
    && (forall n :: Faithful(ReplicaOf(w, n), w.log) && KnowsOwn(ReplicaOf(w, n), n, w.log))
    && (forall s | s in w.network :: Faithful(s, w.log))
  }

  /** Two histories of one node: one is an earlier part of the other. */
  lemma Comparable(a: set<nat>, b: set<nat>, log: seq<Update>, node: string)
    requires Downward(a, log) && Downward(b, log)
    ensures Covers(a, b, log, node) || Covers(b, a, log, node)
  {
    if !Covers(a, b, log, node) {
      var j: nat :| j < |log| && log[j].node == node && j in b && j !in a;
      forall i: nat | i < |log| && log[i].node == node && i in a ensures i in b {
      }
    }
  }

  /** Whatever of the node's updates b has seen, a has. */
  ghost predicate Covers(a: set<nat>, b: set<nat>, log: seq<Update>, node: string) {
    forall i: nat | i < |log| && log[i].node == node && i in b :: i in a
  }

  lemma {:induction false} SlotCovers(log: seq<Update>, a: set<nat>, b: set<nat>, node: string, up: bool)
    requires Covers(a, b, log, node)
    ensures Slot(log, b, node, up) <= Slot(log, a, node, up)
  {
    if log != [] {
      CoversFront(a, b, log, node);
      SlotCovers(log[..|log| - 1], a, b, node, up);
    }
  }

  lemma CoversFront(a: set<nat>, b: set<nat>, log: seq<Update>, node: string)
    requires Covers(a, b, log, node) && log != []
    ensures Covers(a, b, log[..|log| - 1], node)
  {
    var front := log[..|log| - 1];
    assert forall i: nat | i < |front| :: front[i] == log[i];
  }

  /** The larger of two counts is the count of everything either has seen. */
  lemma SlotUnion(log: seq<Update>, a: set<nat>, b: set<nat>, node: string, up: bool)
    requires Downward(a, log) && Downward(b, log)
    ensures Slot(log, a + b, node, up) == Max(Slot(log, a, node, up), Slot(log, b, node, up))
  {
    Comparable(a, b, log, node);
    SlotCovers(log, a + b, a, node, up);
    SlotCovers(log, a + b, b, node, up);
    if Covers(a, b, log, node) {
      SlotCovers(log, a, a + b, node, up);
      SlotCovers(log, a, b, node, up);
    } else {
      SlotCovers(log, b, a + b, node, up);
      SlotCovers(log, b, a, node, up);
    }
  }

  /** One more update in the log. */
  lemma SlotSnoc(log: seq<Update>, u: Update, seen: set<nat>, node: string, up: bool)
    ensures Slot(log + [u], seen, node, up) ==
      Slot(log, seen, node, up) + if |log| in seen && u.node == node && u.up == up then u.amount else 0
  {
    assert (log + [u])[..|log|] == log;
  }

  lemma SlotSelf(log: seq<Update>, seen: set<nat>, node: string, up: bool)
    ensures Slot(log, seen + {|log|}, node, up) == Slot(log, seen, node, up)
  {
    SlotCovers(log, seen, seen + {|log|}, node, up);
    SlotCovers(log, seen + {|log|}, seen, node, up);
  }

  // ---------- What every step keeps ----------

  /** Those who have not heard of the new update are as faithful as before. */
  lemma FaithfulOthers(r: Replica, log: seq<Update>, u: Update)
    requires Faithful(r, log)
    ensures Faithful(r, log + [u])
  {
    assert |log| !in r.seen;
    forall n, up: bool ensures Slot(log + [u], r.seen, n, up) == Slot(log, r.seen, n, up) {
      SlotSnoc(log, u, r.seen, n, up);
    }
    assert forall i: nat | i < |log| :: (log + [u])[i] == log[i];
  }

  lemma AtBumped(m: Counts, node: string, amount: nat, n: string)
    ensures At(Bumped(m, node, amount), n) == At(m, n) + if n == node then amount else 0
  {
  }

  /** The replica that makes the update. */
  lemma FaithfulChanged(r: Replica, log: seq<Update>, u: Update)
    requires Faithful(r, log) && KnowsOwn(r, u.node, log)
    ensures var after := Replica(Changed(r.counter, u.node, u.up, u.amount), r.seen + {|log|});
      Faithful(after, log + [u]) && KnowsOwn(after, u.node, log + [u])
  {
    hide Slot, Max;
    var seen := r.seen + {|log|};
    assert |log| !in r.seen;
    forall n, up: bool
      ensures Slot(log + [u], seen, n, up)
        == Slot(log, r.seen, n, up) + if n == u.node && up == u.up then u.amount else 0
    {
      SlotSnoc(log, u, seen, n, up);
      SlotSelf(log, r.seen, n, up);
    }
    assert forall i: nat | i < |log| :: (log + [u])[i] == log[i];
  }

  lemma AtMerged(a: Counts, b: Counts, n: string)
    ensures At(Merged(a, b), n) == Max(At(a, n), At(b, n))
  {
  }

  /** Merging is commutative, associative and idempotent, up to slots that hold 0. */
  lemma MergeLaws(a: Counts, b: Counts, c: Counts)
    ensures Merged(a, a) == a
    ensures SameSlots(Merged(a, b), Merged(b, a))
    ensures SameSlots(Merged(Merged(a, b), c), Merged(a, Merged(b, c)))
    ensures Total(Merged(a, b)) == Total(Merged(b, a))
    ensures Total(Merged(Merged(a, b), c)) == Total(Merged(a, Merged(b, c)))
  {
    assert Merged(a, a) == a;
    MergeCommutes(a, b);
    MergeAssociates(a, b, c);
    TotalAgrees(Merged(a, b), Merged(b, a));
    TotalAgrees(Merged(Merged(a, b), c), Merged(a, Merged(b, c)));
  }

  /** The counters count the same for every node. */
  ghost predicate SameSlots(a: Counts, b: Counts) {
    forall n :: At(a, n) == At(b, n)
  }

  lemma MergeCommutes(a: Counts, b: Counts)
    ensures SameSlots(Merged(a, b), Merged(b, a))
  {
    hide Merged;
    forall n ensures At(Merged(a, b), n) == At(Merged(b, a), n) {
      AtMerged(a, b, n);
      AtMerged(b, a, n);
    }
  }

  lemma MergeAssociates(a: Counts, b: Counts, c: Counts)
    ensures SameSlots(Merged(Merged(a, b), c), Merged(a, Merged(b, c)))
  {
    hide Merged;
    var left, right := Merged(Merged(a, b), c), Merged(a, Merged(b, c));
    forall n ensures At(left, n) == At(right, n) {
      AtMerged(Merged(a, b), c, n);
      AtMerged(a, Merged(b, c), n);
      AtMerged(a, b, n);
      AtMerged(b, c, n);
    }
  }

  /** The replica that merges a snapshot. */
  lemma FaithfulMerged(r: Replica, s: Replica, log: seq<Update>)
    requires Faithful(r, log) && Faithful(s, log)
    ensures Faithful(Replica(MergedPN(r.counter, s.counter), r.seen + s.seen), log)
  {
    forall n ensures
        && Slot(log, r.seen + s.seen, n, true) == At(Merged(r.counter.positive, s.counter.positive), n)
        && Slot(log, r.seen + s.seen, n, false) == At(Merged(r.counter.negative, s.counter.negative), n)
    {
      SlotUnion(log, r.seen, s.seen, n, true);
      SlotUnion(log, r.seen, s.seen, n, false);
      AtMerged(r.counter.positive, s.counter.positive, n);
      AtMerged(r.counter.negative, s.counter.negative, n);
    }
  }

  lemma StepInv(w: World, e: Event)
    requires Inv(w) && Possible(w, e)
    ensures Inv(Step(w, e))
  {
    hide Faithful, Changed, MergedPN;
    var r, after := ReplicaOf(w, e.node), Step(w, e);
    match e
    case Change(node, up, amount) =>
      var u := Update(node, up, amount);
      FaithfulChanged(r, w.log, u);
      forall n | n != node
        ensures Faithful(ReplicaOf(after, n), after.log) && KnowsOwn(ReplicaOf(after, n), n, after.log)
      {
        FaithfulOthers(ReplicaOf(w, n), w.log, u);
      }
      forall s | s in w.network ensures Faithful(s, after.log) {
        FaithfulOthers(s, w.log, u);
      }
    case Send(node) =>
      assert forall n :: ReplicaOf(after, n) == ReplicaOf(w, n);
    case Deliver(node, s) =>
      FaithfulMerged(r, s, w.log);
      assert forall n | n != node :: ReplicaOf(after, n) == ReplicaOf(w, n);
  }

  lemma {:induction false} RunInv(w: World, events: seq<Event>)
    requires Inv(w) && PossibleRun(w, events)
    ensures Inv(Run(w, events))
    decreases |events|
  {
    if events != [] {
      StepInv(w, events[0]);
      RunInv(Step(w, events[0]), events[1..]);
    }
  }

  lemma StartInv()
    ensures Inv(Start())
  {
  }

  // ---------- Values ----------

  /** A counter that holds exactly the seen updates. */
  function Slots(log: seq<Update>, seen: set<nat>, up: bool): Counts {
    if log == [] then map[]
    else
      var i := |log| - 1;
      var m := Slots(log[..i], seen, up);
      if i in seen && log[i].up == up then Bumped(m, log[i].node, log[i].amount) else m
  }

  lemma {:induction false} SlotsAt(log: seq<Update>, seen: set<nat>, up: bool, node: string)
    ensures At(Slots(log, seen, up), node) == Slot(log, seen, node, up)
  {
    if log != [] {
      var i := |log| - 1;
      SlotsAt(log[..i], seen, up, node);
      AtBumped(Slots(log[..i], seen, up), log[i].node, log[i].amount, node);
    }
  }

  lemma {:induction false} NetIsTotals(log: seq<Update>, seen: set<nat>)
    ensures Total(Slots(log, seen, true)) - Total(Slots(log, seen, false)) == Net(log, seen)
  {
    if log != [] {
      var i := |log| - 1;
      NetIsTotals(log[..i], seen);
      TotalBumped(Slots(log[..i], seen, log[i].up), log[i].node, log[i].amount);
    }
  }

  /** A replica's value is the net of exactly the updates it has seen. */
  lemma ValueIsNetSeen(events: seq<Event>, node: string)
    requires PossibleRun(Start(), events)
    ensures var w := Run(Start(), events);
      var r := ReplicaOf(w, node);
      Value(r.counter) == Net(w.log, r.seen)
  {
    StartInv();
    RunInv(Start(), events);
    var w := Run(Start(), events);
    FaithfulValue(ReplicaOf(w, node), w.log);
  }

  lemma FaithfulValue(r: Replica, log: seq<Update>)
    requires Faithful(r, log)
    ensures Value(r.counter) == Net(log, r.seen)
  {
    forall n ensures
        && At(r.counter.positive, n) == At(Slots(log, r.seen, true), n)
        && At(r.counter.negative, n) == At(Slots(log, r.seen, false), n)
    {
      SlotsAt(log, r.seen, true, n);
      SlotsAt(log, r.seen, false, n);
    }
    TotalAgrees(r.counter.positive, Slots(log, r.seen, true));
    TotalAgrees(r.counter.negative, Slots(log, r.seen, false));
    NetIsTotals(log, r.seen);
  }

  /** Replicas that have seen the same updates agree slot by slot, however the snapshots travelled. */
  lemma Convergence(events: seq<Event>, a: string, b: string, node: string)
    requires PossibleRun(Start(), events)
    requires var w := Run(Start(), events); ReplicaOf(w, a).seen == ReplicaOf(w, b).seen
    ensures var w := Run(Start(), events);
      var c, d := ReplicaOf(w, a).counter, ReplicaOf(w, b).counter;
      && At(c.positive, node) == At(d.positive, node) && At(c.negative, node) == At(d.negative, node)
      && Value(c) == Value(d)
  {
    StartInv();
    RunInv(Start(), events);
    ValueIsNetSeen(events, a);
    ValueIsNetSeen(events, b);
  }
}

/** The counter objects. */
module CRDTs {
  import opened CRDTSpec

  class GCounter {
    var counts: Counts

    constructor ()
      ensures counts == map[]
    {
      counts := map[];
    }

    /** Adds to the node's slot; a negative amount is refused, which ends the original program. */
    method Increment(node: string, amount: int) returns (ok: bool)
      modifies this
      ensures ok == (amount >= 0)
      ensures counts == if amount >= 0 then Bumped(old(counts), node, amount) else old(counts)
    {
      if amount < 0 {
        return false;
      }
      counts := counts[node := (if node in counts then counts[node] else 0) + amount];
      return true;
    }

    /** Raises every slot to the other counter's, if that is larger. */
    method Merge(other: GCounter)
      modifies this
      ensures counts == Merged(old(counts), old(other.counts))
    {
      ghost var mine := counts;
      var theirs := other.counts;
      var todo := theirs.Keys;
      while todo != {}
        invariant todo <= theirs.Keys
        invariant counts == Merged(mine, theirs - todo)
      {
        var node :| node in todo;
        MergedStep(mine, theirs, todo, node);
        if theirs[node] > (if node in counts then counts[node] else 0) {
          counts := counts[node := theirs[node]];
        }
        todo := todo - {node};
      }
      assert theirs - {} == theirs;
    }

    /** The sum of all slots. */
    method Value() returns (total: int)
      ensures total == Total(counts)
    {
      total := 0;
      var todo := counts.Keys;
      while todo != {}
        invariant todo <= counts.Keys
        invariant total == Total(counts - todo)
      {
        var node :| node in todo;
        TotalTakes(counts - (todo - {node}), node);
        assert counts - (todo - {node}) - {node} == counts - todo;
        total := total + counts[node];
        todo := todo - {node};
      }
      assert counts - {} == counts;
    }
  }

  /** One more of the other counter's slots is taken over. */
  lemma MergedStep(mine: Counts, theirs: Counts, todo: set<string>, node: string)
    requires todo <= theirs.Keys && node in todo
    ensures var before, after := Merged(mine, theirs - todo), Merged(mine, theirs - (todo - {node}));
      after == if theirs[node] > At(before, node) then before[node := theirs[node]] else before
  {
  }

  class PNCounter {
    const positive: GCounter
    const negative: GCounter

    ghost predicate Valid() {
      positive != negative
    }

    ghost function State(): PN
      reads positive, negative
    {
      PN(positive.counts, negative.counts)
    }

    constructor ()
      ensures Valid() && State() == PN(map[], map[]) && fresh(positive) && fresh(negative)
    {
      positive := new GCounter();
      negative := new GCounter();
    }

    method Increment(node: string, amount: int) returns (ok: bool)
      requires Valid()
      modifies positive
      ensures ok == (amount >= 0)
      ensures State() == if amount >= 0 then Changed(old(State()), node, true, amount) else old(State())
    {
      ok := positive.Increment(node, amount);
    }

    method Decrement(node: string, amount: int) returns (ok: bool)
      requires Valid()
      modifies negative
      ensures ok == (amount >= 0)
      ensures State() == if amount >= 0 then Changed(old(State()), node, false, amount) else old(State())
    {
      ok := negative.Increment(node, amount);
    }

    /** Merging a counter with itself is allowed, and changes nothing that counts. */
    method Merge(other: PNCounter)
      requires Valid() && other.Valid() && other.negative != positive
      modifies positive, negative
      ensures State() == MergedPN(old(State()), old(other.State()))
    {
      positive.Merge(other.positive);
      negative.Merge(other.negative);
    }

    method Value() returns (value: int)
      ensures value == CRDTSpec.Value(State())
    {
      var up := positive.Value();
      var down := negative.Value();
      return up - down;
    }
  }
}
