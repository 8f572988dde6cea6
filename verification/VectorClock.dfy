/**
 Vector clocks (34-Vector-Clocks/main.go): the class with its three operations, executions of nodes
 that tick before every event and merge before every receipt, and the theorem that comparing two
 clocks decides causality between their events.
 */
module VectorClocks {

  type Node = string
  /** Entries start at 0 and only grow, so no clock ever holds a negative one. */
  type Clock = map<Node, nat>

  datatype Relation = Before | After | Concurrent | Equal

  /** A missing entry reads as 0. */
  function Count(c: Clock, node: Node): nat {
    if node in c then c[node] else 0
  }

  function Ticked(c: Clock, node: Node): Clock {
    c[node := Count(c, node) + 1]
  }

  ghost predicate AtMost(a: Clock, b: Clock) {
    forall n :: Count(a, n) <= Count(b, n)
  }

  /** Both clocks are at most `m`, and `m` is at most every clock they both are at most. */
  ghost predicate IsLeastAbove(m: Clock, a: Clock, b: Clock) {
    AtMost(a, m) && AtMost(b, m) && forall c: Clock | AtMost(a, c) && AtMost(b, c) :: AtMost(m, c)
  }

  /** Entries of `b` above the ones of `a` replace them; nothing else changes. */
  function Merged(a: Clock, b: Clock): (m: Clock)
    ensures IsLeastAbove(m, a, b)
  {
    map n | n in a.Keys + b.Keys && (n in a || b[n] > 0) ::
      if n in b && b[n] > Count(a, n) then b[n] else a[n]
  }

  ghost function Comparison(a: Clock, b: Clock): Relation {
    if AtMost(a, b) && AtMost(b, a) then Equal
    else if AtMost(a, b) then Before
    else if AtMost(b, a) then After
    else Concurrent
  }

  lemma MergeNothing(a: Clock)
    ensures Merged(a, map[]) == a
  {
  }

  /** Merging one entry more. */
  lemma MergeStep(a: Clock, b: Clock, rest: set<Node>, node: Node)
    requires node in rest && rest <= b.Keys
    ensures var m := Merged(a, b - rest);
            Merged(a, b - (rest - {node})) == if b[node] > Count(m, node) then m[node := b[node]] else m
  {
    hide IsLeastAbove;
    var m, m' := Merged(a, b - rest), Merged(a, b - (rest - {node}));
    assert m'.Keys == m.Keys + if b[node] > Count(m, node) then {node} else {};
  }

  class VectorClock {
    var clock: Clock

    constructor ()
      ensures clock == map[]
    {
      clock := map[];
    }

    method Tick(node: Node)
      modifies this
      ensures clock == Ticked(old(clock), node)
    {
      clock := clock[node := Count(clock, node) + 1];
    }

    /** Takes over every larger entry of `other`, which may be this clock itself. */
    method Merge(other: VectorClock)
      modifies this
      ensures clock == Merged(old(clock), old(other.clock))
    {
      hide Merged;
      var entries := other.clock;
      assert entries - entries.Keys == map[];
      MergeNothing(clock);
      ghost var mine := clock;
      var rest := entries.Keys;
      while rest != {}
        invariant rest <= entries.Keys
        invariant clock == Merged(mine, entries - rest)
        decreases rest
      {
        var node :| node in rest;
        var value := entries[node];
        MergeStep(mine, entries, rest, node);
        if value > Count(clock, node) {
          clock := clock[node := value];
        }
        rest := rest - {node};
      }
      assert entries - {} == entries;
    }

    /** How this clock relates to `other`, over the entries of either. */
    method Compare(other: VectorClock) returns (result: Relation)
      ensures result == Comparison(clock, other.clock)
    {
      var less, greater := false, false;
      var seen := clock.Keys + other.clock.Keys;
      var rest := seen;
      while rest != {}
        invariant rest <= seen
        invariant less <==> exists n :: n in seen - rest && Count(clock, n) < Count(other.clock, n)
        invariant greater <==> exists n :: n in seen - rest && Count(clock, n) > Count(other.clock, n)
        decreases rest
      {
        var node :| node in rest;
        var a, b := Count(clock, node), Count(other.clock, node);
        if a < b {
          less := true;
        }
        if a > b {
          greater := true;
        }
        rest := rest - {node};
      }
      result := Equal;
      if less && greater {
        result := Concurrent;
      } else if less {
        result := Before;
      } else if greater {
        result := After;
      }
    }
  }

  // ---------- Executions ----------

  /** An event on a node; a receipt names the send event whose message it takes. */
  datatype Event = Local(node: Node) | Send(node: Node) | Receive(node: Node, message: nat)

  /** Messages are received after they are sent, any number of times and in any order. */
  ghost predicate Execution(es: seq<Event>) {
    forall i | 0 <= i < |es| && es[i].Receive? :: es[i].message < i && es[es[i].message].Send?
  }

  /** The last event before `i` on `node`, or -1. */
  ghost function Last(es: seq<Event>, node: Node, i: nat): (k: int)
    requires i <= |es|
    ensures -1 <= k < i
    ensures k >= 0 ==> es[k].node == node
    ensures forall l | k < l < i :: es[l].node != node
  {
    if i == 0 then -1
    else if es[i - 1].node == node then i - 1
    else Last(es, node, i - 1)
  }

  /** What the node's clock shows once its last event before `i` is over. */
  ghost function ClockBefore(es: seq<Event>, node: Node, i: nat): Clock
    requires Execution(es) && i <= |es|
    decreases i, 0
  {
    var k := Last(es, node, i);
    if k < 0 then map[] else ClockOf(es, k)
  }

  /** The clock of event `i`: a receipt merges the message's clock first; every event ticks. */
  ghost function ClockOf(es: seq<Event>, i: nat): Clock
    requires Execution(es) && i < |es|
    decreases i, 1
  {
    var own := ClockBefore(es, es[i].node, i);
    Ticked(if es[i].Receive? then Merged(own, ClockOf(es, es[i].message)) else own, es[i].node)
  }

  /** `k` happens on the same node before `j`, or is the send `j` receives. */
  ghost predicate Direct(es: seq<Event>, k: nat, j: nat)
    requires j < |es|
  {
    k < j && (es[k].node == es[j].node || (es[j].Receive? && es[j].message == k))
  }

  /** Causal precedence: the transitive closure of `Direct`. */
  ghost predicate Precedes(es: seq<Event>, i: nat, j: nat)
    requires j < |es|
    decreases j
  {
    exists k | 0 <= k < j :: Direct(es, k, j) && (i == k || Precedes(es, i, k))
  }

  /** How many events of `node` lie at or before `i`. */
  ghost function Rank(es: seq<Event>, node: Node, i: nat): nat
    requires i <= |es|
  {
    if i == 0 then 0 else Rank(es, node, i - 1) + if es[i - 1].node == node then 1 else 0
  }

  lemma {:induction false} RankMonotone(es: seq<Event>, node: Node, i: nat, j: nat)
    requires i <= j <= |es|
    ensures Rank(es, node, i) <= Rank(es, node, j)
    ensures (exists l :: i <= l < j && es[l].node == node) ==> Rank(es, node, i) < Rank(es, node, j)
    ensures (forall l | i <= l < j :: es[l].node != node) ==> Rank(es, node, i) == Rank(es, node, j)
    decreases j
  {
    if i < j {
      RankMonotone(es, node, i, j - 1);
      if es[j - 1].node != node && exists l :: i <= l < j && es[l].node == node {
        assert exists l :: i <= l < j - 1 && es[l].node == node;
      }
    }
  }

  /** A clock never counts more events of a node than have happened, and counts its own node exactly. */
  lemma {:induction false} CountsRank(es: seq<Event>, j: nat, node: Node)
    requires Execution(es) && j < |es|
    ensures Count(ClockOf(es, j), node) <= Rank(es, node, j + 1)
    ensures node == es[j].node ==> Count(ClockOf(es, j), node) == Rank(es, node, j + 1)
    decreases j
  {
    BeforeCountsRank(es, j, node);
    if es[j].Receive? {
      CountsRank(es, es[j].message, node);
      RankMonotone(es, node, es[j].message + 1, j);
    }
  }

  lemma {:induction false} BeforeCountsRank(es: seq<Event>, j: nat, node: Node)
    requires Execution(es) && j < |es|
    ensures var own := ClockBefore(es, es[j].node, j);
            && Count(own, node) <= Rank(es, node, j)
            && (node == es[j].node ==> Count(own, node) == Rank(es, node, j))
    decreases j, 0
  {
    var k := Last(es, es[j].node, j);
    if k >= 0 {
      CountsRank(es, k, node);
      RankMonotone(es, node, k + 1, j);
    } else {
      RankMonotone(es, node, 0, j);
    }
  }

  /** Clocks only grow along a node's events and along messages. */
  lemma {:induction false} DirectGrows(es: seq<Event>, k: nat, j: nat)
    requires Execution(es) && j < |es| && Direct(es, k, j)
    ensures AtMost(ClockOf(es, k), ClockOf(es, j))
    decreases j
  {
    var own := ClockBefore(es, es[j].node, j);
    assert AtMost(own, ClockOf(es, j));
    if es[k].node == es[j].node {
      var l := Last(es, es[j].node, j);
      assert k <= l;
      if k < l { DirectGrows(es, k, l); }
    } else {
      var merged := Merged(own, ClockOf(es, k));
      assert AtMost(ClockOf(es, k), merged);
      assert AtMost(merged, Ticked(merged, es[j].node));
    }
  }

  lemma {:induction false} PrecedesGrows(es: seq<Event>, i: nat, j: nat)
    requires Execution(es) && j < |es| && Precedes(es, i, j)
    ensures i < j && AtMost(ClockOf(es, i), ClockOf(es, j))
    decreases j
  {
    var k :| 0 <= k < j && Direct(es, k, j) && (i == k || Precedes(es, i, k));
    DirectGrows(es, k, j);
    if i != k { PrecedesGrows(es, i, k); }
  }

  /** A clock that counts up to event `i` on `i`'s node belongs to `i` or to an event caused by it. */
  lemma {:induction false} CountedIsCause(es: seq<Event>, i: nat, j: nat)
    requires Execution(es) && i < |es| && j < |es|
    requires Count(ClockOf(es, j), es[i].node) >= Rank(es, es[i].node, i + 1)
    ensures i == j || Precedes(es, i, j)
    decreases j
  {
    var node := es[i].node;
    RankMonotone(es, node, 0, i);
    if es[j].node == node {
      CountsRank(es, j, node);
      if j < i { RankMonotone(es, node, j + 1, i + 1); }
      assert i < j ==> Direct(es, i, j);
    } else {
      var own, k := ClockBefore(es, es[j].node, j), Last(es, es[j].node, j);
      if k >= 0 && Count(own, node) >= Rank(es, node, i + 1) {
        CountedIsCause(es, i, k);
        assert Direct(es, k, j);
      } else {
        var m := es[j].message;
        CountedIsCause(es, i, m);
        assert Direct(es, m, j);
      }
    }
  }

  /** An event that is not `j` and not caused by `j` has not counted `j`. */
  lemma NotCounted(es: seq<Event>, i: nat, j: nat)
    requires Execution(es) && i < |es| && j < |es| && i != j && !Precedes(es, j, i)
    ensures !AtMost(ClockOf(es, j), ClockOf(es, i))
  {
    CountsRank(es, j, es[j].node);
    if AtMost(ClockOf(es, j), ClockOf(es, i)) { CountedIsCause(es, j, i); }
  }

  /** Comparing the clocks of two events decides their causal relation, in both directions. */
  lemma CompareDecidesCausality(es: seq<Event>, i: nat, j: nat)
    requires Execution(es) && i < |es| && j < |es|
    ensures Comparison(ClockOf(es, i), ClockOf(es, j))
         == if i == j then Equal
            else if Precedes(es, i, j) then Before
            else if Precedes(es, j, i) then After
            else Concurrent
  {
    if i != j {
      if Precedes(es, i, j) {
        PrecedesGrows(es, i, j);
        if Precedes(es, j, i) { PrecedesGrows(es, j, i); }
        NotCounted(es, i, j);
      } else {
        NotCounted(es, j, i);
        if Precedes(es, j, i) { PrecedesGrows(es, j, i); } else { NotCounted(es, i, j); }
      }
    }
  }

  /** Causal precedence is transitive, so it is the closure of `Direct` and nothing smaller. */
  lemma {:induction false} PrecedesTransitive(es: seq<Event>, i: nat, j: nat, k: nat)
    requires k < |es| && j < k && Precedes(es, i, j) && Precedes(es, j, k)
    ensures Precedes(es, i, k)
    decreases k
  {
    var l :| 0 <= l < k && Direct(es, l, k) && (j == l || Precedes(es, j, l));
    if j != l {
      PrecedesBelow(es, j, l);
      PrecedesTransitive(es, i, j, l);
    }
  }

  lemma {:induction false} PrecedesBelow(es: seq<Event>, i: nat, j: nat)
    requires j < |es| && Precedes(es, i, j)
    ensures i < j
    decreases j
  {
    var k :| 0 <= k < j && Direct(es, k, j) && (i == k || Precedes(es, i, k));
    if i != k { PrecedesBelow(es, i, k); }
  }

  /** [1,0,0] against [1,1,0], which the documentation's table lists as concurrent, is "before". */
  lemma DocumentedPair(a: Node, b: Node, c: Node)
    requires a != b && b != c && a != c
    ensures Comparison(map[a := 1, b := 0, c := 0], map[a := 1, b := 1, c := 0]) == Before
  {
    var x, y: Clock := map[a := 1, b := 0, c := 0], map[a := 1, b := 1, c := 0];
    assert Count(x, b) < Count(y, b);
  }
}
