/**
 The graph database of 28-Graph-Database/main.go: building the graph, and breadth-first search for a
 path no other path beats in length, whatever order a node's neighbours are visited in.
 */
module Graphs {
  import opened Options

  type Node = string
  type Path = seq<Node>

  /** A property map, or the nil map a caller may pass. */
  datatype Properties = NilMap | Props(entries: map<string, string>)

  /** The neighbours of each node that has an adjacency set. */
  type Edges = map<Node, set<Node>>

  function Neighbours(e: Edges, v: Node): set<Node> {
    if v in e then e[v] else {}
  }

  // ---------- Paths ----------

  ghost predicate IsWalk(e: Edges, p: Path) {
    p != [] && forall i | 0 < i < |p| :: p[i] in Neighbours(e, p[i - 1])
  }

  ghost predicate IsPath(e: Edges, p: Path, s: Node, t: Node) {
    IsWalk(e, p) && p[0] == s && p[|p| - 1] == t
  }

  function Last(p: Path): Node
    requires p != []
  {
    p[|p| - 1]
  }

  /** No path between its endpoints beats `p` in length. */
  ghost predicate IsShortest(e: Edges, p: Path) {
    p != [] && forall q | IsPath(e, q, p[0], Last(p)) :: |p| <= |q|
  }

  lemma Extended(e: Edges, p: Path, s: Node, w: Node)
    requires p != [] && IsPath(e, p, s, Last(p)) && w in Neighbours(e, Last(p))
    ensures IsPath(e, p + [w], s, w)
  {
  }

  lemma Shortened(e: Edges, q: Path, s: Node, w: Node)
    requires IsPath(e, q, s, w) && |q| > 1
    ensures var q' := q[..|q| - 1]; IsPath(e, q', s, Last(q')) && w in Neighbours(e, Last(q'))
  {
  }

  // ---------- The invariant of the search ----------

  /** The queued paths start at `s`, grow in length by one at most, and end at different seen nodes. */
  ghost predicate Queued(e: Edges, s: Node, queue: seq<Path>) {
    && (forall i | 0 <= i < |queue| :: queue[i] != [] && IsPath(e, queue[i], s, Last(queue[i])))
    && (forall i, j | 0 <= i < j < |queue| :: |queue[i]| <= |queue[j]| <= |queue[0]| + 1)
    && (forall i | 0 <= i < |queue| :: IsShortest(e, queue[i]))
  }

  /** Every seen node is done, with all its neighbours seen, or waits at the end of a queued path. */
  ghost predicate Covered(e: Edges, queue: seq<Path>, seen: set<Node>, done: set<Node>)
    requires forall i | 0 <= i < |queue| :: queue[i] != []
  {
    && done <= seen
    && (forall v | v in done :: Neighbours(e, v) <= seen)
    && (forall v | v in seen && v !in done :: Waits(queue, v))
  }

  ghost predicate Waits(queue: seq<Path>, v: Node)
    requires forall i | 0 <= i < |queue| :: queue[i] != []
  {
    exists i :: 0 <= i < |queue| && Last(queue[i]) == v
  }

  /** Nodes not seen yet are more than `d` nodes away. */
  ghost predicate Beyond(e: Edges, s: Node, seen: set<Node>, d: nat) {
    forall q | q != [] && IsPath(e, q, s, Last(q)) && Last(q) !in seen :: |q| > d
  }

  ghost predicate Inv(e: Edges, s: Node, queue: seq<Path>, seen: set<Node>, done: set<Node>) {
    && Queued(e, s, queue) && s in seen
    && Covered(e, queue, seen, done)
    && (queue != [] ==> Beyond(e, s, seen, |queue[0]|))
  }

  /** The paths appended while one node is expanded: one per neighbour not seen before. */
  ghost predicate Fresh(p: Path, news: seq<Path>, found: set<Node>)
    requires p != []
  {
    && (forall i | 0 <= i < |news| :: news[i] != [] && news[i] == p + [Last(news[i])] && Last(news[i]) in found)
    && (forall w | w in found :: Brings(p, news, w))
  }

  /** The path through `p` to `w` is among the new ones. */
  ghost predicate Brings(p: Path, news: seq<Path>, w: Node) {
    p + [w] in news
  }

  /** Expanding the first queued path keeps the invariant. */
  lemma ExpandKeeps(e: Edges, s: Node, queue: seq<Path>, seen: set<Node>, done: set<Node>, news: seq<Path>)
    requires Inv(e, s, queue, seen, done) && queue != []
    requires var v := Last(queue[0]); Fresh(queue[0], news, Neighbours(e, v) - seen)
    ensures var v := Last(queue[0]);
            Inv(e, s, queue[1..] + news, seen + Neighbours(e, v), done + {v})
  {
    var p := queue[0];
    var v := Last(p);
    var queue', seen', done' := queue[1..] + news, seen + Neighbours(e, v), done + {v};
    NewsQueued(e, s, queue, seen, done, news);
    CoveredAfter(e, s, queue, seen, done, news);
    if queue' != [] {
      BeyondAfter(e, s, queue', seen, seen', done', |p|);
    }
  }

  lemma NewsQueued(e: Edges, s: Node, queue: seq<Path>, seen: set<Node>, done: set<Node>, news: seq<Path>)
    requires Inv(e, s, queue, seen, done) && queue != []
    requires var v := Last(queue[0]); Fresh(queue[0], news, Neighbours(e, v) - seen)
    ensures Queued(e, s, queue[1..] + news)
  {
    hide IsPath, IsShortest, Beyond, Covered;
    var p := queue[0];
    var queue' := queue[1..] + news;
    forall i | 0 <= i < |news|
      ensures IsPath(e, news[i], s, Last(news[i])) && IsShortest(e, news[i]) && |news[i]| == |p| + 1
    {
      NewPath(e, s, queue, seen, done, Last(news[i]));
    }
    assert forall i | 0 <= i < |queue| - 1 :: queue'[i] == queue[i + 1];
    assert forall i | |queue| - 1 <= i < |queue'| :: queue'[i] == news[i - (|queue| - 1)];
  }

  /** The path to a neighbour seen for the first time is a shortest one. */
  lemma NewPath(e: Edges, s: Node, queue: seq<Path>, seen: set<Node>, done: set<Node>, w: Node)
    requires Inv(e, s, queue, seen, done) && queue != []
    requires w in Neighbours(e, Last(queue[0])) - seen
    ensures IsPath(e, queue[0] + [w], s, w) && IsShortest(e, queue[0] + [w])
  {
    hide Covered;
    Extended(e, queue[0], s, w);
  }

  lemma CoveredAfter(e: Edges, s: Node, queue: seq<Path>, seen: set<Node>, done: set<Node>, news: seq<Path>)
    requires Inv(e, s, queue, seen, done) && queue != []
    requires var v := Last(queue[0]); Fresh(queue[0], news, Neighbours(e, v) - seen)
    ensures forall i | 0 <= i < |queue[1..] + news| :: (queue[1..] + news)[i] != []
    ensures var v := Last(queue[0]);
            Covered(e, queue[1..] + news, seen + Neighbours(e, v), done + {v})
  {
    hide IsPath, IsShortest, Beyond, Waits;
    var v, queue' := Last(queue[0]), queue[1..] + news;
    HeadSeen(e, s, queue, seen, done);
    NoEmptyPaths(queue, news);
    hide Queued, Fresh;
    forall u | u in seen + Neighbours(e, v) && u !in done + {v} ensures Waits(queue', u) {
      if u in seen {
        WaitsStill(queue, news, u);
      } else {
        WaitsNew(queue, news, Neighbours(e, v) - seen, u);
      }
    }
  }

  /** The node about to be expanded has been seen. */
  lemma HeadSeen(e: Edges, s: Node, queue: seq<Path>, seen: set<Node>, done: set<Node>)
    requires Inv(e, s, queue, seen, done) && queue != []
    ensures queue[0] != [] && Last(queue[0]) in seen
  {
  }

  lemma NoEmptyPaths(queue: seq<Path>, news: seq<Path>)
    requires queue != [] && forall i | 0 <= i < |queue| :: queue[i] != []
    requires forall i | 0 <= i < |news| :: news[i] != []
    ensures forall i | 0 <= i < |queue[1..] + news| :: (queue[1..] + news)[i] != []
  {
  }

  /** Whoever waits behind the first path still waits. */
  lemma WaitsStill(queue: seq<Path>, news: seq<Path>, u: Node)
    requires queue != [] && (forall i | 0 <= i < |queue| :: queue[i] != []) && Waits(queue, u)
    requires forall i | 0 <= i < |queue[1..] + news| :: (queue[1..] + news)[i] != []
    requires u != Last(queue[0])
    ensures Waits(queue[1..] + news, u)
  {
    var i :| 0 <= i < |queue| && Last(queue[i]) == u;
    assert (queue[1..] + news)[i - 1] == queue[i];
  }

  /** A neighbour seen for the first time waits at the end of its new path. */
  lemma WaitsNew(queue: seq<Path>, news: seq<Path>, found: set<Node>, u: Node)
    requires queue != [] && queue[0] != [] && Fresh(queue[0], news, found) && u in found
    requires forall i | 0 <= i < |queue[1..] + news| :: (queue[1..] + news)[i] != []
    ensures Waits(queue[1..] + news, u)
  {
    assert Brings(queue[0], news, u);
    var j :| 0 <= j < |news| && news[j] == queue[0] + [u];
    assert (queue[1..] + news)[|queue| - 1 + j] == news[j];
  }

  /** Once nodes at distance `d + 1` are queued first, unseen nodes lie further still. */
  lemma BeyondAfter(e: Edges, s: Node, queue: seq<Path>, seen: set<Node>, seen': set<Node>, done: set<Node>, d: nat)
    requires Queued(e, s, queue) && Covered(e, queue, seen', done) && queue != []
    requires Beyond(e, s, seen, d) && seen <= seen' && 1 <= d <= |queue[0]| <= d + 1
    ensures Beyond(e, s, seen', |queue[0]|)
  {
    forall q | q != [] && IsPath(e, q, s, Last(q)) && Last(q) !in seen' ensures |q| > |queue[0]| {
      if |q| == d + 1 == |queue[0]| {
        NotAtDistance(e, s, queue, seen, seen', done, d, q);
      }
    }
  }

  lemma NotAtDistance(e: Edges, s: Node, queue: seq<Path>, seen: set<Node>, seen': set<Node>, done: set<Node>,
                      d: nat, q: Path)
    requires Queued(e, s, queue) && Covered(e, queue, seen', done)
    requires Beyond(e, s, seen, d) && seen <= seen' && 1 <= d && queue != [] && |queue[0]| == d + 1
    requires |q| == d + 1 && IsPath(e, q, s, Last(q))
    ensures Last(q) in seen'
  {
    var q' := q[..|q| - 1];
    var u := Last(q');
    Shortened(e, q, s, Last(q));
    assert u in seen';
  }

  /** When nothing is queued any longer, what was not seen cannot be reached. */
  lemma {:induction false} ClosedReach(e: Edges, s: Node, seen: set<Node>, done: set<Node>, q: Path, t: Node)
    requires Inv(e, s, [], seen, done) && IsPath(e, q, s, t)
    ensures t in seen
    decreases |q|
  {
    if |q| > 1 {
      Shortened(e, q, s, t);
      ClosedReach(e, s, seen, done, q[..|q| - 1], Last(q[..|q| - 1]));
    }
  }

  lemma StartInv(e: Edges, s: Node)
    ensures Inv(e, s, [[s]], {s}, {})
  {
    assert Last([s]) == s;
    assert IsPath(e, [s], s, s);
    assert Last([[s]][0]) == s;
  }

  type Nodes = map<Node, Properties>

  /** A node whose properties are the nil map counts as missing. */
  predicate Present(nodes: Nodes, id: Node) {
    id in nodes && nodes[id] != NilMap
  }

  /** The nodes with an endpoint that an edge needs. */
  function WithNode(nodes: Nodes, id: Node): Nodes {
    if Present(nodes, id) then nodes else nodes[id := Props(map[])]
  }

  /** Both endpoints exist, those that were missing with no properties; no other node changes. */
  lemma NodesCreated(nodes: Nodes, from: Node, to: Node)
    ensures var after := WithNode(WithNode(nodes, from), to);
      && after.Keys == nodes.Keys + {from, to} && Present(after, from) && Present(after, to)
      && forall v | v in after ::
           after[v] == if (v == from || v == to) && !Present(nodes, v) then Props(map[]) else nodes[v]
  {
  }

  class GraphDatabase {
    var nodes: map<Node, Properties>
    var edges: Edges

    constructor ()
      ensures nodes == map[] && edges == map[]
    {
      nodes, edges := map[], map[];
    }

    predicate Exists(id: Node)
      reads this
    {
      Present(nodes, id)
    }

    method AddNode(id: Node, properties: Properties)
      modifies this
      ensures nodes == old(nodes)[id := properties]
      ensures edges == if id in old(edges) then old(edges) else old(edges)[id := {}]
      ensures forall v :: Neighbours(edges, v) == Neighbours(old(edges), v)
    {
      nodes := nodes[id := properties];
      if id !in edges {
        edges := edges[id := {}];
      }
    }

    /** Adds an edge, and its reverse unless it is directed; missing endpoints are created. */
    method AddEdge(from: Node, to: Node, directed: bool)
      requires AdjacencyComplete()
      modifies this
      ensures AdjacencyComplete() && Exists(from) && Exists(to)
      ensures nodes.Keys == old(nodes).Keys + {from, to} && edges.Keys == old(edges).Keys + {from, to}
      ensures forall v | v in nodes ::
        nodes[v] == if (v == from || v == to) && !Present(old(nodes), v) then Props(map[]) else old(nodes)[v]
      ensures forall v, w :: w in Neighbours(edges, v) <==>
        w in Neighbours(old(edges), v) || (v == from && w == to) || (!directed && v == to && w == from)
    {
      hide Neighbours, WithNode, Present;
      NodesCreated(nodes, from, to);
      AddMissing(from);
      AddMissing(to);
      Link(from, to, directed);
    }

    method Link(from: Node, to: Node, directed: bool)
      requires from in edges && to in edges
      modifies `edges
      ensures edges.Keys == old(edges).Keys
      ensures forall v, w :: w in Neighbours(edges, v) <==>
        w in Neighbours(old(edges), v) || (v == from && w == to) || (!directed && v == to && w == from)
    {
      hide Neighbours;
      Connect(from, to);
      if !directed {
        Connect(to, from);
      }
    }

    /** Creates an endpoint that does not exist yet. */
    method AddMissing(id: Node)
      requires AdjacencyComplete()
      modifies this
      ensures AdjacencyComplete() && edges.Keys == old(edges).Keys + {id}
      ensures nodes == WithNode(old(nodes), id)
      ensures forall v :: Neighbours(edges, v) == Neighbours(old(edges), v)
    {
      if !Exists(id) {
        AddNode(id, Props(map[]));
      }
    }

    method Connect(from: Node, to: Node)
      requires from in edges
      modifies `edges
      ensures edges.Keys == old(edges).Keys
      ensures forall v :: Neighbours(edges, v) == Neighbours(old(edges), v) + if v == from then {to} else {}
    {
      edges := edges[from := edges[from] + {to}];
    }

    /** Every stored node has an adjacency set, so the source never writes into a nil map. */
    predicate AdjacencyComplete()
      reads this
    {
      forall v | v in nodes :: v in edges
    }

    /**
     A path from `start` to `end` that no other path beats in length; none exactly when an endpoint
     is missing or `end` cannot be reached.
     */
    method ShortestPath(start: Node, end: Node) returns (r: Option<Path>)
      ensures r.Some? ==> IsPath(edges, r.value, start, end) && IsShortest(edges, r.value)
      ensures r == None <==> !Exists(start) || !Exists(end) || forall p :: !IsPath(edges, p, start, end)
      ensures r.Some? ==> Exists(start) && Exists(end)
    {
      if !Exists(start) {
        return None;
      }
      if !Exists(end) {
        return None;
      }
      hide Inv, Beyond, Covered, Queued, IsPath, IsShortest, AllNodes, Fresh;
      var queue: seq<Path> := [[start]];
      var seen := {start};
      ghost var done: set<Node> := {};
      StartInv(edges, start);
      while queue != []
        invariant Inv(edges, start, queue, seen, done) && end !in done
        invariant seen <= AllNodes(edges, start)
        decreases AllNodes(edges, start) - seen, |queue|
      {
        InvFacts(edges, start, queue, seen, done);
        var path := queue[0];
        var node := Last(path);
        if node == end {
          return Some(path);
        }
        var news, seen' := Expand(path, seen, Neighbours(edges, node));
        ExpandKeeps(edges, start, queue, seen, done, news);
        NeighboursKnown(edges, start, node);
        queue, seen, done := queue[1..] + news, seen', done + {node};
      }
      Unreachable(edges, start, seen, done, end);
      return None;
    }

    /** Visits the neighbours of one node, in any order. */
    method Expand(path: Path, seen0: set<Node>, neighbours: set<Node>) returns (news: seq<Path>, seen: set<Node>)
      requires path != []
      ensures seen == seen0 + neighbours && Fresh(path, news, neighbours - seen0)
      ensures neighbours <= seen0 ==> news == []
    {
      news, seen := [], seen0;
      var rest := neighbours;
      while rest != {}
        invariant rest <= neighbours && seen == seen0 + (neighbours - rest)
        invariant Fresh(path, news, neighbours - rest - seen0)
        invariant neighbours <= seen0 ==> news == []
        decreases rest
      {
        var next :| next in rest;
        if next !in seen {
          seen := seen + {next};
          FreshGrows(path, news, neighbours - rest - seen0, next);
          news := news + [path + [next]];
          assert neighbours - (rest - {next}) - seen0 == (neighbours - rest - seen0) + {next};
        } else {
          assert neighbours - (rest - {next}) - seen0 == neighbours - rest - seen0;
        }
        rest := rest - {next};
      }
      assert neighbours - {} - seen0 == neighbours - seen0;
    }
  }

  lemma FreshGrows(p: Path, news: seq<Path>, found: set<Node>, next: Node)
    requires p != [] && Fresh(p, news, found)
    ensures Fresh(p, news + [p + [next]], found + {next})
  {
    var news' := news + [p + [next]];
    assert news'[|news|] == p + [next];
    forall w | w in found + {next} ensures Brings(p, news', w) {
      if w in found {
        assert Brings(p, news, w);
        var i :| 0 <= i < |news| && news[i] == p + [w];
        assert news'[i] == p + [w];
      }
    }
  }

  ghost function AllNodes(e: Edges, s: Node): (all: set<Node>)
    ensures s in all
  {
    {s} + set v, w | v in e && w in e[v] :: w
  }

  lemma NeighboursKnown(e: Edges, s: Node, v: Node)
    ensures Neighbours(e, v) <= AllNodes(e, s)
  {
  }

  lemma Unreachable(e: Edges, s: Node, seen: set<Node>, done: set<Node>, t: Node)
    requires Inv(e, s, [], seen, done) && t !in done
    ensures forall p :: !IsPath(e, p, s, t)
  {
    forall p ensures !IsPath(e, p, s, t) {
      if IsPath(e, p, s, t) { ClosedReach(e, s, seen, done, p, t); }
    }
  }

  lemma InvFacts(e: Edges, s: Node, queue: seq<Path>, seen: set<Node>, done: set<Node>)
    requires Inv(e, s, queue, seen, done) && queue != []
    ensures queue[0] != [] && IsPath(e, queue[0], s, Last(queue[0])) && IsShortest(e, queue[0])
  {
  }
}
