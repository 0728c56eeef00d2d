/** Weighted graph and Dijkstra shortest paths (task_3.py).

    The graph is an adjacency map from a node to the ordered list of its outgoing edges.
    Dijkstra's algorithm keeps a frontier of (distance, node) entries that is never updated
    in place: every improvement pushes a fresh entry, and an entry whose node has already
    been expanded is skipped when popped. Path reconstruction walks the predecessor table
    back from the target. */
module ShortestPaths {
  import opened Wrappers
  import opened Seqs

  type NodeId = string

  /** One entry of an adjacency list: the neighbour and the weight of the edge to it. */
  datatype Edge = Edge(target: NodeId, weight: nat)

  type Adjacency = map<NodeId, seq<Edge>>

  /** A tentative distance: finite, or the infinite value of a node not reached yet. */
  datatype Dist = Inf | Fin(d: nat)
  {
    /** Strictly smaller than `other`; every finite value is below infinity. */
    predicate Below(other: Dist)
    {
      Fin? && (other.Inf? || d < other.d)
    }
  }

  /** A frontier entry. Entries are ordered by `distance` alone; `node` does not take part. */
  datatype HeapItem = HeapItem(distance: nat, node: NodeId)

  /** The exception `shortest_path` raises when the start node has no adjacency entry. */
  datatype KeyError = KeyError(key: NodeId)

  /** The outgoing edges of `u`, empty for a node that is not a key. */
  function Neighbors(adjacency: Adjacency, u: NodeId): seq<Edge>
  {
    if u in adjacency then adjacency[u] else []
  }

  /** `adjacency` after appending `e` to the list of `u`, creating the list when it is missing. */
  function Appended(adjacency: Adjacency, u: NodeId, e: Edge): (r: Adjacency)
    ensures r.Keys == adjacency.Keys + {u}
    ensures r[u] == Neighbors(adjacency, u) + [e]
    ensures forall v :: v in adjacency && v != u ==> r[v] == adjacency[v]
  {
    adjacency[u := Neighbors(adjacency, u) + [e]]
  }

  /** Every edge leads to a key of the map or to `start`: the condition under which
      `dijkstra` never looks up a missing distance. */
  ghost predicate TargetsKnown(adjacency: Adjacency, start: NodeId)
  {
    forall u, e {:trigger e in adjacency[u]} :: u in adjacency && e in adjacency[u] ==> e.target in adjacency || e.target == start
  }

  /** Every edge leads to a key of the map. */
  ghost predicate Closed(adjacency: Adjacency)
  {
    forall u, e {:trigger e in adjacency[u]} :: u in adjacency && e in adjacency[u] ==> e.target in adjacency
  }

  // ---------------------------------------------------------------------------------------
  // Walks: the reference definition of "shortest distance"

  /** The node a walk from `from` ends at. */
  function WalkEnd(from: NodeId, hops: seq<Edge>): NodeId
  {
    if hops == [] then from else Last(hops).target
  }

  /** `hops` is a walk from `from`: each hop is an edge out of the node the previous hop reached. */
  ghost predicate IsWalk(adjacency: Adjacency, from: NodeId, hops: seq<Edge>)
    decreases |hops|
  {
    hops != [] ==>
      IsWalk(adjacency, from, Front(hops)) && Last(hops) in Neighbors(adjacency, WalkEnd(from, Front(hops)))
  }

  ghost predicate IsWalkTo(adjacency: Adjacency, from: NodeId, hops: seq<Edge>, to: NodeId)
  {
    IsWalk(adjacency, from, hops) && WalkEnd(from, hops) == to
  }

  /** The total weight of a walk. */
  function WalkWeight(hops: seq<Edge>): nat
    decreases |hops|
  {
    if hops == [] then 0 else WalkWeight(Front(hops)) + Last(hops).weight
  }

  ghost predicate Reachable(adjacency: Adjacency, from: NodeId, to: NodeId)
  {
    exists hops {:trigger IsWalkTo(adjacency, from, hops, to)} :: IsWalkTo(adjacency, from, hops, to)
  }

  /** No walk from `from` to `to` weighs less than `d`. */
  ghost predicate LowerBound(adjacency: Adjacency, from: NodeId, to: NodeId, d: nat)
  {
    forall hops {:trigger IsWalkTo(adjacency, from, hops, to)} :: IsWalkTo(adjacency, from, hops, to) ==> d <= WalkWeight(hops)
  }

  /** `d` is the least weight of a walk from `from` to `to`. */
  ghost predicate IsShortestDistance(adjacency: Adjacency, from: NodeId, to: NodeId, d: nat)
  {
    && (exists hops {:trigger IsWalkTo(adjacency, from, hops, to)} :: IsWalkTo(adjacency, from, hops, to) && WalkWeight(hops) == d)
    && LowerBound(adjacency, from, to, d)
  }

  /** The nodes a walk passes through, `from` first. */
  function Visits(from: NodeId, hops: seq<Edge>): (r: seq<NodeId>)
    ensures |r| == |hops| + 1 && r[0] == from && r[|r| - 1] == WalkEnd(from, hops)
    decreases |hops|
  {
    if hops == [] then [from] else Visits(from, Front(hops)) + [Last(hops).target]
  }

  /** An edge out of `u` followed by a walk from its target is a walk from `u`. */
  lemma PrependWalk(adjacency: Adjacency, u: NodeId, e: Edge, hops: seq<Edge>)
    requires e in Neighbors(adjacency, u) && IsWalk(adjacency, e.target, hops)
    ensures IsWalk(adjacency, u, [e] + hops)
    ensures WalkEnd(u, [e] + hops) == WalkEnd(e.target, hops)
    ensures WalkWeight([e] + hops) == e.weight + WalkWeight(hops)
    ensures Visits(u, [e] + hops) == [u] + Visits(e.target, hops)
  {
    PrependIsWalk(adjacency, u, e, hops);
    PrependWeight(u, e, hops);
  }

  lemma {:induction false} PrependIsWalk(adjacency: Adjacency, u: NodeId, e: Edge, hops: seq<Edge>)
    requires e in Neighbors(adjacency, u) && IsWalk(adjacency, e.target, hops)
    ensures IsWalk(adjacency, u, [e] + hops)
    ensures WalkEnd(u, [e] + hops) == WalkEnd(e.target, hops)
    decreases |hops|
  {
    if hops == [] {
      assert Front([e]) == [];
    } else {
      var front := Front(hops);
      PrependIsWalk(adjacency, u, e, front);
      assert Front([e] + hops) == [e] + front && Last([e] + hops) == Last(hops);
    }
  }

  lemma {:induction false} PrependWeight(u: NodeId, e: Edge, hops: seq<Edge>)
    ensures WalkWeight([e] + hops) == e.weight + WalkWeight(hops)
    ensures Visits(u, [e] + hops) == [u] + Visits(e.target, hops)
    decreases |hops|
  {
    if hops == [] {
      assert Front([e]) == [];
    } else {
      var front := Front(hops);
      PrependWeight(u, e, front);
      assert Front([e] + hops) == [e] + front && Last([e] + hops) == Last(hops);
    }
  }

  /** A node without an adjacency entry has no outgoing edge, so the only walk from it is empty. */
  lemma {:induction false} WalkFromIsolated(adjacency: Adjacency, from: NodeId, hops: seq<Edge>)
    requires from !in adjacency && IsWalk(adjacency, from, hops)
    ensures hops == []
    decreases |hops|
  {
    if hops != [] {
      WalkFromIsolated(adjacency, from, Front(hops));
    }
  }

  /** A start without an adjacency entry reaches only itself. */
  lemma IsolatedReach(adjacency: Adjacency, start: NodeId, v: NodeId)
    requires start !in adjacency && Reachable(adjacency, start, v)
    ensures v == start
  {
    var hops :| IsWalkTo(adjacency, start, hops, v);
    WalkFromIsolated(adjacency, start, hops);
  }

  /** When every edge leads to a key or to `start`, only keys and `start` are reachable from it. */
  lemma ReachableKnown(adjacency: Adjacency, start: NodeId, v: NodeId)
    requires TargetsKnown(adjacency, start) && Reachable(adjacency, start, v)
    ensures v in adjacency || v == start
  {
    var hops :| IsWalkTo(adjacency, start, hops, v);
    if hops != [] {
      var u := WalkEnd(start, Front(hops));
      assert Last(hops) in Neighbors(adjacency, u);
      assert u in adjacency && Last(hops) in adjacency[u];
    }
  }

  /** A walk extended by an edge out of its end is a walk to that edge's target, heavier by
      the edge's weight. */
  lemma ExtendWalk(adjacency: Adjacency, from: NodeId, hops: seq<Edge>, e: Edge)
    requires IsWalk(adjacency, from, hops) && e in Neighbors(adjacency, WalkEnd(from, hops))
    ensures IsWalkTo(adjacency, from, hops + [e], e.target)
    ensures WalkWeight(hops + [e]) == WalkWeight(hops) + e.weight
  {
    assert Front(hops + [e]) == hops;
  }

  /** The distance `d` of a shortest walk is unique. */
  lemma ShortestUnique(adjacency: Adjacency, from: NodeId, to: NodeId, d: nat, d': nat)
    requires IsShortestDistance(adjacency, from, to, d) && IsShortestDistance(adjacency, from, to, d')
    ensures d == d'
  {
    var hops :| IsWalkTo(adjacency, from, hops, to) && WalkWeight(hops) == d;
    var hops' :| IsWalkTo(adjacency, from, hops', to) && WalkWeight(hops') == d';
  }

  // ---------------------------------------------------------------------------------------
  // Potentials: certificates of shortest distances

  /** `pot` labels every node an edge touches, and along no edge does it grow by more than
      the edge's weight. */
  ghost predicate Feasible(adjacency: Adjacency, pot: map<NodeId, nat>)
  {
    forall u, e {:trigger e in adjacency[u]} :: u in adjacency && e in adjacency[u] ==>
      u in pot && e.target in pot && pot[e.target] <= pot[u] + e.weight
  }

  /** A feasible potential bounds the weight of every walk from below by the potential
      gained along it. */
  lemma {:induction false} PotentialBound(adjacency: Adjacency, pot: map<NodeId, nat>, from: NodeId, hops: seq<Edge>)
    requires Feasible(adjacency, pot) && from in pot && IsWalk(adjacency, from, hops)
    ensures WalkEnd(from, hops) in pot && pot[WalkEnd(from, hops)] <= pot[from] + WalkWeight(hops)
    decreases |hops|
  {
    if hops != [] {
      var u := WalkEnd(from, Front(hops));
      PotentialBound(adjacency, pot, from, Front(hops));
      assert u in adjacency && Last(hops) in adjacency[u];
    }
  }

  /** Along a walk that gains exactly its weight in potential, the last edge is tight and the
      walk before it gains exactly its own weight too. */
  lemma TightLastHop(adjacency: Adjacency, pot: map<NodeId, nat>, from: NodeId, hops: seq<Edge>)
    requires Feasible(adjacency, pot) && from in pot && IsWalk(adjacency, from, hops) && hops != []
    requires WalkEnd(from, hops) in pot && pot[WalkEnd(from, hops)] == pot[from] + WalkWeight(hops)
    ensures var u := WalkEnd(from, Front(hops));
            && u in adjacency && Last(hops) in adjacency[u] && u in pot
            && pot[u] == pot[from] + WalkWeight(Front(hops))
            && pot[Last(hops).target] == pot[u] + Last(hops).weight
  {
    var u := WalkEnd(from, Front(hops));
    PotentialBound(adjacency, pot, from, Front(hops));
    assert u in adjacency && Last(hops) in adjacency[u];
  }

  /** A feasible potential that is 0 at `from` and is met by a walk to `to` is the shortest
      distance from `from` to `to`. */
  lemma PotentialIsShortest(adjacency: Adjacency, pot: map<NodeId, nat>, from: NodeId, to: NodeId, hops: seq<Edge>)
    requires Feasible(adjacency, pot) && from in pot && pot[from] == 0
    requires IsWalkTo(adjacency, from, hops, to) && to in pot && WalkWeight(hops) == pot[to]
    ensures IsShortestDistance(adjacency, from, to, pot[to])
  {
    forall hops' | IsWalkTo(adjacency, from, hops', to)
      ensures pot[to] <= WalkWeight(hops')
    {
      PotentialBound(adjacency, pot, from, hops');
    }
  }

  // ---------------------------------------------------------------------------------------
  // Graphs built from bidirectional edges

  /** `add_edge(source, target, weight, bidirectional=True)` on a closed map keeps it closed. */
  lemma AppendedBothClosed(adjacency: Adjacency, source: NodeId, target: NodeId, weight: nat)
    requires Closed(adjacency)
    ensures Closed(Appended(Appended(adjacency, source, Edge(target, weight)), target, Edge(source, weight)))
  {
    var once := Appended(adjacency, source, Edge(target, weight));
    var twice := Appended(once, target, Edge(source, weight));
    forall u, e: Edge | u in twice && e in twice[u]
      ensures e.target in twice
    {
      if u == target {
        assert e in Neighbors(once, target) || e == Edge(source, weight);
        if u in once && e in once[u] && u == source {
          assert e in Neighbors(adjacency, source) || e == Edge(target, weight);
        }
      } else if u == source {
        assert e in Neighbors(adjacency, source) || e == Edge(target, weight);
      }
    }
  }

  /** A closed map lets Dijkstra start anywhere. */
  lemma ClosedTargetsKnown(adjacency: Adjacency, start: NodeId)
    requires Closed(adjacency)
    ensures TargetsKnown(adjacency, start)
  {
  }

  // ---------------------------------------------------------------------------------------
  // The state Dijkstra's loop keeps

  /** The edges out of every expanded node have been relaxed. */
  ghost predicate Relaxed(adjacency: Adjacency, distances: map<NodeId, Dist>, visited: set<NodeId>)
  {
    forall u, e {:trigger e in Neighbors(adjacency, u)} :: u in visited && e in Neighbors(adjacency, u) ==>
      u in distances && distances[u].Fin? && EdgeRelaxed(distances, distances[u].d, e)
  }

  /** Every expanded node has a finite distance that no walk beats. */
  ghost predicate Settled(adjacency: Adjacency, start: NodeId, distances: map<NodeId, Dist>, visited: set<NodeId>)
  {
    forall u {:trigger u in visited} :: u in visited ==>
      u in distances && distances[u].Fin? && LowerBound(adjacency, start, u, distances[u].d)
  }

  /** `v` is reached from `u` over an edge whose weight is the difference of their distances. */
  ghost predicate Tight(adjacency: Adjacency, distances: map<NodeId, Dist>, u: NodeId, v: NodeId)
  {
    && u in distances && distances[u].Fin?
    && v in distances && distances[v].Fin?
    && distances[u].d <= distances[v].d
    && Edge(v, distances[v].d - distances[u].d) in Neighbors(adjacency, u)
  }

  /** The link recorded for `v`, if any, comes from a node expanded before `v` over a tight edge. */
  ghost predicate LinkOk(adjacency: Adjacency, distances: map<NodeId, Dist>,
                         previousNodes: map<NodeId, Option<NodeId>>, rank: map<NodeId, nat>, v: NodeId)
  {
    v in previousNodes && previousNodes[v].Some? ==>
      var u := previousNodes[v].value;
      u in rank && Tight(adjacency, distances, u, v) && (v in rank ==> rank[u] < rank[v])
  }

  /** The predecessor table agrees with the distance table: a node other than the start has a
      predecessor exactly when its distance is finite, and every link is as `LinkOk` says
      (`rank` is the expansion order). */
  ghost predicate LinksConsistent(adjacency: Adjacency, start: NodeId, distances: map<NodeId, Dist>,
                                  previousNodes: map<NodeId, Option<NodeId>>, rank: map<NodeId, nat>)
  {
    && (forall v {:trigger previousNodes[v]} :: v in previousNodes && v != start ==>
          v in distances && (previousNodes[v].Some? <==> distances[v].Fin?))
    && (start in previousNodes ==> previousNodes[start] == None)
    && (forall v {:trigger LinkOk(adjacency, distances, previousNodes, rank, v)} ::
          LinkOk(adjacency, distances, previousNodes, rank, v))
  }

  // ---------------------------------------------------------------------------------------
  // The frontier

  /** `heapq.heappop` on the frontier seen as a bag: removes one entry of least distance.
      Among entries of equal distance the choice is not specified. */
  method PopMin(heap: seq<HeapItem>) returns (item: HeapItem, rest: seq<HeapItem>)
    requires heap != []
    ensures item in heap
    ensures forall e :: e in heap ==> item.distance <= e.distance
    ensures multiset(heap) == multiset(rest) + multiset{item}
  {
    var k := 0;
    var i := 1;
    while i < |heap|
      invariant 0 <= k < i <= |heap|
      invariant forall j {:trigger heap[j]} :: 0 <= j < i ==> heap[k].distance <= heap[j].distance
    {
      if heap[i].distance < heap[k].distance {
        k := i;
      }
      i := i + 1;
    }
    item := heap[k];
    rest := heap[..k] + heap[k + 1..];
    assert heap == heap[..k] + [item] + heap[k + 1..];
    assert multiset(heap) == multiset(heap[..k]) + multiset{item} + multiset(heap[k + 1..]);
  }

  // ---------------------------------------------------------------------------------------
  // The graph

  class Graph {
    var adjacency: Adjacency

    /** An empty graph. */
    constructor ()
      ensures adjacency == map[]
    {
      adjacency := map[];
    }

    /** Appends `(target, weight)` to the list of `source`, and with `bidirectional` also
        `(source, weight)` to the list of `target`; every other list is left as it was. */
    method AddEdge(source: NodeId, target: NodeId, weight: nat, bidirectional: bool)
      modifies this
      ensures var once := Appended(old(adjacency), source, Edge(target, weight));
              adjacency == if bidirectional then Appended(once, target, Edge(source, weight)) else once
    {
      adjacency := Appended(adjacency, source, Edge(target, weight));
      if bidirectional {
        adjacency := Appended(adjacency, target, Edge(source, weight));
      }
    }

    /** Dijkstra's algorithm from `start` with a lazily pruned frontier. Returns the distance
        table (defined on the keys and `start`), the predecessor table (defined on the keys)
        and, as a ghost, the order in which nodes were expanded. */
    method Dijkstra(start: NodeId)
      returns (distances: map<NodeId, Dist>, previousNodes: map<NodeId, Option<NodeId>>,
               ghost rank: map<NodeId, nat>)
      requires TargetsKnown(adjacency, start)
      ensures distances.Keys == adjacency.Keys + {start}
      ensures previousNodes.Keys == adjacency.Keys
      ensures distances[start] == Fin(0)
      ensures forall v :: v in distances ==> (distances[v].Fin? <==> Reachable(adjacency, start, v))
      ensures forall v :: v in distances && distances[v].Fin? ==>
                IsShortestDistance(adjacency, start, v, distances[v].d)
      ensures LinksConsistent(adjacency, start, distances, previousNodes, rank)
      ensures forall v :: v in rank <==> v in distances && distances[v].Fin?
    {
      var adj := adjacency;
      distances := (map v | v in adj :: Inf)[start := Fin(0)];
      previousNodes := map v | v in adj :: None;
      var heap := [HeapItem(0, start)];
      var visitedNodes: set<NodeId> := {};
      rank := map[];
      Initially(adj, start);

      while heap != []
        invariant FrontierInv(adj, start, distances, previousNodes, heap, visitedNodes, rank)
        decreases |(adj.Keys + {start}) - visitedNodes|, |heap|
      {
        var currentItem, rest := PopMin(heap);
        var currentNode := currentItem.node;
        if currentNode in visitedNodes {
          StaleEntry(adj, start, distances, previousNodes, heap, rest, currentItem, visitedNodes, rank);
          assert |multiset(heap)| == |multiset(rest)| + 1;
          heap := rest;
          continue;
        }
        BeginExpansion(adj, start, distances, previousNodes, heap, rest, currentItem, visitedNodes, rank);
        heap := rest;
        rank := rank[currentNode := |visitedNodes|];
        visitedNodes := visitedNodes + {currentNode};

        ghost var before := Tables(distances, previousNodes, heap);
        NeighborsKnown(adj, start, distances, currentNode);
        distances, previousNodes, heap := RelaxNeighbors(adj, distances, previousNodes, heap, currentNode);
        FinishExpansion(adj, start, before, visitedNodes, rank, currentNode, before.distances[currentNode].d);
      }
      Conclude(adj, start, distances, previousNodes, visitedNodes, rank);
    }

    /** The path from `start` to `end` rebuilt from Dijkstra's predecessor table: empty when
        `end` is not reachable, otherwise the nodes of a shortest walk with `start` first. The
        lookup of the predecessor of `start` fails when `start` has no adjacency entry, so the
        call fails exactly when such a `start` is asked for the path to itself. */
    method ShortestPath(start: NodeId, end: NodeId) returns (r: Result<seq<NodeId>, KeyError>, ghost hops: seq<Edge>)
      requires TargetsKnown(adjacency, start)
      ensures r.Err? <==> start !in adjacency && end == start
      ensures r.Err? ==> r.error == KeyError(start)
      ensures r == Ok([]) <==> !Reachable(adjacency, start, end)
      ensures r.Ok? && r.value != [] ==>
                && r.value == Visits(start, hops)
                && IsWalkTo(adjacency, start, hops, end)
                && LowerBound(adjacency, start, end, WalkWeight(hops))
    {
      var distances, previousNodes, rank := Dijkstra(start);
      hops := [];
      if end !in distances || distances[end].Inf? {
        if Reachable(adjacency, start, end) {
          ReachableKnown(adjacency, start, end);
        }
        return Ok([]), hops;
      }
      r, hops := TracePath(previousNodes, end, adjacency, start, distances, rank);
      if r.Err? {
        IsolatedReach(adjacency, start, end);
      }
    }
  }

  /** The predecessor table Dijkstra leaves behind, seen from the path reconstruction: every
      node with a finite distance has a rank, and the links are consistent. */
  ghost predicate Chains(adjacency: Adjacency, start: NodeId, distances: map<NodeId, Dist>,
                         previousNodes: map<NodeId, Option<NodeId>>, rank: map<NodeId, nat>)
  {
    && distances.Keys == previousNodes.Keys + {start}
    && distances[start] == Fin(0)
    && LinksConsistent(adjacency, start, distances, previousNodes, rank)
    && (forall x {:trigger distances[x]} :: x in distances && distances[x].Fin? ==> x in rank)
  }

  /** The loop of `shortest_path`: collects the nodes from `end` back along the predecessor
      links until a node without a predecessor, then reverses the list. The chain always ends
      at `start`, whose own predecessor lookup fails when `start` is not in the table. */
  method TracePath(previousNodes: map<NodeId, Option<NodeId>>, end: NodeId, ghost adjacency: Adjacency,
                   ghost start: NodeId, ghost distances: map<NodeId, Dist>, ghost rank: map<NodeId, nat>)
    returns (r: Result<seq<NodeId>, KeyError>, ghost hops: seq<Edge>)
    requires Chains(adjacency, start, distances, previousNodes, rank)
    requires end in distances && distances[end].Fin?
    ensures r.Err? <==> start !in previousNodes
    ensures r.Err? ==> r.error == KeyError(start)
    ensures r.Ok? ==>
              && r.value == Visits(start, hops)
              && IsWalkTo(adjacency, start, hops, end)
              && WalkWeight(hops) == distances[end].d
  {
    hops := [];
    var path: seq<NodeId> := [];
    var currentNode: Option<NodeId> := Some(end);
    while currentNode.Some?
      invariant currentNode.Some? ==>
                  var c := currentNode.value;
                  && c in distances && distances[c].Fin? && c in rank
                  && IsWalkTo(adjacency, c, hops, end)
                  && distances[c].d + WalkWeight(hops) == distances[end].d
                  && path + [c] == Reverse(Visits(c, hops))
      invariant currentNode.None? ==>
                  && start in previousNodes
                  && IsWalkTo(adjacency, start, hops, end)
                  && WalkWeight(hops) == distances[end].d
                  && path == Reverse(Visits(start, hops))
      decreases if currentNode.Some? && currentNode.value in rank then rank[currentNode.value] + 1 else 0
    {
      var c := currentNode.value;
      path := path + [c];
      if c !in previousNodes {
        return Err(KeyError(c)), hops;
      }
      assert LinkOk(adjacency, distances, previousNodes, rank, c);
      currentNode := previousNodes[c];
      if currentNode.Some? {
        var u := currentNode.value;
        var e := Edge(c, distances[c].d - distances[u].d);
        PrependWalk(adjacency, u, e, hops);
        assert ([u] + Visits(c, hops))[1..] == Visits(c, hops);
        hops := [e] + hops;
      }
    }
    path := Reverse(path);
    ReverseReverse(Visits(start, hops));
    return Ok(path), hops;
  }

  /** The three tables Dijkstra's loop updates. */
  datatype Tables = Tables(distances: map<NodeId, Dist>, previousNodes: map<NodeId, Option<NodeId>>,
                           heap: seq<HeapItem>)

  /** `a` is no larger than `b`. */
  predicate AtMost(a: Dist, b: Dist)
  {
    !b.Below(a)
  }

  /** Relaxing edges never raises a distance and never adds a node to the distance table; a
      predecessor is set only together with a strictly smaller distance; the frontier only grows. */
  lemma {:induction false} RelaxEdgesMonotone(cur: NodeId, base: nat, edges: seq<Edge>, t: Tables)
    ensures var r := RelaxEdges(cur, base, edges, t);
            && r.distances.Keys == t.distances.Keys
            && (forall v :: v in t.distances ==> AtMost(r.distances[v], t.distances[v]))
            && (forall v :: v in r.previousNodes && (v !in t.previousNodes || r.previousNodes[v] != t.previousNodes[v]) ==>
                  v in t.distances && r.distances[v].Below(t.distances[v]))
            && t.heap <= r.heap
    decreases |edges|
  {
    if edges != [] {
      RelaxEdgesMonotone(cur, base, Front(edges), t);
    }
  }

  /** Relaxing edge `e` out of `cur`, whose distance is `base`: when `base + e.weight` is
      strictly below the target's distance, the target gets that distance, `cur` as its
      predecessor and a fresh frontier entry; otherwise nothing changes. */
  function RelaxEdge(cur: NodeId, base: nat, e: Edge, t: Tables): (r: Tables)
    ensures e.target in t.distances ==> r.distances.Keys == t.distances.Keys
  {
    if e.target in t.distances && Fin(base + e.weight).Below(t.distances[e.target]) then
      Tables(t.distances[e.target := Fin(base + e.weight)], t.previousNodes[e.target := Some(cur)],
             t.heap + [HeapItem(base + e.weight, e.target)])
    else
      t
  }

  /** Relaxing `edges` out of `cur` one after the other, in list order. */
  function RelaxEdges(cur: NodeId, base: nat, edges: seq<Edge>, t: Tables): Tables
    decreases |edges|
  {
    if edges == [] then t else RelaxEdge(cur, base, Last(edges), RelaxEdges(cur, base, Front(edges), t))
  }

  /** The inner loop of one expansion: relaxes the edges of `currentNode` in list order. Every
      edge must lead to a node of the distance table (otherwise the lookup fails). */
  method RelaxNeighbors(adjacency: Adjacency, distances: map<NodeId, Dist>,
                        previousNodes: map<NodeId, Option<NodeId>>, heap: seq<HeapItem>, currentNode: NodeId)
    returns (distances': map<NodeId, Dist>, previousNodes': map<NodeId, Option<NodeId>>, heap': seq<HeapItem>)
    requires currentNode in distances && distances[currentNode].Fin?
    requires forall e :: e in Neighbors(adjacency, currentNode) ==> e.target in distances
    ensures Tables(distances', previousNodes', heap') ==
            RelaxEdges(currentNode, distances[currentNode].d, Neighbors(adjacency, currentNode),
                       Tables(distances, previousNodes, heap))
  {
    var edges := Neighbors(adjacency, currentNode);
    ghost var base := distances[currentNode].d;
    distances', previousNodes', heap' := distances, previousNodes, heap;
    var i := 0;
    while i < |edges|
      invariant i <= |edges|
      invariant Tables(distances', previousNodes', heap') ==
                RelaxEdges(currentNode, base, edges[..i], Tables(distances, previousNodes, heap))
      invariant distances'.Keys == distances.Keys && distances'[currentNode] == Fin(base)
    {
      var neighbor, weight := edges[i].target, edges[i].weight;
      assert edges[i] in edges;
      var newDistance := distances'[currentNode].d + weight;
      if Fin(newDistance).Below(distances'[neighbor]) {
        distances' := distances'[neighbor := Fin(newDistance)];
        previousNodes' := previousNodes'[neighbor := Some(currentNode)];
        heap' := heap' + [HeapItem(newDistance, neighbor)];
      }
      assert Front(edges[..i + 1]) == edges[..i];
      i := i + 1;
    }
    assert edges[..i] == edges;
  }

  // ---------------------------------------------------------------------------------------
  // The invariants of Dijkstra's loops and the steps that keep them

  /** Every frontier entry is at or above the current distance of its node. */
  ghost predicate HeapSound(distances: map<NodeId, Dist>, heap: seq<HeapItem>)
  {
    forall e {:trigger e in heap} :: e in heap ==> e.node in distances && distances[e.node].Fin? && distances[e.node].d <= e.distance
  }

  /** Every finite node not yet expanded has an entry carrying its current distance. */
  ghost predicate HeapComplete(distances: map<NodeId, Dist>, visited: set<NodeId>, heap: seq<HeapItem>)
  {
    forall v {:trigger distances[v]} :: v in distances && v !in visited && distances[v].Fin? ==> HeapItem(distances[v].d, v) in heap
  }

  /** Expanded nodes are no farther than any frontier entry. */
  ghost predicate ExpandedFirst(distances: map<NodeId, Dist>, visited: set<NodeId>, heap: seq<HeapItem>)
  {
    forall x, e {:trigger x in visited, e in heap} :: x in visited && x in distances && distances[x].Fin? && e in heap ==> distances[x].d <= e.distance
  }

  /** The tables' domains, the start's distance and the expansion order. */
  ghost predicate Shape(adj: Adjacency, start: NodeId, distances: map<NodeId, Dist>,
                        previousNodes: map<NodeId, Option<NodeId>>, visited: set<NodeId>, rank: map<NodeId, nat>)
  {
    && Domains(adj, start, distances, previousNodes)
    && visited <= distances.Keys
    && Ranked(visited, rank)
  }

  /** The tables are keyed by the adjacency keys (and the start), and the start is at 0. */
  ghost predicate Domains(adj: Adjacency, start: NodeId, distances: map<NodeId, Dist>,
                          previousNodes: map<NodeId, Option<NodeId>>)
  {
    && TargetsKnown(adj, start)
    && distances.Keys == adj.Keys + {start} && previousNodes.Keys == adj.Keys
    && distances[start] == Fin(0)
  }

  /** `rank` numbers the expanded nodes in the order they were expanded. */
  ghost predicate Ranked(visited: set<NodeId>, rank: map<NodeId, nat>)
  {
    rank.Keys == visited && forall v {:trigger rank[v]} :: v in rank ==> rank[v] < |visited|
  }

  /** The invariant of the outer loop (`while heap`). */
  ghost predicate FrontierInv(adj: Adjacency, start: NodeId, distances: map<NodeId, Dist>,
                              previousNodes: map<NodeId, Option<NodeId>>, heap: seq<HeapItem>,
                              visited: set<NodeId>, rank: map<NodeId, nat>)
  {
    && Shape(adj, start, distances, previousNodes, visited, rank)
    && Settled(adj, start, distances, visited)
    && HeapSound(distances, heap)
    && HeapComplete(distances, visited, heap)
    && ExpandedFirst(distances, visited, heap)
    && Relaxed(adj, distances, visited)
    && LinksConsistent(adj, start, distances, previousNodes, rank)
  }

  /** The relaxation `distances[e.target] <= base + e.weight` holds for edge `e`. */
  ghost predicate EdgeRelaxed(distances: map<NodeId, Dist>, base: nat, e: Edge)
  {
    e.target in distances && distances[e.target].Fin? && distances[e.target].d <= base + e.weight
  }

  /** The invariant of the inner loop that relaxes the first `i` edges of the expanded node `cur`. */
  ghost predicate ExpandInv(adj: Adjacency, start: NodeId, distances: map<NodeId, Dist>,
                            previousNodes: map<NodeId, Option<NodeId>>, heap: seq<HeapItem>,
                            visited: set<NodeId>, rank: map<NodeId, nat>, cur: NodeId, base: nat, i: nat)
  {
    && Shape(adj, start, distances, previousNodes, visited, rank)
    && cur in visited && distances[cur] == Fin(base)
    && i <= |Neighbors(adj, cur)|
    && Settled(adj, start, distances, visited)
    && (forall x {:trigger x in visited} :: x in visited ==> distances[x].d <= base)
    && HeapSound(distances, heap)
    && HeapComplete(distances, visited, heap)
    && ExpandedFirst(distances, visited, heap)
    && Relaxed(adj, distances, visited - {cur})
    && (forall j :: 0 <= j < i ==> EdgeRelaxed(distances, base, Neighbors(adj, cur)[j]))
    && LinksConsistent(adj, start, distances, previousNodes, rank)
  }

  /** The tables as Dijkstra seeds them: every key at infinity without a predecessor, the
      start at 0, and the start alone on the frontier. */
  lemma Initially(adj: Adjacency, start: NodeId)
    requires TargetsKnown(adj, start)
    ensures FrontierInv(adj, start, (map v | v in adj :: Inf)[start := Fin(0)], map v | v in adj :: None,
                        [HeapItem(0, start)], {}, map[])
  {
    var distances := (map v | v in adj :: Inf)[start := Fin(0)];
    var previousNodes: map<NodeId, Option<NodeId>> := map v | v in adj :: None;
    var heap, rank: map<NodeId, nat> := [HeapItem(0, start)], map[];
    forall v | v in distances && distances[v].Fin?
      ensures v == start
    {
    }
    assert HeapComplete(distances, {}, heap);
    forall v
      ensures LinkOk(adj, distances, previousNodes, rank, v)
    {
    }
    assert LinksConsistent(adj, start, distances, previousNodes, rank);
  }

  /** What is left after a pop is part of what was there. */
  lemma RestFromHeap(heap: seq<HeapItem>, rest: seq<HeapItem>, item: HeapItem)
    requires multiset(heap) == multiset(rest) + multiset{item}
    ensures forall e :: e in rest ==> e in heap
  {
    forall e | e in rest
      ensures e in heap
    {
      assert e in multiset(rest);
      assert multiset(heap)[e] == multiset(rest)[e] + multiset{item}[e];
      assert e in multiset(heap);
    }
  }

  /** Popping an entry whose node is already expanded keeps the outer invariant. */
  lemma StaleEntry(adj: Adjacency, start: NodeId, distances: map<NodeId, Dist>,
                   previousNodes: map<NodeId, Option<NodeId>>, heap: seq<HeapItem>, rest: seq<HeapItem>,
                   item: HeapItem, visited: set<NodeId>, rank: map<NodeId, nat>)
    requires FrontierInv(adj, start, distances, previousNodes, heap, visited, rank)
    requires multiset(heap) == multiset(rest) + multiset{item}
    requires item.node in visited
    ensures FrontierInv(adj, start, distances, previousNodes, rest, visited, rank)
  {
    RestFromHeap(heap, rest, item);
    forall v | v in distances && v !in visited && distances[v].Fin?
      ensures HeapItem(distances[v].d, v) in rest
    {
      assert HeapItem(distances[v].d, v) in multiset(heap);
    }
  }

  /** Popping a least entry whose node is not expanded yet: the node's distance is final, and
      expanding it starts the inner loop with its invariant and shrinks the unexpanded set. */
  lemma BeginExpansion(adj: Adjacency, start: NodeId, distances: map<NodeId, Dist>,
                       previousNodes: map<NodeId, Option<NodeId>>, heap: seq<HeapItem>, rest: seq<HeapItem>,
                       item: HeapItem, visited: set<NodeId>, rank: map<NodeId, nat>)
    requires FrontierInv(adj, start, distances, previousNodes, heap, visited, rank)
    requires item in heap && forall e :: e in heap ==> item.distance <= e.distance
    requires multiset(heap) == multiset(rest) + multiset{item}
    requires item.node !in visited
    ensures item.node in distances && distances[item.node].Fin?
    ensures ExpandInv(adj, start, distances, previousNodes, rest, visited + {item.node},
                      rank[item.node := |visited|], item.node, distances[item.node].d, 0)
    ensures |(adj.Keys + {start}) - (visited + {item.node})| < |(adj.Keys + {start}) - visited|
  {
    var cur := item.node;
    PoppedIsCurrent(distances, visited, heap, item);
    FrontierBound(adj, start, distances, visited, item.distance);
    PoppedSettled(adj, start, distances, visited, cur);
    PopKeepsFrontier(distances, visited, heap, rest, item);
    ExpansionKeepsLinks(adj, start, distances, previousNodes, visited, rank, cur);
    ExpansionKeepsShape(adj, start, distances, previousNodes, visited, rank, cur);
    assert (adj.Keys + {start}) - (visited + {cur}) < (adj.Keys + {start}) - visited;
  }

  /** The popped least entry of a node not yet expanded carries that node's current distance,
      and no other unexpanded node is nearer. */
  lemma PoppedIsCurrent(distances: map<NodeId, Dist>, visited: set<NodeId>, heap: seq<HeapItem>, item: HeapItem)
    requires HeapSound(distances, heap) && HeapComplete(distances, visited, heap)
    requires item in heap && forall e :: e in heap ==> item.distance <= e.distance
    requires item.node !in visited
    ensures item.node in distances && distances[item.node] == Fin(item.distance)
    ensures forall v :: v in distances && v !in visited && distances[v].Fin? ==> item.distance <= distances[v].d
  {
    forall v | v in distances && v !in visited && distances[v].Fin?
      ensures item.distance <= distances[v].d
    {
      assert HeapItem(distances[v].d, v) in heap;
    }
  }

  /** A node whose distance bounds every unexpanded distance from below is settled on expansion. */
  lemma PoppedSettled(adj: Adjacency, start: NodeId, distances: map<NodeId, Dist>, visited: set<NodeId>, cur: NodeId)
    requires Settled(adj, start, distances, visited)
    requires cur in distances && distances[cur].Fin? && cur !in visited
    requires forall hops :: IsWalk(adj, start, hops) && WalkEnd(start, hops) !in visited ==>
               distances[cur].d <= WalkWeight(hops)
    ensures Settled(adj, start, distances, visited + {cur})
  {
    assert LowerBound(adj, start, cur, distances[cur].d);
  }

  /** Removing the least entry keeps the frontier sound and complete for the enlarged expanded
      set, and every expanded node is no farther than the popped one. */
  lemma PopKeepsFrontier(distances: map<NodeId, Dist>, visited: set<NodeId>, heap: seq<HeapItem>,
                         rest: seq<HeapItem>, item: HeapItem)
    requires HeapSound(distances, heap) && HeapComplete(distances, visited, heap)
    requires ExpandedFirst(distances, visited, heap)
    requires forall x :: x in visited ==> x in distances && distances[x].Fin?
    requires item in heap && forall e :: e in heap ==> item.distance <= e.distance
    requires multiset(heap) == multiset(rest) + multiset{item}
    requires item.node in distances && distances[item.node] == Fin(item.distance)
    ensures var visited' := visited + {item.node};
            && HeapSound(distances, rest)
            && HeapComplete(distances, visited', rest)
            && ExpandedFirst(distances, visited', rest)
            && (forall x :: x in visited' ==> distances[x].Fin? && distances[x].d <= item.distance)
  {
    RestFromHeap(heap, rest, item);
    var visited' := visited + {item.node};
    forall v | v in distances && v !in visited' && distances[v].Fin?
      ensures HeapItem(distances[v].d, v) in rest
    {
      assert HeapItem(distances[v].d, v) in heap;
      assert HeapItem(distances[v].d, v) in multiset(heap);
    }
    forall x | x in visited'
      ensures distances[x].Fin? && distances[x].d <= item.distance
    {
      if x != item.node {
        assert x in visited && item in heap;
      }
    }
    forall x, e | x in visited' && x in distances && distances[x].Fin? && e in rest
      ensures distances[x].d <= e.distance
    {
      assert e in heap;
    }
  }

  /** Giving the expanded node the next rank keeps every recorded link consistent. */
  lemma ExpansionKeepsLinks(adj: Adjacency, start: NodeId, distances: map<NodeId, Dist>,
                            previousNodes: map<NodeId, Option<NodeId>>, visited: set<NodeId>,
                            rank: map<NodeId, nat>, cur: NodeId)
    requires LinksConsistent(adj, start, distances, previousNodes, rank)
    requires rank.Keys == visited && cur !in visited
    requires forall v :: v in rank ==> rank[v] < |visited|
    ensures LinksConsistent(adj, start, distances, previousNodes, rank[cur := |visited|])
  {
    var rank' := rank[cur := |visited|];
    forall v
      ensures LinkOk(adj, distances, previousNodes, rank', v)
    {
      assert LinkOk(adj, distances, previousNodes, rank, v);
    }
  }

  /** Expanding `cur` keeps the tables' shape, with `cur` given the next rank. */
  lemma ExpansionKeepsShape(adj: Adjacency, start: NodeId, distances: map<NodeId, Dist>,
                            previousNodes: map<NodeId, Option<NodeId>>, visited: set<NodeId>,
                            rank: map<NodeId, nat>, cur: NodeId)
    requires Shape(adj, start, distances, previousNodes, visited, rank)
    requires cur in distances && cur !in visited
    ensures Shape(adj, start, distances, previousNodes, visited + {cur}, rank[cur := |visited|])
    ensures (visited + {cur}) - {cur} == visited
  {
    ExpansionKeepsRanked(visited, rank, cur);
    assert (visited + {cur}) - {cur} == visited;
  }

  /** Giving a newly expanded node the next number keeps the numbering below the count. */
  lemma ExpansionKeepsRanked(visited: set<NodeId>, rank: map<NodeId, nat>, cur: NodeId)
    requires Ranked(visited, rank) && cur !in visited
    ensures Ranked(visited + {cur}, rank[cur := |visited|])
  {
    var visited', rank' := visited + {cur}, rank[cur := |visited|];
    assert |visited'| == |visited| + 1;
    forall v | v in rank'
      ensures rank'[v] < |visited'|
    {
      if v != cur {
        assert rank'[v] == rank[v];
      }
    }
  }

  /** The edge being relaxed leads to a node of the distance table. */
  lemma EdgeTargetKnown(adj: Adjacency, start: NodeId, distances: map<NodeId, Dist>,
                        previousNodes: map<NodeId, Option<NodeId>>, heap: seq<HeapItem>,
                        visited: set<NodeId>, rank: map<NodeId, nat>, cur: NodeId, base: nat, i: nat)
    requires ExpandInv(adj, start, distances, previousNodes, heap, visited, rank, cur, base, i)
    requires i < |Neighbors(adj, cur)|
    ensures Neighbors(adj, cur)[i].target in distances
  {
    assert cur in adj;
    assert Neighbors(adj, cur)[i] in adj[cur];
  }

  /** Every edge out of `cur` leads to a node of the distance table. */
  lemma NeighborsKnown(adj: Adjacency, start: NodeId, distances: map<NodeId, Dist>, cur: NodeId)
    requires TargetsKnown(adj, start) && distances.Keys == adj.Keys + {start}
    ensures forall e :: e in Neighbors(adj, cur) ==> e.target in distances
  {
  }

  /** Relaxing edge `i` of the expanded node keeps the inner invariant for `i + 1`, whether
      or not the edge improves its target. */
  lemma RelaxStep(adj: Adjacency, start: NodeId, t: Tables, visited: set<NodeId>, rank: map<NodeId, nat>,
                  cur: NodeId, base: nat, i: nat, e: Edge)
    requires ExpandInv(adj, start, t.distances, t.previousNodes, t.heap, visited, rank, cur, base, i)
    requires i < |Neighbors(adj, cur)| && e == Neighbors(adj, cur)[i]
    ensures var r := RelaxEdge(cur, base, e, t);
            ExpandInv(adj, start, r.distances, r.previousNodes, r.heap, visited, rank, cur, base, i + 1)
  {
    EdgeTargetKnown(adj, start, t.distances, t.previousNodes, t.heap, visited, rank, cur, base, i);
    var r := RelaxEdge(cur, base, e, t);
    if Fin(base + e.weight).Below(t.distances[e.target]) {
      assert r.distances == t.distances[e.target := Fin(base + e.weight)];
      assert r.previousNodes == t.previousNodes[e.target := Some(cur)];
      assert r.heap == t.heap + [HeapItem(base + e.weight, e.target)];
      RelaxImproves(adj, start, t.distances, t.previousNodes, t.heap, visited, rank, cur, base, i, e);
    } else {
      assert r == t;
      RelaxKeeps(adj, start, t.distances, t.previousNodes, t.heap, visited, rank, cur, base, i);
    }
  }

  /** Relaxing the first `i` edges of the expanded node keeps the inner invariant. */
  lemma {:induction false} RelaxEdgesKeeps(adj: Adjacency, start: NodeId, t: Tables, visited: set<NodeId>,
                                           rank: map<NodeId, nat>, cur: NodeId, base: nat, i: nat)
    requires ExpandInv(adj, start, t.distances, t.previousNodes, t.heap, visited, rank, cur, base, 0)
    requires i <= |Neighbors(adj, cur)|
    ensures var r := RelaxEdges(cur, base, Neighbors(adj, cur)[..i], t);
            ExpandInv(adj, start, r.distances, r.previousNodes, r.heap, visited, rank, cur, base, i)
    decreases i
  {
    var edges := Neighbors(adj, cur);
    if i == 0 {
      assert edges[..0] == [];
    } else {
      RelaxEdgesKeeps(adj, start, t, visited, rank, cur, base, i - 1);
      assert Front(edges[..i]) == edges[..i - 1];
      RelaxStep(adj, start, RelaxEdges(cur, base, edges[..i - 1], t), visited, rank, cur, base, i - 1, edges[i - 1]);
    }
  }

  /** Relaxing all edges of the expanded node restores the outer invariant. */
  lemma FinishExpansion(adj: Adjacency, start: NodeId, t: Tables, visited: set<NodeId>,
                        rank: map<NodeId, nat>, cur: NodeId, base: nat)
    requires ExpandInv(adj, start, t.distances, t.previousNodes, t.heap, visited, rank, cur, base, 0)
    ensures var r := RelaxEdges(cur, base, Neighbors(adj, cur), t);
            FrontierInv(adj, start, r.distances, r.previousNodes, r.heap, visited, rank)
  {
    var edges := Neighbors(adj, cur);
    RelaxEdgesKeeps(adj, start, t, visited, rank, cur, base, |edges|);
    assert edges[..|edges|] == edges;
    var r := RelaxEdges(cur, base, edges, t);
    EndExpansion(adj, start, r.distances, r.previousNodes, r.heap, visited, rank, cur, base);
  }

  /** Edge `i` of the expanded node does not improve its target: nothing changes, and the
      edge counts as relaxed. */
  lemma RelaxKeeps(adj: Adjacency, start: NodeId, distances: map<NodeId, Dist>,
                   previousNodes: map<NodeId, Option<NodeId>>, heap: seq<HeapItem>,
                   visited: set<NodeId>, rank: map<NodeId, nat>, cur: NodeId, base: nat, i: nat)
    requires ExpandInv(adj, start, distances, previousNodes, heap, visited, rank, cur, base, i)
    requires i < |Neighbors(adj, cur)|
    requires var e := Neighbors(adj, cur)[i];
             e.target in distances && !Fin(base + e.weight).Below(distances[e.target])
    ensures ExpandInv(adj, start, distances, previousNodes, heap, visited, rank, cur, base, i + 1)
  {
  }

  /** Edge `i` of the expanded node improves its target: recording the new distance, the new
      predecessor and a fresh frontier entry keeps the inner invariant for `i + 1`. */
  lemma RelaxImproves(adj: Adjacency, start: NodeId, distances: map<NodeId, Dist>,
                      previousNodes: map<NodeId, Option<NodeId>>, heap: seq<HeapItem>,
                      visited: set<NodeId>, rank: map<NodeId, nat>, cur: NodeId, base: nat, i: nat, e: Edge)
    requires ExpandInv(adj, start, distances, previousNodes, heap, visited, rank, cur, base, i)
    requires i < |Neighbors(adj, cur)| && e == Neighbors(adj, cur)[i]
    requires e.target in distances && Fin(base + e.weight).Below(distances[e.target])
    ensures ExpandInv(adj, start, distances[e.target := Fin(base + e.weight)],
                      previousNodes[e.target := Some(cur)], heap + [HeapItem(base + e.weight, e.target)],
                      visited, rank, cur, base, i + 1)
  {
    var t, nd := e.target, base + e.weight;
    assert t !in visited;
    assert t != start;
    ImproveKeepsShape(adj, start, distances, previousNodes, visited, rank, t, nd, cur);
    ImproveKeepsSettled(adj, start, distances, visited, t, nd);
    ImproveKeepsFrontier(distances, visited, heap, base, t, nd);
    ImproveKeepsRelaxed(adj, distances, visited - {cur}, t, nd);
    ImproveKeepsPrefix(Neighbors(adj, cur), distances, base, i, t, nd);
    ImproveKeepsLinks(adj, start, distances, previousNodes, rank, cur, base, t, nd);
  }

  lemma ImproveKeepsShape(adj: Adjacency, start: NodeId, distances: map<NodeId, Dist>,
                          previousNodes: map<NodeId, Option<NodeId>>, visited: set<NodeId>,
                          rank: map<NodeId, nat>, t: NodeId, nd: nat, cur: NodeId)
    requires Shape(adj, start, distances, previousNodes, visited, rank)
    requires t in distances && t != start
    ensures Shape(adj, start, distances[t := Fin(nd)], previousNodes[t := Some(cur)], visited, rank)
  {
  }

  lemma ImproveKeepsSettled(adj: Adjacency, start: NodeId, distances: map<NodeId, Dist>,
                            visited: set<NodeId>, t: NodeId, nd: nat)
    requires Settled(adj, start, distances, visited)
    requires t !in visited
    ensures Settled(adj, start, distances[t := Fin(nd)], visited)
  {
    forall u | u in visited
      ensures u in distances[t := Fin(nd)] && distances[t := Fin(nd)][u] == distances[u]
    {
    }
  }

  lemma ImproveKeepsFrontier(distances: map<NodeId, Dist>, visited: set<NodeId>, heap: seq<HeapItem>,
                             base: nat, t: NodeId, nd: nat)
    requires HeapSound(distances, heap)
    requires HeapComplete(distances, visited, heap)
    requires ExpandedFirst(distances, visited, heap)
    requires forall x :: x in visited ==> x in distances && distances[x].Fin? && distances[x].d <= base
    requires t in distances && Fin(nd).Below(distances[t]) && t !in visited && base <= nd
    ensures var distances' := distances[t := Fin(nd)];
            var heap' := heap + [HeapItem(nd, t)];
            HeapSound(distances', heap') && HeapComplete(distances', visited, heap') &&
            ExpandedFirst(distances', visited, heap')
  {
  }

  lemma ImproveKeepsRelaxed(adj: Adjacency, distances: map<NodeId, Dist>, visited: set<NodeId>,
                            t: NodeId, nd: nat)
    requires Relaxed(adj, distances, visited)
    requires t in distances && Fin(nd).Below(distances[t]) && t !in visited
    ensures Relaxed(adj, distances[t := Fin(nd)], visited)
  {
  }

  lemma ImproveKeepsPrefix(edges: seq<Edge>, distances: map<NodeId, Dist>, base: nat, i: nat,
                           t: NodeId, nd: nat)
    requires i < |edges| && edges[i].target == t && nd == base + edges[i].weight
    requires forall j :: 0 <= j < i ==> EdgeRelaxed(distances, base, edges[j])
    requires t in distances && Fin(nd).Below(distances[t])
    ensures forall j :: 0 <= j < i + 1 ==> EdgeRelaxed(distances[t := Fin(nd)], base, edges[j])
  {
  }

  lemma ImproveKeepsLinks(adj: Adjacency, start: NodeId, distances: map<NodeId, Dist>,
                          previousNodes: map<NodeId, Option<NodeId>>, rank: map<NodeId, nat>,
                          cur: NodeId, base: nat, t: NodeId, nd: nat)
    requires LinksConsistent(adj, start, distances, previousNodes, rank)
    requires cur in rank && cur in distances && distances[cur] == Fin(base) && base <= nd
    requires Edge(t, nd - base) in Neighbors(adj, cur)
    requires t in distances && t !in rank && t != start
    ensures LinksConsistent(adj, start, distances[t := Fin(nd)], previousNodes[t := Some(cur)], rank)
  {
    var distances' := distances[t := Fin(nd)];
    var previousNodes' := previousNodes[t := Some(cur)];
    forall v
      ensures LinkOk(adj, distances', previousNodes', rank, v)
    {
      assert LinkOk(adj, distances, previousNodes, rank, v);
      if v == t {
        assert Tight(adj, distances', cur, t);
      }
    }
  }

  /** When every edge of the expanded node is relaxed, the outer invariant holds again. */
  lemma EndExpansion(adj: Adjacency, start: NodeId, distances: map<NodeId, Dist>,
                     previousNodes: map<NodeId, Option<NodeId>>, heap: seq<HeapItem>,
                     visited: set<NodeId>, rank: map<NodeId, nat>, cur: NodeId, base: nat)
    requires ExpandInv(adj, start, distances, previousNodes, heap, visited, rank, cur, base, |Neighbors(adj, cur)|)
    ensures FrontierInv(adj, start, distances, previousNodes, heap, visited, rank)
  {
    var edges := Neighbors(adj, cur);
    forall u, e | u in visited && e in Neighbors(adj, u)
      ensures EdgeRelaxed(distances, distances[u].d, e)
    {
      if u == cur {
        var j :| 0 <= j < |edges| && edges[j] == e;
      }
    }
  }

  /** With an empty frontier the tables are final: finite exactly for the reachable nodes,
      each finite distance the weight of a shortest walk. */
  lemma Conclude(adj: Adjacency, start: NodeId, distances: map<NodeId, Dist>,
                 previousNodes: map<NodeId, Option<NodeId>>, visited: set<NodeId>, rank: map<NodeId, nat>)
    requires FrontierInv(adj, start, distances, previousNodes, [], visited, rank)
    ensures distances.Keys == adj.Keys + {start} && previousNodes.Keys == adj.Keys
    ensures distances[start] == Fin(0)
    ensures LinksConsistent(adj, start, distances, previousNodes, rank)
    ensures forall v :: v in distances ==> (distances[v].Fin? <==> Reachable(adj, start, v))
    ensures forall v :: v in distances && distances[v].Fin? ==> IsShortestDistance(adj, start, v, distances[v].d)
    ensures forall v :: v in rank <==> v in distances && distances[v].Fin?
  {
    forall v | v in distances
      ensures distances[v].Fin? <==> Reachable(adj, start, v)
      ensures distances[v].Fin? ==> IsShortestDistance(adj, start, v, distances[v].d)
    {
      if distances[v].Fin? {
        LinkedWalk(adj, start, distances, previousNodes, rank, v);
      }
      if Reachable(adj, start, v) {
        var hops :| IsWalkTo(adj, start, hops, v);
        WalkEndsExpanded(adj, start, distances, visited, hops);
      }
    }
  }

  // ---------------------------------------------------------------------------------------
  // Lemmas behind Dijkstra's correctness

  /** While the loop runs, a walk from the start that ends outside the expanded set weighs at
      least `m`, where `m` bounds from below every finite distance outside the expanded set:
      its last hop out of the expanded set was relaxed. */
  lemma {:induction false} FrontierWalkBound(adjacency: Adjacency, start: NodeId, distances: map<NodeId, Dist>,
                                             visited: set<NodeId>, m: nat, hops: seq<Edge>)
    requires start in distances && distances[start] == Fin(0)
    requires Settled(adjacency, start, distances, visited)
    requires Relaxed(adjacency, distances, visited)
    requires forall v :: v in distances && v !in visited && distances[v].Fin? ==> m <= distances[v].d
    requires IsWalk(adjacency, start, hops) && WalkEnd(start, hops) !in visited
    ensures m <= WalkWeight(hops)
    decreases |hops|
  {
    if hops != [] {
      var prefix := Front(hops);
      var x := WalkEnd(start, prefix);
      if x in visited {
        assert IsWalkTo(adjacency, start, prefix, x);
      } else {
        FrontierWalkBound(adjacency, start, distances, visited, m, prefix);
      }
    }
  }

  /** All walks from the start to a node outside the expanded set weigh at least `m`. */
  lemma FrontierBound(adjacency: Adjacency, start: NodeId, distances: map<NodeId, Dist>,
                      visited: set<NodeId>, m: nat)
    requires start in distances && distances[start] == Fin(0)
    requires Settled(adjacency, start, distances, visited)
    requires Relaxed(adjacency, distances, visited)
    requires forall v :: v in distances && v !in visited && distances[v].Fin? ==> m <= distances[v].d
    ensures forall hops :: IsWalk(adjacency, start, hops) && WalkEnd(start, hops) !in visited ==>
              m <= WalkWeight(hops)
  {
    forall hops | IsWalk(adjacency, start, hops) && WalkEnd(start, hops) !in visited
      ensures m <= WalkWeight(hops)
    {
      FrontierWalkBound(adjacency, start, distances, visited, m, hops);
    }
  }

  /** Once the frontier is empty, every walk from the start ends at an expanded node. */
  lemma {:induction false} WalkEndsExpanded(adjacency: Adjacency, start: NodeId, distances: map<NodeId, Dist>,
                                            visited: set<NodeId>, hops: seq<Edge>)
    requires start in distances && distances[start].Fin?
    requires Relaxed(adjacency, distances, visited)
    requires forall v :: v in distances && distances[v].Fin? ==> v in visited
    requires IsWalk(adjacency, start, hops)
    ensures WalkEnd(start, hops) in visited
    decreases |hops|
  {
    if hops != [] {
      WalkEndsExpanded(adjacency, start, distances, visited, Front(hops));
    }
  }

  /** Following tight predecessor links from `v` back to the start gives a walk whose weight
      is the distance of `v`. */
  lemma {:induction false} LinkedWalk(adjacency: Adjacency, start: NodeId, distances: map<NodeId, Dist>,
                                      previousNodes: map<NodeId, Option<NodeId>>, rank: map<NodeId, nat>, v: NodeId)
    requires distances.Keys == previousNodes.Keys + {start}
    requires distances[start] == Fin(0)
    requires LinksConsistent(adjacency, start, distances, previousNodes, rank)
    requires forall x :: x in distances && distances[x].Fin? ==> x in rank
    requires v in distances && distances[v].Fin?
    ensures exists hops :: IsWalkTo(adjacency, start, hops, v) && WalkWeight(hops) == distances[v].d
    decreases rank[v]
  {
    if v == start {
      assert IsWalkTo(adjacency, start, [], v) && WalkWeight([]) == 0;
    } else {
      assert LinkOk(adjacency, distances, previousNodes, rank, v);
      var u := previousNodes[v].value;
      LinkedWalk(adjacency, start, distances, previousNodes, rank, u);
      var prefix :| IsWalkTo(adjacency, start, prefix, u) && WalkWeight(prefix) == distances[u].d;
      ExtendWalk(adjacency, start, prefix, Edge(v, distances[v].d - distances[u].d));
    }
  }
}
