/** The demo of task_3.py: seven weighted edges loaded as bidirectional edges, and Dijkstra
    from "A" on the resulting graph. */
module GraphDemos {
  import opened Wrappers
  import opened Seqs
  import opened ShortestPaths

  /** One row of the demo's edge list: `(source, target, weight)`. */
  datatype WeightedEdge = WeightedEdge(source: NodeId, target: NodeId, weight: nat)

  /** The demo's edge list, in the order it is loaded. */
  function DemoEdges(): seq<WeightedEdge>
  {
    [ WeightedEdge("A", "B", 4), WeightedEdge("A", "C", 2), WeightedEdge("B", "C", 5),
      WeightedEdge("B", "D", 10), WeightedEdge("C", "E", 3), WeightedEdge("E", "D", 4),
      WeightedEdge("D", "F", 11) ]
  }

  /** `adjacency` after `add_edge(e.source, e.target, e.weight, bidirectional=True)`. */
  function AddBoth(adjacency: Adjacency, e: WeightedEdge): Adjacency
  {
    Appended(Appended(adjacency, e.source, Edge(e.target, e.weight)), e.target, Edge(e.source, e.weight))
  }

  /** `adjacency` after `AddBoth` of each row of `edges` in order. */
  function LoadedBoth(adjacency: Adjacency, edges: seq<WeightedEdge>): Adjacency
    decreases |edges|
  {
    if edges == [] then adjacency else AddBoth(LoadedBoth(adjacency, Front(edges)), Last(edges))
  }

  /** Loading only bidirectional edges into a closed map leaves it closed. */
  lemma {:induction false} LoadedBothClosed(adjacency: Adjacency, edges: seq<WeightedEdge>)
    requires Closed(adjacency)
    ensures Closed(LoadedBoth(adjacency, edges))
    decreases |edges|
  {
    if edges != [] {
      var e := Last(edges);
      LoadedBothClosed(adjacency, Front(edges));
      AppendedBothClosed(LoadedBoth(adjacency, Front(edges)), e.source, e.target, e.weight);
    }
  }

  /** The demo's six node names are pairwise different. */
  lemma DistinctNames()
    ensures "A" != "B" && "A" != "C" && "A" != "D" && "A" != "E" && "A" != "F"
    ensures "B" != "C" && "B" != "D" && "B" != "E" && "B" != "F"
    ensures "C" != "D" && "C" != "E" && "C" != "F"
    ensures "D" != "E" && "D" != "F"
    ensures "E" != "F"
  {
    assert "A"[0] == 'A' && "B"[0] == 'B' && "C"[0] == 'C' && "D"[0] == 'D' && "E"[0] == 'E' && "F"[0] == 'F';
  }

  /** The adjacency lists the demo ends up with. */
  function DemoAdjacency(): Adjacency
  {
    map[ "A" := [Edge("B", 4), Edge("C", 2)],
         "B" := [Edge("A", 4), Edge("C", 5), Edge("D", 10)],
         "C" := [Edge("A", 2), Edge("B", 5), Edge("E", 3)],
         "D" := [Edge("B", 10), Edge("E", 4), Edge("F", 11)],
         "E" := [Edge("C", 3), Edge("D", 4)],
         "F" := [Edge("D", 11)] ]
  }

  /** The shortest distances from "A" the demo reports. */
  function DemoDistances(): map<NodeId, nat>
  {
    map["A" := 0, "B" := 4, "C" := 2, "D" := 9, "E" := 5, "F" := 20]
  }

  /** The adjacency lists after loading the first `k` rows of the demo's edge list. */
  function DemoAfter(k: nat): Adjacency
    requires k <= 7
  {
    match k
    case 0 => map[]
    case 1 => map["A" := [Edge("B", 4)], "B" := [Edge("A", 4)]]
    case 2 => map["A" := [Edge("B", 4), Edge("C", 2)], "B" := [Edge("A", 4)], "C" := [Edge("A", 2)]]
    case 3 => map["A" := [Edge("B", 4), Edge("C", 2)], "B" := [Edge("A", 4), Edge("C", 5)],
                  "C" := [Edge("A", 2), Edge("B", 5)]]
    case 4 => map["A" := [Edge("B", 4), Edge("C", 2)], "B" := [Edge("A", 4), Edge("C", 5), Edge("D", 10)],
                  "C" := [Edge("A", 2), Edge("B", 5)], "D" := [Edge("B", 10)]]
    case 5 => map["A" := [Edge("B", 4), Edge("C", 2)], "B" := [Edge("A", 4), Edge("C", 5), Edge("D", 10)],
                  "C" := [Edge("A", 2), Edge("B", 5), Edge("E", 3)], "D" := [Edge("B", 10)],
                  "E" := [Edge("C", 3)]]
    case 6 => map["A" := [Edge("B", 4), Edge("C", 2)], "B" := [Edge("A", 4), Edge("C", 5), Edge("D", 10)],
                  "C" := [Edge("A", 2), Edge("B", 5), Edge("E", 3)], "D" := [Edge("B", 10), Edge("E", 4)],
                  "E" := [Edge("C", 3), Edge("D", 4)]]
    case _ => DemoAdjacency()
  }

  /** Loading the demo's edge list into an empty graph gives `DemoAdjacency()`. */
  lemma DemoLoaded()
    ensures LoadedBoth(map[], DemoEdges()) == DemoAdjacency()
  {
    var edges := DemoEdges();
    assert edges[..0] == [];
    for k := 0 to 7
      invariant LoadedBoth(map[], edges[..k]) == DemoAfter(k)
    {
      LoadedPrefix(edges, k);
      DemoStep(k);
    }
    assert edges[..7] == edges;
  }

  /** Loading row `k` of the demo's edge list. */
  lemma DemoStep(k: nat)
    requires k < 7
    ensures AddBoth(DemoAfter(k), DemoEdges()[k]) == DemoAfter(k + 1)
  {
    if k < 4 {
      DemoStepLow(k);
    } else {
      DemoStepHigh(k);
    }
  }

  lemma DemoStepLow(k: nat)
    requires k < 4
    ensures AddBoth(DemoAfter(k), DemoEdges()[k]) == DemoAfter(k + 1)
  {
    DistinctNames();
    if k == 0 {
      AddBothStep(DemoAfter(0), DemoEdges()[0], [Edge("B", 4)], [Edge("A", 4)]);
    } else if k == 1 {
      AddBothStep(DemoAfter(1), DemoEdges()[1], [Edge("B", 4), Edge("C", 2)], [Edge("A", 2)]);
    } else if k == 2 {
      AddBothStep(DemoAfter(2), DemoEdges()[2], [Edge("A", 4), Edge("C", 5)], [Edge("A", 2), Edge("B", 5)]);
    } else {
      AddBothStep(DemoAfter(3), DemoEdges()[3], [Edge("A", 4), Edge("C", 5), Edge("D", 10)], [Edge("B", 10)]);
    }
  }

  lemma DemoStepHigh(k: nat)
    requires 4 <= k < 7
    ensures AddBoth(DemoAfter(k), DemoEdges()[k]) == DemoAfter(k + 1)
  {
    DistinctNames();
    if k == 4 {
      AddBothStep(DemoAfter(4), DemoEdges()[4], [Edge("A", 2), Edge("B", 5), Edge("E", 3)], [Edge("C", 3)]);
    } else if k == 5 {
      AddBothStep(DemoAfter(5), DemoEdges()[5], [Edge("C", 3), Edge("D", 4)], [Edge("B", 10), Edge("E", 4)]);
    } else {
      AddBothStep(DemoAfter(6), DemoEdges()[6], [Edge("B", 10), Edge("E", 4), Edge("F", 11)], [Edge("D", 11)]);
    }
  }

  /** Adding a bidirectional edge between two different nodes appends one entry to each of
      their lists. */
  lemma AddBothStep(adjacency: Adjacency, e: WeightedEdge, s: seq<Edge>, t: seq<Edge>)
    requires e.source != e.target
    requires s == Neighbors(adjacency, e.source) + [Edge(e.target, e.weight)]
    requires t == Neighbors(adjacency, e.target) + [Edge(e.source, e.weight)]
    ensures AddBoth(adjacency, e) == adjacency[e.source := s][e.target := t]
  {
  }

  /** Loading one more row adds it to what the rows before it loaded. */
  lemma LoadedPrefix(edges: seq<WeightedEdge>, k: nat)
    requires k < |edges|
    ensures LoadedBoth(map[], edges[..k + 1]) == AddBoth(LoadedBoth(map[], edges[..k]), edges[k])
  {
    assert Front(edges[..k + 1]) == edges[..k];
  }

  /** The demo's distances are a feasible potential: no edge shortens them. */
  lemma DemoFeasible()
    ensures Feasible(DemoAdjacency(), DemoDistances())
  {
    var adj, pot := DemoAdjacency(), DemoDistances();
    forall u, e: Edge | u in adj && e in adj[u]
      ensures u in pot && e.target in pot && pot[e.target] <= pot[u] + e.weight
    {
      DemoEdgeFeasible(u, e);
    }
  }

  lemma DemoEdgeFeasible(u: NodeId, e: Edge)
    requires u in DemoAdjacency() && e in DemoAdjacency()[u]
    ensures u in DemoDistances() && e.target in DemoDistances()
    ensures DemoDistances()[e.target] <= DemoDistances()[u] + e.weight
  {
    DistinctNames();
    var adj := DemoAdjacency();
    if u == "A" {
      assert e == Edge("B", 4) || e == Edge("C", 2);
    } else if u == "B" {
      assert e == Edge("A", 4) || e == Edge("C", 5) || e == Edge("D", 10);
    } else if u == "C" {
      assert e == Edge("A", 2) || e == Edge("B", 5) || e == Edge("E", 3);
    } else if u == "D" {
      assert e == Edge("B", 10) || e == Edge("E", 4) || e == Edge("F", 11);
    } else if u == "E" {
      assert e == Edge("C", 3) || e == Edge("D", 4);
    } else {
      assert e == Edge("D", 11);
    }
  }

  /** A walk through the given nodes of the demo, built hop by hop. */
  lemma DemoWalks()
    ensures IsWalkTo(DemoAdjacency(), "A", [], "A") && WalkWeight([]) == 0
    ensures IsWalkTo(DemoAdjacency(), "A", [Edge("B", 4)], "B") && WalkWeight([Edge("B", 4)]) == 4
    ensures IsWalkTo(DemoAdjacency(), "A", [Edge("C", 2)], "C") && WalkWeight([Edge("C", 2)]) == 2
    ensures IsWalkTo(DemoAdjacency(), "A", [Edge("C", 2), Edge("E", 3)], "E")
    ensures WalkWeight([Edge("C", 2), Edge("E", 3)]) == 5
    ensures IsWalkTo(DemoAdjacency(), "A", DemoRoute(), "D") && WalkWeight(DemoRoute()) == 9
    ensures IsWalkTo(DemoAdjacency(), "A", DemoRoute() + [Edge("F", 11)], "F")
    ensures WalkWeight(DemoRoute() + [Edge("F", 11)]) == 20
  {
    var adj := DemoAdjacency();
    ExtendWalk(adj, "A", [], Edge("B", 4));
    ExtendWalk(adj, "A", [], Edge("C", 2));
    DemoRouteWalk();
    ExtendWalk(adj, "A", DemoRoute(), Edge("F", 11));
  }

  /** `DemoRoute()` is a walk from "A" to "D" of weight 9. */
  lemma DemoRouteWalk()
    ensures IsWalkTo(DemoAdjacency(), "A", [Edge("C", 2), Edge("E", 3)], "E")
    ensures WalkWeight([Edge("C", 2), Edge("E", 3)]) == 5
    ensures IsWalkTo(DemoAdjacency(), "A", DemoRoute(), "D") && WalkWeight(DemoRoute()) == 9
  {
    var adj := DemoAdjacency();
    ExtendWalk(adj, "A", [], Edge("C", 2));
    ExtendWalk(adj, "A", [Edge("C", 2)], Edge("E", 3));
    ExtendWalk(adj, "A", [Edge("C", 2), Edge("E", 3)], Edge("D", 4));
  }

  /** The hops of the demo's shortest route from "A" to "D". */
  function DemoRoute(): seq<Edge>
  {
    [Edge("C", 2), Edge("E", 3), Edge("D", 4)]
  }

  /** Every node of the demo is at the reported distance from "A". */
  lemma DemoShortest(v: NodeId)
    requires v in DemoDistances()
    ensures IsShortestDistance(DemoAdjacency(), "A", v, DemoDistances()[v])
  {
    var adj, pot := DemoAdjacency(), DemoDistances();
    DemoFeasible();
    DemoWalks();
    if v == "A" {
      PotentialIsShortest(adj, pot, "A", v, []);
    } else if v == "B" {
      PotentialIsShortest(adj, pot, "A", v, [Edge("B", 4)]);
    } else if v == "C" {
      PotentialIsShortest(adj, pot, "A", v, [Edge("C", 2)]);
    } else if v == "D" {
      PotentialIsShortest(adj, pot, "A", v, DemoRoute());
    } else if v == "E" {
      PotentialIsShortest(adj, pot, "A", v, [Edge("C", 2), Edge("E", 3)]);
    } else {
      PotentialIsShortest(adj, pot, "A", v, DemoRoute() + [Edge("F", 11)]);
    }
  }

  /** The table Dijkstra returns on the demo graph from "A" is the one the demo reports. */
  lemma DemoTable(distances: map<NodeId, Dist>)
    requires distances.Keys == DemoAdjacency().Keys + {"A"}
    requires forall v {:trigger Reachable(DemoAdjacency(), "A", v)} ::
               v in distances ==> (distances[v].Fin? <==> Reachable(DemoAdjacency(), "A", v))
    requires forall v {:trigger IsShortestDistance(DemoAdjacency(), "A", v, distances[v].d)} ::
               v in distances && distances[v].Fin? ==> IsShortestDistance(DemoAdjacency(), "A", v, distances[v].d)
    ensures distances == map["A" := Fin(0), "B" := Fin(4), "C" := Fin(2), "D" := Fin(9),
                             "E" := Fin(5), "F" := Fin(20)]
  {
    var pot := DemoDistances();
    forall v | v in pot
      ensures distances[v] == Fin(pot[v])
    {
      DemoEntry(distances, v);
    }
  }

  /** The distance Dijkstra finds for a node of the demo is the reported one. */
  lemma DemoEntry(distances: map<NodeId, Dist>, v: NodeId)
    requires distances.Keys == DemoAdjacency().Keys + {"A"}
    requires forall v {:trigger Reachable(DemoAdjacency(), "A", v)} ::
               v in distances ==> (distances[v].Fin? <==> Reachable(DemoAdjacency(), "A", v))
    requires forall v {:trigger IsShortestDistance(DemoAdjacency(), "A", v, distances[v].d)} ::
               v in distances && distances[v].Fin? ==> IsShortestDistance(DemoAdjacency(), "A", v, distances[v].d)
    requires v in DemoDistances()
    ensures distances[v] == Fin(DemoDistances()[v])
  {
    assert v in distances;
    assert distances[v].Fin? <==> Reachable(DemoAdjacency(), "A", v);
    DemoShortest(v);
    ShortestUnique(DemoAdjacency(), "A", v, distances[v].d, DemoDistances()[v]);
  }

  /** The tight edges of the demo, those along which the distance from "A" grows by exactly the
      edge's weight, form the tree A-B, A-C, C-E, E-D, D-F. */
  lemma DemoTightEdge(u: NodeId, e: Edge)
    requires u in DemoAdjacency() && e in DemoAdjacency()[u]
    requires u in DemoDistances() && e.target in DemoDistances()
    requires DemoDistances()[e.target] == DemoDistances()[u] + e.weight
    ensures || (u == "A" && e == Edge("B", 4)) || (u == "A" && e == Edge("C", 2))
            || (u == "C" && e == Edge("E", 3)) || (u == "E" && e == Edge("D", 4))
            || (u == "D" && e == Edge("F", 11))
  {
    DemoEdgeFeasible(u, e);
    DistinctNames();
    if u == "C" {
      assert e == Edge("A", 2) || e == Edge("B", 5) || e == Edge("E", 3);
    } else if u == "D" {
      assert e == Edge("B", 10) || e == Edge("E", 4) || e == Edge("F", 11);
    } else if u == "E" {
      assert e == Edge("C", 3) || e == Edge("D", 4);
    }
  }

  /** The last hop of a shortest walk from "A" in the demo is a tight edge, and the walk
      before it is a shortest walk too. */
  lemma DemoLastHop(hops: seq<Edge>, v: NodeId)
    requires IsWalkTo(DemoAdjacency(), "A", hops, v) && hops != []
    requires v in DemoDistances() && WalkWeight(hops) == DemoDistances()[v]
    ensures var u := WalkEnd("A", Front(hops));
            && IsWalk(DemoAdjacency(), "A", Front(hops))
            && u in DemoDistances() && WalkWeight(Front(hops)) == DemoDistances()[u]
            && Last(hops).target == v
            && (|| (u == "A" && Last(hops) == Edge("B", 4)) || (u == "A" && Last(hops) == Edge("C", 2))
                || (u == "C" && Last(hops) == Edge("E", 3)) || (u == "E" && Last(hops) == Edge("D", 4))
                || (u == "D" && Last(hops) == Edge("F", 11)))
  {
    var adj, pot := DemoAdjacency(), DemoDistances();
    DemoFeasible();
    TightLastHop(adj, pot, "A", hops);
    DemoTightEdge(WalkEnd("A", Front(hops)), Last(hops));
  }

  /** The only shortest walk from "A" to "D" in the demo goes through "C" and "E". */
  lemma DemoRouteUnique(hops: seq<Edge>)
    requires IsWalkTo(DemoAdjacency(), "A", hops, "D") && WalkWeight(hops) == 9
    ensures hops == DemoRoute()
    ensures Visits("A", hops) == ["A", "C", "E", "D"]
  {
    DistinctNames();
    DemoLastHop(hops, "D");
    var h2 := Front(hops);
    DemoLastHop(h2, "E");
    var h1 := Front(h2);
    DemoLastHop(h1, "C");
    var h0 := Front(h1);
    if h0 != [] {
      assert false;
    }
    assert hops == h0 + [Last(h1)] + [Last(h2)] + [Last(hops)];
  }

  /** The walk `shortest_path("A", "D")` rebuilds on the demo graph (a walk to "D" no walk
      beats) passes through "A", "C", "E", "D". */
  lemma DemoPath(hops: seq<Edge>)
    requires IsWalkTo(DemoAdjacency(), "A", hops, "D") && LowerBound(DemoAdjacency(), "A", "D", WalkWeight(hops))
    ensures Visits("A", hops) == ["A", "C", "E", "D"]
  {
    DemoRouteWalk();
    assert WalkWeight(hops) <= 9;
    DemoFeasible();
    PotentialBound(DemoAdjacency(), DemoDistances(), "A", hops);
    DemoRouteUnique(hops);
  }

  /** The demo of task_3.py: a graph loaded with the sample edges. */
  class GraphDemo {
    const graph: Graph

    /** Loads the sample edges into a fresh graph. */
    constructor ()
      ensures fresh(graph) && graph.adjacency == DemoAdjacency()
    {
      graph := new Graph();
      new;
      LoadEdges();
      DemoLoaded();
    }

    /** `add_edge(source, target, weight, bidirectional=True)` for each sample row in order. */
    method LoadEdges()
      modifies graph
      ensures graph.adjacency == LoadedBoth(old(graph.adjacency), DemoEdges())
    {
      ghost var start := graph.adjacency;
      var edges := DemoEdges();
      for i := 0 to |edges|
        invariant graph.adjacency == LoadedBoth(start, edges[..i])
      {
        var e := edges[i];
        graph.AddEdge(e.source, e.target, e.weight, true);
        assert Front(edges[..i + 1]) == edges[..i];
      }
      assert edges[..|edges|] == edges;
    }

    /** Dijkstra from "A" on the demo graph: the table the demo reports. */
    method Run() returns (distances: map<NodeId, Dist>)
      requires graph.adjacency == DemoAdjacency()
      ensures distances == map["A" := Fin(0), "B" := Fin(4), "C" := Fin(2), "D" := Fin(9),
                               "E" := Fin(5), "F" := Fin(20)]
    {
      LoadedBothClosed(map[], DemoEdges());
      DemoLoaded();
      ClosedTargetsKnown(graph.adjacency, "A");
      var previousNodes;
      ghost var rank;
      distances, previousNodes, rank := graph.Dijkstra("A");
      DemoTable(distances);
    }

    /** `shortest_path("A", "D")` on the demo graph rebuilds the route A, C, E, D. */
    method RunPath() returns (r: Result<seq<NodeId>, KeyError>)
      requires graph.adjacency == DemoAdjacency()
      ensures r == Ok(["A", "C", "E", "D"])
    {
      LoadedBothClosed(map[], DemoEdges());
      DemoLoaded();
      ClosedTargetsKnown(graph.adjacency, "A");
      ghost var hops;
      r, hops := graph.ShortestPath("A", "D");
      DemoRouteWalk();
      assert Reachable(DemoAdjacency(), "A", "D");
      DemoPath(hops);
    }
  }
}
