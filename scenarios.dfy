/**
 Clients of GraphImpl that use nothing but the contracts: on a small graph
 they pin down exactly what getPath returns.
 */
module GraphScenarios {
  import opened Wrappers
  import opened Walks
  import opened GraphImpl

  /** Nodes 1..4 and no edges, searched breadth-first. */
  method FourNodes() returns (g: Graph<int>)
    ensures fresh(g) && g.Valid() && g.searchMode == BREATH
    ensures g.nodes.Keys == {1, 2, 3, 4}
    ensures g.nodes[1] == {} && g.nodes[2] == {} && g.nodes[3] == {} && g.nodes[4] == {}
  {
    g := new Graph<int>.Default();
    g.AddNode(Some(1));
    g.AddNode(Some(2));
    g.AddNode(Some(3));
    g.AddNode(Some(4));
  }

  /** Nodes 1..4 with the edges 1->2, 2->3, 1->3 and 3->4, searched breadth-first. */
  method BuildDiamond() returns (g: Graph<int>)
    ensures fresh(g) && g.Valid() && g.searchMode == BREATH
    ensures g.nodes.Keys == {1, 2, 3, 4}
    ensures g.nodes[1] == {2, 3} && g.nodes[2] == {3} && g.nodes[3] == {4} && g.nodes[4] == {}
  {
    g := FourNodes();
    g.AddEdge(1, 2);
    assert g.nodes[1] == {2};
    g.AddEdge(2, 3);
    assert g.nodes[2] == {3};
    g.AddEdge(1, 3);
    assert g.nodes[1] == {2, 3};
    g.AddEdge(3, 4);
  }

  /** Breadth-first, the path from 1 to 4 takes the two-hop route through 3. */
  method ShortestHopScenario() returns (forward: seq<int>)
    ensures forward == [1, 3, 4]
  {
    var g := BuildDiamond();
    TwoHops(g.nodes, 1, 3, 4);
    forward := g.GetPath(1, 4);
    assert |forward| == 3 by {
      assert forward[0] == 1 && forward[|forward| - 1] == 4;
    }
    assert forward[1] in g.nodes[1] && 4 in g.nodes[forward[1]];
  }

  /**
   Node 1 cannot be reached from the sink 4. As written, getPath(4, 1) is the
   target alone, which does not start at the source 4; the corrected search
   reports no path.
   */
  method UnreachableScenario() returns (asWritten: seq<int>, corrected: seq<int>)
    ensures asWritten == [1]
    ensures asWritten[0] != 4
    ensures corrected == []
  {
    var g := BuildDiamond();
    NoWayOutOfSink(g.nodes, 4, 1);
    asWritten := g.GetPath(4, 1);
    corrected := g.GetPathIfReachable(4, 1);
  }

  lemma TwoHops(g: map<int, set<int>>, a: int, b: int, c: int)
    requires a in g && b in g && c in g && b in g[a] && c in g[b]
    ensures IsPathFrom(g, [a, b, c], a, c)
  {
  }

  /** From a node without successors only the node itself is reachable. */
  lemma NoWayOutOfSink(g: map<int, set<int>>, sink: int, t: int)
    requires sink in g && g[sink] == {} && t != sink
    ensures !Reachable(g, sink, t)
  {
    forall w | IsWalk(g, w) && w[0] == sink ensures w[|w| - 1] == sink {
      WalkStaysInClosedSet(g, sink, {sink}, w, |w| - 1);
    }
  }
}
