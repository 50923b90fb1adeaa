/**
 The generic directed graph GraphImpl: an adjacency map from each node to the
 set of its successors, and getPath, which searches breadth-first or
 depth-first (fixed when the graph is built), records each node's
 predecessor, and walks the predecessor map back from the target.
 */
module GraphImpl {
  import opened Wrappers
  import opened Walks
  import opened BreadthFirst

  const DEPTH: string := "DFS"
  const BREATH: string := "BFS"

  /** The search mode a graph built with the string `requested` uses: anything but "DFS" or "BFS" falls back to "BFS". */
  function ModeFor(requested: string): (mode: string)
    ensures mode == DEPTH || mode == BREATH
    ensures mode == DEPTH <==> requested == DEPTH
  {
    if requested == DEPTH || requested == BREATH then requested else BREATH
  }

  /** The adjacency map after addNode(node); None stands for a null argument. */
  function WithNode<N>(g: map<N, set<N>>, node: Option<N>): (r: map<N, set<N>>)
    ensures node.None? ==> r == g
    ensures node.Some? ==> r.Keys == g.Keys + {node.value}
    ensures forall n :: n in g ==> r[n] == g[n]
    ensures node.Some? && node.value !in g ==> r[node.value] == {}
    ensures Closed(g) ==> Closed(r)
  {
    match node
    case None => g
    case Some(n) => if n in g then g else g[n := {}]
  }

  /** The adjacency map after addEdge(source, target). */
  function WithEdge<N>(g: map<N, set<N>>, source: N, target: N): (r: map<N, set<N>>)
    ensures r.Keys == g.Keys
    ensures forall n :: n in g && n != source ==> r[n] == g[n]
    ensures source in g && target in g ==> r[source] == g[source] + {target}
    ensures !(source in g && target in g) ==> r == g
    ensures Closed(g) ==> Closed(r)
  {
    if source in g && target in g then g[source := g[source] + {target}] else g
  }

  lemma AddNodeIdempotent<N>(g: map<N, set<N>>, node: Option<N>)
    ensures WithNode(WithNode(g, node), node) == WithNode(g, node)
  {
  }

  lemma AddEdgeIdempotent<N>(g: map<N, set<N>>, source: N, target: N)
    ensures WithEdge(WithEdge(g, source, target), source, target) == WithEdge(g, source, target)
  {
  }

  class Graph<N(==, !new)> {
    var nodes: map<N, set<N>>
    const searchMode: string

    ghost predicate Valid()
      reads this
    {
      Closed(nodes) && (searchMode == DEPTH || searchMode == BREATH)
    }

    constructor (requestedMode: string)
      ensures Valid()
      ensures nodes == map[] && searchMode == ModeFor(requestedMode)
    {
      nodes := map[];
      searchMode := ModeFor(requestedMode);
    }

    /** The no-argument constructor: breadth-first. */
    constructor Default()
      ensures Valid()
      ensures nodes == map[] && searchMode == BREATH
    {
      nodes := map[];
      searchMode := BREATH;
    }

    predicate HasNode(node: N)
      reads this
    {
      node in nodes
    }

    method AddNode(node: Option<N>)
      requires Valid()
      modifies this
      ensures Valid()
      ensures nodes == WithNode(old(nodes), node)
    {
      if node.Some? && !HasNode(node.value) {
        nodes := nodes[node.value := {}];
      }
    }

    method AddEdge(source: N, target: N)
      requires Valid()
      modifies this
      ensures Valid()
      ensures nodes == WithEdge(old(nodes), source, target)
    {
      if HasNode(source) && HasNode(target) {
        nodes := nodes[source := nodes[source] + {target}];
      }
    }

    /** A snapshot of the nodes. */
    method NodeSet() returns (r: set<N>)
      ensures r == nodes.Keys
    {
      r := nodes.Keys;
    }

    /** A snapshot of the successors of a node of the graph. */
    method LinkedNodes(node: N) returns (r: set<N>)
      requires Valid() && node in nodes
      ensures r == nodes[node]
      ensures r <= nodes.Keys
    {
      r := nodes[node];
    }

    /**
     The path getPath reports: empty unless both ends are nodes; otherwise the
     backward walk from the target over the predecessor map of the search.
     That is a shortest walk from source to target in breadth-first mode and
     some walk in depth-first mode when the target is reachable, and the
     target alone when it is not.
     */
    method GetPath(source: N, target: N) returns (path: seq<N>)
      requires Valid()
      ensures !(source in nodes && target in nodes) ==> path == []
      ensures source in nodes && target in nodes && Reachable(nodes, source, target) ==>
                IsPathFrom(nodes, path, source, target)
      ensures source in nodes && target in nodes && !Reachable(nodes, source, target) ==> path == [target]
      ensures source in nodes && searchMode == BREATH ==>
                forall w :: IsPathFrom(nodes, w, source, target) ==> |path| <= |w|
      ensures source in nodes && target == source ==> path == [source]
    {
      if HasNode(source) && HasNode(target) {
        var preds, depth := Search(source);
        PredTreeIsRanked(nodes, source, preds, depth);
        path := CreatePath(target, preds, depth);
        if target in preds {
          ChainIsPath(nodes, source, preds, depth, path, target);
        } else {
          ChainOfUnrecorded(preds, path, target);
        }
        if target == source {
          ChainLast(preds, path, target);
        }
      } else {
        path := [];
      }
    }

    /**
     getPath as its callers evidently expect it: a walk from source to target
     when there is one, and the empty list exactly when there is none.
     */
    method GetPathIfReachable(source: N, target: N) returns (path: seq<N>)
      requires Valid()
      ensures path == [] <==> !(source in nodes && target in nodes && Reachable(nodes, source, target))
      ensures path != [] ==> IsPathFrom(nodes, path, source, target)
      ensures source in nodes && searchMode == BREATH ==>
                forall w :: IsPathFrom(nodes, w, source, target) ==> |path| <= |w|
    {
      path := [];
      if HasNode(source) && HasNode(target) {
        var preds, depth := Search(source);
        if target in preds {
          PredTreeIsRanked(nodes, source, preds, depth);
          path := CreatePath(target, preds, depth);
          ChainIsPath(nodes, source, preds, depth, path, target);
        }
      }
    }

    /**
     The search getPath runs from a node of the graph, breadth-first or
     depth-first as the graph was built: a predecessor tree of exactly the
     nodes reachable from the source, at shortest distances when breadth-first.
     */
    method Search(source: N) returns (preds: map<N, Option<N>>, ghost depth: map<N, nat>)
      requires Valid() && source in nodes
      ensures PredTree(nodes, source, preds, depth)
      ensures forall t :: t in preds <==> Reachable(nodes, source, t)
      ensures searchMode == BREATH ==> forall t, w :: t in preds && IsPathFrom(nodes, w, source, t) ==> depth[t] < |w|
    {
      if searchMode == BREATH {
        preds, depth := Bfs(source);
      } else {
        preds, depth := Dfs(source);
      }
    }

    /** createPath: prepend nodes while following predecessor links back from the target. */
    static method CreatePath(target: N, preds: map<N, Option<N>>, ghost depth: map<N, nat>) returns (path: seq<N>)
      requires Ranked(preds, depth)
      ensures IsChain(preds, path, target)
    {
      path := [];
      var current := Some(target);
      while current.Some?
        invariant path == [] ==> current == Some(target)
        invariant path != [] ==> path[|path| - 1] == target && current == Get(preds, path[0])
        invariant forall i :: 0 < i < |path| ==> Get(preds, path[i]) == Some(path[i - 1])
        decreases match current case None => 0 case Some(c) => if c in preds then depth[c] + 2 else 1
      {
        path := [current.value] + path;
        current := Get(preds, current.value);
      }
    }

    /**
     BFS: the predecessor tree of every node reachable from the source, each
     recorded at its distance from the source.
     */
    method Bfs(source: N) returns (preds: map<N, Option<N>>, ghost depth: map<N, nat>)
      requires Valid() && source in nodes
      ensures PredTree(nodes, source, preds, depth)
      ensures forall t :: t in preds <==> Reachable(nodes, source, t)
      ensures forall t, w :: t in preds && IsPathFrom(nodes, w, source, t) ==> depth[t] < |w|
    {
      var queue := [source];
      var visited := {source};
      preds := map[source := None];
      depth := map[source := 0];
      ghost var done: set<N> := {};
      Start(nodes, source);
      while queue != []
        invariant visited == preds.Keys
        invariant Queued(nodes, source, preds, depth, done, queue)
        decreases nodes.Keys - visited, |queue|
      {
        Poll(nodes, source, preds, depth, done, queue);
        var pop := queue[0];
        queue := queue[1..];
        visited, queue, preds, depth := ScanNeighbors(source, pop, visited, queue, preds, depth, done);
        Finish(nodes, source, preds, depth, done, pop, queue);
        done := done + {pop};
      }
      Complete(nodes, source, preds, depth, done);
    }

    /**
     The inner loop of BFS: every successor of `pop` not yet visited is marked
     visited, queued, and recorded with `pop` as its predecessor.
     */
    method ScanNeighbors(ghost source: N, pop: N, visited: set<N>, queue: seq<N>, preds: map<N, Option<N>>,
                         ghost depth: map<N, nat>, ghost done: set<N>)
      returns (visited': set<N>, queue': seq<N>, preds': map<N, Option<N>>, ghost depth': map<N, nat>)
      requires Valid()
      requires visited == preds.Keys && pop in nodes
      requires Scanning(nodes, source, preds, depth, done, pop, queue, nodes[pop])
      ensures visited' == preds'.Keys
      ensures Scanning(nodes, source, preds', depth', done, pop, queue', {})
      ensures visited' == visited + nodes[pop]
      ensures Extends(preds, preds')
      ensures forall k :: k in preds' && k !in preds ==> preds'[k] == Some(pop)
      ensures |queue| <= |queue'| && queue'[..|queue|] == queue
      ensures forall x :: x in queue'[|queue|..] <==> x in visited' - visited
      ensures visited' == visited ==> queue' == queue
    {
      visited', queue', preds', depth' := visited, queue, preds, depth;
      AppendedStart(visited, queue, preds, pop);
      var rest := nodes[pop];
      while rest != {}
        invariant visited' == preds'.Keys
        invariant Scanning(nodes, source, preds', depth', done, pop, queue', rest)
        invariant visited' == visited + (nodes[pop] - rest)
        invariant Appended(visited, queue, preds, pop, visited', queue', preds')
        decreases rest
      {
        var neighbor :| neighbor in rest;
        if neighbor !in visited' {
          Discover(nodes, source, preds', depth', done, pop, queue', rest, neighbor);
          AppendedStep(visited, queue, preds, pop, visited', queue', preds', neighbor);
          visited' := visited' + {neighbor};
          queue' := queue' + [neighbor];
          preds' := preds'[neighbor := Some(pop)];
          depth' := depth'[neighbor := depth'[pop] + 1];
        } else {
          SkipVisited(nodes, source, preds', depth', done, pop, queue', rest, neighbor);
        }
        rest := rest - {neighbor};
      }
      if visited' == visited {
        AppendedNothing(visited, queue, preds, pop, queue', preds');
      }
    }

    /** DFS: record the source with no predecessor, then explore from it. */
    method Dfs(source: N) returns (preds: map<N, Option<N>>, ghost depth: map<N, nat>)
      requires Valid() && source in nodes
      ensures PredTree(nodes, source, preds, depth)
      ensures forall t :: t in preds <==> Reachable(nodes, source, t)
    {
      var visited: set<N> := {};
      preds := map[source := None];
      depth := map[source := 0];
      visited, preds, depth := SearchDfs(source, visited, preds, depth, source, {});
      forall t | Reachable(nodes, source, t) ensures t in preds {
        ReachableInClosedSet(nodes, source, visited, t);
      }
      forall t | t in preds ensures Reachable(nodes, source, t) {
        TreeNodeReachable(nodes, source, preds, depth, t);
      }
    }

    /**
     searchDFS: mark the current node visited and recurse into each successor
     not yet visited, recording the current node as its predecessor. The
     visited set and predecessor map that the Java code shares between the
     recursive calls are passed in and handed back. `active` holds the nodes
     whose exploration is still in progress further up.
     */
    method SearchDfs(current: N, visited: set<N>, preds: map<N, Option<N>>, ghost depth: map<N, nat>,
                     ghost source: N, ghost active: set<N>)
      returns (visited': set<N>, preds': map<N, Option<N>>, ghost depth': map<N, nat>)
      requires Valid() && current in nodes
      requires current !in visited
      requires preds.Keys == visited + {current}
      requires PredTree(nodes, source, preds, depth)
      requires forall v :: v in visited - active ==> nodes[v] <= visited
      ensures preds'.Keys == visited'
      ensures visited + {current} <= visited'
      ensures Extends(preds, preds')
      ensures forall k :: k in preds' && k !in preds ==> preds'[k].Some? && preds'[k].value in visited' - visited
      ensures PredTree(nodes, source, preds', depth')
      ensures forall v :: v in visited' - active ==> nodes[v] <= visited'
      decreases nodes.Keys - visited
    {
      visited', preds', depth' := visited + {current}, preds, depth;
      var rest := nodes[current];
      while rest != {}
        invariant rest <= nodes[current]
        invariant preds'.Keys == visited'
        invariant visited + {current} <= visited'
        invariant Extends(preds, preds')
        invariant forall k :: k in preds' && k !in preds ==> preds'[k].Some? && preds'[k].value in visited' - visited
        invariant PredTree(nodes, source, preds', depth')
        invariant forall v :: v in visited' - (active + {current}) ==> nodes[v] <= visited'
        invariant nodes[current] - rest <= visited'
        decreases rest
      {
        var neighbor :| neighbor in rest;
        rest := rest - {neighbor};
        if neighbor !in visited' {
          ghost var before := preds';
          PredTreeExtend(nodes, source, preds', depth', current, neighbor);
          preds' := preds'[neighbor := Some(current)];
          depth' := depth'[neighbor := depth'[current] + 1];
          visited', preds', depth' := SearchDfs(neighbor, visited', preds', depth', source, active + {current});
          ExtendsThrough(preds, before, neighbor, Some(current), preds');
        }
      }
    }
  }
}
