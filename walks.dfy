/**
 Walks in a directed graph given as an adjacency map, and the predecessor maps
 that the breadth-first and depth-first searches of GraphImpl build: what they
 are, and why walking such a map backwards yields a walk of the graph.
 */
module Walks {
  import opened Wrappers

  /** Every edge ends at a node of the graph (addEdge only records edges to known nodes). */
  ghost predicate Closed<N>(g: map<N, set<N>>)
  {
    forall n :: n in g ==> g[n] <= g.Keys
  }

  /** A non-empty sequence of nodes in which each consecutive pair is an edge. */
  ghost predicate IsWalk<N>(g: map<N, set<N>>, w: seq<N>)
  {
    && |w| > 0
    && (forall i :: 0 <= i < |w| ==> w[i] in g)
    && (forall i :: 0 <= i < |w| - 1 ==> w[i + 1] in g[w[i]])
  }

  /** A walk that starts at s and ends at t. */
  ghost predicate IsPathFrom<N>(g: map<N, set<N>>, w: seq<N>, s: N, t: N)
  {
    IsWalk(g, w) && w[0] == s && w[|w| - 1] == t
  }

  ghost predicate Reachable<N(!new)>(g: map<N, set<N>>, s: N, t: N)
  {
    exists w :: IsPathFrom(g, w, s, t)
  }

  /** Java's Map.get: the stored value, or null (None) for a key that is absent. */
  function Get<N>(preds: map<N, Option<N>>, k: N): (r: Option<N>)
    ensures k in preds ==> r == preds[k]
    ensures k !in preds ==> r == None
  {
    if k in preds then preds[k] else None
  }

  /**
   The shape of a predecessor map built by a search from `source`: the source
   is recorded with no predecessor, every other key was discovered from a
   recorded node along one of that node's edges, and `depth` counts the hops
   back to the source.
   */
  ghost predicate PredTree<N>(g: map<N, set<N>>, source: N, preds: map<N, Option<N>>, depth: map<N, nat>)
  {
    && preds.Keys == depth.Keys
    && preds.Keys <= g.Keys
    && source in preds && preds[source] == None && depth[source] == 0
    && (forall k :: k in preds && k != source ==>
          && preds[k].Some?
          && preds[k].value in preds
          && k in g[preds[k].value]
          && depth[k] == depth[preds[k].value] + 1)
  }

  /**
   A ranking under which following a predecessor link always goes down; this
   is what makes the backward walk of createPath terminate.
   */
  ghost predicate Ranked<N>(preds: map<N, Option<N>>, depth: map<N, nat>)
  {
    && preds.Keys <= depth.Keys
    && (forall k :: k in preds && preds[k].Some? && preds[k].value in preds ==>
          depth[preds[k].value] < depth[k])
  }

  /**
   `path` is the backward walk from `target`: it ends at `target`, each node
   is the recorded predecessor of the next one, and the first node has none.
   */
  ghost predicate IsChain<N>(preds: map<N, Option<N>>, path: seq<N>, target: N)
  {
    && |path| > 0
    && path[|path| - 1] == target
    && Get(preds, path[0]) == None
    && (forall i :: 0 < i < |path| ==> Get(preds, path[i]) == Some(path[i - 1]))
  }

  /** `newer` keeps every entry of `older`: a recorded predecessor is never overwritten. */
  ghost predicate Extends<N>(older: map<N, Option<N>>, newer: map<N, Option<N>>)
  {
    forall k :: k in older ==> k in newer && newer[k] == older[k]
  }

  /** Adding a new key k and then only extending further never overwrites an older entry. */
  lemma ExtendsThrough<N>(older: map<N, Option<N>>, before: map<N, Option<N>>, k: N, v: Option<N>, after: map<N, Option<N>>)
    requires Extends(older, before) && k !in before && Extends(before[k := v], after)
    ensures Extends(older, after)
  {
  }

  /** Discovering a new node k from a recorded node p along an edge keeps the tree shape. */
  lemma PredTreeExtend<N>(g: map<N, set<N>>, source: N, preds: map<N, Option<N>>, depth: map<N, nat>, p: N, k: N)
    requires Closed(g)
    requires PredTree(g, source, preds, depth)
    requires p in preds && k in g[p] && k !in preds
    ensures PredTree(g, source, preds[k := Some(p)], depth[k := depth[p] + 1])
  {
  }

  /** Every node recorded in a predecessor tree is reachable from its source. */
  lemma {:induction false} TreeNodeReachable<N(!new)>(g: map<N, set<N>>, source: N, preds: map<N, Option<N>>,
                                                      depth: map<N, nat>, k: N)
    requires Closed(g) && PredTree(g, source, preds, depth) && k in preds
    ensures Reachable(g, source, k)
    decreases depth[k]
  {
    if k == source {
      ReachableFromItself(g, source);
    } else {
      var p := preds[k].value;
      TreeNodeReachable(g, source, preds, depth, p);
      ReachableStep(g, source, p, k);
    }
  }

  lemma PredTreeIsRanked<N>(g: map<N, set<N>>, source: N, preds: map<N, Option<N>>, depth: map<N, nat>)
    requires PredTree(g, source, preds, depth)
    ensures Ranked(preds, depth)
  {
  }

  /** The backward walk stops at once exactly when the target has no recorded predecessor. */
  lemma ChainLast<N>(preds: map<N, Option<N>>, path: seq<N>, target: N)
    requires IsChain(preds, path, target)
    ensures |path| == 1 <==> Get(preds, target) == None
    ensures |path| > 1 ==> Get(preds, target) == Some(path[|path| - 2])
  {
    if |path| > 1 {
      assert Get(preds, path[|path| - 1]) == Some(path[|path| - 2]);
    }
  }

  /** There is only one backward walk from a given target. */
  lemma {:induction false} ChainUnique<N>(preds: map<N, Option<N>>, p: seq<N>, q: seq<N>, target: N)
    requires IsChain(preds, p, target) && IsChain(preds, q, target)
    ensures p == q
    decreases |p|
  {
    ChainLast(preds, p, target);
    ChainLast(preds, q, target);
    if |p| > 1 {
      var x := p[|p| - 2];
      var p', q' := p[..|p| - 1], q[..|q| - 1];
      assert IsChain(preds, p', x) by {
        forall i | 0 < i < |p'| ensures Get(preds, p'[i]) == Some(p'[i - 1]) {
          assert p'[i] == p[i] && p'[i - 1] == p[i - 1];
        }
      }
      assert IsChain(preds, q', x) by {
        forall i | 0 < i < |q'| ensures Get(preds, q'[i]) == Some(q'[i - 1]) {
          assert q'[i] == q[i] && q'[i - 1] == q[i - 1];
        }
      }
      ChainUnique(preds, p', q', x);
      assert p == p' + [target] && q == q' + [target];
    }
  }

  /** Walking back from a recorded node stays among recorded nodes. */
  lemma {:induction false} ChainInTree<N>(g: map<N, set<N>>, source: N, preds: map<N, Option<N>>, depth: map<N, nat>,
                                          path: seq<N>, target: N, i: nat)
    requires PredTree(g, source, preds, depth)
    requires target in preds && IsChain(preds, path, target)
    requires i < |path|
    ensures path[i] in preds
    decreases |path| - i
  {
    if i < |path| - 1 {
      ChainInTree(g, source, preds, depth, path, target, i + 1);
      assert Get(preds, path[i + 1]) == Some(path[i]);
    }
  }

  /** Along a backward walk in a predecessor tree the depth grows by one per step from 0. */
  lemma {:induction false} ChainDepth<N>(g: map<N, set<N>>, source: N, preds: map<N, Option<N>>, depth: map<N, nat>,
                                         path: seq<N>, target: N, i: nat)
    requires PredTree(g, source, preds, depth)
    requires target in preds && IsChain(preds, path, target)
    requires i < |path|
    requires forall j :: 0 <= j < |path| ==> path[j] in preds
    ensures depth[path[i]] == i
  {
    if i == 0 {
      assert path[0] == source;
    } else {
      ChainDepth(g, source, preds, depth, path, target, i - 1);
      assert Get(preds, path[i]) == Some(path[i - 1]);
    }
  }

  /**
   In a predecessor tree, the backward walk from a recorded target is a walk
   of the graph from the source to the target, with depth(target) edges.
   */
  lemma ChainIsPath<N>(g: map<N, set<N>>, source: N, preds: map<N, Option<N>>, depth: map<N, nat>,
                       path: seq<N>, target: N)
    requires PredTree(g, source, preds, depth)
    requires target in preds && IsChain(preds, path, target)
    ensures IsPathFrom(g, path, source, target)
    ensures |path| == depth[target] + 1
  {
    forall i | 0 <= i < |path| ensures path[i] in preds {
      ChainInTree(g, source, preds, depth, path, target, i);
    }
    assert path[0] == source;
    forall i | 0 <= i < |path| - 1 ensures path[i + 1] in g[path[i]] {
      assert Get(preds, path[i + 1]) == Some(path[i]);
    }
    ChainDepth(g, source, preds, depth, path, target, |path| - 1);
  }

  /** The backward walk from a node that was never recorded is that node alone. */
  lemma ChainOfUnrecorded<N>(preds: map<N, Option<N>>, path: seq<N>, target: N)
    requires target !in preds && IsChain(preds, path, target)
    ensures path == [target]
  {
    ChainLast(preds, path, target);
  }

  lemma ReachableFromItself<N(!new)>(g: map<N, set<N>>, s: N)
    requires s in g
    ensures Reachable(g, s, s)
  {
    assert IsPathFrom(g, [s], s, s);
  }

  /** Extending a walk to s..u by the edge u -> v gives a walk to v. */
  lemma ReachableStep<N(!new)>(g: map<N, set<N>>, s: N, u: N, v: N)
    requires Closed(g)
    requires Reachable(g, s, u) && u in g && v in g[u]
    ensures Reachable(g, s, v)
  {
    var w :| IsPathFrom(g, w, s, u);
    var w' := w + [v];
    assert IsPathFrom(g, w', s, v) by {
      forall i | 0 <= i < |w'| - 1 ensures w'[i + 1] in g[w'[i]] {
        if i < |w| - 1 {
          assert w'[i] == w[i] && w'[i + 1] == w[i + 1];
        }
      }
    }
  }

  /** A set that holds s and every successor of its members holds every node reachable from s. */
  lemma {:induction false} WalkStaysInClosedSet<N>(g: map<N, set<N>>, s: N, visited: set<N>, w: seq<N>, i: nat)
    requires s in visited && (forall v :: v in visited && v in g ==> g[v] <= visited)
    requires IsWalk(g, w) && w[0] == s && i < |w|
    ensures w[i] in visited
  {
    if i > 0 {
      WalkStaysInClosedSet(g, s, visited, w, i - 1);
    }
  }

  lemma ReachableInClosedSet<N(!new)>(g: map<N, set<N>>, s: N, visited: set<N>, t: N)
    requires s in visited && (forall v :: v in visited && v in g ==> g[v] <= visited)
    requires Reachable(g, s, t)
    ensures t in visited
  {
    var w :| IsPathFrom(g, w, s, t);
    WalkStaysInClosedSet(g, s, visited, w, |w| - 1);
  }

  /** Every successor of a recorded node is recorded, at most one level deeper. */
  ghost predicate LevelClosed<N>(g: map<N, set<N>>, preds: map<N, Option<N>>, depth: map<N, nat>)
    requires preds.Keys == depth.Keys && preds.Keys <= g.Keys
  {
    forall v :: v in preds ==> forall x :: x in g[v] ==> x in preds && depth[x] <= depth[v] + 1
  }

  /**
   If every recorded node's successors are recorded at most one level deeper,
   every walk from the source ends at a recorded node whose depth is at most
   the walk's number of edges: the depths are shortest distances.
   */
  lemma {:induction false} WalkDepthBound<N>(g: map<N, set<N>>, source: N, preds: map<N, Option<N>>, depth: map<N, nat>,
                                             w: seq<N>)
    requires PredTree(g, source, preds, depth)
    requires LevelClosed(g, preds, depth)
    requires IsWalk(g, w) && w[0] == source
    ensures w[|w| - 1] in preds && depth[w[|w| - 1]] <= |w| - 1
    decreases |w|
  {
    if |w| > 1 {
      var w' := w[..|w| - 1];
      assert IsWalk(g, w') by {
        forall i | 0 <= i < |w'| - 1 ensures w'[i + 1] in g[w'[i]] {
          assert w'[i] == w[i] && w'[i + 1] == w[i + 1];
        }
      }
      WalkDepthBound(g, source, preds, depth, w');
      var u := w[|w| - 2];
      assert u == w'[|w'| - 1] && w[|w| - 1] in g[u];
    }
  }
}
