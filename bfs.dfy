/**
 The loop invariants of GraphImpl's breadth-first search, and the steps that
 preserve them. `done` holds the nodes already polled from the queue and
 expanded; every other recorded node is still waiting in the queue.
 */
module BreadthFirst {
  import opened Wrappers
  import opened Walks

  /** The nodes waiting in the queue. */
  function Elems<N(!new)>(queue: seq<N>): set<N>
  {
    set v | v in queue
  }

  /** Every successor of v is recorded, at most one level deeper than v. */
  ghost predicate Expanded<N>(g: map<N, set<N>>, preds: map<N, Option<N>>, depth: map<N, nat>, v: N)
  {
    && v in g && v in depth
    && forall x :: x in g[v] ==> x in preds && x in depth && depth[x] <= depth[v] + 1
  }

  /** The queue holds recorded nodes in order of depth, spanning at most two levels. */
  ghost predicate Layered<N>(depth: map<N, nat>, queue: seq<N>, low: nat)
  {
    && (forall i :: 0 <= i < |queue| ==> queue[i] in depth && low <= depth[queue[i]] <= low + 1)
    && (forall i, j :: 0 <= i <= j < |queue| ==> depth[queue[i]] <= depth[queue[j]])
  }

  /** No recorded node is deeper than `top`. */
  ghost predicate Below<N>(preds: map<N, Option<N>>, depth: map<N, nat>, top: nat)
  {
    forall v :: v in preds && v in depth ==> depth[v] <= top
  }

  /** The invariant of the outer loop of BFS, before polling. */
  ghost predicate Queued<N(!new)>(g: map<N, set<N>>, source: N, preds: map<N, Option<N>>, depth: map<N, nat>,
                                  done: set<N>, queue: seq<N>)
  {
    && PredTree(g, source, preds, depth)
    && done + Elems(queue) == preds.Keys
    && (forall v :: v in done ==> Expanded(g, preds, depth, v))
    && (queue != [] ==> Layered(depth, queue, depth[queue[0]]) && Below(preds, depth, depth[queue[|queue| - 1]]))
  }

  /** The invariant of the inner loop: `pop` was polled and its successors outside `rest` are handled. */
  ghost predicate Scanning<N(!new)>(g: map<N, set<N>>, source: N, preds: map<N, Option<N>>, depth: map<N, nat>,
                                    done: set<N>, pop: N, queue: seq<N>, rest: set<N>)
  {
    && PredTree(g, source, preds, depth)
    && pop in preds
    && rest <= g[pop]
    && done + {pop} + Elems(queue) == preds.Keys
    && (forall v :: v in done ==> Expanded(g, preds, depth, v))
    && (forall x :: x in g[pop] - rest ==> x in preds && depth[x] <= depth[pop] + 1)
    && Layered(depth, queue, depth[pop])
    && Below(preds, depth, if queue == [] then depth[pop] else depth[queue[|queue| - 1]])
  }

  lemma Start<N(!new)>(g: map<N, set<N>>, source: N)
    requires Closed(g) && source in g
    ensures Queued(g, source, map[source := None], map[source := 0], {}, [source])
  {
    assert Elems([source]) == {source};
  }

  lemma Poll<N(!new)>(g: map<N, set<N>>, source: N, preds: map<N, Option<N>>, depth: map<N, nat>,
                      done: set<N>, queue: seq<N>)
    requires Queued(g, source, preds, depth, done, queue) && queue != []
    ensures Scanning(g, source, preds, depth, done, queue[0], queue[1..], g[queue[0]])
  {
    assert Elems(queue) == {queue[0]} + Elems(queue[1..]);
    var q := queue[1..];
    forall i | 0 <= i < |q| ensures q[i] in depth && depth[queue[0]] <= depth[q[i]] <= depth[queue[0]] + 1 {
      assert q[i] == queue[i + 1];
    }
    forall i, j | 0 <= i <= j < |q| ensures depth[q[i]] <= depth[q[j]] {
      assert q[i] == queue[i + 1] && q[j] == queue[j + 1];
    }
  }

  /** A successor that was already recorded needs nothing. */
  lemma SkipVisited<N(!new)>(g: map<N, set<N>>, source: N, preds: map<N, Option<N>>, depth: map<N, nat>,
                             done: set<N>, pop: N, queue: seq<N>, rest: set<N>, x: N)
    requires Scanning(g, source, preds, depth, done, pop, queue, rest)
    requires x in rest && x in preds
    ensures Scanning(g, source, preds, depth, done, pop, queue, rest - {x})
  {
    if queue != [] {
      assert depth[queue[|queue| - 1]] <= depth[pop] + 1;
    }
  }

  /** Recording new nodes never breaks the expansion of an already expanded node. */
  lemma ExpandedGrows<N>(g: map<N, set<N>>, preds: map<N, Option<N>>, depth: map<N, nat>, v: N, x: N, p: Option<N>, d: nat)
    requires Expanded(g, preds, depth, v) && x !in depth
    ensures Expanded(g, preds[x := p], depth[x := d], v)
  {
  }

  /** Appending a node one level below `low` keeps the queue layered. */
  lemma LayeredAppend<N>(depth: map<N, nat>, queue: seq<N>, low: nat, x: N)
    requires Layered(depth, queue, low) && x !in depth
    ensures Layered(depth[x := low + 1], queue + [x], low)
  {
    var depth', queue' := depth[x := low + 1], queue + [x];
    forall i | 0 <= i < |queue'| ensures queue'[i] in depth' && low <= depth'[queue'[i]] <= low + 1 {
      if i < |queue| {
        assert queue'[i] == queue[i];
      }
    }
    forall i, j | 0 <= i <= j < |queue'| ensures depth'[queue'[i]] <= depth'[queue'[j]] {
      if j < |queue| {
        assert queue'[i] == queue[i] && queue'[j] == queue[j];
      } else if i < |queue| {
        assert queue'[i] == queue[i];
      }
    }
  }

  /** A successor seen for the first time is recorded one level below `pop` and queued. */
  lemma Discover<N(!new)>(g: map<N, set<N>>, source: N, preds: map<N, Option<N>>, depth: map<N, nat>,
                          done: set<N>, pop: N, queue: seq<N>, rest: set<N>, x: N)
    requires Closed(g)
    requires Scanning(g, source, preds, depth, done, pop, queue, rest)
    requires x in rest && x !in preds
    ensures Scanning(g, source, preds[x := Some(pop)], depth[x := depth[pop] + 1], done, pop, queue + [x], rest - {x})
  {
    var preds', depth', queue' := preds[x := Some(pop)], depth[x := depth[pop] + 1], queue + [x];
    PredTreeExtend(g, source, preds, depth, pop, x);
    assert Elems(queue') == Elems(queue) + {x};
    forall v | v in done ensures Expanded(g, preds', depth', v) {
      ExpandedGrows(g, preds, depth, v, x, Some(pop), depth[pop] + 1);
    }
    LayeredAppend(depth, queue, depth[pop], x);
    assert Below(preds', depth', depth[pop] + 1) by {
      if queue != [] {
        assert depth[queue[|queue| - 1]] <= depth[pop] + 1;
      }
    }
    assert queue' != [] && queue'[|queue'| - 1] == x;
    assert forall y :: y in g[pop] - (rest - {x}) ==> y in preds' && depth'[y] <= depth[pop] + 1;
    assert done + {pop} + Elems(queue') == preds'.Keys;
    assert pop in preds' && rest - {x} <= g[pop];
  }

  /**
   What the inner loop of BFS has done to its state so far: `visited` and
   `preds` only grew, every new entry has `pop` as its predecessor, and the
   queue kept its old contents and gained exactly the newly visited nodes.
   */
  ghost predicate Appended<N(!new)>(visited: set<N>, queue: seq<N>, preds: map<N, Option<N>>, pop: N,
                              visited': set<N>, queue': seq<N>, preds': map<N, Option<N>>)
  {
    && visited <= visited'
    && Extends(preds, preds')
    && (forall k :: k in preds' && k !in preds ==> preds'[k] == Some(pop))
    && |queue| <= |queue'| && queue'[..|queue|] == queue
    && (forall x :: x in queue'[|queue|..] <==> x in visited' - visited)
  }

  lemma AppendedStart<N(!new)>(visited: set<N>, queue: seq<N>, preds: map<N, Option<N>>, pop: N)
    ensures Appended(visited, queue, preds, pop, visited, queue, preds)
  {
    assert queue[|queue|..] == [];
  }

  /** Visiting, queueing and recording one more node keeps the account. */
  lemma AppendedStep<N(!new)>(visited: set<N>, queue: seq<N>, preds: map<N, Option<N>>, pop: N,
                        visited': set<N>, queue': seq<N>, preds': map<N, Option<N>>, x: N)
    requires Appended(visited, queue, preds, pop, visited', queue', preds')
    requires x !in visited' && visited' == preds'.Keys && preds.Keys <= visited
    ensures Appended(visited, queue, preds, pop, visited' + {x}, queue' + [x], preds'[x := Some(pop)])
  {
    var q := queue' + [x];
    assert q[..|queue|] == queue'[..|queue|];
    assert q[|queue|..] == queue'[|queue|..] + [x];
  }

  lemma HeadIsElement<T>(s: seq<T>)
    ensures |s| > 0 ==> s[0] in s
  {
  }

  /** When the inner loop visited nothing new, the queue is as it was. */
  lemma AppendedNothing<N(!new)>(visited: set<N>, queue: seq<N>, preds: map<N, Option<N>>, pop: N,
                           queue': seq<N>, preds': map<N, Option<N>>)
    requires Appended(visited, queue, preds, pop, visited, queue', preds')
    ensures queue' == queue
  {
    var added := queue'[|queue|..];
    HeadIsElement(added);
    assert queue' == queue'[..|queue|] + added;
  }

  lemma Finish<N(!new)>(g: map<N, set<N>>, source: N, preds: map<N, Option<N>>, depth: map<N, nat>,
                        done: set<N>, pop: N, queue: seq<N>)
    requires Scanning(g, source, preds, depth, done, pop, queue, {})
    ensures Queued(g, source, preds, depth, done + {pop}, queue)
  {
    if queue != [] {
      assert depth[pop] <= depth[queue[0]];
    }
  }

  /** When the queue is empty every recorded node is expanded: depths are shortest distances. */
  lemma Drained<N(!new)>(g: map<N, set<N>>, source: N, preds: map<N, Option<N>>, depth: map<N, nat>, done: set<N>)
    requires Queued(g, source, preds, depth, done, [])
    ensures LevelClosed(g, preds, depth)
    ensures forall v :: v in preds ==> g[v] <= preds.Keys
  {
    assert Elems<N>([]) == {};
    forall v | v in preds ensures forall x :: x in g[v] ==> x in preds && depth[x] <= depth[v] + 1 {
      assert Expanded(g, preds, depth, v);
    }
  }

  /**
   What BFS returns once the queue is empty: exactly the reachable nodes are
   recorded, and each at its distance from the source.
   */
  lemma Complete<N(!new)>(g: map<N, set<N>>, source: N, preds: map<N, Option<N>>, depth: map<N, nat>, done: set<N>)
    requires Closed(g)
    requires Queued(g, source, preds, depth, done, [])
    ensures forall t :: t in preds <==> Reachable(g, source, t)
    ensures forall t, w :: t in preds && IsPathFrom(g, w, source, t) ==> depth[t] < |w|
  {
    Drained(g, source, preds, depth, done);
    forall t | Reachable(g, source, t) ensures t in preds {
      ReachableInClosedSet(g, source, preds.Keys, t);
    }
    forall t | t in preds ensures Reachable(g, source, t) {
      TreeNodeReachable(g, source, preds, depth, t);
    }
    forall t, w | t in preds && IsPathFrom(g, w, source, t) ensures depth[t] < |w| {
      WalkDepthBound(g, source, preds, depth, w);
    }
  }
}
