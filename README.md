# Graph search and social circles (lab06), modelled in Dafny

This project models two classes of the lab06 Java exercises.

- **GraphImpl** is a generic directed graph. It stores an adjacency map from each node to its set of successors, in `65-implement-generic-class/src/main/java/it/unibo/generics/graph/impl/GraphImpl.java`.
  - `addNode` and `addEdge` grow the map. `addEdge` records an edge only when both ends are already nodes.
  - `nodeSet` and `linkedNodes` hand out copies.
  - `getPath(source, target)` runs a search from `source`. It is breadth-first or depth-first, as chosen by the constructor's mode string, "BFS" or "DFS". The search records each discovered node's predecessor. `createPath` then walks that predecessor map backwards from `target`.
- **SocialNetworkUserImpl** keeps the users a person follows, grouped in named circles, in `64-design-with-maps/src/main/java/it/unibo/collections/social/impl/SocialNetworkUserImpl.java`.
  - A user is added to a circle only if no circle already holds them.
  - `getFollowedUsers` lists everyone, circle after circle.

The Dafny files:

| file | module | contents |
|---|---|---|
| option.dfy | Wrappers | `Option`. None stands for Java's `null`. |
| walks.dfy | Walks | Walks and reachability in an adjacency map. Predecessor trees, which both searches build, ranked by a ghost depth map. The backward walk of `createPath` and why it is a walk from the source. |
| bfs.dfy | BreadthFirst | The loop invariants of the breadth-first search and the lemmas that carry them across one step. |
| graph.dfy | GraphImpl | The class `Graph` with the adjacency map as a field, its operations, `createPath`, `BFS` and the recursive `searchDFS`. |
| social.dfy | SocialNetworkUserImpl | The class `SocialNetworkUser`, with its circles in creation order and each circle's members in insertion order. |
| scenarios.dfy | GraphScenarios | Clients that build one four-node graph through the public operations. Using the contracts alone, they pin down what `getPath` returns on it. |

Notes on the model:

- **Predecessor maps.** Java's predecessor map stores `null` for the source, and `Map.get` also yields `null` for a key that is absent. Both cases are modelled by `Walks.Get`, which returns None for either.
- **Unreachable target.** For a target that is a node but cannot be reached from the source, the search never records it. The backward walk then stops at once, so `getPath` returns the list holding only the target. The model reproduces this as written. `getPath` already returns an empty list when an end is unknown (GraphImpl.java:65), and the Javadoc of `createPath` (GraphImpl.java:74-84) promises the path from the source; `[target]` is neither. See "## Findings".
- **Termination of the backward walk.** Each search also builds a ghost `depth` map, the number of hops back to the source. It decreases along every predecessor link, which makes the backward walk terminate. For breadth-first search it is the shortest distance, which gives the minimum-hop guarantee.
- **Iteration order.** A `HashSet` iterates its elements in an unspecified order. Every loop over successors therefore picks the next element with `:|`, so each proof holds for every order.

## Model

| member | source | states |
|---|---|---|
| GraphImpl.ModeFor | 65-implement-generic-class/src/main/java/it/unibo/generics/graph/impl/GraphImpl.java:23-30 | The mode is "DFS" or "BFS". It is "DFS" exactly when "DFS" was requested; any other string gives "BFS". |
| GraphImpl.Graph.constructor | 65-implement-generic-class/src/main/java/it/unibo/generics/graph/impl/GraphImpl.java:23-30 | A new graph has no nodes, and its mode is the one ModeFor chooses. |
| GraphImpl.Graph.Default | 65-implement-generic-class/src/main/java/it/unibo/generics/graph/impl/GraphImpl.java:32-34 | The no-argument constructor gives an empty breadth-first graph. |
| GraphImpl.WithNode | 65-implement-generic-class/src/main/java/it/unibo/generics/graph/impl/GraphImpl.java:36-40 | `addNode(null)` changes nothing. Otherwise the node set gains exactly that node, with no successors if it is new. Existing adjacency sets are untouched, and edges still end at nodes. |
| GraphImpl.AddNodeIdempotent | 65-implement-generic-class/src/main/java/it/unibo/generics/graph/impl/GraphImpl.java:36-40 | Adding the same node twice is the same as adding it once. |
| GraphImpl.Graph.AddNode | 65-implement-generic-class/src/main/java/it/unibo/generics/graph/impl/GraphImpl.java:36-40 | The new adjacency map is WithNode of the old one. The graph stays valid. |
| GraphImpl.WithEdge | 65-implement-generic-class/src/main/java/it/unibo/generics/graph/impl/GraphImpl.java:42-46 | The node set never changes. Only the source's successor set changes, gaining the target, and only when both ends are nodes; otherwise nothing changes. Edges still end at nodes. |
| GraphImpl.AddEdgeIdempotent | 65-implement-generic-class/src/main/java/it/unibo/generics/graph/impl/GraphImpl.java:42-46 | Adding the same edge twice is the same as adding it once. |
| GraphImpl.Graph.AddEdge | 65-implement-generic-class/src/main/java/it/unibo/generics/graph/impl/GraphImpl.java:42-46 | The new adjacency map is WithEdge of the old one. The graph stays valid. |
| GraphImpl.Graph.HasNode | 65-implement-generic-class/src/main/java/it/unibo/generics/graph/impl/GraphImpl.java:68-72 | True exactly when the node is a key of the adjacency map. |
| GraphImpl.Graph.NodeSet | 65-implement-generic-class/src/main/java/it/unibo/generics/graph/impl/GraphImpl.java:48-50 | The result is the set of nodes, as a value the caller cannot alias. |
| GraphImpl.Graph.LinkedNodes | 65-implement-generic-class/src/main/java/it/unibo/generics/graph/impl/GraphImpl.java:52-54 | For a node of the graph, the result is its successor set, and every successor is a node. |
| GraphImpl.Graph.GetPath | 65-implement-generic-class/src/main/java/it/unibo/generics/graph/impl/GraphImpl.java:56-66 | Empty unless both ends are nodes. Otherwise: a walk of the graph from source to target when the target is reachable; the target alone when it is not; never longer than any walk from source to target in breadth-first mode; and `[a]` for `getPath(a, a)`. |
| GraphImpl.Graph.Search | 65-implement-generic-class/src/main/java/it/unibo/generics/graph/impl/GraphImpl.java:57-62 | The search the mode selects returns a predecessor tree rooted at the source. Its keys are exactly the reachable nodes. In breadth-first mode each node's depth is below the length of every walk to it. |
| GraphImpl.Graph.GetPathIfReachable | 65-implement-generic-class/src/main/java/it/unibo/generics/graph/impl/GraphImpl.java:56-66 | The corrected getPath. The result is empty exactly when the two ends are not both nodes or the target is unreachable. Otherwise it is a walk from source to target, and a shortest one in breadth-first mode. |
| GraphImpl.Graph.CreatePath | 65-implement-generic-class/src/main/java/it/unibo/generics/graph/impl/GraphImpl.java:85-93 | Given a predecessor map ranked by a depth, the backward walk terminates. Its result ends at the target, the first node has no recorded predecessor, and each node is the recorded predecessor of the next. |
| Walks.Get | 65-implement-generic-class/src/main/java/it/unibo/generics/graph/impl/GraphImpl.java:90 | `Map.get`: the stored value for a key that is present (None for the source, whose stored value is `null`), and None for a key that is absent. |
| Walks.PredTreeIsRanked | 65-implement-generic-class/src/main/java/it/unibo/generics/graph/impl/GraphImpl.java:85-93 | Following a predecessor link in a search's tree always lowers the depth, so the backward walk ends. |
| Walks.ChainLast | 65-implement-generic-class/src/main/java/it/unibo/generics/graph/impl/GraphImpl.java:88-91 | The backward walk is the target alone exactly when the target has no recorded predecessor. Otherwise its second-to-last node is that predecessor. |
| Walks.ChainUnique | 65-implement-generic-class/src/main/java/it/unibo/generics/graph/impl/GraphImpl.java:85-93 | Only one backward walk exists for a given target and map. |
| Walks.ChainInTree | 65-implement-generic-class/src/main/java/it/unibo/generics/graph/impl/GraphImpl.java:85-93 | Walking back from a recorded target visits recorded nodes only. |
| Walks.ChainDepth | 65-implement-generic-class/src/main/java/it/unibo/generics/graph/impl/GraphImpl.java:85-93 | Along the backward walk from a recorded target, the i-th node is at depth i. |
| Walks.ChainIsPath | 65-implement-generic-class/src/main/java/it/unibo/generics/graph/impl/GraphImpl.java:85-93 | From a recorded target, the backward walk is a walk of the graph from the source to the target, with one node more than the target's depth. |
| Walks.ChainOfUnrecorded | 65-implement-generic-class/src/main/java/it/unibo/generics/graph/impl/GraphImpl.java:88-91 | From a target that was never recorded, the backward walk is `[target]`. |
| Walks.PredTreeExtend | 65-implement-generic-class/src/main/java/it/unibo/generics/graph/impl/GraphImpl.java:115-118 | Recording an undiscovered successor k of a recorded node p, with p as its predecessor at one level deeper, keeps the tree shape. The same step serves the breadth-first discovery here and the depth-first one at GraphImpl.java:149-151. |
| Walks.ExtendsThrough | 65-implement-generic-class/src/main/java/it/unibo/generics/graph/impl/GraphImpl.java:149-151 | A recorded predecessor is never overwritten by a later discovery or by a nested call. |
| Walks.TreeNodeReachable | 65-implement-generic-class/src/main/java/it/unibo/generics/graph/impl/GraphImpl.java:104-154 | Every node a search records is reachable from the source. |
| Walks.ReachableFromItself | 65-implement-generic-class/src/main/java/it/unibo/generics/graph/impl/GraphImpl.java:109-111 | The source is reachable from itself, by the one-node walk. |
| Walks.ReachableStep | 65-implement-generic-class/src/main/java/it/unibo/generics/graph/impl/GraphImpl.java:114-118 | Appending an edge to a walk to u gives a walk to the successor. |
| Walks.WalkStaysInClosedSet | 65-implement-generic-class/src/main/java/it/unibo/generics/graph/impl/GraphImpl.java:112-121 | A walk from s never leaves a set that holds s and all successors of its members. |
| Walks.ReachableInClosedSet | 65-implement-generic-class/src/main/java/it/unibo/generics/graph/impl/GraphImpl.java:112-121 | Such a set holds every node reachable from s, so a finished search misses no reachable node. |
| Walks.WalkDepthBound | 65-implement-generic-class/src/main/java/it/unibo/generics/graph/impl/GraphImpl.java:104-123 | Suppose every successor of a recorded node is recorded at most one level deeper. Then every walk from the source ends at a recorded node whose depth is at most the walk's number of edges. |
| BreadthFirst.Start | 65-implement-generic-class/src/main/java/it/unibo/generics/graph/impl/GraphImpl.java:109-111 | After the source is marked, queued and recorded with no predecessor, the outer-loop invariant holds. |
| BreadthFirst.Poll | 65-implement-generic-class/src/main/java/it/unibo/generics/graph/impl/GraphImpl.java:112-113 | Polling the head of a non-empty queue turns the outer-loop invariant into the inner-loop invariant for that node. |
| BreadthFirst.SkipVisited | 65-implement-generic-class/src/main/java/it/unibo/generics/graph/impl/GraphImpl.java:114-115 | Skipping an already-visited successor keeps the inner-loop invariant. |
| BreadthFirst.Discover | 65-implement-generic-class/src/main/java/it/unibo/generics/graph/impl/GraphImpl.java:115-119 | Marking, queueing and recording an unvisited successor keeps the inner-loop invariant. The queue stays ordered by depth. |
| BreadthFirst.AppendedStep | 65-implement-generic-class/src/main/java/it/unibo/generics/graph/impl/GraphImpl.java:116-118 | Marking one more unvisited successor, appending it to the queue and recording the polled node as its predecessor keeps the account of the inner loop: only growth, every new entry points at the polled node, and the queue gains exactly the new nodes at its end. |
| BreadthFirst.Finish | 65-implement-generic-class/src/main/java/it/unibo/generics/graph/impl/GraphImpl.java:112-121 | Once all successors of the polled node are handled, the outer-loop invariant holds again with that node expanded. |
| BreadthFirst.Drained | 65-implement-generic-class/src/main/java/it/unibo/generics/graph/impl/GraphImpl.java:112-122 | With the queue empty, every successor of a recorded node is recorded, at most one level deeper. |
| BreadthFirst.Complete | 65-implement-generic-class/src/main/java/it/unibo/generics/graph/impl/GraphImpl.java:104-123 | With the queue empty, the recorded nodes are exactly the reachable ones. Each is recorded at a depth below the length of every walk to it. |
| GraphImpl.Graph.Bfs | 65-implement-generic-class/src/main/java/it/unibo/generics/graph/impl/GraphImpl.java:104-123 | BFS returns a predecessor tree rooted at the source. Its keys are exactly the nodes reachable from the source. Each depth is the shortest distance. |
| GraphImpl.Graph.ScanNeighbors | 65-implement-generic-class/src/main/java/it/unibo/generics/graph/impl/GraphImpl.java:114-120 | The inner loop handles every successor of the polled node and keeps the BFS invariant. Afterwards the visited set is the old one plus all successors of the polled node. Old predecessor entries are kept, and every new entry has the polled node as its predecessor. The queue keeps its old contents in front and gains exactly the newly visited nodes at its end, so it is unchanged when nothing new was visited. |
| GraphImpl.Graph.Dfs | 65-implement-generic-class/src/main/java/it/unibo/generics/graph/impl/GraphImpl.java:134-141 | DFS returns a predecessor tree rooted at the source. Its keys are exactly the nodes reachable from the source. |
| GraphImpl.Graph.SearchDfs | 65-implement-generic-class/src/main/java/it/unibo/generics/graph/impl/GraphImpl.java:146-154 | After exploring from the current node: the visited set equals the predecessor map's keys and includes the current node; no earlier entry is overwritten; every node recorded by this call hangs from a node first visited in this call (the current node or one of its descendants); the tree shape is kept; and every visited node not on the active call stack has all its successors visited. |
| GraphScenarios.FourNodes | 65-implement-generic-class/src/main/java/it/unibo/generics/graph/impl/GraphImpl.java:36-40 | Adding nodes 1 to 4 to a new graph gives four nodes without successors. |
| GraphScenarios.BuildDiamond | 65-implement-generic-class/src/main/java/it/unibo/generics/graph/impl/GraphImpl.java:42-46 | Adding edges 1→2, 2→3, 1→3 and 3→4 gives exactly those successor sets. |
| GraphScenarios.ShortestHopScenario | 65-implement-generic-class/src/main/java/it/unibo/generics/graph/impl/GraphImpl.java:56-66 | Breadth-first, `getPath(1, 4)` on that graph is `[1, 3, 4]`, the two-hop route. |
| GraphScenarios.UnreachableScenario | 65-implement-generic-class/src/main/java/it/unibo/generics/graph/impl/GraphImpl.java:85-93 | On that graph `getPath(4, 1)` is `[1]`, which does not start at 4. The corrected search gives `[]`. |
| SocialNetworkUserImpl.SocialNetworkUser.constructor | 64-design-with-maps/src/main/java/it/unibo/collections/social/impl/SocialNetworkUserImpl.java:66-77 | A new user follows nobody and has no circles. |
| SocialNetworkUserImpl.SocialNetworkUser.AddFollowedUser | 64-design-with-maps/src/main/java/it/unibo/collections/social/impl/SocialNetworkUserImpl.java:85-93 | The result is always false, and afterwards the user is followed. If the user was already followed, nothing changes and no circle is created. Otherwise the circle is created if missing and the user is appended to that circle only. Each user stays in at most one circle. |
| SocialNetworkUserImpl.SocialNetworkUser.GetFollowedUsersInGroup | 64-design-with-maps/src/main/java/it/unibo/collections/social/impl/SocialNetworkUserImpl.java:101-106 | The members of an existing circle, else empty. No user occurs twice. |
| SocialNetworkUserImpl.SocialNetworkUser.GroupExists | 64-design-with-maps/src/main/java/it/unibo/collections/social/impl/SocialNetworkUserImpl.java:108-110 | True exactly when a circle of that name was created. |
| SocialNetworkUserImpl.SocialNetworkUser.UserIsFriend | 64-design-with-maps/src/main/java/it/unibo/collections/social/impl/SocialNetworkUserImpl.java:112-121 | True exactly when some circle holds the user. |
| SocialNetworkUserImpl.SocialNetworkUser.AddGroup | 64-design-with-maps/src/main/java/it/unibo/collections/social/impl/SocialNetworkUserImpl.java:123-125 | The circle exists afterwards with no members, keeping its place if it already existed. No other circle changes. |
| SocialNetworkUserImpl.SocialNetworkUser.GetFollowedUsers | 64-design-with-maps/src/main/java/it/unibo/collections/social/impl/SocialNetworkUserImpl.java:128-134 | The members of all circles, concatenated in circle-creation order. No user occurs twice. A user is listed exactly when they are followed. |
| SocialNetworkUserImpl.ConcatMembers | 64-design-with-maps/src/main/java/it/unibo/collections/social/impl/SocialNetworkUserImpl.java:128-134 | A user is in the concatenation exactly when some listed circle holds them. |
| SocialNetworkUserImpl.ConcatDistinct | 64-design-with-maps/src/main/java/it/unibo/collections/social/impl/SocialNetworkUserImpl.java:128-134 | Suppose circles are listed once, each circle holds a user once, and no user is in two circles. Then the concatenation holds each user once. |

## Left out

- Iteration order: the order in which a `HashSet` of successors is iterated is not modelled; each loop picks an arbitrary remaining successor, and every result is proved for all orders, so which walk depth-first search returns is left open.
- Java `null` as a node: only `addNode` takes an optional node (None for `null`). Elsewhere `null` is never a key of the adjacency map, so it behaves as an unknown node.
- The constructor with a `null` mode string, which throws NullPointerException, is not modelled.
- The public static, mutable fields `DEPTH` and `BREATH` are modelled as the constants "DFS" and "BFS"; reassigning them is not modelled.
- GraphImpl.Graph.LinkedNodes: a node that is not in the graph is a precondition. The Java code throws NullPointerException there.
- GraphImpl.Graph.NodeSet, GraphImpl.Graph.LinkedNodes, SocialNetworkUserImpl.SocialNetworkUser.GetFollowedUsersInGroup: the Java copies are fresh collections; here they are immutable values, so no aliasing can arise.
- GraphImpl.Graph.SearchDfs: the visited set and predecessor map that the Java code shares between recursive calls are passed in and returned as values. The recursion depth, and the StackOverflowError a deep graph can cause, are not modelled.
- GraphImpl.Graph.ScanNeighbors: the inner `for` loop of BFS is a method of its own, called once per polled node.
- Each `LinkedHashSet` of a circle is a sequence that holds no duplicate. The `LinkedHashMap` of circles is a sequence of circle names in creation order plus a map from name to members.
- SocialNetworkUserImpl.SocialNetworkUser.constructor: the two Java constructors are one here, because the name, surname, username and age they pass on belong to the UserImpl superclass, which is not part of this model.
- Users are compared with `==`. A `User.equals` that differs from identity of values is not modelled.
- UseListsAndMaps and NetworkException are not part of this model.

## Findings

| source | as written | input that shows it | evidently intended | confidence | as-written member | corrected member |
|---|---|---|---|---|---|---|
| 65-implement-generic-class/src/main/java/it/unibo/generics/graph/impl/GraphImpl.java:85-93 | For a target that is a node but is unreachable from the source, the backward walk stops at once, because `predecessors.get(target)` is `null`. `getPath` then returns `[target]`, which is not a path from the source. | Graph with nodes 1 to 4 and edges 1→2, 2→3, 1→3, 3→4: `getPath(4, 1)` returns `[1]` (GraphScenarios.UnreachableScenario) | An empty list when no path exists, so that a non-empty result is always a path from source to target | medium, not executed | GraphImpl.Graph.GetPath | GraphImpl.Graph.GetPathIfReachable |
