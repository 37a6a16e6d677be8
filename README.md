# Tree: subtree additions and path maxima

This project models the class `Tree` of TreeProject. A tree holds n nodes
named 1..n. Each node carries an integer value (initially 0) and the list
of its neighbours' names. The class offers four operations:

- `addEdge(x, y)` records an undirected edge.
- `addValue(t, v)` adds v to every node in the subtree of t, with node 1 as
  the root. It finds the path from t to the root, marks every node of that
  path except t, and runs a depth-first search from t that skips marked
  nodes.
- `max(a, b)` returns the largest value on the path between a and b.
- `findPath(start, end)` is the recursive depth-first path search that both
  of the above use.

The model has three files:

- `graphs.dfy` (module `Graphs`) covers the graph vocabulary: adjacency
  lists, walks and simple paths, reachability that avoids a set of nodes,
  cycles, and what makes an adjacency a tree. A tree is well formed,
  symmetric, connected, acyclic, and has exactly 2(n-1) list entries. It
  also holds the graph facts the operations need. The most important one
  is that a symmetric acyclic graph has at most one simple path between
  two nodes. This is proved, not assumed. Another is that, in a tree, what
  the search from t reaches while avoiding t's ancestors is exactly the
  subtree of t.
- `tree.dfy` (module `TreeModel`) holds the class `Tree`, whose methods
  follow the Java methods one by one. The array of `Node` objects is split
  into three parallel fields:
  - `names`, the node names;
  - `edges`, the neighbour lists, as a `seq<seq<int>>` that `addEdge`
    reassigns;
  - `values`, an `array<int>` that `addValue` updates in place.

  The recursive methods `FindPathHelper` and `Dfs` keep the Java loops
  over neighbour lists and carry the loop invariants that prove them.
- `scenario.dfy` (module `Scenario`) is a client in the style of the
  driver program. It builds a four-node tree with edges (1,2), (1,3) and
  (3,4), adds 5 at node 3, and queries three maxima.

The path search does not return the path itself. The Java code appends to
one list shared by all recursive calls. After the target is found, every
frame on the way back appends a copy of the list's first element (the
target) and then its own start node. For a path of k nodes the list
therefore has 2k-1 entries: the target at every odd position and the path
nodes, in order from the target back to the start, at the even positions.
The model follows this code. `PathList` is the list as the code builds it,
and `PathListAt` states the layout. A plain description of the search as
"prepending the nodes of the path" would miss the duplicated target
entries. `max` only scans the list, so they do not change its result.

## Model

| member | source | states |
|---|---|---|
| TreeModel.Tree.constructor | TreeProject/src/Tree.java:39-43 | a new tree has n nodes named i+1 at index i, each with value 0 and an empty neighbour list, and satisfies the class invariant |
| TreeModel.Tree.AddVertices | TreeProject/src/Tree.java:44-50 | fills positions 0..n-1 with node i+1, value 0 and no neighbours; the values array itself is not replaced |
| TreeModel.Tree.AddEdge | TreeProject/src/Tree.java:51-56 | appends y to x's list and x to y's list and changes nothing else; for x == y the same list gets both; the number of list entries grows by exactly 2; a symmetric adjacency stays symmetric; there is no check for self-loops or repeated edges |
| TreeModel.Tree.FindPath | TreeProject/src/Tree.java:106-114 | the result is empty exactly when end is unreachable from start; otherwise it is the 2k-1 list of a simple path from start to end; a search from a node to itself yields [start]; in a tree the result is never empty and its path is the only simple path |
| TreeModel.Tree.FindPathHelper | TreeProject/src/Tree.java:115-161 | the start is marked and nothing outside the graph is marked; the result is empty exactly when end cannot be reached while avoiding the nodes already marked, and then exactly the nodes so reachable from start get marked; otherwise the result is the list of a simple path from start to end that avoids the marked nodes |
| TreeModel.PathList | TreeProject/src/Tree.java:119-159 | the list built for a path of k nodes has length 2k-1, starts with the target, ends with the start, and contains exactly the nodes of the path |
| TreeModel.PathListAt | TreeProject/src/Tree.java:119-159 | position i of the list holds the target when i is odd, and otherwise the node i/2 steps back from the target along the path |
| TreeModel.Tree.Dfs | TreeProject/src/Tree.java:78-90 | after the call the marked set is the old one plus every node reachable from u without entering a marked node; exactly those nodes get v added to their values, and every other value is unchanged |
| TreeModel.Tree.AddValue | TreeProject/src/Tree.java:57-77 | v is added exactly to the nodes that can be reached from t without entering the path from t to the root (t excluded) and to no other node; when t cannot reach the root this is t's whole component; at the root it is everything reachable from the root; in a tree it is exactly the subtree of t, and at the root it is every node |
| TreeModel.Tree.Max | TreeProject/src/Tree.java:91-105 | for reachable a and b, the result is a value held by some node on a simple path from a to b and is at least every value on that path; for a == b it is a's own value; the method changes no state |
| TreeModel.MaxSymmetric | TreeProject/src/Tree.java:91-114 | in a tree, the maximum on the path from a to b equals the maximum on the path from b to a |
| TreeModel.TreePathReversed | TreeProject/src/Tree.java:106-161 | in a tree, the path from b to a is the path from a to b reversed |
| TreeModel.MaxOnReversed | TreeProject/src/Tree.java:94-104 | a node sequence and its reverse have the same maximum value |
| TreeModel.AddOnAdditive | TreeProject/src/Tree.java:57-90 | adding v1 and then v2 over the same node set is adding v1+v2 once |
| TreeModel.AddOnDisjoint | TreeProject/src/Tree.java:84-89 | adding v over two disjoint node sets, one after the other, is adding v over their union, which is how the recursive calls' additions compose |
| Graphs.AcyclicPathsUnique | TreeProject/src/Tree.java:106-161 | in a symmetric acyclic graph, two simple paths with the same endpoints are equal, so the path search finds the path |
| Graphs.ReachAvoidingAncestorsIsSubtree | TreeProject/src/Tree.java:57-77 | in a tree, the nodes reachable from t while avoiding the path from t to the root (t excluded) are exactly the subtree of t |
| Graphs.RootSubtreeIsAll | TreeProject/src/Tree.java:67-76 | in a tree, the subtree of the root is every node |
| Graphs.ReachSetFromVisited | TreeProject/src/Tree.java:81-83 | a search from an already marked node reaches nothing |
| Graphs.PathToSelf | TreeProject/src/Tree.java:120-123 | the only simple path from a node to itself is the node alone |
| Graphs.ReachSetClosed | TreeProject/src/Tree.java:87-89 | the marked set plus everything reachable from a avoiding it is closed under stepping to neighbours from the newly reached nodes |
| Graphs.ClosedContainsReach | TreeProject/src/Tree.java:127-146 | a node set closed under neighbours that contains a also contains everything reachable from a while avoiding the marked nodes |
| Graphs.EntryCountAppend | TreeProject/src/Tree.java:54-55 | appending one name to one neighbour list adds exactly one list entry |
| Scenario.BuildExample | TreeProject/src/Driver.java:32-38 | four nodes joined by (1,2), (1,3) and (3,4) give the neighbour lists [[2,3],[1],[1,4],[3]], all values 0 |
| Scenario.AddBelowThree | TreeProject/src/Driver.java:42-46 | in that tree, adding 5 at node 3 leaves the values [0,0,5,5] |
| Scenario.AddTwice | TreeProject/src/Driver.java:40-47 | in a tree, two additions at the same node add their sum to the node's subtree |

`Scenario.WorkedExample` then checks the three maxima on the example tree:
max(2,4) is 5, max(1,2) is 0 and max(3,4) is 5.

## Left out

- The driver's file input and output, its timing and its instruction
  parsing are not modelled. `Scenario` plays the driver's role on fixed
  data.
- Java exceptions are preconditions: node names must lie in 1..n, and
  `max` needs b reachable from a (otherwise the Java code indexes an empty
  list).
- TreeModel.Tree.AddValue: node values are unbounded integers; Java's
  32-bit wrap-around on overflow is not modelled.
- TreeModel.Tree.Max: compares unbounded integers; the 32-bit range of
  the Java values is not modelled.
- The `Node` objects become positions in three parallel fields. No two
  positions can alias, and the model does not represent a `Node` reached
  by reference.
- The marked `HashSet` of the path search and the marked `ArrayList` of
  the subtree addition are modelled as sets that are passed in and
  returned. Their insertion order, and the linear cost of
  `ArrayList.contains`, are not represented.
- The path list shared by all frames of `findPathHelper` is empty whenever
  a frame starts. Each frame therefore returns its list, and the caller
  takes that list as the shared one. Aliasing between the list and the
  caller's copy is not represented.
- TreeModel.Tree.FindPath: outside trees, only the results that hold for
  every graph are stated. Which path the search picks among several
  depends on list order.
- Recursion depth (stack overflow on deep trees) and running time are not
  modelled.
