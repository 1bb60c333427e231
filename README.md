# Topological-sort analyzer: graph and sorting core

This project models the core of `topo_analyzer`, a small Python package that
builds random directed acyclic graphs and sorts them topologically in two
ways: depth-first search and Kahn's source-removal algorithm.

- `digraph.dfy` (module `Digraph`) holds the graph vocabulary on values.
  - An adjacency is `map<int, seq<int>>`. A missing key reads as the empty
    list, as with Python's `defaultdict(list)`.
  - It defines paths, cycles and topological orders.
  - It defines the multiset of all adjacency entries, `Entries`. Its size is
    the edge count, and its multiplicity at `v` is the in-degree of `v`.
  - It proves the graph facts both sorts rely on: a graph with a topological
    order has no cycle, a back edge closes a cycle, and a non-empty set in
    which every node has a predecessor holds a cycle.
- `graph.dfy` (module `Graphs`) holds the mutable `Graph` class.
  - Its fields are `adj` and `nodes`. `add_node` and `add_edge` update them
    in place. `V` is a function and `E` a ghost function on the fields.
  - The random DAG generator keeps the source's two nested loops.
  - Its lemmas cover what the generator's result looks like: its edges, its
    acyclicity, its edge count, and the single topological order of the
    complete DAG.
- `algorithms.dfy` (module `Algorithms`) holds the two sorts and the table
  that maps algorithm names to them.
  - `dfs_sort` becomes `DfsSort`. Its nested `_dfs_visit` becomes the mutually
    recursive methods `Visit` (one call) and `VisitSuccessors` (the loop over
    one node's successors). The closure's shared `visited`, `recursion_stack`
    and `stack` are passed in and returned.
  - `kahn_sort` becomes `KahnSort`, with the in-degree count, the initial
    queue and the processing loop written as loops.
  - A raised `CycleDetectedError` becomes the result `CycleDetected`.
  - Neither sort has a `modifies` clause, so neither changes the graph.

Every sort result is specified against `IsTopoOrder`. The order holds each
node exactly once, and every edge goes from an earlier to a later position.
"Cycle detected" is reported exactly when the graph has a cycle, and this
is proved in both directions.

Some choices in the source are arbitrary: the random draw, and the order in
which Python iterates a set. The model treats them as parameters, so every
result holds for all of their values.
- `random.random() < density` becomes an oracle `chooses(u, v)`. The results
  about density 0 and density 1 are stated for an oracle that always answers
  false or always answers true.
- Iterating a set becomes an arbitrary choice (`:|`) of the next element.

For an empty graph, `EmptyGraph` together with the sorts' ensures clauses
gives both stated outcomes: an empty order and no failure.
`GenerateRandomDag(0, …)` together with `GeneratedEdgeCount` gives V = 0 and
E = 0.

Node identifiers are modelled as all of `int`, not only non-negative ones.
The class accepts any integer, and nothing in the sorts depends on the sign.

## Model

| member | source | states |
|---|---|---|
| Digraph.EdgeCountEmpty | topo_analyzer/graph.py:23-26 | a graph with no adjacency lists has E = 0 |
| Digraph.EdgeCountAppend | topo_analyzer/graph.py:32-34 | appending one successor to any list, new or existing, raises the total list length E by exactly one, duplicates and self-loops included |
| Digraph.SubsetCard | topo_analyzer/graph.py:18-21 | V never decreases when the node set grows, as it does under add_node and add_edge |
| Digraph.EntriesWitness | topo_analyzer/algorithms.py:61-65 | a positive in-degree count for v over a node set S means some node of S has an edge to v |
| Digraph.ReverseDistinct | topo_analyzer/algorithms.py:50 | reversing the finish stack keeps it free of duplicates |
| Digraph.ReverseElems | topo_analyzer/algorithms.py:50 | reversing the finish stack keeps exactly the same nodes |
| Digraph.TopoOrderAcyclic | topo_analyzer/algorithms.py:16-23 | a closed graph that has a topological order has no cycle, so a sort that succeeds rules out a cycle |
| Digraph.IncreasingEdgesAcyclic | topo_analyzer/graph.py:57-58 | a graph whose every edge goes from a smaller to a larger id has no cycle |
| Digraph.BackEdgeCycle | topo_analyzer/algorithms.py:36-38 | an edge from the node on top of the DFS path back to a node on that path closes a cycle |
| Digraph.CycleFromPredecessors | topo_analyzer/algorithms.py:86-88 | a non-empty set in which every node has a predecessor inside the set contains a cycle |
| Digraph.EmptyGraph | topo_analyzer/algorithms.py:86-90 | the empty graph has no cycle, and its only topological order is the empty one |
| Graphs.Graph.constructor | topo_analyzer/graph.py:14-16 | a new graph has no nodes and no adjacency lists, with V = 0 and E = 0 |
| Graphs.Graph.AddNode | topo_analyzer/graph.py:28-30 | the node set gains u and nothing else, the lists are unchanged, and adding an existing node changes nothing |
| Graphs.Graph.AddEdge | topo_analyzer/graph.py:32-36 | v is appended to u's list, the list is created if missing, the other lists are unchanged, u and v join the node set, and the graph stays closed |
| Graphs.Graph.GetAllNodes | topo_analyzer/graph.py:38-40 | returns a set of V nodes that contains both ends of every edge |
| Graphs.Graph.GenerateRandomDag | topo_analyzer/graph.py:42-62 | returns a new closed graph with nodes 0 .. n-1 (none when n <= 0) and, for each u, the row of accepted v > u in increasing order; V = max(n, 0) |
| Graphs.AddRow | topo_analyzer/graph.py:55-61 | one pass of the outer loop adds node u and then exactly row u |
| Graphs.AddChosenEdges | topo_analyzer/graph.py:59-61 | the inner loop appends exactly the accepted v in u+1 .. n-1, in increasing order, and keeps the node set within 0 .. n-1 |
| Graphs.RowsSucc | topo_analyzer/graph.py:55-61 | after rows 0 .. u-1 the list of w holds the accepted successors of w if w < u, and is empty otherwise |
| Graphs.RowsEdgeCount | topo_analyzer/graph.py:55-61 | the generated edge count equals the number of accepted pairs |
| Graphs.GeneratedEdges | topo_analyzer/graph.py:57-61 | every generated edge u -> v has 0 <= u < v < n and was accepted, no list holds a duplicate, and the graph has no cycle |
| Graphs.ChosenRow | topo_analyzer/graph.py:59-61 | row u holds v exactly when u < v < n and v was accepted, in strictly increasing order, with at most n-u-1 entries |
| Graphs.ChosenAll | topo_analyzer/graph.py:59-61 | when every draw succeeds (density 1), row u has n-u-1 entries |
| Graphs.ChosenNone | topo_analyzer/graph.py:59-61 | when every draw fails (density 0), every row is empty |
| Graphs.PairCountBounds | topo_analyzer/graph.py:55-61 | the first u rows hold at most u(2n-u-1)/2 edges: none at density 0, all of them at density 1 |
| Graphs.GeneratedEdgeCount | topo_analyzer/graph.py:49-61 | a generated DAG on n nodes has at most n(n-1)/2 edges: 0 at density 0 and exactly n(n-1)/2 at density 1 |
| Graphs.CompleteDagEdges | topo_analyzer/graph.py:59-61 | at density 1 the edges are exactly the pairs 0 <= a < b < n |
| Graphs.IdentityOrder | topo_analyzer/graph.py:57-58 | when every edge goes upwards, 0, 1, .., n-1 is a topological order of 0 .. n-1 |
| Graphs.OnlyOrder | topo_analyzer/graph.py:59-61 | when every pair a < b below n is an edge, the only topological order of 0 .. n-1 is the increasing one |
| Graphs.CompleteDagOrder | topo_analyzer/graph.py:42-62 | the DAG generated at density 1 has exactly one topological order: 0, 1, .., n-1 |
| Graphs.NodeRange | topo_analyzer/graph.py:53 | the node list holds x exactly when 0 <= x < n, with n ids when n >= 0 |
| Algorithms.EnterNode | topo_analyzer/algorithms.py:29-31 | marking a node visited and pushing it on the recursion stack keeps the DFS invariant |
| Algorithms.LeaveNode | topo_analyzer/algorithms.py:40-43 | once all successors of a node are finished, appending it to the stack and popping it off the recursion stack keeps the DFS invariant |
| Algorithms.Visit | topo_analyzer/algorithms.py:29-43 | one call either reports a cycle that really exists, or finishes the node while keeping the DFS invariant and leaving the recursion stack as it was |
| Algorithms.VisitSuccessors | topo_analyzer/algorithms.py:33-38 | the successor loop either reports a real cycle (a back edge or a cycle found deeper), or leaves every successor finished |
| Algorithms.ReversedFinishOrder | topo_analyzer/algorithms.py:45-50 | when every node is visited and the path is empty, the reversed finish stack is a topological order |
| Algorithms.DfsSort | topo_analyzer/algorithms.py:16-50 | returns a topological order of all nodes, or reports a cycle exactly when the graph has one |
| Algorithms.CountSuccessors | topo_analyzer/algorithms.py:64-65 | counting one node's list adds, for each v, the number of times v occurs in that list |
| Algorithms.InDegrees | topo_analyzer/algorithms.py:61-65 | the in-degree table has exactly the nodes as keys, and each value is the number of edges into that node, duplicates counted |
| Algorithms.ZeroInDegreeQueue | topo_analyzer/algorithms.py:67-69 | the initial queue holds each zero-in-degree node exactly once, and nothing else |
| Algorithms.KahnStart | topo_analyzer/algorithms.py:61-72 | after counting and seeding the queue, the Kahn invariant holds with nothing emitted |
| Algorithms.KahnEmit | topo_analyzer/algorithms.py:75-78 | popping the front of the queue and emitting it keeps the invariant, respects every edge, and shrinks the set of unemitted nodes |
| Algorithms.KahnDecrement | topo_analyzer/algorithms.py:80-84 | the decremented in-degree was positive, and enqueueing the node when it reaches zero keeps the invariant |
| Algorithms.KahnFinish | topo_analyzer/algorithms.py:86-90 | when the queue is empty, emitting V nodes gives a topological order, and emitting fewer means a cycle exists |
| Algorithms.KahnSort | topo_analyzer/algorithms.py:52-90 | returns a topological order of all nodes, or reports a cycle exactly when the graph has one |
| Algorithms.Name | topo_analyzer/algorithms.py:92-96 | each algorithm is registered under one of the two names "DFS-based Sort" and "Kahn's Algorithm" |
| Algorithms.Lookup | topo_analyzer/algorithms.py:92-96 | looking up a name finds an algorithm exactly when that algorithm is registered under it, and finds none otherwise |
| Algorithms.Run | topo_analyzer/algorithms.py:92-96 | whichever algorithm is looked up, the result is a topological order, or a cycle report exactly when a cycle exists |

## Left out

- `analyzer.py`, `main.py` and `plotter.py` are not part of this model. They cover benchmarking, wall-clock timing, command-line handling, result records and plotting, all of which are I/O and measurement.
- The random number generator and the floating-point `density` are replaced by the oracle `chooses`. The model does not capture the probability of an edge, only the edges that the answers imply.
- Python's set iteration order (the DFS roots, the in-degree scan, the initial queue) is modelled as an arbitrary choice. Results are proved for every choice, but no particular order is reproduced.
- The dictionary order of `ALGORITHM_MAP` is not modelled. The table is a closed datatype of two algorithms with a name for each.
- Reading `graph.adj[node]` on a `defaultdict` inserts an empty list for a node without one. This is left out, because it changes neither the successors read nor E. A missing key reads as the empty list instead.
- The message text of `CycleDetectedError` is left out. A raised error is the result `CycleDetected`.
- Python's recursion-depth limit on `_dfs_visit` is left out. Recursion in the model is unbounded.
- The `deque` is modelled as a sequence: `popleft` takes the head and `append` adds at the end.
- Graphs.Graph.AddEdge: its ensures clause does not state E = old E + 1. `Digraph.EdgeCountAppend` states that about the same map update.
- Graphs.Graph.AddNode: its ensures clause does not state that V does not decrease. It gives the new node set as a superset of the old one, and `Digraph.SubsetCard` turns that into the V bound.
