/**
 The two topological sorts over a `Graph` (depth-first and Kahn's source
 removal) and the table that names them. A cycle is reported as the result
 `CycleDetected` instead of an exception. Neither sort modifies the graph.
 */
module Algorithms {
  import opened Digraph
  import opened Graphs

  /** The outcome of a sort: an order of all nodes, or the cycle error. */
  datatype SortResult = Sorted(order: seq<int>) | CycleDetected

  datatype Option<T> = None | Some(value: T)

  // ---------------------------------------------------------------------
  // Depth-first sort
  // ---------------------------------------------------------------------

  /** The state of a depth-first search that has met no back edge: `path`
      holds the calls in progress, outermost first, and `finished` the nodes
      whose calls have returned, in the order they returned. A finished node
      only has finished successors, each finished before it. */
  ghost predicate DfsState(nodes: set<int>, adj: map<int, seq<int>>, visited: set<int>,
                           path: seq<int>, finished: seq<int>)
  {
    Elems(path) <= visited <= nodes && IsPath(adj, path) &&
    Distinct(finished) &&
    (forall x :: x in finished <==> x in visited && x !in path) &&
    (forall f, w :: f in finished && HasEdge(adj, f, w) ==> w in finished) &&
    (forall i, j :: 0 <= i < |finished| && 0 <= j < |finished| && HasEdge(adj, finished[i], finished[j]) ==> j < i)
  }

  /** Entering `node` from the top of the path extends the path. */
  lemma EnterNode(nodes: set<int>, adj: map<int, seq<int>>, visited: set<int>,
                  path: seq<int>, finished: seq<int>, node: int)
    requires DfsState(nodes, adj, visited, path, finished)
    requires node in nodes && node !in visited
    requires path != [] ==> HasEdge(adj, path[|path| - 1], node)
    ensures DfsState(nodes, adj, visited + {node}, path + [node], finished)
    ensures Elems(path + [node]) == Elems(path) + {node}
  {
    var p := path + [node];
    forall i | 0 <= i < |p| - 1
      ensures HasEdge(adj, p[i], p[i + 1])
    {
      if i < |path| - 1 {
        assert p[i] == path[i] && p[i + 1] == path[i + 1];
      }
    }
    SameElements(Elems(p), Elems(path) + {node});
  }

  /** Leaving `node` once all its successors are finished: it becomes the
      last finished node and leaves the path. */
  lemma LeaveNode(nodes: set<int>, adj: map<int, seq<int>>, visited: set<int>,
                  path: seq<int>, finished: seq<int>, node: int)
    requires DfsState(nodes, adj, visited, path + [node], finished)
    requires IsPath(adj, path) && node !in path
    requires forall w :: HasEdge(adj, node, w) ==> w in finished
    ensures DfsState(nodes, adj, visited, path, finished + [node])
    ensures Elems(path + [node]) - {node} == Elems(path)
  {
    assert node in path + [node];
    var f := finished + [node];
    forall i, j | 0 <= i < |f| && 0 <= j < |f| && HasEdge(adj, f[i], f[j])
      ensures j < i
    {
      if j == |finished| {
        assert false;
      }
    }
    assert Distinct(f);
    assert Elems(path) <= visited by {
      forall x | x in Elems(path) ensures x in visited {
        assert x in path + [node];
      }
    }
    forall x
      ensures x in Elems(path + [node]) - {node} <==> x in Elems(path)
    {
      if x in path {
        assert (path + [node])[IndexOf(path, x)] == x;
      }
    }
    SameElements(Elems(path + [node]) - {node}, Elems(path));
  }

  /** A child call only adds to the finished nodes. */
  lemma FinishedGrows(nodes: set<int>, adj: map<int, seq<int>>, visited: set<int>,
                      path: seq<int>, before: seq<int>, after: seq<int>)
    requires forall x :: x in before ==> x in visited && x !in path
    requires DfsState(nodes, adj, visited, path, after)
    ensures forall x :: x in before ==> x in after
  {
  }

  /** The call `_dfs_visit(node)`: marks `node` visited and on the recursion
      stack, visits its successors, and appends `node` to the finished list
      and takes it off the recursion stack. A back edge met on the way aborts
      the whole search, and then the graph has a cycle. */
  method Visit(g: Graph, node: int, visited: set<int>, onStack: set<int>,
               finished: seq<int>, ghost path: seq<int>)
    returns (cycle: bool, visited': set<int>, onStack': set<int>, finished': seq<int>)
    requires g.Valid()
    requires DfsState(g.nodes, g.adj, visited, path, finished) && onStack == Elems(path)
    requires node in g.nodes && node !in visited
    requires path != [] ==> HasEdge(g.adj, path[|path| - 1], node)
    ensures cycle ==> HasCycle(g.adj)
    ensures !cycle ==> DfsState(g.nodes, g.adj, visited', path, finished') && onStack' == onStack
    ensures !cycle ==> visited + {node} <= visited'
    decreases g.nodes - visited, 0
  {
    EnterNode(g.nodes, g.adj, visited, path, finished, node);
    assert node in g.nodes - visited && node !in g.nodes - (visited + {node});
    cycle, visited', onStack', finished' :=
      VisitSuccessors(g, node, visited + {node}, onStack + {node}, finished, path + [node]);
    if cycle {
      return;
    }
    LeaveNode(g.nodes, g.adj, visited', path, finished', node);
    finished' := finished' + [node];
    onStack' := onStack' - {node};
  }

  /** The loop of `_dfs_visit` over the successor list of `node`, the top
      of the path: an unvisited successor is visited, one still on the
      recursion stack closes a cycle, and a finished one is skipped. On
      success every successor is finished. */
  method VisitSuccessors(g: Graph, node: int, visited: set<int>, onStack: set<int>,
                         finished: seq<int>, ghost path: seq<int>)
    returns (cycle: bool, visited': set<int>, onStack': set<int>, finished': seq<int>)
    requires g.Valid()
    requires DfsState(g.nodes, g.adj, visited, path, finished) && onStack == Elems(path)
    requires path != [] && path[|path| - 1] == node
    ensures cycle ==> HasCycle(g.adj)
    ensures !cycle ==> DfsState(g.nodes, g.adj, visited', path, finished') && onStack' == onStack
    ensures !cycle ==> visited <= visited'
    ensures !cycle ==> forall w :: HasEdge(g.adj, node, w) ==> w in finished'
    decreases g.nodes - visited, 1
  {
    visited', onStack', finished' := visited, onStack, finished;
    var succ := Succ(g.adj, node);
    var k := 0;
    while k < |succ|
      invariant 0 <= k <= |succ|
      invariant visited <= visited'
      invariant DfsState(g.nodes, g.adj, visited', path, finished') && onStack' == Elems(path)
      invariant forall m :: 0 <= m < k ==> succ[m] in finished'
    {
      var neighbor := succ[k];
      assert HasEdge(g.adj, node, neighbor);
      if neighbor !in visited' {
        ghost var before := finished';
        cycle, visited', onStack', finished' := Visit(g, neighbor, visited', onStack', finished', path);
        if cycle {
          return;
        }
        FinishedGrows(g.nodes, g.adj, visited', path, before, finished');
      } else if neighbor in onStack' {
        BackEdgeCycle(g.adj, path, neighbor);
        return true, visited', onStack', finished';
      }
      assert neighbor in finished';
      k := k + 1;
    }
    forall w | HasEdge(g.adj, node, w)
      ensures w in finished'
    {
      assert succ[IndexOf(succ, w)] == w;
    }
    cycle := false;
  }

  /** When every node is finished and no call is in progress, the reversed
      finishing order is a topological order. */
  lemma {:induction false} ReversedFinishOrder(nodes: set<int>, adj: map<int, seq<int>>, finished: seq<int>)
    requires DfsState(nodes, adj, nodes, [], finished)
    ensures IsTopoOrder(nodes, adj, Reverse(finished))
  {
    var r := Reverse(finished);
    var n := |finished|;
    ReverseDistinct(finished);
    ReverseElems(finished);
    SameElements(Elems(finished), nodes);
    forall i, j | 0 <= i < n && 0 <= j < n && HasEdge(adj, r[i], r[j])
      ensures i < j
    {
      assert r[i] == finished[n - 1 - i] && r[j] == finished[n - 1 - j];
    }
  }

  /** `dfs_sort`: a depth-first visit from every unvisited node, in an
      arbitrary enumeration of the node set, then the finishing order
      reversed. It succeeds exactly on the acyclic graphs. */
  method DfsSort(g: Graph) returns (r: SortResult)
    requires g.Valid()
    ensures r.Sorted? ==> IsTopoOrder(g.nodes, g.adj, r.order)
    ensures r.CycleDetected? <==> HasCycle(g.adj)
  {
    var visited: set<int> := {};
    var onStack: set<int> := {};
    var finished: seq<int> := [];
    var todo := g.GetAllNodes();
    assert Elems([]) == {};
    while todo != {}
      invariant todo <= g.nodes
      invariant forall x :: x in g.nodes && x !in todo ==> x in visited
      invariant DfsState(g.nodes, g.adj, visited, [], finished) && onStack == Elems([])
      decreases todo
    {
      Inhabited(todo);
      var node :| node in todo;
      if node !in visited {
        var cycle;
        cycle, visited, onStack, finished := Visit(g, node, visited, onStack, finished, []);
        if cycle {
          return CycleDetected;
        }
      }
      todo := todo - {node};
    }
    SameElements(visited, g.nodes);
    ReversedFinishOrder(g.nodes, g.adj, finished);
    r := Sorted(Reverse(finished));
    TopoOrderAcyclic(g.nodes, g.adj, r.order);
  }

  // ---------------------------------------------------------------------
  // Kahn's algorithm
  // ---------------------------------------------------------------------

  /** The counting loop of `kahn_sort`: the in-degree of a node is the number
      of entries equal to it in all successor lists, duplicates and self-loops
      included. */
  method InDegrees(g: Graph) returns (inDegree: map<int, int>)
    requires g.Valid()
    ensures inDegree.Keys == g.nodes
    ensures forall v :: v in inDegree ==> inDegree[v] == Entries(g.adj, g.nodes)[v]
  {
    inDegree := map v | v in g.nodes :: 0;
    var todo := g.GetAllNodes();
    ghost var done: set<int> := {};
    while todo != {}
      invariant todo <= g.nodes
      invariant forall v :: v in done <==> v in g.nodes && v !in todo
      invariant forall v :: v in inDegree <==> v in g.nodes
      invariant forall v :: v in inDegree ==> inDegree[v] == Entries(g.adj, done)[v]
      decreases todo
    {
      Inhabited(todo);
      var node :| node in todo;
      inDegree := CountSuccessors(g, node, inDegree);
      EntriesAdd(g.adj, done, node);
      done := done + {node};
      todo := todo - {node};
    }
    SameElements(inDegree.Keys, g.nodes);
    SameElements(done, g.nodes);
  }

  /** The inner counting loop: one more for every entry of the successor
      list of `node`, duplicates included. */
  method CountSuccessors(g: Graph, node: int, inDegree: map<int, int>) returns (inDegree': map<int, int>)
    requires g.Valid()
    requires forall v :: v in inDegree <==> v in g.nodes
    ensures forall v :: v in inDegree' <==> v in g.nodes
    ensures forall v :: v in inDegree' ==> inDegree'[v] == inDegree[v] + multiset(Succ(g.adj, node))[v]
  {
    inDegree' := inDegree;
    var succ := Succ(g.adj, node);
    var k := 0;
    while k < |succ|
      invariant 0 <= k <= |succ|
      invariant forall v :: v in inDegree' <==> v in g.nodes
      invariant forall v :: v in inDegree' ==> inDegree'[v] == inDegree[v] + multiset(succ[..k])[v]
    {
      var neighbor := succ[k];
      assert HasEdge(g.adj, node, neighbor);
      inDegree' := inDegree'[neighbor := inDegree'[neighbor] + 1];
      assert succ[..k + 1] == succ[..k] + [neighbor];
      k := k + 1;
    }
    assert succ[..k] == succ;
  }

  /** The initial queue of `kahn_sort`: the nodes of in-degree zero, each
      once, in an arbitrary enumeration of the node set. */
  method ZeroInDegreeQueue(g: Graph, inDegree: map<int, int>) returns (queue: seq<int>)
    requires g.Valid()
    requires forall v :: v in g.nodes ==> v in inDegree
    ensures Distinct(queue)
    ensures forall v :: v in queue <==> v in g.nodes && inDegree[v] == 0
  {
    queue := [];
    var todo := g.GetAllNodes();
    while todo != {}
      invariant todo <= g.nodes
      invariant Distinct(queue)
      invariant forall v :: v in queue <==> v in g.nodes && v !in todo && inDegree[v] == 0
      decreases todo
    {
      Inhabited(todo);
      var node :| node in todo;
      if inDegree[node] == 0 {
        queue := queue + [node];
      }
      todo := todo - {node};
    }
  }

  /** The nodes not yet emitted. */
  ghost function Remaining(nodes: set<int>, order: seq<int>): set<int> {
    set x | x in nodes && x !in order
  }

  /** The state of Kahn's processing loop, with `pending` the successors of
      the last emitted node whose in-degrees are still to be decremented:
      every node is emitted or queued at most once; a node's in-degree counts
      its entries in `pending` and the edges into it from the nodes not yet
      emitted, and it is emitted or queued exactly when that count is zero;
      emitted nodes respect every edge among them. */
  ghost predicate KahnState(nodes: set<int>, adj: map<int, seq<int>>, inDegree: map<int, int>,
                            order: seq<int>, queue: seq<int>, pending: seq<int>)
  {
    (forall v :: v in inDegree <==> v in nodes) &&
    Distinct(order + queue) &&
    (forall x :: x in order ==> x in nodes) &&
    (forall x :: x in queue ==> x in nodes) &&
    (forall v :: v in nodes ==> inDegree[v] == Entries(adj, Remaining(nodes, order))[v] + multiset(pending)[v]) &&
    (forall v :: v in nodes ==> (v in order || v in queue <==> inDegree[v] == 0)) &&
    (forall i, j :: 0 <= i < |order| && 0 <= j < |order| && HasEdge(adj, order[i], order[j]) ==> i < j)
  }

  /** Kahn's state right after the counting loop and the initial queue. */
  lemma KahnStart(nodes: set<int>, adj: map<int, seq<int>>, inDegree: map<int, int>, queue: seq<int>)
    requires inDegree.Keys == nodes
    requires forall v :: v in inDegree ==> inDegree[v] == Entries(adj, nodes)[v]
    requires Distinct(queue)
    requires forall v :: v in queue <==> v in nodes && inDegree[v] == 0
    ensures KahnState(nodes, adj, inDegree, [], queue, [])
  {
    SameElements(Remaining(nodes, []), nodes);
    assert [] + queue == queue;
  }

  /** Taking `u` from the front of the queue and emitting it: its out-edges
      leave the remaining nodes and become pending. */
  lemma KahnEmit(nodes: set<int>, adj: map<int, seq<int>>, inDegree: map<int, int>,
                 order: seq<int>, queue: seq<int>)
    requires KahnState(nodes, adj, inDegree, order, queue, []) && queue != []
    ensures KahnState(nodes, adj, inDegree, order + [queue[0]], queue[1..], Succ(adj, queue[0]))
    ensures Remaining(nodes, order + [queue[0]]) < Remaining(nodes, order)
  {
    var u := queue[0];
    var R := Remaining(nodes, order);
    MoveFront(nodes, order, queue);
    EntriesSplit(adj, R, u);
    forall w | w in nodes && inDegree[w] == 0
      ensures !HasEdge(adj, u, w)
    {
      assert Entries(adj, R)[w] == 0;
    }
    AppendForward(adj, order, u);
  }

  /** Moving the front of the queue to the end of the emitted nodes keeps
      both together, and takes one node out of the remaining ones. */
  lemma MoveFront(nodes: set<int>, order: seq<int>, queue: seq<int>)
    requires Distinct(order + queue) && queue != [] && queue[0] in nodes
    ensures order + [queue[0]] + queue[1..] == order + queue
    ensures forall v :: v in order + [queue[0]] || v in queue[1..] <==> v in order || v in queue
    ensures queue[0] in Remaining(nodes, order)
    ensures Remaining(nodes, order + [queue[0]]) == Remaining(nodes, order) - {queue[0]}
  {
    var u := queue[0];
    assert order + [u] + queue[1..] == order + queue;
    forall m | 0 <= m < |order|
      ensures order[m] != u
    {
      assert (order + queue)[m] == order[m] && (order + queue)[|order|] == u;
    }
    forall v
      ensures v in order + [u] || v in queue[1..] <==> v in order || v in queue
    {
      if v in queue {
        var m := IndexOf(queue, v);
        if m > 0 {
          assert queue[1..][m - 1] == v;
        }
      }
    }
    SameElements(Remaining(nodes, order + [u]), Remaining(nodes, order) - {u});
  }

  /** Appending a node with no edge back into the sequence, itself included,
      keeps every edge pointing forward. */
  lemma AppendForward(adj: map<int, seq<int>>, order: seq<int>, u: int)
    requires forall i, j :: 0 <= i < |order| && 0 <= j < |order| && HasEdge(adj, order[i], order[j]) ==> i < j
    requires forall w :: (w in order || w == u) ==> !HasEdge(adj, u, w)
    ensures var o := order + [u];
      forall i, j :: 0 <= i < |o| && 0 <= j < |o| && HasEdge(adj, o[i], o[j]) ==> i < j
  {
    var o := order + [u];
    forall i, j | 0 <= i < |o| && 0 <= j < |o| && HasEdge(adj, o[i], o[j])
      ensures i < j
    {
      assert o[j] in order || o[j] == u;
    }
  }

  /** One step of the inner loop: the in-degree of the first pending node
      drops by one, and the node is queued when it reaches zero. It was not
      zero before, so the node was neither emitted nor queued. */
  lemma KahnDecrement(nodes: set<int>, adj: map<int, seq<int>>, inDegree: map<int, int>,
                      order: seq<int>, queue: seq<int>, pending: seq<int>)
    requires KahnState(nodes, adj, inDegree, order, queue, pending)
    requires pending != [] && pending[0] in nodes
    ensures pending[0] in inDegree && inDegree[pending[0]] > 0
    ensures var v := pending[0];
      var d := inDegree[v := inDegree[v] - 1];
      KahnState(nodes, adj, d, order, if d[v] == 0 then queue + [v] else queue, pending[1..])
  {
    var v := pending[0];
    CountDown(nodes, inDegree, Entries(adj, Remaining(nodes, order)), pending);
    if inDegree[v] == 1 {
      assert order + (queue + [v]) == (order + queue) + [v];
      assert v !in order + queue;
    }
  }

  /** Taking the first pending entry off the count of `v` leaves the counts
      of every other node as they were. */
  lemma CountDown(nodes: set<int>, inDegree: map<int, int>, counted: multiset<int>, pending: seq<int>)
    requires pending != [] && pending[0] in nodes
    requires forall x :: x in inDegree <==> x in nodes
    requires forall x :: x in nodes ==> inDegree[x] == counted[x] + multiset(pending)[x]
    ensures pending[0] in inDegree && inDegree[pending[0]] > 0
    ensures var d := inDegree[pending[0] := inDegree[pending[0]] - 1];
      (forall x :: x in d <==> x in nodes) &&
      (forall x :: x in nodes ==> d[x] == counted[x] + multiset(pending[1..])[x])
  {
    var v := pending[0];
    assert v in inDegree;
    assert pending == [v] + pending[1..];
    assert multiset(pending) == multiset{v} + multiset(pending[1..]);
    assert multiset(pending)[v] > 0;
  }

  /** After the queue runs dry, the emitted nodes are all the nodes exactly
      when the graph is acyclic: otherwise every remaining node has a
      remaining predecessor, and walking back along them closes a cycle. */
  lemma KahnFinish(nodes: set<int>, adj: map<int, seq<int>>, inDegree: map<int, int>, order: seq<int>)
    requires KahnState(nodes, adj, inDegree, order, [], [])
    ensures |order| == |nodes| ==> IsTopoOrder(nodes, adj, order)
    ensures |order| != |nodes| ==> HasCycle(adj)
  {
    assert order + [] == order;
    Subset(Elems(order), nodes);
    DistinctCard(order);
    if |order| == |nodes| {
      SubsetSameCard(Elems(order), nodes);
    } else {
      var R := Remaining(nodes, order);
      if R == {} {
        forall x | x in nodes ensures x in Elems(order) {
          assert x !in R;
        }
        Subset(nodes, Elems(order));
        SubsetCard(nodes, Elems(order));
        SubsetCard(Elems(order), nodes);
      }
      forall x | x in R
        ensures HasPredIn(adj, R, x)
      {
        EntriesWitness(adj, R, x);
      }
      CycleFromPredecessors(adj, R);
    }
  }

  /** `kahn_sort`: repeatedly emits a node with no remaining predecessor,
      in FIFO order, and reports a cycle when fewer than `V` nodes were
      emitted. It succeeds exactly on the acyclic graphs. */
  method KahnSort(g: Graph) returns (r: SortResult)
    requires g.Valid()
    ensures r.Sorted? ==> IsTopoOrder(g.nodes, g.adj, r.order)
    ensures r.CycleDetected? <==> HasCycle(g.adj)
  {
    var inDegree := InDegrees(g);
    var queue := ZeroInDegreeQueue(g, inDegree);
    KahnStart(g.nodes, g.adj, inDegree, queue);
    var order: seq<int> := [];
    var count := 0;
    while queue != []
      invariant KahnState(g.nodes, g.adj, inDegree, order, queue, []) && count == |order|
      decreases Remaining(g.nodes, order)
    {
      KahnEmit(g.nodes, g.adj, inDegree, order, queue);
      var u := queue[0];
      queue := queue[1..];
      order := order + [u];
      count := count + 1;
      var succ := Succ(g.adj, u);
      var k := 0;
      while k < |succ|
        invariant 0 <= k <= |succ|
        invariant KahnState(g.nodes, g.adj, inDegree, order, queue, succ[k..])
      {
        var v := succ[k];
        assert HasEdge(g.adj, u, v);
        KahnDecrement(g.nodes, g.adj, inDegree, order, queue, succ[k..]);
        assert succ[k..][1..] == succ[k + 1..];
        inDegree := inDegree[v := inDegree[v] - 1];
        if inDegree[v] == 0 {
          queue := queue + [v];
        }
        k := k + 1;
      }
      assert succ[k..] == [];
    }
    KahnFinish(g.nodes, g.adj, inDegree, order);
    if count != g.V() {
      return CycleDetected;
    }
    r := Sorted(order);
    TopoOrderAcyclic(g.nodes, g.adj, order);
  }

  // ---------------------------------------------------------------------
  // The algorithm table
  // ---------------------------------------------------------------------

  /** The entries of the name-to-algorithm table. */
  datatype Algorithm = DfsBasedSort | KahnsAlgorithm

  function Name(a: Algorithm): (name: string)
    ensures name == "DFS-based Sort" || name == "Kahn's Algorithm"
  {
    match a
    case DfsBasedSort => "DFS-based Sort"
    case KahnsAlgorithm => "Kahn's Algorithm"
  }

  /** Looking a name up in the table: found exactly when some algorithm has
      that name, and then it is that algorithm. */
  function Lookup(name: string): (r: Option<Algorithm>)
    ensures forall a :: r == Some(a) <==> Name(a) == name
  {
    if name == "DFS-based Sort" then Some(DfsBasedSort)
    else if name == "Kahn's Algorithm" then Some(KahnsAlgorithm)
    else None
  }

  /** Calling the function stored in the table under `a`. */
  method Run(a: Algorithm, g: Graph) returns (r: SortResult)
    requires g.Valid()
    ensures r.Sorted? ==> IsTopoOrder(g.nodes, g.adj, r.order)
    ensures r.CycleDetected? <==> HasCycle(g.adj)
  {
    match a
    case DfsBasedSort =>
      r := DfsSort(g);
    case KahnsAlgorithm =>
      r := KahnSort(g);
  }
}
