/**
 The mutable directed graph: a node set and, per node, the list of its
 successors in insertion order. Nodes and edges are only ever added.
 */
module Graphs {
  import opened Digraph

  class Graph {
    /** Successor lists; a node never given an edge may have no entry. */
    var adj: map<int, seq<int>>
    var nodes: set<int>

    /** Every adjacency key and every successor is a node. */
    ghost predicate Valid()
      reads this
    {
      Closed(nodes, adj)
    }

    constructor ()
      ensures Valid()
      ensures adj == map[] && nodes == {}
      ensures V() == 0 && E() == 0
    {
      adj := map[];
      nodes := {};
    }

    /** Number of distinct nodes. */
    function V(): nat
      reads this
    {
      |nodes|
    }

    /** Number of edges: the total length of all successor lists, duplicates
        and self-loops included. */
    ghost function E(): nat
      reads this
    {
      EdgeCount(adj)
    }

    method AddNode(u: int)
      requires Valid()
      modifies this
      ensures Valid()
      ensures nodes == old(nodes) + {u} && adj == old(adj)
      ensures u in old(nodes) ==> nodes == old(nodes)
    {
      nodes := nodes + {u};
    }

    method AddEdge(u: int, v: int)
      requires Valid()
      modifies this
      ensures Valid()
      ensures adj == old(adj)[u := Succ(old(adj), u) + [v]]
      ensures nodes == old(nodes) + {u, v}
    {
      EdgeCountAppend(adj, u, v);
      adj := adj[u := Succ(adj, u) + [v]];
      nodes := nodes + {u, v};
      forall a, b | HasEdge(adj, a, b)
        ensures b in nodes
      {
        if a != u {
          assert Succ(adj, a) == Succ(old(adj), a);
          assert HasEdge(old(adj), a, b);
        } else if b != v {
          assert Succ(adj, u) == Succ(old(adj), u) + [v];
          assert HasEdge(old(adj), u, b);
        }
      }
    }

    function GetAllNodes(): (s: set<int>)
      reads this
      requires Valid()
      ensures |s| == V()
      ensures forall u, v :: HasEdge(adj, u, v) ==> u in s && v in s
    {
      nodes
    }

    /** A DAG on nodes 0 .. n-1: each pair u < v is offered to `chooses` once,
        in row order, and becomes the edge u -> v when it answers true. */
    static method GenerateRandomDag(n: int, chooses: (int, int) -> bool) returns (g: Graph)
      ensures fresh(g) && g.Valid()
      ensures g.nodes == NodeRange(n) && g.adj == Rows(chooses, n, n)
      ensures g.V() == if n >= 0 then n else 0
    {
      g := new Graph();
      var u := 0;
      while u < n
        invariant 0 <= u && (u <= n || u == 0)
        invariant g.Valid()
        invariant NodeRange(u) <= g.nodes <= NodeRange(n)
        invariant g.adj == Rows(chooses, n, u)
      {
        AddRow(g, u, n, chooses);
        u := u + 1;
      }
    }
  }

  /** One round of the generator's outer loop: node `u`, then its row. */
  method AddRow(g: Graph, u: int, n: int, chooses: (int, int) -> bool)
    requires g.Valid() && 0 <= u < n
    requires NodeRange(u) <= g.nodes <= NodeRange(n)
    requires g.adj == Rows(chooses, n, u)
    modifies g
    ensures g.Valid()
    ensures NodeRange(u + 1) <= g.nodes <= NodeRange(n)
    ensures g.adj == Rows(chooses, n, u + 1)
  {
    g.AddNode(u);
    forall x | 0 <= x <= u
      ensures x in g.nodes
    {
      assert x == u || x in NodeRange(u);
    }
    AddChosenEdges(g, u, n, chooses);
    forall x | x in NodeRange(u + 1)
      ensures x in g.nodes
    {
    }
    forall x | x in g.nodes
      ensures x in NodeRange(n)
    {
    }
  }

  /** The inner loop of the generator: offers u -> v for v = u+1 .. n-1 in
      increasing order and adds the accepted edges. */
  method AddChosenEdges(g: Graph, u: int, n: int, chooses: (int, int) -> bool)
    requires g.Valid() && 0 <= u < n
    requires forall x :: 0 <= x <= u ==> x in g.nodes
    requires forall x :: x in g.nodes ==> 0 <= x < n
    requires g.adj == Rows(chooses, n, u)
    modifies g
    ensures g.Valid()
    ensures forall x :: 0 <= x <= u ==> x in g.nodes
    ensures forall x :: x in g.nodes ==> 0 <= x < n
    ensures g.adj == Rows(chooses, n, u + 1)
  {
    RowsKeys(chooses, n, u);
    ghost var m := Rows(chooses, n, u);
    ghost var row := [];
    var v := u + 1;
    while v < n
      invariant u + 1 <= v <= n
      invariant g.Valid()
      invariant forall x :: 0 <= x <= u ==> x in g.nodes
      invariant forall x :: x in g.nodes ==> 0 <= x < n
      invariant row == Chosen(chooses, u, v)
      invariant g.adj == WithRow(m, u, row)
    {
      ChosenStep(chooses, u, v);
      if chooses(u, v) {
        WithRowAppend(m, u, row, v);
        g.AddEdge(u, v);
        row := row + [v];
      } else {
        assert row + [] == row;
      }
      v := v + 1;
    }
  }

  /** `m` with the row `s` stored under `u`; an empty row leaves no entry,
      since a list is only created by appending an edge to it. */
  function WithRow(m: map<int, seq<int>>, u: int, s: seq<int>): map<int, seq<int>> {
    if s == [] then m else m[u := s]
  }

  lemma WithRowAppend(m: map<int, seq<int>>, u: int, s: seq<int>, v: int)
    requires u !in m
    ensures WithRow(m, u, s)[u := Succ(WithRow(m, u, s), u) + [v]] == WithRow(m, u, s + [v])
  {
    if s == [] {
      assert s + [v] == [v];
    }
  }

  /** The adjacency of a generated DAG on `n` nodes after rows 0 .. u-1. */
  function Rows(chooses: (int, int) -> bool, n: int, u: int): map<int, seq<int>>
  {
    if u <= 0 then map[] else WithRow(Rows(chooses, n, u - 1), u - 1, Chosen(chooses, u - 1, n))
  }

  lemma {:induction false} RowsKeys(chooses: (int, int) -> bool, n: int, u: int)
    ensures forall w :: w in Rows(chooses, n, u) ==> 0 <= w < u
  {
    if u > 0 {
      RowsKeys(chooses, n, u - 1);
    }
  }

  /** Row `w` of the generated adjacency holds exactly the accepted
      successors of `w`, for the rows already generated, and nothing else. */
  lemma {:induction false} RowsSucc(chooses: (int, int) -> bool, n: int, u: int, w: int)
    ensures Succ(Rows(chooses, n, u), w) == if 0 <= w < u then Chosen(chooses, w, n) else []
  {
    if u > 0 {
      RowsSucc(chooses, n, u - 1, w);
      RowsKeys(chooses, n, u - 1);
    }
  }

  /** The number of edges after rows 0 .. u-1 is the number of accepted pairs
      in those rows. */
  lemma {:induction false} RowsEdgeCount(chooses: (int, int) -> bool, n: int, u: int)
    ensures EdgeCount(Rows(chooses, n, u)) == PairCount(chooses, n, u)
  {
    if u > 0 {
      RowsEdgeCount(chooses, n, u - 1);
      RowsKeys(chooses, n, u - 1);
      EdgeCountWithRow(Rows(chooses, n, u - 1), u - 1, Chosen(chooses, u - 1, n));
    } else {
      EdgeCountEmpty();
    }
  }

  /** A new row adds as many edges as it is long. */
  lemma EdgeCountWithRow(m: map<int, seq<int>>, u: int, s: seq<int>)
    requires u !in m
    ensures EdgeCount(WithRow(m, u, s)) == EdgeCount(m) + |s|
  {
    if s != [] {
      EntriesAddRow(m, u, s);
    }
  }

  /** Every edge of a generated graph goes from a smaller to a larger id
      below `n`, and was accepted by `chooses`; hence the graph is acyclic. */
  lemma GeneratedEdges(chooses: (int, int) -> bool, n: int)
    ensures forall u, v :: HasEdge(Rows(chooses, n, n), u, v) ==> 0 <= u < v < n && chooses(u, v)
    ensures forall u :: Distinct(Succ(Rows(chooses, n, n), u))
    ensures !HasCycle(Rows(chooses, n, n))
  {
    var adj := Rows(chooses, n, n);
    forall u, v | HasEdge(adj, u, v)
      ensures 0 <= u < v < n && chooses(u, v)
    {
      RowsSucc(chooses, n, n, u);
      ChosenRow(chooses, u, n);
    }
    forall u
      ensures Distinct(Succ(adj, u))
    {
      RowsSucc(chooses, n, n, u);
      ChosenRow(chooses, u, n);
    }
    IncreasingEdgesAcyclic(adj);
  }

  /** The successors offered to and accepted by `chooses` in row `u`, among
      u+1 .. hi-1, in the order they were offered. */
  function Chosen(chooses: (int, int) -> bool, u: int, hi: int): seq<int>
    decreases hi - u
  {
    if hi <= u + 1 then []
    else Chosen(chooses, u, hi - 1) + (if chooses(u, hi - 1) then [hi - 1] else [])
  }

  lemma ChosenStep(chooses: (int, int) -> bool, u: int, v: int)
    requires u < v
    ensures Chosen(chooses, u, v + 1) == Chosen(chooses, u, v) + if chooses(u, v) then [v] else []
  {
  }

  /** A row holds exactly the accepted successors, strictly increasing (so
      without duplicates), at most one per candidate. */
  lemma {:induction false} ChosenRow(chooses: (int, int) -> bool, u: int, hi: int)
    ensures forall v :: v in Chosen(chooses, u, hi) <==> u < v < hi && chooses(u, v)
    ensures forall i :: 0 <= i < |Chosen(chooses, u, hi)| ==> u < Chosen(chooses, u, hi)[i] < hi
    ensures forall i, j :: 0 <= i < j < |Chosen(chooses, u, hi)| ==> Chosen(chooses, u, hi)[i] < Chosen(chooses, u, hi)[j]
    ensures |Chosen(chooses, u, hi)| <= if hi > u then hi - u - 1 else 0
    decreases hi - u
  {
    if hi > u + 1 {
      ChosenRow(chooses, u, hi - 1);
    }
  }

  /** An oracle that always accepts fills the row with every candidate. */
  lemma {:induction false} ChosenAll(chooses: (int, int) -> bool, u: int, hi: int)
    requires forall a, b :: chooses(a, b)
    ensures |Chosen(chooses, u, hi)| == if hi > u then hi - u - 1 else 0
    decreases hi - u
  {
    if hi > u + 1 {
      ChosenAll(chooses, u, hi - 1);
    }
  }

  /** An oracle that never accepts leaves the row empty. */
  lemma {:induction false} ChosenNone(chooses: (int, int) -> bool, u: int, hi: int)
    requires forall a, b :: !chooses(a, b)
    ensures Chosen(chooses, u, hi) == []
    decreases hi - u
  {
    if hi > u + 1 {
      ChosenNone(chooses, u, hi - 1);
    }
  }

  /** Row w offers n-w-1 pairs, so rows 0 .. u-1 offer u(2n-u-1)/2 of them:
      at most that many are accepted, none when the oracle never accepts, and
      all of them when it always does. */
  lemma {:induction false} PairCountBounds(chooses: (int, int) -> bool, n: int, u: int)
    requires 0 <= u <= n
    ensures 2 * PairCount(chooses, n, u) <= u * (2 * n - u - 1)
    ensures (forall a, b :: !chooses(a, b)) ==> PairCount(chooses, n, u) == 0
    ensures (forall a, b :: chooses(a, b)) ==> 2 * PairCount(chooses, n, u) == u * (2 * n - u - 1)
  {
    if u > 0 {
      PairCountBounds(chooses, n, u - 1);
      ChosenRow(chooses, u - 1, n);
      assert u * (2 * n - u - 1) == (u - 1) * (2 * n - (u - 1) - 1) + 2 * (n - u);
      if forall a, b :: !chooses(a, b) {
        ChosenNone(chooses, u - 1, n);
      }
      if forall a, b :: chooses(a, b) {
        ChosenAll(chooses, u - 1, n);
      }
    }
  }

  /** The edge count of a generated DAG on `n >= 0` nodes: at most
      n(n-1)/2, zero when the oracle never accepts, and n(n-1)/2 (the
      complete DAG) when it always does. */
  lemma GeneratedEdgeCount(chooses: (int, int) -> bool, n: int)
    requires n >= 0
    ensures 2 * EdgeCount(Rows(chooses, n, n)) <= n * (n - 1)
    ensures (forall a, b :: !chooses(a, b)) ==> EdgeCount(Rows(chooses, n, n)) == 0
    ensures (forall a, b :: chooses(a, b)) ==> 2 * EdgeCount(Rows(chooses, n, n)) == n * (n - 1)
  {
    RowsEdgeCount(chooses, n, n);
    PairCountBounds(chooses, n, n);
  }

  /** The ids 0, 1, .., n-1 in increasing order. */
  function Identity(n: nat): seq<int> {
    seq(n, i => i)
  }

  /** The complete DAG, generated by an oracle that always accepts, has
      exactly one topological order: the ids in increasing order. */
  lemma CompleteDagOrder(chooses: (int, int) -> bool, n: nat, order: seq<int>)
    requires forall a, b :: chooses(a, b)
    ensures IsTopoOrder(NodeRange(n), Rows(chooses, n, n), order) <==> order == Identity(n)
  {
    CompleteDagEdges(chooses, n);
    if order == Identity(n) {
      IdentityOrder(Rows(chooses, n, n), n);
    }
    if IsTopoOrder(NodeRange(n), Rows(chooses, n, n), order) {
      OnlyOrder(Rows(chooses, n, n), n, order);
    }
  }

  /** In the complete DAG the edges are exactly the pairs u < v below n. */
  lemma CompleteDagEdges(chooses: (int, int) -> bool, n: nat)
    requires forall a, b :: chooses(a, b)
    ensures forall a, b :: HasEdge(Rows(chooses, n, n), a, b) <==> 0 <= a < b < n
  {
    var adj := Rows(chooses, n, n);
    forall a, b | 0 <= a < b < n
      ensures HasEdge(adj, a, b)
    {
      RowsSucc(chooses, n, n, a);
      ChosenRow(chooses, a, n);
    }
    GeneratedEdges(chooses, n);
  }

  /** Increasing ids order any graph whose edges all go upwards. */
  lemma IdentityOrder(adj: map<int, seq<int>>, n: nat)
    requires forall a, b :: HasEdge(adj, a, b) ==> a < b
    ensures IsTopoOrder(NodeRange(n), adj, Identity(n))
  {
    var order := Identity(n);
    forall x
      ensures x in order <==> x in NodeRange(n)
    {
      if 0 <= x < n {
        assert order[x] == x;
      }
    }
    SameElements(Elems(order), NodeRange(n));
  }

  /** When every pair u < v below n is an edge, a topological order of
      0 .. n-1 must be increasing, hence the identity. */
  lemma OnlyOrder(adj: map<int, seq<int>>, n: nat, order: seq<int>)
    requires forall a, b :: 0 <= a < b < n ==> HasEdge(adj, a, b)
    requires IsTopoOrder(NodeRange(n), adj, order)
    ensures order == Identity(n)
  {
    DistinctCard(order);
    forall i | 0 <= i < |order|
      ensures 0 <= order[i] < n
    {
      assert order[i] in Elems(order);
    }
    forall i, j | 0 <= i < j < |order|
      ensures order[i] < order[j]
    {
      var a, b := order[i], order[j];
      assert b < a ==> HasEdge(adj, b, a);
    }
    IncreasingIsIdentity(order, n);
  }

  /** A strictly increasing sequence of n ids drawn from 0 .. n-1 is
      0, 1, .., n-1. */
  lemma IncreasingIsIdentity(s: seq<int>, n: nat)
    requires |s| == n
    requires forall i, j :: 0 <= i < j < |s| ==> s[i] < s[j]
    requires forall i :: 0 <= i < |s| ==> 0 <= s[i] < n
    ensures s == Identity(n)
  {
    forall i | 0 <= i < n
      ensures s[i] == i
    {
      AtLeastIndex(s, i);
      AtMostIndex(s, n, i);
    }
  }

  lemma {:induction false} AtLeastIndex(s: seq<int>, i: nat)
    requires forall i, j :: 0 <= i < j < |s| ==> s[i] < s[j]
    requires forall i :: 0 <= i < |s| ==> 0 <= s[i]
    requires i < |s|
    ensures s[i] >= i
  {
    if i > 0 {
      AtLeastIndex(s, i - 1);
    }
  }

  lemma {:induction false} AtMostIndex(s: seq<int>, n: int, i: nat)
    requires forall i, j :: 0 <= i < j < |s| ==> s[i] < s[j]
    requires forall i :: 0 <= i < |s| ==> s[i] < n
    requires |s| == n && i < |s|
    ensures s[i] <= i
    decreases |s| - i
  {
    if i < |s| - 1 {
      AtMostIndex(s, n, i + 1);
    }
  }

  /** Number of edges chosen in rows 0 .. u-1 of a DAG on `n` nodes. */
  function PairCount(chooses: (int, int) -> bool, n: int, u: int): nat
  {
    if u <= 0 then 0 else PairCount(chooses, n, u - 1) + |Chosen(chooses, u - 1, n)|
  }

  /** The ids 0 .. n-1 (none when n <= 0). */
  function NodeRange(n: int): (s: set<int>)
    ensures forall x :: x in s <==> 0 <= x < n
    ensures n >= 0 ==> |s| == n
  {
    if n <= 0 then {} else NodeRange(n - 1) + {n - 1}
  }
}
