/**
 Value-level vocabulary for directed graphs over integer node ids, shared by the
 Graph class and the two topological-sort algorithms: successor lists, edges,
 paths and cycles, the multiset of adjacency entries (edge count and in-degrees),
 and what it means for a sequence to be a topological order.
 */
module Digraph {

  /** The successor list of `u`; a node without an entry has none (a read of a
      missing key in the adjacency dictionary yields an empty list). */
  function Succ(adj: map<int, seq<int>>, u: int): seq<int> {
    if u in adj then adj[u] else []
  }

  predicate HasEdge(adj: map<int, seq<int>>, u: int, v: int) {
    v in Succ(adj, u)
  }

  /** Every adjacency key and every successor is a node. */
  ghost predicate Closed(nodes: set<int>, adj: map<int, seq<int>>) {
    (forall u :: u in adj ==> u in nodes) &&
    (forall u, v :: HasEdge(adj, u, v) ==> v in nodes)
  }

  ghost predicate IsPath(adj: map<int, seq<int>>, p: seq<int>) {
    forall i :: 0 <= i < |p| - 1 ==> HasEdge(adj, p[i], p[i + 1])
  }

  /** A closed walk with at least one edge; a self-loop is the cycle [u, u]. */
  ghost predicate IsCycle(adj: map<int, seq<int>>, p: seq<int>) {
    |p| >= 2 && p[0] == p[|p| - 1] && IsPath(adj, p)
  }

  ghost predicate HasCycle(adj: map<int, seq<int>>) {
    exists p :: IsCycle(adj, p)
  }

  predicate Distinct(s: seq<int>) {
    forall i, j :: 0 <= i < j < |s| ==> s[i] != s[j]
  }

  function Elems(s: seq<int>): set<int> {
    set x | x in s
  }

  /** Every node exactly once, and for every edge u -> v, u strictly before v. */
  ghost predicate IsTopoOrder(nodes: set<int>, adj: map<int, seq<int>>, order: seq<int>) {
    Distinct(order) && Elems(order) == nodes &&
    forall i, j :: 0 <= i < |order| && 0 <= j < |order| && HasEdge(adj, order[i], order[j]) ==> i < j
  }

  /** Position of `x` in `s`. */
  function IndexOf(s: seq<int>, x: int): (i: nat)
    requires x in s
    ensures i < |s| && s[i] == x
  {
    if s[0] == x then 0 else 1 + IndexOf(s[1..], x)
  }

  function Reverse(s: seq<int>): seq<int> {
    seq(|s|, i requires 0 <= i < |s| => s[|s| - 1 - i])
  }

  lemma ReverseDistinct(s: seq<int>)
    requires Distinct(s)
    ensures Distinct(Reverse(s))
  {
    var r := Reverse(s);
    forall i, j | 0 <= i < j < |r|
      ensures r[i] != r[j]
    {
      assert r[i] == s[|s| - 1 - i] && r[j] == s[|s| - 1 - j];
    }
  }

  lemma ReverseElems(s: seq<int>)
    ensures Elems(Reverse(s)) == Elems(s)
  {
    var r := Reverse(s);
    forall x
      ensures x in r <==> x in s
    {
      if x in s {
        assert r[|s| - 1 - IndexOf(s, x)] == x;
      }
      if x in r {
        assert s[|s| - 1 - IndexOf(r, x)] == x;
      }
    }
    SameElements(Elems(r), Elems(s));
  }

  // ---------------------------------------------------------------------
  // Adjacency entries: edge count and in-degrees
  // ---------------------------------------------------------------------

  /** All entries of the successor lists of the nodes in `S`, with
      multiplicity: `Entries(adj, S)[v]` is the number of edges from `S` into
      `v`, and `|Entries(adj, S)|` the total length of those lists. */
  ghost function Entries(adj: map<int, seq<int>>, S: set<int>): multiset<int>
    decreases S
  {
    if S == {} then multiset{}
    else
      Inhabited(S);
      var u :| u in S;
      multiset(Succ(adj, u)) + Entries(adj, S - {u})
  }

  lemma {:induction false} EntriesSplit(adj: map<int, seq<int>>, S: set<int>, u: int)
    requires u in S
    ensures Entries(adj, S) == multiset(Succ(adj, u)) + Entries(adj, S - {u})
    decreases S
  {
    var x :| x in S && Entries(adj, S) == multiset(Succ(adj, x)) + Entries(adj, S - {x});
    if x != u {
      EntriesSplit(adj, S - {x}, u);
      EntriesSplit(adj, S - {u}, x);
      assert S - {x} - {u} == S - {u} - {x};
    }
  }

  /** Adding a node to `S` adds the entries of its successor list. */
  lemma EntriesAdd(adj: map<int, seq<int>>, S: set<int>, u: int)
    requires u !in S
    ensures Entries(adj, S + {u}) == Entries(adj, S) + multiset(Succ(adj, u))
  {
    EntriesSplit(adj, S + {u}, u);
    SameElements((S + {u}) - {u}, S);
  }

  /** Entries over `S` depend only on the successor lists of the nodes in `S`. */
  lemma {:induction false} EntriesFrame(adj: map<int, seq<int>>, adj': map<int, seq<int>>, S: set<int>)
    requires forall u :: u in S ==> Succ(adj, u) == Succ(adj', u)
    ensures Entries(adj, S) == Entries(adj', S)
    decreases S
  {
    Inhabited(S);
    if S != {} {
      var u :| u in S;
      EntriesSplit(adj, S, u);
      EntriesSplit(adj', S, u);
      EntriesFrame(adj, adj', S - {u});
    }
  }

  /** Appending `v` to the list of `u` adds exactly one entry, `v`. */
  lemma EntriesAppend(adj: map<int, seq<int>>, u: int, v: int)
    ensures Entries(adj[u := Succ(adj, u) + [v]], adj.Keys + {u}) == Entries(adj, adj.Keys) + multiset{v}
  {
    var adj' := adj[u := Succ(adj, u) + [v]];
    var K := adj.Keys - {u};
    SameElements(adj.Keys + {u}, K + {u});
    EntriesAdd(adj', K, u);
    EntriesFrame(adj, adj', K);
    EntriesAdd(adj, K, u);
    EntriesOfNodes(adj, K + {u});
  }

  /** Number of edges: the total length of all successor lists, duplicates
      and self-loops included. */
  ghost function EdgeCount(adj: map<int, seq<int>>): nat {
    |Entries(adj, adj.Keys)|
  }

  /** A graph without adjacency lists has no edges. */
  lemma EdgeCountEmpty()
    ensures EdgeCount(map[]) == 0
  {
    var empty: map<int, seq<int>> := map[];
    SameElements(empty.Keys, {});
  }

  /** Appending to a successor list adds exactly one edge. */
  lemma EdgeCountAppend(adj: map<int, seq<int>>, u: int, v: int)
    ensures EdgeCount(adj[u := Succ(adj, u) + [v]]) == EdgeCount(adj) + 1
  {
    EntriesAppend(adj, u, v);
    assert (adj[u := Succ(adj, u) + [v]]).Keys == adj.Keys + {u};
  }

  /** Storing a new list `s` under a fresh key `u` adds exactly its entries. */
  lemma EntriesAddRow(adj: map<int, seq<int>>, u: int, s: seq<int>)
    requires u !in adj
    ensures Entries(adj[u := s], adj[u := s].Keys) == Entries(adj, adj.Keys) + multiset(s)
  {
    var adj' := adj[u := s];
    assert adj'.Keys == adj.Keys + {u};
    EntriesSplit(adj', adj'.Keys, u);
    assert adj'.Keys - {u} == adj.Keys;
    EntriesFrame(adj, adj', adj.Keys);
  }

  /** Nodes without successor lists add no entries: the in-degrees taken over
      all nodes add up to the total length of the adjacency lists. */
  lemma {:induction false} EntriesOfNodes(adj: map<int, seq<int>>, S: set<int>)
    requires adj.Keys <= S
    ensures Entries(adj, S) == Entries(adj, adj.Keys)
    decreases S
  {
    Subset(S, adj.Keys);
    if S != adj.Keys {
      var d :| d in S && d !in adj.Keys;
      EntriesSplit(adj, S, d);
      EntriesOfNodes(adj, S - {d});
    }
  }

  /** A node entered by some edge from `S` has a predecessor in `S`. */
  lemma {:induction false} EntriesWitness(adj: map<int, seq<int>>, S: set<int>, v: int)
    requires Entries(adj, S)[v] > 0
    ensures exists a :: a in S && HasEdge(adj, a, v)
    decreases S
  {
    Inhabited(S);
    var u :| u in S;
    EntriesSplit(adj, S, u);
    if multiset(Succ(adj, u))[v] > 0 {
      assert HasEdge(adj, u, v);
    } else {
      EntriesWitness(adj, S - {u}, v);
    }
  }

  // ---------------------------------------------------------------------
  // Acyclicity
  // ---------------------------------------------------------------------

  lemma {:induction false} RankAlongPath(adj: map<int, seq<int>>, rank: int -> int, p: seq<int>, k: int)
    requires forall u, v :: HasEdge(adj, u, v) ==> rank(u) < rank(v)
    requires IsPath(adj, p) && 0 < k < |p|
    ensures rank(p[0]) < rank(p[k])
  {
    assert HasEdge(adj, p[k - 1], p[k]);
    if k > 1 {
      RankAlongPath(adj, rank, p, k - 1);
    }
  }

  /** A ranking that strictly increases along every edge rules out cycles. */
  lemma RankedAcyclic(adj: map<int, seq<int>>, rank: int -> int)
    requires forall u, v :: HasEdge(adj, u, v) ==> rank(u) < rank(v)
    ensures !HasCycle(adj)
  {
    if HasCycle(adj) {
      var p :| IsCycle(adj, p);
      RankAlongPath(adj, rank, p, |p| - 1);
    }
  }

  /** A graph without nodes has no edges, hence no cycle, and its only
      topological order is the empty one. */
  lemma EmptyGraph(adj: map<int, seq<int>>, order: seq<int>)
    requires Closed({}, adj)
    ensures !HasCycle(adj)
    ensures IsTopoOrder({}, adj, order) <==> order == []
  {
    IncreasingEdgesAcyclic(adj);
    if order != [] {
      assert order[0] in Elems(order);
    }
    if order == [] {
      SameElements(Elems(order), {});
    }
  }

  /** A graph that has a topological order has no cycle. */
  lemma TopoOrderAcyclic(nodes: set<int>, adj: map<int, seq<int>>, order: seq<int>)
    requires Closed(nodes, adj)
    requires IsTopoOrder(nodes, adj, order)
    ensures !HasCycle(adj)
  {
    var rank := x => if x in order then IndexOf(order, x) else 0;
    forall u, v | HasEdge(adj, u, v)
      ensures rank(u) < rank(v)
    {
      assert u in Elems(order) && v in Elems(order);
      var i, j := IndexOf(order, u), IndexOf(order, v);
      assert HasEdge(adj, order[i], order[j]);
    }
    RankedAcyclic(adj, rank);
  }

  /** Edges that only ever go from a smaller to a larger id leave no cycle. */
  lemma IncreasingEdgesAcyclic(adj: map<int, seq<int>>)
    requires forall u, v :: HasEdge(adj, u, v) ==> u < v
    ensures !HasCycle(adj)
  {
    RankedAcyclic(adj, x => x);
  }

  /** If `last(p) -> w` and `w` lies on the path `p`, the graph has a cycle. */
  lemma BackEdgeCycle(adj: map<int, seq<int>>, p: seq<int>, w: int)
    requires IsPath(adj, p) && p != []
    requires w in p && HasEdge(adj, p[|p| - 1], w)
    ensures HasCycle(adj)
  {
    var i := IndexOf(p, w);
    var c := p[i..] + [w];
    assert IsCycle(adj, c);
  }

  /** `x` has a predecessor inside `R`. */
  ghost predicate HasPredIn(adj: map<int, seq<int>>, R: set<int>, x: int) {
    exists a :: a in R && HasEdge(adj, a, x)
  }

  /** A walk of `k` edges ending in `v` that stays inside `R`, built backwards
      from predecessors. */
  lemma {:induction false} BackwardWalk(adj: map<int, seq<int>>, R: set<int>, v: int, k: nat) returns (p: seq<int>)
    requires v in R
    requires forall x {:trigger HasPredIn(adj, R, x)} :: x in R ==> HasPredIn(adj, R, x)
    ensures |p| == k + 1 && p[k] == v && IsPath(adj, p)
    ensures forall x :: x in p ==> x in R
    decreases k
  {
    if k == 0 {
      p := [v];
    } else {
      assert HasPredIn(adj, R, v);
      var a :| a in R && HasEdge(adj, a, v);
      var q := BackwardWalk(adj, R, a, k - 1);
      p := q + [v];
      forall i | 0 <= i < |p| - 1
        ensures HasEdge(adj, p[i], p[i + 1])
      {
        if i < |q| - 1 {
          assert p[i] == q[i] && p[i + 1] == q[i + 1];
        }
      }
    }
  }

  /** A sequence longer than the set it draws from repeats an element. */
  lemma {:induction false} Pigeonhole(s: seq<int>, R: set<int>) returns (i: nat, j: nat)
    requires forall x :: x in s ==> x in R
    requires |s| > |R|
    ensures i < j < |s| && s[i] == s[j]
  {
    if s[0] in s[1..] {
      var k := IndexOf(s[1..], s[0]);
      i, j := 0, k + 1;
    } else {
      assert |R - {s[0]}| == |R| - 1;
      var i', j' := Pigeonhole(s[1..], R - {s[0]});
      i, j := i' + 1, j' + 1;
    }
  }

  /** If every node of a non-empty set has a predecessor inside the set, the
      graph has a cycle. */
  lemma CycleFromPredecessors(adj: map<int, seq<int>>, R: set<int>)
    requires R != {}
    requires forall x {:trigger HasPredIn(adj, R, x)} :: x in R ==> HasPredIn(adj, R, x)
    ensures HasCycle(adj)
  {
    Inhabited(R);
    var v :| v in R;
    var p := BackwardWalk(adj, R, v, |R|);
    var i, j := Pigeonhole(p, R);
    var c := p[i..j + 1];
    forall k | 0 <= k < |c| - 1
      ensures HasEdge(adj, c[k], c[k + 1])
    {
      assert c[k] == p[i + k] && c[k + 1] == p[i + k + 1];
    }
    assert IsCycle(adj, c);
  }

  // ---------------------------------------------------------------------
  // Sequences and sets
  // ---------------------------------------------------------------------

  lemma {:induction false} DistinctCard(s: seq<int>)
    requires Distinct(s)
    ensures |Elems(s)| == |s|
  {
    if s != [] {
      var t := s[..|s| - 1];
      assert Elems(s) == Elems(t) + {s[|s| - 1]};
      assert s[|s| - 1] !in Elems(t);
      DistinctCard(t);
    }
  }

  lemma SubsetSameCard(A: set<int>, B: set<int>)
    requires A <= B && |A| == |B|
    ensures A == B
  {
    Subset(B, A);
    if A != B {
      var x :| x in B && x !in A;
      assert A <= B - {x};
      assert |B - {x}| == |B| - 1;
      SubsetCard(A, B - {x});
    }
  }

  lemma {:induction false} SubsetCard(A: set<int>, B: set<int>)
    requires A <= B
    ensures |A| <= |B|
    decreases B
  {
    Inhabited(A);
    if A != {} {
      var x :| x in A;
      SubsetCard(A - {x}, B - {x});
    }
  }

  // The three lemmas below introduce set facts from membership; they are
  // stated this way because the solver does not always find the witnesses.

  lemma Inhabited(S: set<int>)
    ensures S == {} || exists x :: x in S
  {
    if forall x :: x !in S {
      assert S == {};
    }
  }

  lemma Subset(A: set<int>, B: set<int>)
    ensures A <= B || exists x :: x in A && x !in B
  {
    if forall x :: x in A ==> x in B {
      assert A <= B;
    }
  }

  lemma SameElements(A: set<int>, B: set<int>)
    requires forall x :: x in A <==> x in B
    ensures A == B
  {
    if forall x :: x in A <==> x in B {
      assert A == B;
    }
  }
}
