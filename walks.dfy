/** Walks through a weighted adjacency table, and their costs. A walk from `s` is a list of
    edges in which each edge is taken from the list of the node the walk has reached, and the
    next node is that edge's child. */
module Walks {
  import opened Edges

  /** Each node's outgoing edges, by label. */
  type Adjacency = map<string, seq<Edge<real>>>

  /** The sum of the edge weights along a list of edges. */
  function Cost(w: seq<Edge<real>>): real
  {
    if w == [] then 0.0 else Cost(w[..|w| - 1]) + w[|w| - 1].edgeLabel
  }

  /** The node a walk from `s` has reached after its first `i` edges. */
  function At(s: string, w: seq<Edge<real>>, i: nat): string
    requires i <= |w|
  {
    if i == 0 then s else w[i - 1].child
  }

  /** The node a walk from `s` ends at. */
  function End(s: string, w: seq<Edge<real>>): string
  {
    At(s, w, |w|)
  }

  ghost predicate IsWalk(adj: Adjacency, s: string, w: seq<Edge<real>>)
  {
    forall i {:trigger At(s, w, i)} :: 0 <= i < |w| ==> At(s, w, i) in adj && w[i] in adj[At(s, w, i)]
  }

  /** Every listed edge leads to a node of the table. */
  ghost predicate Closed(adj: Adjacency)
  {
    forall k, e :: k in adj && e in adj[k] ==> e.child in adj
  }

  /** No listed edge has a negative weight. */
  ghost predicate NonNegative(adj: Adjacency)
  {
    forall k, e :: k in adj && e in adj[k] ==> e.edgeLabel >= 0.0
  }

  lemma CostSnoc(w: seq<Edge<real>>, e: Edge<real>)
    ensures Cost(w + [e]) == Cost(w) + e.edgeLabel
  {
    assert (w + [e])[..|w|] == w;
  }

  /** Prepending an edge adds its weight. */
  lemma {:induction false} CostCons(e: Edge<real>, w: seq<Edge<real>>)
    ensures Cost([e] + w) == e.edgeLabel + Cost(w)
  {
    if w != [] {
      var init := w[..|w| - 1];
      assert ([e] + w)[..|w|] == [e] + init;
      CostCons(e, init);
    }
  }

  /** A prefix of a walk is a walk, ending where the walk was after that many edges. */
  lemma WalkPrefix(adj: Adjacency, s: string, w: seq<Edge<real>>, j: nat)
    requires IsWalk(adj, s, w) && j <= |w|
    ensures IsWalk(adj, s, w[..j]) && End(s, w[..j]) == At(s, w, j)
  {
    forall i | 0 <= i < j ensures At(s, w[..j], i) == At(s, w, i) {}
  }

  /** A walk extended by an edge of the node it ends at is a walk ending at that edge's child. */
  lemma WalkSnoc(adj: Adjacency, s: string, w: seq<Edge<real>>, e: Edge<real>)
    requires IsWalk(adj, s, w) && End(s, w) in adj && e in adj[End(s, w)]
    ensures IsWalk(adj, s, w + [e]) && End(s, w + [e]) == e.child
  {
    var w' := w + [e];
    forall i | 0 <= i < |w'| ensures At(s, w', i) in adj && w'[i] in adj[At(s, w', i)] {
      if i < |w| {
        assert At(s, w', i) == At(s, w, i);
      }
    }
  }

  /** A walk in a closed table from one of its nodes ends at one of its nodes. */
  lemma EndInTable(adj: Adjacency, s: string, w: seq<Edge<real>>)
    requires IsWalk(adj, s, w) && Closed(adj) && s in adj
    ensures End(s, w) in adj
  {
    if w != [] {
      var k := At(s, w, |w| - 1);
      assert w[|w| - 1] in adj[k];
    }
  }

  /** One more edge of a walk adds a non-negative weight. */
  lemma StepCostLe(adj: Adjacency, s: string, w: seq<Edge<real>>, j: nat)
    requires IsWalk(adj, s, w) && NonNegative(adj) && j < |w|
    ensures Cost(w[..j]) <= Cost(w[..j + 1])
  {
    var k := At(s, w, j);
    assert k in adj && w[j] in adj[k];
    var p := w[..j];
    assert w[..j + 1] == p + [w[j]];
    CostSnoc(p, w[j]);
  }

  /** With non-negative weights, no prefix of a walk costs more than the walk. */
  lemma {:induction false} PrefixCostLe(adj: Adjacency, s: string, w: seq<Edge<real>>, j: nat)
    requires IsWalk(adj, s, w) && NonNegative(adj) && j <= |w|
    ensures Cost(w[..j]) <= Cost(w)
    decreases |w| - j
  {
    if j < |w| {
      StepCostLe(adj, s, w, j);
      PrefixCostLe(adj, s, w, j + 1);
    } else {
      assert w[..j] == w;
    }
  }

  /** With non-negative weights, every walk costs at least nothing. */
  lemma CostNonNegative(adj: Adjacency, s: string, w: seq<Edge<real>>)
    requires IsWalk(adj, s, w) && NonNegative(adj)
    ensures Cost(w) >= 0.0
  {
    PrefixCostLe(adj, s, w, 0);
  }

  /** A walk from a node inside `fin` to a node outside it crosses out of `fin`: the number of
      edges up to and including the last edge that leaves `fin`. */
  function LastExit(s: string, w: seq<Edge<real>>, fin: set<string>): (j: nat)
    requires s in fin && End(s, w) !in fin
    ensures 1 <= j <= |w| && At(s, w, j - 1) in fin && At(s, w, j) !in fin
    decreases |w|
  {
    var n := |w|;
    if At(s, w, n - 1) in fin then n
    else
      var init := w[..n - 1];
      assert End(s, init) == At(s, w, n - 1);
      var j := LastExit(s, init, fin);
      assert At(s, init, j - 1) == At(s, w, j - 1) && At(s, init, j) == At(s, w, j);
      j
  }
}
