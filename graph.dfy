/** `graph.Graph`: a directed labelled multigraph held as a label-to-node table plus a flat
    list of edges in which no two entries are equal. */
module Graphs {
  import opened Wrappers
  import opened Lists
  import opened Edges
  import opened Nodes

  /** A node table as the graph keeps it: each node is stored under its own label and keeps
      its edge list free of duplicates. */
  ghost predicate WellKeyed<E>(m: map<string, Node<E>>)
    reads m.Values
  {
    forall k :: k in m ==> m[k].nodeLabel == k && m[k].Valid()
  }

  /** Every node's edge list, as a map from label to list. */
  ghost function EdgeLists<E>(m: map<string, Node<E>>): map<string, seq<Edge<E>>>
    reads m.Values
  {
    map k | k in m :: m[k].edges
  }

  /** The union, with repetitions, of all edge lists of a table. */
  ghost function AllEdges<E>(adj: map<string, seq<Edge<E>>>): multiset<Edge<E>>
    decreases |adj|
  {
    if adj == map[] then multiset{}
    else
      var k :| k in adj;
      multiset(adj[k]) + AllEdges(adj - {k})
  }

  /** The union does not depend on which list is taken out first. */
  lemma {:induction false} AllEdgesRemove<E>(adj: map<string, seq<Edge<E>>>, k: string)
    requires k in adj
    ensures AllEdges(adj) == multiset(adj[k]) + AllEdges(adj - {k})
    decreases |adj|
  {
    var k' :| k' in adj && AllEdges(adj) == multiset(adj[k']) + AllEdges(adj - {k'});
    if k' != k {
      assert (adj - {k'}) - {k} == (adj - {k}) - {k'};
      AllEdgesRemove(adj - {k'}, k);
      AllEdgesRemove(adj - {k}, k');
    }
  }

  /** The lists of the labels in `keys` only. */
  ghost function Restrict<E>(adj: map<string, seq<Edge<E>>>, keys: set<string>): map<string, seq<Edge<E>>>
  {
    map k | k in keys && k in adj :: adj[k]
  }

  /** Taking one more label's list out of a restricted table. */
  lemma RestrictStep<E>(adj: map<string, seq<Edge<E>>>, keys: set<string>, k: string)
    requires k in keys && keys <= adj.Keys
    ensures AllEdges(Restrict(adj, keys)) == multiset(adj[k]) + AllEdges(Restrict(adj, keys - {k}))
  {
    AllEdgesRemove(Restrict(adj, keys), k);
    assert Restrict(adj, keys) - {k} == Restrict(adj, keys - {k});
  }

  /** Restricting to all labels changes nothing; restricting to none leaves nothing. */
  lemma RestrictEnds<E>(adj: map<string, seq<Edge<E>>>)
    ensures Restrict(adj, adj.Keys) == adj
    ensures AllEdges(Restrict(adj, {})) == multiset{}
  {
    assert Restrict(adj, {}) == map[];
  }

  /** The edges of `s` that have `k` as parent or as child, in order. */
  function Touching<E>(s: seq<Edge<E>>, k: string): seq<Edge<E>>
  {
    if s == [] then []
    else
      var e := s[|s| - 1];
      Touching(s[..|s| - 1], k) + (if e.parent == k || e.child == k then [e] else [])
  }

  /** The labels of all endpoints of the edges of `s`. */
  function Endpoints<E>(s: seq<Edge<E>>): set<string>
  {
    if s == [] then {} else Endpoints(s[..|s| - 1]) + {s[|s| - 1].parent, s[|s| - 1].child}
  }

  /** A label that is no endpoint is touched by no edge. */
  lemma {:induction false} TouchingOutside<E>(s: seq<Edge<E>>, k: string)
    requires k !in Endpoints(s)
    ensures Touching(s, k) == []
  {
    if s != [] {
      TouchingOutside(s[..|s| - 1], k);
    }
  }

  /** Appending an edge to a list appends it to its deduplication unless already present. */
  lemma DedupSnoc<T>(s: seq<T>, x: T)
    ensures Dedup(s + [x]) == if x in Dedup(s) then Dedup(s) else Dedup(s) + [x]
  {
    assert (s + [x])[..|s|] == s;
  }

  /** A table after `e` has been added to the list under `l` (created empty when absent),
      with the node's own refusal of an edge it already holds. */
  ghost function AttachTo<E>(adj: map<string, seq<Edge<E>>>, l: string, e: Edge<E>): map<string, seq<Edge<E>>>
  {
    var prev := if l in adj then adj[l] else [];
    adj[l := if e in prev then prev else prev + [e]]
  }

  /** The node lists that `Graph(e)` builds from `s`: one per endpoint, holding the edges that
      touch it, each once, in list order. */
  ghost function TouchLists<E>(s: seq<Edge<E>>): map<string, seq<Edge<E>>>
  {
    map k | k in Endpoints(s) :: Dedup(Touching(s, k))
  }

  lemma TouchingSnoc<E>(s: seq<Edge<E>>, x: Edge<E>, k: string)
    ensures Touching(s + [x], k) == Touching(s, k) + (if x.parent == k || x.child == k then [x] else [])
    ensures Endpoints(s + [x]) == Endpoints(s) + {x.parent, x.child}
  {
    assert (s + [x])[..|s|] == s;
  }

  /** The list of the new edge's parent, when it is not also its child. */
  lemma SnocAtParent<E>(s: seq<Edge<E>>, x: Edge<E>, k: string)
    requires k == x.parent && k != x.child
    ensures var rhs := AttachTo(AttachTo(TouchLists(s), x.parent, x), x.child, x);
            k in rhs && Dedup(Touching(s + [x], k)) == rhs[k]
  {
    var t := TouchLists(s);
    var prev := Touching(s, k);
    TouchingSnoc(s, x, k);
    if k !in Endpoints(s) {
      TouchingOutside(s, k);
      assert Dedup(prev) == [];
    }
    assert (if k in t then t[k] else []) == Dedup(prev);
    DedupSnoc(prev, x);
  }

  /** The list of the new edge's child (which may be its parent too). */
  lemma SnocAtChild<E>(s: seq<Edge<E>>, x: Edge<E>, k: string)
    requires k == x.child
    ensures var rhs := AttachTo(AttachTo(TouchLists(s), x.parent, x), x.child, x);
            k in rhs && Dedup(Touching(s + [x], k)) == rhs[k]
  {
    var t := TouchLists(s);
    var prev := Touching(s, k);
    TouchingSnoc(s, x, k);
    if k !in Endpoints(s) {
      TouchingOutside(s, k);
      assert Dedup(prev) == [];
    }
    assert (if k in t then t[k] else []) == Dedup(prev);
    DedupSnoc(prev, x);
  }

  /** The list of a label the new edge does not touch is unchanged. */
  lemma SnocAtOther<E>(s: seq<Edge<E>>, x: Edge<E>, k: string)
    requires k in Endpoints(s + [x]) && k != x.child && k != x.parent
    ensures var rhs := AttachTo(AttachTo(TouchLists(s), x.parent, x), x.child, x);
            k in rhs && Dedup(Touching(s + [x], k)) == rhs[k]
  {
    TouchingSnoc(s, x, k);
    var t := TouchLists(s);
    assert k in Endpoints(s) && t[k] == Dedup(Touching(s, k));
    var mid := AttachTo(t, x.parent, x);
    assert mid[k] == t[k];
    var rhs := AttachTo(mid, x.child, x);
    assert rhs[k] == mid[k];
    var a := Touching(s + [x], k);
    assert a == Touching(s, k);
    assert Dedup(a) == t[k];
  }

  /** The list of any endpoint after one more edge. */
  lemma SnocAt<E>(s: seq<Edge<E>>, x: Edge<E>, k: string)
    requires k in Endpoints(s + [x])
    ensures var rhs := AttachTo(AttachTo(TouchLists(s), x.parent, x), x.child, x);
            k in rhs && TouchLists(s + [x])[k] == rhs[k]
  {
    if k == x.child {
      SnocAtChild(s, x, k);
    } else if k == x.parent {
      SnocAtParent(s, x, k);
    } else {
      SnocAtOther(s, x, k);
    }
  }

  /** After one more edge, the labels with lists are the old ones and the edge's two ends. */
  lemma TouchListsSnocKeys<E>(s: seq<Edge<E>>, x: Edge<E>)
    ensures TouchLists(s + [x]).Keys == AttachTo(AttachTo(TouchLists(s), x.parent, x), x.child, x).Keys
  {
    TouchingSnoc(s, x, x.parent);
  }

  /** After one more edge, every list is the attached one. */
  lemma TouchListsSnocValues<E>(s: seq<Edge<E>>, x: Edge<E>)
    ensures var rhs := AttachTo(AttachTo(TouchLists(s), x.parent, x), x.child, x);
            forall k :: k in TouchLists(s + [x]) ==> k in rhs && TouchLists(s + [x])[k] == rhs[k]
  {
    forall k | k in TouchLists(s + [x])
      ensures var rhs := AttachTo(AttachTo(TouchLists(s), x.parent, x), x.child, x);
              k in rhs && TouchLists(s + [x])[k] == rhs[k]
    {
      SnocAt(s, x, k);
    }
  }

  /** One more edge in the input attaches it to its parent and then to its child. */
  lemma TouchListsSnoc<E>(s: seq<Edge<E>>, x: Edge<E>)
    ensures TouchLists(s + [x]) == AttachTo(AttachTo(TouchLists(s), x.parent, x), x.child, x)
  {
    TouchListsSnocKeys(s, x);
    TouchListsSnocValues(s, x);
  }

  /** The key loop of `Graph(n)`: every node's list, entry by entry of the table, copied onto
      one list. */
  method CollectEdges<E>(table: map<string, Node<E>>) returns (all: seq<Edge<E>>)
    ensures multiset(all) == AllEdges(EdgeLists(table))
  {
    ghost var adj := EdgeLists(table);
    all := [];
    var rest := table.Keys;
    RestrictEnds(adj);
    assert rest == adj.Keys;
    while rest != {}
      invariant rest <= adj.Keys
      invariant multiset(all) + AllEdges(Restrict(adj, rest)) == AllEdges(adj)
      decreases |rest|
    {
      var k :| k in rest;
      all := AppendAll(all, table[k].GetEdges());
      RestrictStep(adj, rest, k);
      rest := rest - {k};
    }
  }

  /** The inner loop of `Graph(n)`: copies `s` onto the end of `all`, one edge at a time. */
  method AppendAll<E>(all: seq<Edge<E>>, s: seq<Edge<E>>) returns (r: seq<Edge<E>>)
    ensures r == all + s
  {
    r := all;
    for i := 0 to |s|
      invariant r == all + s[..i]
    {
      assert s[..i + 1] == s[..i] + [s[i]];
      r := r + [s[i]];
    }
    assert s[..|s|] == s;
  }

  /** `table.get(l).addEdge(e)` for a label of the table. */
  method AddToNode<E(==)>(table: map<string, Node<E>>, l: string, e: Edge<E>)
    requires WellKeyed(table) && l in table
    modifies table[l]
    ensures WellKeyed(table)
    ensures EdgeLists(table) == AttachTo(old(EdgeLists(table)), l, e)
  {
    var added := table[l].AddEdge(e);
    assert forall k :: k in table && k != l ==> table[k] != table[l];
  }

  /** The endpoint step of `Graph(e)`: makes sure a node labelled `l` exists, then adds `e`
      to its list. */
  method Attach<E(==)>(table: map<string, Node<E>>, l: string, e: Edge<E>) returns (r: map<string, Node<E>>)
    requires WellKeyed(table)
    modifies if l in table then {table[l]} else {}
    ensures WellKeyed(r) && l in r && r == table[l := r[l]]
    ensures l in table ==> r[l] == table[l]
    ensures l !in table ==> fresh(r[l])
    ensures EdgeLists(r) == AttachTo(old(EdgeLists(table)), l, e)
  {
    r := table;
    if l !in r {
      var created := new Node<E>(l);
      r := r[l := created];
      assert EdgeLists(r) == old(EdgeLists(table))[l := []];
    }
    AddToNode(r, l, e);
  }

  /** One step of the loop of `Graph(e)`: attaches `x` to its parent's node, then to its
      child's. */
  method AttachBoth<E(==)>(table: map<string, Node<E>>, x: Edge<E>) returns (r: map<string, Node<E>>)
    requires WellKeyed(table)
    modifies table.Values
    ensures WellKeyed(r)
    ensures forall k :: k in r ==> (k in table && r[k] == table[k]) || fresh(r[k])
    ensures EdgeLists(r) == AttachTo(AttachTo(old(EdgeLists(table)), x.parent, x), x.child, x)
  {
    var mid := Attach(table, x.parent, x);
    r := Attach(mid, x.child, x);
  }

  /** The loop of `Graph(e)`: every endpoint gets a node, and each edge itself is attached both
      to its parent's and to its child's node. */
  method TableFromEdges<E(==)>(s: seq<Edge<E>>) returns (table: map<string, Node<E>>)
    ensures WellKeyed(table) && EdgeLists(table) == TouchLists(s)
    ensures forall k :: k in table ==> fresh(table[k])
  {
    table := map[];
    for i := 0 to |s|
      invariant WellKeyed(table) && EdgeLists(table) == TouchLists(s[..i])
      invariant forall k :: k in table ==> fresh(table[k])
    {
      assert s[..i + 1] == s[..i] + [s[i]];
      TouchListsSnoc(s[..i], s[i]);
      table := AttachBoth(table, s[i]);
    }
    assert s[..|s|] == s;
  }

  class Graph<E(==)> {
    var nodes: map<string, Node<E>>
    var edges: seq<Edge<E>>

    /** The node table is keyed by label and every node list is duplicate-free. */
    ghost predicate TableOk()
      reads this, nodes.Values
    {
      WellKeyed(nodes)
    }

    /** The representation invariant checked by `checkRep`: no two flat-list entries are equal. */
    ghost predicate Valid()
      reads this, nodes.Values
    {
      TableOk() && NoDuplicates(edges)
    }

    /** Each node's outgoing list, by label. */
    ghost function Adj(): map<string, seq<Edge<E>>>
      reads this, nodes.Values
    {
      EdgeLists(nodes)
    }

    /** `Graph()`: no nodes and no edges. */
    constructor ()
      ensures Valid() && nodes == map[] && edges == []
    {
      nodes := map[];
      edges := [];
    }

    /** `Graph(n)` before its `checkRep`: copies the table (a missing one becomes empty) and
        collects every node's edges into the flat list, without removing repetitions. */
    constructor FromNodes(n: Option<map<string, Node<E>>>)
      requires n.Some? ==> WellKeyed(n.value)
      ensures TableOk()
      ensures nodes == if n.Some? then n.value else map[]
      ensures multiset(edges) == AllEdges(Adj())
    {
      var table := if n.Some? then n.value else map[];
      var all := CollectEdges(table);
      nodes := table;
      edges := all;
    }

    /** `Graph(e)` before its `checkRep`: the flat list is the given list (a missing one becomes
        empty); every endpoint gets a node, and each edge itself is attached both to its
        parent's and to its child's node. */
    constructor FromEdges(e: Option<seq<Edge<E>>>)
      ensures TableOk()
      ensures edges == if e.Some? then e.value else []
      ensures Adj() == TouchLists(edges)
      ensures forall k :: k in nodes ==> fresh(nodes[k])
    {
      var list := if e.Some? then e.value else [];
      var table := TableFromEdges(list);
      edges := list;
      nodes := table;
    }

    /** `Graph(n, e)`: takes both the table and the flat list as given (a missing one becomes
        empty) and does not run `checkRep`, so the flat list may hold repetitions. */
    constructor FromParts(n: Option<map<string, Node<E>>>, e: Option<seq<Edge<E>>>)
      requires n.Some? ==> WellKeyed(n.value)
      ensures TableOk()
      ensures nodes == if n.Some? then n.value else map[]
      ensures edges == if e.Some? then e.value else []
    {
      edges := if e.Some? then e.value else [];
      nodes := if n.Some? then n.value else map[];
    }

    /** `checkRep`: the nested scan throws exactly when two flat-list entries are equal. */
    method CheckRep() returns (r: Outcome<()>)
      ensures r.Return? <==> NoDuplicates(edges)
      ensures r.Throw? ==> r.message == "Edges in a Graph cannot be identical"
    {
      var i := 0;
      while i < |edges|
        invariant 0 <= i <= |edges|
        invariant forall a, b :: 0 <= a < i && a < b < |edges| ==> edges[a] != edges[b]
      {
        var j := 0;
        while j < |edges|
          invariant 0 <= j <= |edges|
          invariant forall b :: i < b < j ==> edges[i] != edges[b]
        {
          if i < j && edges[i] == edges[j] {
            return Throw("Edges in a Graph cannot be identical");
          }
          j := j + 1;
        }
        i := i + 1;
      }
      return Return(());
    }

    /** `getNode`: the node stored under `l`, or nothing. */
    function GetNode(l: string): (r: Option<Node<E>>)
      reads this, nodes.Values
      requires TableOk()
      ensures r.Some? <==> l in nodes
      ensures r.Some? ==> r.value.nodeLabel == l && r.value.Valid()
    {
      if l in nodes then Some(nodes[l]) else None
    }

    /** `getNodes`: each stored node once (in no particular order). */
    method GetNodes() returns (r: seq<Node<E>>)
      requires TableOk()
      ensures |r| == |nodes.Keys|
      ensures forall i :: 0 <= i < |r| ==> r[i].nodeLabel in nodes && nodes[r[i].nodeLabel] == r[i]
      ensures forall k :: k in nodes ==> nodes[k] in r
      ensures forall i, j :: 0 <= i < j < |r| ==> r[i].nodeLabel != r[j].nodeLabel
    {
      r := [];
      var rest := nodes.Keys;
      while rest != {}
        invariant rest <= nodes.Keys
        invariant |r| + |rest| == |nodes.Keys|
        invariant forall i :: 0 <= i < |r| ==> r[i].nodeLabel in nodes - rest && nodes[r[i].nodeLabel] == r[i]
        invariant forall k :: k in nodes && k !in rest ==> nodes[k] in r
        invariant forall i, j :: 0 <= i < j < |r| ==> r[i].nodeLabel != r[j].nodeLabel
        decreases |rest|
      {
        var k :| k in rest;
        r := r + [nodes[k]];
        rest := rest - {k};
      }
    }

    /** `getEdges`: a copy of the flat list. It is a value, so changing it cannot change the
        graph. */
    function GetEdges(): (r: seq<Edge<E>>)
      reads this
      ensures r == edges
    {
      edges
    }

    /** `addNode`: refuses a label already present; otherwise stores the node under its label. */
    method AddNode(n: Node<E>) returns (added: bool)
      requires TableOk() && n.Valid()
      modifies this
      ensures TableOk() && edges == old(edges) && (old(Valid()) ==> Valid())
      ensures added <==> n.nodeLabel !in old(nodes)
      ensures nodes == if added then old(nodes)[n.nodeLabel := n] else old(nodes)
    {
      if n.nodeLabel in nodes {
        added := false;
      } else {
        nodes := nodes[n.nodeLabel := n];
        added := true;
      }
    }

    /** `removeNode`: deletes by label and tells whether the label was present; the flat edge
        list is not touched. */
    method RemoveNode(n: Node<E>) returns (removed: bool)
      requires TableOk()
      modifies this
      ensures TableOk() && edges == old(edges) && (old(Valid()) ==> Valid())
      ensures removed <==> n.nodeLabel in old(nodes)
      ensures nodes == old(nodes) - {n.nodeLabel}
    {
      removed := n.nodeLabel in nodes;
      nodes := nodes - {n.nodeLabel};
    }

    /** `addEdge`: returns false, changing nothing, unless both endpoints are in the table;
        otherwise appends `e` to the flat list and to the parent's node, then runs `checkRep`,
        which throws when `e` was already in the flat list, or when the flat list already held
        two equal entries (as one built by `Graph(n, e)` may). */
    method AddEdge(e: Edge<E>) returns (r: Outcome<bool>)
      requires TableOk()
      modifies this, if e.parent in nodes then {nodes[e.parent]} else {}
      ensures TableOk() && nodes == old(nodes)
      ensures r == Return(false) <==> !(e.parent in nodes && e.child in nodes)
      ensures r == Return(true) <==>
                e.parent in nodes && e.child in nodes && e !in old(edges) && NoDuplicates(old(edges))
      ensures r.Throw? <==>
                e.parent in nodes && e.child in nodes && (e in old(edges) || !NoDuplicates(old(edges)))
      ensures r == Return(false) ==> edges == old(edges) && Adj() == old(Adj())
      ensures r != Return(false) ==>
                && edges == old(edges) + [e]
                && nodes[e.parent].edges == (if e in old(nodes[e.parent].edges) then old(nodes[e.parent].edges)
                                             else old(nodes[e.parent].edges) + [e])
                && forall k :: k in nodes && k != e.parent ==> nodes[k].edges == old(nodes[k].edges)
      ensures r == Return(true) ==> Valid()
      ensures r.Return? && old(Valid()) ==> Valid()
    {
      if !(e.parent in nodes && e.child in nodes) {
        return Return(false);
      }
      ghost var before := edges;
      edges := edges + [e];
      var added := nodes[e.parent].AddEdge(e);
      var check := CheckRep();
      if check.Throw? {
        if NoDuplicates(before) {
          assert e in before by {
            var a, b :| 0 <= a < b < |edges| && edges[a] == edges[b];
            assert b == |before|;
            assert before[a] == e;
          }
        }
        return Throw(check.message);
      }
      assert e !in before && NoDuplicates(before) by {
        forall a | 0 <= a < |before| ensures before[a] != e && edges[a] == before[a] {
          assert edges[a] == before[a] && edges[|before|] == e;
        }
      }
      return Return(true);
    }

    /** `removeEdge`: deletes the first equal entry of the flat list only, and tells whether
        there was one; the nodes' lists stay as they were. */
    method RemoveEdge(e: Edge<E>) returns (removed: bool)
      requires TableOk()
      modifies this
      ensures TableOk() && nodes == old(nodes) && Adj() == old(Adj())
      ensures old(Valid()) ==> Valid() && e !in edges
      ensures removed <==> e in old(edges)
      ensures edges == RemoveFirst(old(edges), e)
      ensures multiset(edges) == multiset(old(edges)) - multiset{e}
    {
      removed := e in edges;
      var rest := RemoveFirst(edges, e);
      if NoDuplicates(edges) {
        RemoveFirstDistinct(edges, e);
      }
      RemoveFirstMultiset(edges, e);
      assert Adj() == old(Adj()) && TableOk();
      edges := rest;
    }
  }

  /** `getNode` and `Node.equals` agree: the node stored under `l` equals every node labelled `l`,
      whatever edges either of them holds. */
  lemma GetNodeEqualsLabelled<E>(g: Graph<E>, l: string, n: Node<E>)
    requires g.TableOk() && l in g.nodes && n.nodeLabel == l
    ensures g.GetNode(l).Some? && g.GetNode(l).value.Equals(NodeArgument(n))
    ensures n.Equals(NodeArgument(g.GetNode(l).value))
  {
  }

  /** `new Graph(n)`: the copy of the table followed by `checkRep`, which throws exactly when
      some edge occurs twice among the nodes' lists (an absent table gives the empty graph). */
  method OfNodes<E(==)>(n: Option<map<string, Node<E>>>) returns (r: Outcome<Graph<E>>)
    requires n.Some? ==> WellKeyed(n.value)
    ensures r.Return? ==> fresh(r.value) && r.value.Valid()
    ensures r.Return? ==> r.value.nodes == (if n.Some? then n.value else map[])
    ensures r.Return? ==> multiset(r.value.edges) == AllEdges(r.value.Adj())
    ensures r.Throw? <==> n.Some? && Repeats(AllEdges(EdgeLists(n.value)))
    ensures r.Throw? ==> r.message == "Edges in a Graph cannot be identical"
    ensures n.None? ==> r.Return? && r.value.edges == []
  {
    var g := new Graph<E>.FromNodes(n);
    if n.None? {
      assert g.Adj() == map[];
      assert multiset(g.edges) == multiset{};
    }
    NoDuplicatesCounts(g.edges);
    var check := g.CheckRep();
    if check.Throw? {
      return Throw(check.message);
    }
    return Return(g);
  }

  /** `new Graph(e)`: the build from an edge list followed by `checkRep`, which throws exactly
      when the list holds two equal edges. */
  method OfEdges<E(==)>(e: Option<seq<Edge<E>>>) returns (r: Outcome<Graph<E>>)
    ensures r.Throw? <==> !NoDuplicates(if e.Some? then e.value else [])
    ensures r.Return? ==> fresh(r.value) && r.value.Valid()
    ensures r.Return? ==> r.value.edges == (if e.Some? then e.value else [])
    ensures r.Return? ==> r.value.Adj() == TouchLists(r.value.edges)
  {
    var g := new Graph<E>.FromEdges(e);
    var check := g.CheckRep();
    if check.Throw? {
      return Throw(check.message);
    }
    return Return(g);
  }

  /** The empty graph on its own, for any labels: it holds no node, every add or remove call
      fails, and both listings are empty. */
  method EmptyGraphBehaviour(p: string, c: string, l: string)
    returns (found: Option<Node<string>>, removed: bool, added: Outcome<bool>, removedEdge: bool,
             flat: seq<Edge<string>>, all: seq<Node<string>>)
    ensures found.None? && !removed && added == Return(false) && !removedEdge
    ensures flat == [] && all == []
  {
    var g := new Graph<string>();
    found := g.GetNode(p);
    var n := new Node<string>(p);
    removed := g.RemoveNode(n);
    added := g.AddEdge(Edge(p, c, l));
    removedEdge := g.RemoveEdge(Edge(p, c, l));
    flat := g.GetEdges();
    all := g.GetNodes();
  }
}
