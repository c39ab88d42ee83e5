/** `graph.GraphWrapper`: a facade over a `Graph<String,String>` that lists node labels and
    `"child(label)"` entries in ascending order. */
module GraphWrappers {
  import opened Wrappers
  import opened Lists
  import opened Edges
  import opened Nodes
  import opened Graphs
  import opened StringOrder
  import opened Sorting

  /** `StringComparator` as the relation "compares no later than". */
  function StringLe(a: string, b: string): bool
  {
    Le(a, b)
  }

  /** `StringComparator` is a total preorder, so sorting by it is well defined. */
  lemma StringLeIsOrder()
    ensures Total(StringLe) && Transitive(StringLe)
  {
    forall a, b ensures StringLe(a, b) || StringLe(b, a) { LeTotal(a, b); }
    forall a, b, c | StringLe(a, b) && StringLe(b, c) ensures StringLe(a, c) { LeTransitive(a, b, c); }
  }

  /** The entry `listChildren` prints for one edge. */
  function ChildEntry(e: Edge<string>): string
  {
    e.child + "(" + e.edgeLabel + ")"
  }

  /** The entries of a list of edges, in the same order. */
  function ChildEntries(s: seq<Edge<string>>): (r: seq<string>)
    ensures |r| == |s| && forall i :: 0 <= i < |s| ==> r[i] == ChildEntry(s[i])
  {
    seq(|s|, i requires 0 <= i < |s| => ChildEntry(s[i]))
  }

  /** Parallel edges with different labels give different entries. */
  lemma ParallelEntriesDiffer(p: string, c: string, l1: string, l2: string)
    requires l1 != l2
    ensures ChildEntry(Edge(p, c, l1)) != ChildEntry(Edge(p, c, l2))
  {
    var a := ChildEntry(Edge(p, c, l1));
    var b := ChildEntry(Edge(p, c, l2));
    assert a[|c| + 1..|a| - 1] == l1;
    assert b[|c| + 1..|b| - 1] == l2;
  }

  /** A sorted permutation of a duplicate-free list is strictly ascending. */
  lemma SortedDistinctIsStrict(r: seq<string>, s: seq<string>)
    requires SortedBy(r, StringLe) && multiset(r) == multiset(s) && NoDuplicates(s)
    ensures StrictlyAscending(r)
  {
    PermutationKeepsDistinct(r, s);
    forall i, j | 0 <= i < j < |r| ensures Lt(r[i], r[j]) {
      CompareZero(r[i], r[j]);
    }
  }

  /** The labels of the nodes `getNodes` returns, in the same order: each stored label once. */
  lemma NodeLabels(nodes: map<string, Node<string>>, graphNodes: seq<Node<string>>, strings: seq<string>)
    requires forall k :: k in nodes ==> nodes[k].nodeLabel == k
    requires forall i :: 0 <= i < |graphNodes| ==> graphNodes[i].nodeLabel in nodes
    requires forall k :: k in nodes ==> nodes[k] in graphNodes
    requires forall i, j :: 0 <= i < j < |graphNodes| ==> graphNodes[i].nodeLabel != graphNodes[j].nodeLabel
    requires |strings| == |graphNodes| && forall j :: 0 <= j < |strings| ==> strings[j] == graphNodes[j].nodeLabel
    ensures NoDuplicates(strings)
    ensures forall x :: x in strings <==> x in nodes
  {
    forall x | x in nodes ensures x in strings {
      var j :| 0 <= j < |graphNodes| && graphNodes[j] == nodes[x];
      assert strings[j] == x;
    }
  }

  class GraphWrapper {
    var graph: Graph<string>

    ghost predicate Valid()
      reads this, graph, graph.nodes.Values
    {
      graph.Valid()
    }

    /** `GraphWrapper()`: an empty graph. */
    constructor ()
      ensures Valid() && fresh(graph) && graph.nodes == map[] && graph.edges == []
    {
      graph := new Graph<string>();
    }

    /** `addNode`: adds a fresh node with that label, unless the label is already present. */
    method AddNode(nodeData: string)
      requires Valid()
      modifies graph
      ensures Valid() && graph == old(graph) && graph.edges == old(graph.edges)
      ensures nodeData in old(graph.nodes) ==> graph.nodes == old(graph.nodes)
      ensures nodeData !in old(graph.nodes) ==>
                && nodeData in graph.nodes
                && graph.nodes == old(graph.nodes)[nodeData := graph.nodes[nodeData]]
                && fresh(graph.nodes[nodeData]) && graph.nodes[nodeData].edges == []
    {
      var n := new Node<string>(nodeData);
      var added := graph.AddNode(n);
    }

    /** `addEdge`: adds the edge; an edge with an endpoint outside the graph is silently
        ignored, and an edge already in the flat list makes the graph's `checkRep` throw. */
    method AddEdge(parentNode: string, childNode: string, edgeLabel: string) returns (r: Outcome<()>)
      requires Valid()
      modifies graph, if parentNode in graph.nodes then {graph.nodes[parentNode]} else {}
      ensures graph == old(graph) && graph.nodes == old(graph.nodes) && graph.TableOk()
      ensures r.Throw? <==> parentNode in graph.nodes && childNode in graph.nodes
                            && Edge(parentNode, childNode, edgeLabel) in old(graph.edges)
      ensures !(parentNode in graph.nodes && childNode in graph.nodes) ==>
                graph.edges == old(graph.edges) && graph.Adj() == old(graph.Adj())
      ensures parentNode in graph.nodes && childNode in graph.nodes ==>
                && graph.edges == old(graph.edges) + [Edge(parentNode, childNode, edgeLabel)]
                && graph.nodes[parentNode].edges
                   == (if Edge(parentNode, childNode, edgeLabel) in old(graph.nodes[parentNode].edges)
                       then old(graph.nodes[parentNode].edges)
                       else old(graph.nodes[parentNode].edges) + [Edge(parentNode, childNode, edgeLabel)])
                && (forall k :: k in graph.nodes && k != parentNode ==> graph.nodes[k].edges == old(graph.nodes[k].edges))
      ensures r.Return? ==> Valid()
    {
      var e := Edge(parentNode, childNode, edgeLabel);
      var added := graph.AddEdge(e);
      if added.Throw? {
        return Throw(added.message);
      }
      return Return(());
    }

    /** `listNodes`: every node label once, in ascending order. */
    method ListNodes() returns (r: seq<string>)
      requires Valid()
      ensures StrictlyAscending(r)
      ensures forall x :: x in r <==> x in graph.nodes
      ensures |r| == |graph.nodes.Keys|
    {
      var graphNodes := graph.GetNodes();
      var strings: seq<string> := [];
      var i := 0;
      while i < |graphNodes|
        invariant 0 <= i <= |graphNodes| && |strings| == i
        invariant forall j :: 0 <= j < i ==> strings[j] == graphNodes[j].nodeLabel
      {
        strings := strings + [graphNodes[i].nodeLabel];
        i := i + 1;
      }
      NodeLabels(graph.nodes, graphNodes, strings);
      StringLeIsOrder();
      SortSorted(strings, StringLe);
      r := Sort(strings, StringLe);
      SortedDistinctIsStrict(r, strings);
      forall x ensures x in r <==> x in graph.nodes {
        assert x in r <==> x in multiset(strings);
      }
    }

    /** `listChildren`: nothing for an absent label; otherwise one `"child(label)"` entry per
        stored edge of that node, in ascending order. */
    method ListChildren(parentNode: string) returns (r: Option<seq<string>>)
      requires Valid()
      ensures r.None? <==> parentNode !in graph.nodes
      ensures r.Some? ==> SortedBy(r.value, StringLe)
      ensures r.Some? ==> multiset(r.value) == multiset(ChildEntries(graph.nodes[parentNode].edges))
    {
      var node := graph.GetNode(parentNode);
      if node.None? {
        return None;
      }
      var nodeEdges := node.value.GetEdges();
      var strings: seq<string> := [];
      var i := 0;
      while i < |nodeEdges|
        invariant 0 <= i <= |nodeEdges| && strings == ChildEntries(nodeEdges[..i])
      {
        strings := strings + [ChildEntry(nodeEdges[i])];
        i := i + 1;
      }
      assert nodeEdges[..i] == nodeEdges;
      StringLeIsOrder();
      SortSorted(strings, StringLe);
      return Some(Sort(strings, StringLe));
    }
  }
}
