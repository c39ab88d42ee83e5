/** `graph.Node`: a label plus an ordered list of edges without two equal entries. */
module Nodes {
  import opened Edges
  import opened Lists

  class Node<E(==)> {
    const nodeLabel: string
    var edges: seq<Edge<E>>

    /** The edge list holds no two equal edges. */
    ghost predicate Valid()
      reads this
    {
      NoDuplicates(edges)
    }

    /** `Node(l)`: the given label and no edges. */
    constructor (l: string)
      ensures Valid() && nodeLabel == l && edges == []
    {
      nodeLabel := l;
      edges := [];
    }

    /** `Node(l, e)`: adds the edges of `e` one by one, so each distinct edge is kept once, in
        the order of its first occurrence. */
    constructor FromList(l: string, e: seq<Edge<E>>)
      ensures Valid() && nodeLabel == l && edges == Dedup(e)
    {
      nodeLabel := l;
      edges := [];
      new;
      var i := 0;
      while i < |e|
        invariant 0 <= i <= |e|
        invariant Valid() && edges == Dedup(e[..i])
      {
        assert e[..i + 1][..i] == e[..i];
        var added := AddEdge(e[i]);
        DedupFacts(e[..i + 1]);
        i := i + 1;
      }
      assert e[..|e|] == e;
    }

    /** `containsEdge`: whether some stored edge equals `e`. */
    method ContainsEdge(e: Edge<E>) returns (found: bool)
      ensures found <==> e in edges
    {
      var i := 0;
      while i < |edges|
        invariant 0 <= i <= |edges|
        invariant e !in edges[..i]
      {
        if edges[i] == e {
          return true;
        }
        assert edges[..i + 1] == edges[..i] + [edges[i]];
        i := i + 1;
      }
      assert edges[..i] == edges;
      return false;
    }

    /** `addEdge`: refuses an edge that is already present; otherwise appends it. */
    method AddEdge(e: Edge<E>) returns (added: bool)
      requires Valid()
      modifies this
      ensures Valid() && e in edges
      ensures added <==> e !in old(edges)
      ensures edges == if added then old(edges) + [e] else old(edges)
    {
      var present := ContainsEdge(e);
      if present {
        added := false;
      } else {
        edges := edges + [e];
        added := true;
      }
    }

    /** `removeEdge`: drops the first equal edge, if any, keeping the order of the rest. */
    method RemoveEdge(e: Edge<E>) returns (removed: bool)
      requires Valid()
      modifies this
      ensures Valid() && e !in edges
      ensures removed <==> e in old(edges)
      ensures edges == RemoveFirst(old(edges), e)
      ensures multiset(edges) == multiset(old(edges)) - multiset{e}
    {
      removed := e in edges;
      RemoveFirstDistinct(edges, e);
      RemoveFirstMultiset(edges, e);
      edges := RemoveFirst(edges, e);
    }

    /** `getEdges`: a copy of the list. It is a value, so the caller cannot change the node
        through it. */
    function GetEdges(): (r: seq<Edge<E>>)
      reads this
      ensures r == edges
    {
      edges
    }

    /** `Node.equals`: true only for a node with the same label, false for any other kind of
        argument. It reads no field but the constant label, so the edges never influence it. */
    function Equals(obj: Argument<E>): (r: bool)
      ensures r ==> obj.NodeArgument?
      ensures obj.NodeArgument? ==> (r <==> obj.node.nodeLabel == nodeLabel)
    {
      match obj
      case NodeArgument(n) => nodeLabel == n.nodeLabel
      case OtherArgument => false
    }
  }

  /** What `Node.equals` may be handed: a node, or an object of any other class. */
  datatype Argument<E(==)> = NodeArgument(node: Node<E>) | OtherArgument

  /** `Node.equals` is an equivalence on nodes, as `Object.equals` requires: reflexive, symmetric
      and transitive, and never true for a non-node. */
  lemma EqualsIsEquivalence<E>(a: Node<E>, b: Node<E>, c: Node<E>)
    ensures a.Equals(NodeArgument(a))
    ensures a.Equals(NodeArgument(b)) <==> b.Equals(NodeArgument(a))
    ensures a.Equals(NodeArgument(b)) && b.Equals(NodeArgument(c)) ==> a.Equals(NodeArgument(c))
    ensures !a.Equals(OtherArgument)
  {
  }
}
