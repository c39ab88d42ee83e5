/** `graph.Edge`: an immutable directed, labelled edge. An endpoint node is identified by its
    label (node equality is by label), so an edge stores its endpoints' labels. */
module Edges {
  import opened Wrappers

  /** Fields are fixed at construction; there are no setters. */
  datatype Edge<E> = Edge(parent: string, child: string, edgeLabel: E)

  /** The argument of Java's `equals(Object)`: an edge, a node (by label) or anything else. */
  datatype Value<E> = EdgeValue(edge: Edge<E>) | NodeValue(nodeLabel: string) | OtherValue

  /** The constructor followed by `checkRep`: a missing parent, child or label throws. */
  function NewEdge<E>(p: Option<string>, c: Option<string>, l: Option<E>): (r: Outcome<Edge<E>>)
    ensures r.Return? <==> p.Some? && c.Some? && l.Some?
    ensures r.Return? ==> r.value.parent == p.value && r.value.child == c.value && r.value.edgeLabel == l.value
  {
    if p.None? then Throw("parent == null")
    else if c.None? then Throw("child == null")
    else if l.None? then Throw("label == null")
    else Return(Edge(p.value, c.value, l.value))
  }

  /** `Edge.equals`: true only for an edge value whose parent, child and label all match. */
  function Equals<E(==)>(e: Edge<E>, obj: Value<E>): (r: bool)
    ensures r <==> obj == EdgeValue(e)
  {
    match obj
    case EdgeValue(o) => e.parent == o.parent && e.child == o.child && e.edgeLabel == o.edgeLabel
    case _ => false
  }

  /** Edges built from equal endpoints and labels are equal; a different label makes them
      unequal, so parallel edges with different labels are distinct. */
  lemma EqualsIsStructural<E>(p: string, c: string, l1: E, l2: E)
    ensures Equals(Edge(p, c, l1), EdgeValue(Edge(p, c, l2))) <==> l1 == l2
  {
  }

  /** An edge equals itself and never equals a non-edge value. */
  lemma EqualsReflexiveAndTyped<E>(e: Edge<E>, other: Value<E>)
    ensures Equals(e, EdgeValue(e))
    ensures !other.EdgeValue? ==> !Equals(e, other)
  {
  }

  /** The getters return exactly the constructor arguments. */
  lemma GettersReturnArguments<E>(p: string, c: string, l: E)
    ensures NewEdge(Some(p), Some(c), Some(l)) == Return(Edge(p, c, l))
  {
  }
}
