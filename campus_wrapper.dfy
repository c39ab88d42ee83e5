/** `campus.CampusWrapper`: builds the campus graph from the parsed files, two directed edges
    of equal weight per pathway, and answers `findPath` queries as an encoded string. */
module CampusWrappers {
  import opened Wrappers
  import opened Lists
  import opened Edges
  import opened Nodes
  import opened Graphs
  import opened Walks
  import opened PathSearch
  import opened CampusParsing
  import opened CampusLocations
  import opened NumberFormat

  /** The edges of `s` whose parent is `k`, in order. */
  function Outgoing(s: seq<Edge<real>>, k: string): seq<Edge<real>>
  {
    if s == [] then []
    else
      var e := s[|s| - 1];
      Outgoing(s[..|s| - 1], k) + (if e.parent == k then [e] else [])
  }

  /** Every edge kept by `Outgoing` is in the list and has `k` as parent. */
  lemma {:induction false} OutgoingFacts(s: seq<Edge<real>>, k: string)
    ensures forall e :: e in Outgoing(s, k) ==> e in s && e.parent == k
  {
    if s != [] {
      OutgoingFacts(s[..|s| - 1], k);
    }
  }

  /** The node lists that adding the flat list `s` edge by edge to the parents' nodes builds:
      for each label, its outgoing edges, each once, in list order. */
  ghost function OutLists(s: seq<Edge<real>>, keys: set<string>): Adjacency
  {
    map k | k in keys :: Dedup(Outgoing(s, k))
  }

  lemma OutgoingSnoc(s: seq<Edge<real>>, e: Edge<real>, k: string)
    ensures Outgoing(s + [e], k) == Outgoing(s, k) + (if e.parent == k then [e] else [])
  {
    assert (s + [e])[..|s|] == s;
  }

  /** The list of label `k` after one more edge of the flat list. */
  lemma OutListAt(s: seq<Edge<real>>, e: Edge<real>, keys: set<string>, k: string)
    requires e.parent in keys && k in keys
    ensures var rhs := AttachTo(OutLists(s, keys), e.parent, e);
            k in rhs && Dedup(Outgoing(s + [e], k)) == rhs[k]
  {
    var prev := Outgoing(s, k);
    OutgoingSnoc(s, e, k);
    assert OutLists(s, keys)[k] == Dedup(prev);
    if e.parent == k {
      DedupSnoc(prev, e);
    } else {
      assert prev + [] == prev;
    }
  }

  /** Two node-list tables with the same labels and the same list under each label are equal. */
  lemma SameAdjacency(a: Adjacency, b: Adjacency)
    requires a.Keys == b.Keys
    requires forall k :: k in a ==> a[k] == b[k]
    ensures a == b
  {
  }

  /** One more edge of the flat list adds that edge to its parent's list only. */
  lemma OutListsSnoc(s: seq<Edge<real>>, e: Edge<real>, keys: set<string>)
    requires e.parent in keys
    ensures OutLists(s + [e], keys) == AttachTo(OutLists(s, keys), e.parent, e)
  {
    var lhs := OutLists(s + [e], keys);
    var rhs := AttachTo(OutLists(s, keys), e.parent, e);
    assert lhs.Keys == keys && rhs.Keys == keys;
    forall k | k in lhs ensures lhs[k] == rhs[k] {
      OutListAt(s, e, keys, k);
    }
    SameAdjacency(lhs, rhs);
  }

  /** Node lists built this way are closed over `keys` and non-negative when every listed
      edge is. */
  lemma OutListsBounded(s: seq<Edge<real>>, keys: set<string>)
    requires forall e :: e in s ==> e.child in keys && e.edgeLabel >= 0.0
    ensures Closed(OutLists(s, keys)) && NonNegative(OutLists(s, keys))
  {
    forall k, e | k in OutLists(s, keys) && e in OutLists(s, keys)[k] ensures e in s {
      DedupFacts(Outgoing(s, k));
      OutgoingFacts(s, k);
      var i :| 0 <= i < |Dedup(Outgoing(s, k))| && Dedup(Outgoing(s, k))[i] == e;
    }
  }

  /** The weight of a pathway: the distance between the coordinates of its two ids. */
  function Weight(data: map<string, Record>, dist: (Record, Record) -> real, p: Pathway): real
  {
    if p.id1 in data && p.id2 in data then dist(data[p.id1], data[p.id2]) else 0.0
  }

  /** Every id of every pathway has a record. */
  predicate Known<V>(data: map<string, V>, pathways: set<Pathway>)
  {
    forall p :: p in pathways ==> p.id1 in data && p.id2 in data
  }

  /** The flat edge list built from pathways taken in `order`: for each, the edge `id1 -> id2`
      and then the edge `id2 -> id1`, both of the pathway's weight. */
  function PathwayEdges(order: seq<Pathway>, data: map<string, Record>, dist: (Record, Record) -> real): seq<Edge<real>>
  {
    if order == [] then []
    else
      var p := order[|order| - 1];
      var d := Weight(data, dist, p);
      PathwayEdges(order[..|order| - 1], data, dist) + [Edge(p.id1, p.id2, d)] + [Edge(p.id2, p.id1, d)]
  }

  /** Each pathway yields both of its directed edges, of equal weight, and every edge comes
      from a pathway. */
  lemma {:induction false} PathwayEdgesFacts(order: seq<Pathway>, data: map<string, Record>, dist: (Record, Record) -> real)
    ensures forall p :: p in order ==>
              && Edge(p.id1, p.id2, Weight(data, dist, p)) in PathwayEdges(order, data, dist)
              && Edge(p.id2, p.id1, Weight(data, dist, p)) in PathwayEdges(order, data, dist)
    ensures forall e :: e in PathwayEdges(order, data, dist) ==>
              exists p :: p in order && (e == Edge(p.id1, p.id2, Weight(data, dist, p)) || e == Edge(p.id2, p.id1, Weight(data, dist, p)))
  {
    if order != [] {
      var init := order[..|order| - 1];
      PathwayEdgesFacts(init, data, dist);
      assert order == init + [order[|order| - 1]];
    }
  }

  lemma PathwayEdgesSnoc(order: seq<Pathway>, p: Pathway, data: map<string, Record>, dist: (Record, Record) -> real)
    ensures PathwayEdges(order + [p], data, dist)
            == PathwayEdges(order, data, dist) + [Edge(p.id1, p.id2, Weight(data, dist, p))] + [Edge(p.id2, p.id1, Weight(data, dist, p))]
  {
    assert (order + [p])[..|order|] == order;
  }

  /** Two more edges of the flat list, each added to its parent's list. */
  lemma OutListsPair(s: seq<Edge<real>>, f: Edge<real>, b: Edge<real>, keys: set<string>)
    requires f.parent in keys && b.parent in keys
    ensures OutLists(s + [f] + [b], keys) == AttachTo(AttachTo(OutLists(s, keys), f.parent, f), b.parent, b)
  {
    OutListsSnoc(s, f, keys);
    OutListsSnoc(s + [f], b, keys);
  }

  /** Nodes with no edges are the node lists of an empty flat list. */
  lemma EmptyLists(nodes: map<string, Node<real>>)
    requires forall k :: k in nodes ==> nodes[k].edges == []
    ensures EdgeLists(nodes) == OutLists([], nodes.Keys)
  {
  }

  /** One pass of the pathway loop of `createNewGraph`: the distance between the two ids' records,
      and the edge each way added to its parent's node. */
  method AddPathway(nodes: map<string, Node<real>>, ids: Pathway, data: map<string, Record>,
                    dist: (Record, Record) -> real, ghost before: seq<Edge<real>>)
    returns (forward: Edge<real>, backward: Edge<real>)
    requires WellKeyed(nodes) && ids.id1 in nodes && ids.id2 in nodes && ids.id1 in data && ids.id2 in data
    requires EdgeLists(nodes) == OutLists(before, nodes.Keys)
    modifies nodes.Values
    ensures WellKeyed(nodes)
    ensures forward == Edge(ids.id1, ids.id2, Weight(data, dist, ids))
    ensures backward == Edge(ids.id2, ids.id1, Weight(data, dist, ids))
    ensures EdgeLists(nodes) == OutLists(before + [forward] + [backward], nodes.Keys)
  {
    var distance := dist(data[ids.id1], data[ids.id2]);
    forward := Edge(ids.id1, ids.id2, distance);
    backward := Edge(ids.id2, ids.id1, distance);
    AddToNode(nodes, forward.parent, forward);
    AddToNode(nodes, backward.parent, backward);
    OutListsPair(before, forward, backward, nodes.Keys);
  }

  /** The loop of `createNewGraph` over the pathway set: appends both edges of each pathway to
      the flat list and adds each to its parent's node. The set's iteration order is `order`. */
  method AddPathways(nodes: map<string, Node<real>>, pathways: set<Pathway>, data: map<string, Record>,
                     dist: (Record, Record) -> real)
    returns (edges: seq<Edge<real>>, ghost order: seq<Pathway>)
    requires WellKeyed(nodes) && Known(data, pathways) && Known(nodes, pathways)
    requires forall k :: k in nodes ==> nodes[k].edges == []
    modifies nodes.Values
    ensures WellKeyed(nodes)
    ensures NoDuplicates(order) && forall p :: p in order <==> p in pathways
    ensures edges == PathwayEdges(order, data, dist)
    ensures EdgeLists(nodes) == OutLists(edges, nodes.Keys)
  {
    edges := [];
    order := [];
    var rest := pathways;
    EmptyLists(nodes);
    while rest != {}
      invariant rest <= pathways && NoDuplicates(order)
      invariant forall p :: p in order <==> p in pathways && p !in rest
      invariant WellKeyed(nodes)
      invariant edges == PathwayEdges(order, data, dist)
      invariant EdgeLists(nodes) == OutLists(edges, nodes.Keys)
      decreases |rest|
    {
      var ids :| ids in rest;
      var forward, backward := AddPathway(nodes, ids, data, dist, edges);
      edges := edges + [forward] + [backward];
      PathwayEdgesSnoc(order, ids, data, dist);
      order := order + [ids];
      rest := rest - {ids};
    }
  }

  /** Every edge built from pathways between ids of `keys` leads to one of them and weighs no
      less than zero when the distance never does. */
  lemma {:induction false} PathwayEdgesBounded(order: seq<Pathway>, data: map<string, Record>,
                                               dist: (Record, Record) -> real, keys: set<string>)
    requires forall p :: p in order ==> p.id1 in keys && p.id2 in keys
    requires forall a, b :: dist(a, b) >= 0.0
    ensures forall e :: e in PathwayEdges(order, data, dist) ==> e.child in keys && e.edgeLabel >= 0.0
  {
    if order != [] {
      var init := order[..|order| - 1];
      assert forall p :: p in init ==> p in order;
      PathwayEdgesBounded(init, data, dist, keys);
    }
  }

  /** So the node lists built from such pathways are closed over `keys` and non-negative. */
  lemma PathwayListsBounded(order: seq<Pathway>, data: map<string, Record>,
                            dist: (Record, Record) -> real, keys: set<string>)
    requires forall p :: p in order ==> p.id1 in keys && p.id2 in keys
    requires forall a, b :: dist(a, b) >= 0.0
    ensures var lists := OutLists(PathwayEdges(order, data, dist), keys);
            Closed(lists) && NonNegative(lists)
  {
    PathwayEdgesBounded(order, data, dist, keys);
    OutListsBounded(PathwayEdges(order, data, dist), keys);
  }

  /** What `createNewGraph` leaves behind, for the pathways taken in `order`: a node per record
      id, the flat list of both edges of every pathway, and each node's list holding its
      outgoing edges of that list. */
  ghost predicate Built(adj: Adjacency, keys: set<string>, edges: seq<Edge<real>>, order: seq<Pathway>,
                        pathways: set<Pathway>, data: map<string, Record>, dist: (Record, Record) -> real)
  {
    && keys == data.Keys
    && NoDuplicates(order) && (forall p :: p in order <==> p in pathways)
    && edges == PathwayEdges(order, data, dist)
    && adj == OutLists(edges, keys)
  }

  /** The pathway loop of `createNewGraph` and the graph it makes of the nodes and the flat list. */
  method BuildGraph(nodes: map<string, Node<real>>, pathways: set<Pathway>, data: map<string, Record>,
                    dist: (Record, Record) -> real)
    returns (g: Graph<real>, ghost order: seq<Pathway>)
    requires WellKeyed(nodes) && nodes.Keys == data.Keys && Known(data, pathways)
    requires forall k :: k in nodes ==> nodes[k].edges == []
    requires forall a, b :: dist(a, b) >= 0.0
    modifies nodes.Values
    ensures fresh(g) && g.nodes == nodes
    ensures g.TableOk() && Built(g.Adj(), g.nodes.Keys, g.edges, order, pathways, data, dist)
    ensures Closed(g.Adj()) && NonNegative(g.Adj())
  {
    var edges;
    edges, order := AddPathways(nodes, pathways, data, dist);
    PathwayListsBounded(order, data, dist, nodes.Keys);
    g := new Graph<real>.FromParts(Some(nodes), Some(edges));
  }

  /** `readData`, the locations made of its two tables, and the pathway loop. */
  method LoadCampus(nodeLines: seq<string>, edgeLines: seq<string>, dist: (Record, Record) -> real)
    returns (loc: Locations, g: Graph<real>, ghost order: seq<Pathway>)
    requires NodeFile(nodeLines) && EdgeFile(edgeLines)
    requires Known(Assign(IdPuts(NodeRows(nodeLines))), PathwaysOf(edgeLines))
    requires forall a, b :: dist(a, b) >= 0.0
    ensures loc == Locations(Assign(IdPuts(NodeRows(nodeLines))), Assign(NamePuts(NodeRows(nodeLines))))
    ensures fresh(g) && forall k :: k in g.nodes ==> fresh(g.nodes[k])
    ensures g.TableOk() && Built(g.Adj(), g.nodes.Keys, g.edges, order, PathwaysOf(edgeLines), loc.dataFromIDs, dist)
    ensures Closed(g.Adj()) && NonNegative(g.Adj())
  {
    var dataFromIDs, buildings, pathways, nodes := ReadData(nodeLines, edgeLines);
    loc := NewLocations(Some(dataFromIDs), Some(buildings)).value;
    g, order := BuildGraph(nodes, pathways, dataFromIDs, dist);
  }

  /** The outcome of `findPath`, before it is written out as a string. */
  datatype PathResult =
    | Rejected(ids: seq<string>)       // the ids that name no building of the graph
    | Found(path: seq<Edge<real>>)     // a cheapest path, without its starting self-edge
    | NoPath                           // the destination cannot be reached

  /** ",a,b" for the ids `[a, b]`. */
  function Commas(ids: seq<string>): string
  {
    if ids == [] then "" else Commas(ids[..|ids| - 1]) + "," + ids[|ids| - 1]
  }

  /** "c1,c2,...," for the children along a path. */
  function Stops(path: seq<Edge<real>>): string
  {
    if path == [] then "" else Stops(path[..|path| - 1]) + path[|path| - 1].child + ","
  }

  /** The string `findPath` returns for each outcome. */
  function Encode(result: PathResult): string
  {
    match result
    case Rejected(ids) => Commas(ids)
    case Found(path) => Stops(path) + Format3(Cost(path))
    case NoPath => ""
  }

  /** The empty string means "no path" and nothing else: a rejection names at least one id, and
      a found path always ends with its cost. */
  lemma EncodeEmpty(result: PathResult)
    requires result.Rejected? ==> result.ids != []
    ensures Encode(result) == "" <==> result.NoPath?
  {
    match result
    case Rejected(ids) => {
      var c := Commas(ids);
      assert |c| >= 1 by {
        assert c == Commas(ids[..|ids| - 1]) + "," + ids[|ids| - 1];
      }
    }
    case Found(path) => {
      var m := Rounded(if Cost(path) < 0.0 then -Cost(path) else Cost(path));
      assert |Fixed3(m)| >= 1 by {
        assert Fixed3(m) == Digits(m / 1000) + "." + Pad3(Digits(m % 1000));
      }
    }
    case NoPath =>
  }

  /** The path string of a found path ends with its total cost, three decimals after the point,
      which reads back within half a thousandth of the cost. */
  lemma EncodeFoundCost(path: seq<Edge<real>>)
    requires Cost(path) >= 0.0
    ensures var s, k := Encode(Found(path)), |Stops(path)|;
            && k <= |s| && s[..k] == Stops(path)
            && ParseFixed(s[k..]).Thousandths?
            && Cost(path) - 0.0005 < ParseFixed(s[k..]).m as real / 1000.0 <= Cost(path) + 0.0005
  {
    var s, k := Encode(Found(path)), |Stops(path)|;
    assert s[..k] == Stops(path);
    assert s[k..] == Format3(Cost(path));
    Format3Near(Cost(path));
  }

  /** The path from a building to itself is written as its cost alone. */
  lemma EncodeSelf()
    ensures Encode(Found([])) == "0.000"
  {
    Format3Zero();
  }

  /** The loop of `findPath` that writes out a found path: each child label followed by a comma,
      while the weights are summed from the first edge on, and then the total cost. */
  method Describe(path: seq<Edge<real>>) returns (s: string)
    ensures s == Encode(Found(path))
  {
    var total := 0.0;
    s := "";
    for i := 0 to |path|
      invariant s == Stops(path[..i]) && total == Cost(path[..i])
    {
      assert path[..i + 1][..i] == path[..i];
      s := s + path[i].child + ",";
      total := total + path[i].edgeLabel;
    }
    assert path[..|path|] == path;
    s := s + Format3(total);
  }

  /** `campus.CampusWrapper`: the campus graph with edge weights and the campus locations. */
  class CampusWrapper {
    var campus: Graph<real>
    var locations: Locations

    /** The graph's table is well keyed, every edge leads to a node of the graph and no edge
        weighs less than zero: what the path search needs. */
    ghost predicate Valid()
      reads this, campus, campus.nodes.Values
    {
      campus.TableOk() && Closed(campus.Adj()) && NonNegative(campus.Adj())
    }

    /** `CampusWrapper(nodeFilename, edgeFilename)`: builds the graph from the two files' lines.
        `dist` is the Euclidean distance between two records' coordinates. */
    constructor (nodeLines: seq<string>, edgeLines: seq<string>, dist: (Record, Record) -> real)
      requires NodeFile(nodeLines) && EdgeFile(edgeLines)
      requires Known(Assign(IdPuts(NodeRows(nodeLines))), PathwaysOf(edgeLines))
      requires forall a, b :: dist(a, b) >= 0.0
      ensures locations == Locations(Assign(IdPuts(NodeRows(nodeLines))), Assign(NamePuts(NodeRows(nodeLines))))
      ensures exists order :: Built(campus.Adj(), campus.nodes.Keys, campus.edges, order, PathwaysOf(edgeLines), locations.dataFromIDs, dist)
      ensures Valid()
    {
      campus := new Graph<real>();
      locations := Locations(map[], map[]);
      new;
      ghost var order := CreateNewGraph(nodeLines, edgeLines, dist);
    }

    /** `createNewGraph`: reads the files, records the locations, and for every pathway adds both
        directed edges, of the distance between its ends, to the flat list and to the parents'
        nodes. The pathway set's iteration order is `order`. */
    method CreateNewGraph(nodeLines: seq<string>, edgeLines: seq<string>, dist: (Record, Record) -> real)
      returns (ghost order: seq<Pathway>)
      requires NodeFile(nodeLines) && EdgeFile(edgeLines)
      requires Known(Assign(IdPuts(NodeRows(nodeLines))), PathwaysOf(edgeLines))
      requires forall a, b :: dist(a, b) >= 0.0
      modifies this
      ensures locations == Locations(Assign(IdPuts(NodeRows(nodeLines))), Assign(NamePuts(NodeRows(nodeLines))))
      ensures fresh(campus) && forall k :: k in campus.nodes ==> fresh(campus.nodes[k])
      ensures Built(campus.Adj(), campus.nodes.Keys, campus.edges, order, PathwaysOf(edgeLines), locations.dataFromIDs, dist)
      ensures Valid()
    {
      var loc, g;
      loc, g, order := LoadCampus(nodeLines, edgeLines, dist);
      assert forall k :: k in g.nodes ==> g.nodes[k] as object != this as object;
      locations, campus := loc, g;
    }

    /** An id `findPath` refuses: one whose record has an empty name (an intersection), or one
        that is no node of the graph. */
    predicate Invalid(n: string)
      reads this, campus
    {
      locations.GetName(n) == Some("") || n !in campus.nodes
    }

    /** `findPath`: refuses the invalid ids, the destination only when it differs from the
        start; otherwise searches for a cheapest path and writes it out, or gives the empty
        string when the destination cannot be reached. */
    method FindPath(name1: string, name2: string) returns (r: string, result: PathResult)
      requires Valid()
      ensures r == Encode(result) && (r == "" <==> result.NoPath?)
      ensures result.Rejected? <==> Invalid(name1) || (name1 != name2 && Invalid(name2))
      ensures result.Rejected? ==>
                result.ids == (if Invalid(name1) then [name1] else [])
                              + (if name1 != name2 && Invalid(name2) then [name2] else [])
      ensures result.Found? ==> IsWalk(campus.Adj(), name1, result.path) && End(name1, result.path) == name2
      ensures result.Found? ==>
                forall w :: IsWalk(campus.Adj(), name1, w) && End(name1, w) == name2 ==> Cost(result.path) <= Cost(w)
      ensures result.NoPath? ==> forall w :: IsWalk(campus.Adj(), name1, w) ==> End(name1, w) != name2
      ensures name1 == name2 && !Invalid(name1) ==> result == Found([])
    {
      var ids: seq<string> := [];
      if locations.GetName(name1) == Some("") || campus.GetNode(name1).None? {
        ids := ids + [name1];
      }
      if name1 != name2 && (locations.GetName(name2) == Some("") || campus.GetNode(name2).None?) {
        ids := ids + [name2];
      }
      if ids != [] {
        result := Rejected(ids);
        r := Commas(ids);
        EncodeEmpty(result);
        return;
      }
      var found := ShortestPath(campus, name1, name2);
      if found.None? {
        return "", NoPath;
      }
      result := Found(found.value);
      r := Describe(found.value);
      EncodeEmpty(result);
    }
  }
}
