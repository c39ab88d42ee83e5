# Campus map: graph, parser and shortest paths

This project models the non-graphical core of a campus map application, with the properties it promises proved in Dafny.

The core has three parts:

- **A generic directed, labelled multigraph** (`graph.Edge`, `graph.Node`, `graph.Graph` and the facade `graph.GraphWrapper`).
  - An edge is an immutable triple of parent, child and label.
  - A node is a label plus an edge list that never holds two equal edges.
  - A graph holds a label-to-node table and a flat edge list in which no two entries are equal.
- **The campus data** (`campus.CampusParser`, `campus.CampusLocations`).
  - A node file of `name,id,x,y` lines and an edge file of `id1,id2` lines are split at their commas.
  - The split lines are folded into an id table, a building table, a pathway set and a node table.
  - The tables answer lookups, give a compass direction and produce two sorted listings.
- **The campus graph and path search** (`campus.CampusWrapper`).
  - Every pathway becomes two directed edges of equal weight.
  - `findPath` first validates its two ids. It then runs a Dijkstra search whose queue holds whole candidate paths.
  - The outcome is written out as a string of four shapes:
    - `",a,b"` for invalid ids;
    - `"c1,c2,...,cost"` for a found path;
    - `"0.000"` for a path from a building to itself;
    - `""` when no path exists.

## How the model is laid out

Each Java class is modelled in the form it has in the source.

**Edges** (`edge.dfy`) is a datatype. An endpoint node is identified by its label, because node equality is by label, so the edge stores its endpoints' labels. The constructor followed by `checkRep` is `NewEdge`, which takes optional arguments and returns an `Outcome`.

**Nodes** (`node.dfy`) and **Graphs** (`graph.dfy`) are classes whose fields the methods update in place.

- `Node` has its edge list.
- `Graph` has `nodes: map<string, Node<E>>` and `edges: seq<Edge<E>>`.
- `Graph`'s constructors are modelled before their `checkRep`. `OfNodes` and `OfEdges` then model `new Graph(...)` with `checkRep`, whose `RuntimeException` becomes an `Outcome`.
- `AddEdge` returns `Throw` after changing the graph, as the source does.
- The node lists of a table are described by the ghost function `EdgeLists`.
- The lists that the edge-list constructor builds are the reference function `TouchLists`.
- `getEdges` of both classes is a function that returns the list as a value.

**GraphWrappers** (`graph_wrapper.dfy`) is a class over a `Graph<string>`. Its listings are proved sorted and equal, as multisets, to what they list. `compareTo` on strings is `StringOrder.Compare`, and `List.sort` is the insertion sort `Sorting.Sort`.

**CampusParsing** (`campus_parser.dfy`) takes each file as its sequence of lines. The splitting is done by pure functions, and the loops of `readData` are methods proved against the folds `Assign(IdPuts(...))`, `Assign(NamePuts(...))` and `PathwaysOf`.

**CampusLocations** (`campus_locations.dfy`) is an immutable datatype with the lookups as functions and the listings as methods.

**Paths** are spread over three files.

- `walks.dfy` defines walks through an adjacency table and their costs.
- `path_search.dfy` holds the search loop (`ShortestPath`) and its invariant `Inv`. The loop is proved to return a cheapest walk to the goal, or to fail only when no walk reaches the goal.
- `number_format.dfy` models `String.format("%.3f", cost)` and proves that the text reads back within half a thousandth of the cost.

**CampusWrappers** (`campus_wrapper.dfy`) holds the pathway loop of `createNewGraph` and the class `CampusWrapper`.

- The pathway loop builds exactly `PathwayEdges`, both directions of every pathway, as the flat list. Each node's list is `OutLists`, the node's outgoing edges.
- The class has `CampusWrapper.FindPath`, which returns the string together with the `PathResult` it encodes.

Inputs the model cannot compute are parameters:

- The Euclidean distance between two records is the function parameter `dist`, assumed never negative.
- The iteration order of a `HashMap` key set or `HashSet` is a nondeterministic choice (`:|`). The order actually taken is returned as a ghost value where the result depends on it.

For an absent or unnamed `X`, `findPath(X, X)` returns `",X"`, because the id checks (src/campus/CampusWrapper.java:124-132) run before any self path. `CampusWrapper.FindPath` states this: a rejection is decided before any self path is considered, and only a valid `X` gets the empty path of cost zero.

## Model

| member | source | states |
|---|---|---|
| Edges.NewEdge | src/graph/Edge.java:87-97 | construction fails exactly when parent, child or label is missing; otherwise the edge holds the three arguments |
| Edges.GettersReturnArguments | src/graph/Edge.java:30-62 | getParent, getChild and getLabel give back the constructor's arguments; an edge is an immutable datatype value, so, as with the private fields of src/graph/Edge.java:4-6, nothing can change it after construction |
| Edges.Equals | src/graph/Edge.java:72-81 | `equals` holds exactly for an edge value equal in parent, child and label |
| Edges.EqualsIsStructural | src/graph/Edge.java:72-81 | edges with equal endpoints are equal iff their labels are equal, so parallel edges with different labels are distinct |
| Edges.EqualsReflexiveAndTyped | src/graph/Edge.java:72-81 | an edge equals itself and never equals a node or another non-edge value |
| Nodes.Node.constructor | src/graph/Node.java:29-33 | a new node has the given label and no edges |
| Nodes.Node.FromList | src/graph/Node.java:43-50 | the list constructor keeps each distinct edge once, in order of first occurrence, and the list is duplicate-free |
| Nodes.Node.ContainsEdge | src/graph/Node.java:108-115 | the scan answers true iff some stored edge equals the argument |
| Nodes.Node.AddEdge | src/graph/Node.java:70-77 | returns true iff the edge was absent; then it is appended at the end, otherwise the list is unchanged; afterwards the edge is present and the list is still duplicate-free |
| Nodes.Node.RemoveEdge | src/graph/Node.java:88-90 | returns true iff the edge was present; the first equal entry is dropped, the rest keep their order, and the edge is absent afterwards |
| Nodes.Node.GetEdges | src/graph/Node.java:97-99 | the entries of the node's list in the same order; the result is a value, so, like the `ArrayList` copy the source returns, changing it cannot change the node |
| Nodes.Node.Equals | src/graph/Node.java:124-131 | true only for a node argument, and for a node argument exactly when the labels are equal; the edge lists never matter |
| Nodes.EqualsIsEquivalence | src/graph/Node.java:124-131 | node equality is reflexive, symmetric and transitive, and never holds for a non-node argument |
| Lists.RemoveFirst | src/graph/Graph.java:193-195 | `ArrayList.remove(Object)`: an absent element leaves the list as it is; a present one shortens it by one |
| Lists.RemoveFirstMultiset | src/graph/Graph.java:193-195 | removing the first equal entry takes exactly one copy of it out of the list's multiset |
| Lists.RemoveFirstDistinct | src/graph/Node.java:88-90 | removing from a duplicate-free list leaves it duplicate-free and without the element |
| Lists.DedupFacts | src/graph/Node.java:43-50 | the deduplicated list holds exactly the original's elements, each once |
| Graphs.AllEdgesRemove | src/graph/Graph.java:58-65 | the union of all node lists does not depend on the order in which the key set is walked |
| Graphs.CollectEdges | src/graph/Graph.java:58-65 | the key loop of the node-table constructor collects, as a multiset, exactly the union of all nodes' lists |
| Graphs.AppendAll | src/graph/Graph.java:62-64 | the inner copy loop appends a node's list to the flat list, in order |
| Graphs.TouchListsSnoc | src/graph/Graph.java:83-92 | one more input edge attaches that same edge first to its parent's list and then to its child's list |
| Graphs.AddToNode | src/graph/Graph.java:87 | adding an edge to the node of a label changes that node's list as `addEdge` does and no other list |
| Graphs.Attach | src/graph/Graph.java:84-87 | a label without a node gets a fresh empty node first; then the edge is added to that label's list only |
| Graphs.AttachBoth | src/graph/Graph.java:84-91 | one pass of the edge-list constructor attaches the edge to its parent's node and then to its child's node |
| Graphs.TableFromEdges | src/graph/Graph.java:82-92 | the loop gives every endpoint a node whose list holds the edges touching it, each once, in input order |
| Graphs.Graph.constructor | src/graph/Graph.java:39-43 | the empty graph has no nodes and no edges and satisfies the invariant |
| Graphs.Graph.FromNodes | src/graph/Graph.java:52-65 | copies the table (a missing one gives an empty graph) and makes the flat list the union, with repetitions, of all the nodes' lists |
| Graphs.Graph.FromEdges | src/graph/Graph.java:76-92 | the flat list is the input (a missing one gives an empty list), and every endpoint's list holds the edges touching it |
| Graphs.Graph.FromParts | src/graph/Graph.java:105-117 | takes the table and the flat list as given, a missing one becoming empty, without any check |
| Graphs.Graph.CheckRep | src/graph/Graph.java:223-231 | throws, with the source's message, exactly when two flat-list entries are equal |
| Graphs.Graph.GetNode | src/graph/Graph.java:126-128 | finds a node iff the label is in the table; the node found carries that label |
| Graphs.GetNodeEqualsLabelled | src/graph/Graph.java:126-128 | the node `getNode(l)` finds equals, in both directions, every node labelled `l`, whatever edges either holds |
| Graphs.Graph.GetNodes | src/graph/Graph.java:211-217 | lists every stored node exactly once and nothing else; empty for an empty table |
| Graphs.Graph.AddNode | src/graph/Graph.java:139-146 | returns true iff the label was absent; then the node is stored under its label, otherwise nothing changes; the flat list is untouched, so the invariant still holds if it held before |
| Graphs.Graph.RemoveNode | src/graph/Graph.java:157-162 | returns true iff the label was present; the label is gone afterwards and the flat list is untouched, so the invariant still holds if it held before |
| Graphs.Graph.AddEdge | src/graph/Graph.java:173-182 | false and nothing changed unless both endpoints are in the table; otherwise the edge is appended to the flat list and to the parent's node only, and the result throws iff the edge was already in the flat list or the flat list already held two equal entries |
| Graphs.Graph.RemoveEdge | src/graph/Graph.java:193-195 | returns true iff the edge was in the flat list; its first copy is dropped from the flat list only, every node's list is left as it was, and on a graph that satisfied the invariant the edge is gone afterwards |
| Graphs.Graph.GetEdges | src/graph/Graph.java:202-204 | the entries of the flat list in the same order; the result is a value, so, like the copy the source returns, changing it cannot change the graph |
| Graphs.EmptyGraphBehaviour | src/graph/test/GraphTest.java:38-46 | on the empty graph, for any labels: `getNode` finds nothing, `removeNode`, `addEdge` and `removeEdge` all give false, and `getEdges` and `getNodes` are empty |
| Graphs.OfNodes | src/graph/Graph.java:52-67 | throws, with the source's message, exactly when some edge occurs more than once among the nodes' lists; a returned graph keeps the table, satisfies the invariant, and has the union of the node lists as its flat list; a missing table gives an empty graph |
| Graphs.OfEdges | src/graph/Graph.java:76-94 | throws iff the input list holds two equal edges; otherwise the graph satisfies the invariant, keeps the list, and gives every endpoint a node listing the edges touching it |
| GraphWrappers.StringLeIsOrder | src/graph/GraphWrapper.java:8-12 | the string comparator is a total and transitive order, so sorting by it is well defined |
| GraphWrappers.ChildEntries | src/graph/GraphWrapper.java:46-48 | one `"child(label)"` entry per edge, in the edges' order |
| GraphWrappers.ParallelEntriesDiffer | src/graph/GraphWrapper.java:47 | parallel edges with different labels produce different child entries |
| GraphWrappers.SortedDistinctIsStrict | src/graph/GraphWrapper.java:35 | sorting a list of distinct labels gives a strictly ascending list |
| GraphWrappers.GraphWrapper.constructor | src/graph/GraphWrapper.java:17-19 | the wrapper starts with an empty graph |
| GraphWrappers.GraphWrapper.AddNode | src/graph/GraphWrapper.java:21-23 | a new label gets a fresh empty node; a label already present leaves the table unchanged |
| GraphWrappers.GraphWrapper.AddEdge | src/graph/GraphWrapper.java:25-27 | an edge with an endpoint outside the graph is ignored; otherwise, whether or not it then throws, it is appended to the flat list and added to the parent's list unless already there, and no other node changes; it throws iff the edge was already in the flat list |
| GraphWrappers.GraphWrapper.ListNodes | src/graph/GraphWrapper.java:29-37 | every node label exactly once, in strictly ascending order; nothing for an empty graph |
| GraphWrappers.GraphWrapper.ListChildren | src/graph/GraphWrapper.java:39-52 | nothing iff the label is absent; otherwise the node's child entries as a sorted permutation |
| StringOrder.Compare | src/graph/GraphWrapper.java:10 | `compareTo`: when one string is a prefix of the other, the difference of the lengths |
| StringOrder.CompareAtFirstDifference | src/graph/GraphWrapper.java:10 | `compareTo`: at the first position where the strings differ, the difference of the two characters there |
| StringOrder.CompareZero | src/graph/GraphWrapper.java:10 | `compareTo` gives zero iff the strings are equal |
| StringOrder.CompareAntisymmetric | src/graph/GraphWrapper.java:10 | swapping the arguments of `compareTo` negates the result |
| StringOrder.LeTotal | src/graph/GraphWrapper.java:10 | any two strings are comparable |
| StringOrder.LeTransitive | src/graph/GraphWrapper.java:10 | the string order is transitive |
| StringOrder.SortedFromSet | src/campus/CampusLocations.java:107-115 | a `TreeSet`'s iteration: every element once, in strictly ascending order |
| StringOrder.AscendingUnique | src/campus/CampusLocations.java:107-115 | two strictly ascending lists of the same elements are equal, so a `TreeSet`'s iteration, and the listing built from it, is determined by the set |
| Sorting.Sort | src/graph/GraphWrapper.java:35 | sorting permutes its input |
| Sorting.SortSorted | src/campus/CampusWrapper.java:153 | under a total, transitive order the sorted list is ordered and a permutation of the input |
| Walks.WalkSnoc | src/campus/CampusWrapper.java:160-161 | extending a walk by an edge of its end node gives a walk ending at that edge's child |
| Walks.PrefixCostLe | src/campus/CampusWrapper.java:145-147 | with non-negative weights no prefix of a walk costs more than the walk |
| Walks.CostNonNegative | src/campus/CampusWrapper.java:145-147 | with non-negative weights a walk's total cost is at least zero |
| Walks.EndInTable | src/campus/CampusWrapper.java:152 | in a table whose edges all lead to nodes of the table, a walk from a node ends at a node, so its end can be looked up |
| Walks.LastExit | src/campus/CampusWrapper.java:159-165 | a walk from a finished node to an unfinished one has an edge leaving the finished nodes |
| PathSearch.CompareWeights | src/campus/CampusWrapper.java:21 | `Double.compareTo` is negative iff the first weight is smaller and zero iff equal |
| PathSearch.CompareEdges | src/campus/CampusWrapper.java:19-27 | the edge comparator orders by weight, and equal weights by child label |
| PathSearch.EdgeLeIsOrder | src/campus/CampusWrapper.java:19-27 | the edge comparator is a total and transitive order, so the expansion order is well defined |
| PathSearch.CompareCost | src/campus/CampusWrapper.java:30-43 | the queue comparator orders paths by the sum of their weights |
| PathSearch.PopMin | src/campus/CampusWrapper.java:140 | polling takes a queued path no more expensive than any other |
| PathSearch.Frontier | src/campus/CampusWrapper.java:139-166 | any walk to an unfinished node costs at least as much as some queued path |
| PathSearch.ExtensionsMembers | src/campus/CampusWrapper.java:156-164 | exactly the extensions of the polled path along edges into unfinished nodes are pushed |
| PathSearch.PushExtensions | src/campus/CampusWrapper.java:156-164 | the inner loop appends those extensions to the queue, in the sorted edge order |
| PathSearch.InitialInv | src/campus/CampusWrapper.java:134-138 | the seeded queue, holding only the zero-weight self-loop, satisfies the search invariant |
| PathSearch.DiscardStep | src/campus/CampusWrapper.java:151 | dropping a polled path that ends at a finished node keeps the invariant |
| PathSearch.GoalStep | src/campus/CampusWrapper.java:142-144 | the first polled path that ends at the goal, with its seed removed, is a cheapest walk to the goal; it is empty when start and goal coincide |
| PathSearch.ExpandInv | src/campus/CampusWrapper.java:151-165 | expanding a new node keeps the invariant and finishes one more node of the table, which makes the loop terminate |
| PathSearch.ExhaustedStep | src/campus/CampusWrapper.java:167-168 | an exhausted queue means that no walk from the start reaches the goal |
| PathSearch.ShortestPath | src/campus/CampusWrapper.java:134-168 | the search returns a walk from the start to the goal that no other such walk undercuts, or nothing exactly when none exists; from a node to itself it is the empty path |
| CampusParsing.IndexOf | src/campus/CampusParser.java:42-44 | `indexOf(",", from)`: the first comma at or after `from`, or -1 when there is none |
| CampusParsing.SplitFirstJoins | src/campus/CampusParser.java:48-49 | the text before and after the first comma join back to the line, with no comma in the head |
| CampusParsing.NodeLineJoins | src/campus/CampusParser.java:42-51 | `SplitNodeLine`, the split at the first three commas: name, id, x and y joined by commas give back the line, and only y may hold a comma |
| CampusParsing.NodeLineRoundTrip | src/campus/CampusParser.java:42-51 | joining comma-free name, id and x with any y and splitting again gives the same four fields |
| CampusParsing.EdgeLineJoins | src/campus/CampusParser.java:61-66 | `SplitEdgeLine`, the split at the first comma: id1 and id2 joined by a comma give back the line, and id1 holds no comma |
| CampusParsing.EdgeLineRoundTrip | src/campus/CampusParser.java:61-66 | joining a comma-free id1 with any id2 and splitting again gives the same pair |
| CampusParsing.AssignDomain | src/campus/CampusParser.java:53-55 | after the puts, a key is in the map iff some put used it |
| CampusParsing.AssignLast | src/campus/CampusParser.java:54 | last write wins: a key maps to the value of its last put |
| CampusParsing.TablesSnoc | src/campus/CampusParser.java:53-54 | one more node line sets its id's record and its name's id in the two tables |
| CampusParsing.PathwaysOf | src/campus/CampusParser.java:67 | a pathway is in the set iff some edge line splits into it |
| CampusParsing.RepeatedLineCollapses | src/campus/CampusParser.java:67 | a repeated edge line adds no second pathway |
| CampusParsing.ReadData | src/campus/CampusParser.java:35-70 | the id table, the building table and the pathway set are the folds of the two files, and every id has a fresh empty node of that label |
| CampusParsing.ReadNodeLines | src/campus/CampusParser.java:41-56 | the node-file loop builds the two tables as the folds of its lines and a fresh empty node for every id |
| CampusParsing.PutRow | src/campus/CampusParser.java:53-55 | one line's three puts: the id's record, the name's id, and a fresh node for the id, leaving other nodes alone |
| CampusParsing.ReadEdgeLines | src/campus/CampusParser.java:60-68 | the edge-file loop builds exactly the set of split edge lines |
| CampusLocations.Direction | src/campus/CampusLocations.java:88-97 | `getDirection` on a computed angle: a negative angle is shifted by one turn, and the result is always one of the eight compass names |
| CampusLocations.DirectionSector | src/campus/CampusLocations.java:89-97 | an angle in the sector of width 45 degrees centred on 45k degrees gives the k-th compass name, and the top sector wraps to North |
| CampusLocations.ConcatAll | src/campus/CampusLocations.java:114-115 | the output loop concatenates the lines in order |
| CampusLocations.Locations.GetID | src/campus/CampusLocations.java:41-44 | the id stored for a building name, or nothing for an unknown name |
| CampusLocations.Locations.GetName | src/campus/CampusLocations.java:52-55 | field 0 of the id's record, or nothing for an unknown id |
| CampusLocations.Locations.GetX | src/campus/CampusLocations.java:63-66 | field 1 of the id's record, or nothing for an unknown id |
| CampusLocations.Locations.GetY | src/campus/CampusLocations.java:74-77 | field 2 of the id's record, or nothing for an unknown id |
| CampusLocations.Locations.CollectBuildingLines | src/campus/CampusLocations.java:106-113 | the key loop collects the `"name,id\n"` line of exactly the ids whose name is not empty |
| CampusLocations.Locations.ListAllBuildings | src/campus/CampusLocations.java:105-117 | the concatenation of the `"name,id\n"` lines of exactly the named ids, each once, in strictly ascending order |
| CampusLocations.Locations.GetBuildings | src/campus/CampusLocations.java:125-130 | the building names ascending, one per key, with the first replaced by the menu's prompt; an empty table fails on index 0 |
| CampusLocations.NewLocations | src/campus/CampusLocations.java:29-33 | construction fails, with the source's message, exactly when a table is missing, and otherwise keeps both tables |
| NumberFormat.DigitsValue | src/campus/CampusWrapper.java:149 | the decimal digits of a number read back as that number |
| NumberFormat.Pad3Facts | src/campus/CampusWrapper.java:149 | zero padding to three places keeps the value |
| NumberFormat.Rounded | src/campus/CampusWrapper.java:149 | half-up rounding to thousandths lands within half a thousandth of the value |
| NumberFormat.Fixed3RoundTrip | src/campus/CampusWrapper.java:149 | a count of thousandths written with three decimals reads back as that count |
| NumberFormat.Format3Near | src/campus/CampusWrapper.java:149 | `"%.3f"` of a non-negative value reads back within half a thousandth of it |
| NumberFormat.Format3Zero | src/campus/CampusWrapper.java:149 | a zero cost is written `"0.000"` |
| CampusWrappers.OutListsSnoc | src/campus/CampusWrapper.java:105-106 | one more edge of the flat list is added to its parent's list and no other |
| CampusWrappers.OutListsBounded | src/campus/CampusWrapper.java:105-106 | lists built from edges between known ids, none of negative weight, lead only to known ids and carry no negative weight |
| CampusWrappers.PathwayEdgesFacts | src/campus/CampusWrapper.java:96-107 | every pathway yields its edge each way with the pathway's weight, and every edge comes from a pathway |
| CampusWrappers.AddPathway | src/campus/CampusWrapper.java:99-106 | one pass computes the pathway's distance, builds both directed edges of that weight, and adds each to its parent's node |
| CampusWrappers.AddPathways | src/campus/CampusWrapper.java:96-107 | the loop visits every pathway once, makes the flat list both edges of each, and leaves each node's list holding its outgoing edges |
| CampusWrappers.PathwayListsBounded | src/campus/CampusWrapper.java:96-108 | the built lists lead only to node ids and carry no negative weight, which is what the search needs |
| CampusWrappers.BuildGraph | src/campus/CampusWrapper.java:96-108 | the graph holds the parsed nodes, both directed edges of every pathway as its flat list, and each node's outgoing edges as its list |
| CampusWrappers.LoadCampus | src/campus/CampusWrapper.java:90-108 | the locations are the parsed tables, and the graph is built from the parsed nodes and pathways |
| CampusWrappers.EncodeEmpty | src/campus/CampusWrapper.java:121-168 | `Encode`, the string `findPath` returns (each rejected id after a comma, or the stops of a found path followed by its cost, or nothing), is empty iff no path exists |
| CampusWrappers.EncodeFoundCost | src/campus/CampusWrapper.java:143-149 | a found path is written as its stops followed by its cost, which reads back within half a thousandth |
| CampusWrappers.EncodeSelf | src/campus/CampusWrapper.java:136-149 | the empty path from a building to itself is written `"0.000"` |
| CampusWrappers.Describe | src/campus/CampusWrapper.java:143-149 | the formatting loop writes each child followed by a comma and then the summed cost, which is the encoding of the found path |
| CampusWrappers.CampusWrapper.constructor | src/campus/CampusWrapper.java:71-73 | the wrapper holds the parsed locations and a graph built from the files, over which the search is sound |
| CampusWrappers.CampusWrapper.CreateNewGraph | src/campus/CampusWrapper.java:88-111 | replaces the locations by the parsed tables and the graph by a fresh one with both directed edges of every pathway, each node listing its outgoing edges |
| CampusWrappers.CampusWrapper.FindPath | src/campus/CampusWrapper.java:121-169 | an id is `Invalid` when it has no node in the graph or its name is empty (lines 124 and 127); rejects, in order, an invalid start and an invalid, different destination; otherwise returns a cheapest walk from start to destination with its cost, or the empty string exactly when the destination is unreachable |

## Left out

- The graphical interface (`gui.RPICampusPathsMain`, `gui.MapPanel`) and the console program `campus.CampusPaths` are not part of this model. Both are user interface and I/O.
- File reading and the swallowed `IOException` in `createNewGraph` are not modelled. Each file is given as its sequence of lines.
- `CampusWrapper()`, the constructor that leaves the fields uninitialised, and the getter `getLocations` are not modelled.
- Floating point is not modelled.
  - `Math.sqrt`, `Math.pow` and `Double.parseDouble` in the pathway weight become the parameter `dist`.
  - `atan2` and `toDegrees` in `getDirection` are not modelled; only the bucketing of a given angle is.
  - Path costs are exact reals, so the sums and the `"%.3f"` rounding work on exact values. The case of NaN and of signed zeros in `Double.compareTo` does not arise.
- CampusWrappers.CampusWrapper.CreateNewGraph: requires every pathway id to name a record of the node file. The source throws a `NullPointerException` for an unknown id, and that path is not modelled.
- CampusParsing.ReadData: requires at least three commas in every node line and at least one in every edge line. The format checks are commented out in the source, which states that the files are correctly formed.
- CampusParsing.ReadData: the caller's tables and set start empty, as they do at its one call site.
- Graphs.Graph.FromEdges: endpoints get fresh nodes with no edges of their own. The source stores the edge's own endpoint node objects, and edges those objects already carry are not modelled. This is because edges hold labels, not node references.
- Nodes: a missing node label, which `checkRep` rejects, is excluded by the type.
- Nodes: sharing one node object between several graphs is not modelled.
- Nodes.Node.Equals compares the label strings by value. The source compares them with `==`, by reference. Java's `Object` argument is the datatype `Nodes.Argument`: a node, or anything else (including `null`), which never equals a node.
- Graphs.Graph.FromNodes: the flat list is stated as a multiset. Its order follows `HashMap` iteration, which is not promised.
- Graphs.Graph.GetNodes: the list order is not stated, for the same reason.
- PathSearch.PopMin: which of several equally cheap paths is polled is not stated, because `PriorityQueue` does not promise it. So neither is which of several cheapest paths `findPath` returns.
- StringOrder.Compare: compares Unicode scalar values, where Java's `String.compareTo` compares UTF-16 code units. The two orders agree only on text within the Basic Multilingual Plane. So the orders of `listNodes`, `listChildren`, `listAllBuildings`, `getBuildings` and the tie-break between equally cheap edges in `findPath` are modelled only for such text.
- NumberFormat.Format3: `String.format("%.3f", …)` uses the JVM's default locale. The model always writes `.` as the decimal separator.
- Edges: the generality of the node label type is not modelled. Labels are strings, which is how all the campus and wrapper code instantiates the graph.
