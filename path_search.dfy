/** The search of `CampusWrapper.findPath`: Dijkstra's algorithm over whole candidate paths.
    The queue holds paths that start with a zero-weight self-loop at the start node; a path is
    popped at least cost, its end node is expanded once, and the first popped path that ends
    at the goal is the answer. */
module PathSearch {
  import opened Wrappers
  import opened Edges
  import opened Nodes
  import opened Graphs
  import opened StringOrder
  import opened Sorting
  import opened Walks

  /** `Double.compareTo` on two weights (neither NaN nor a signed zero). */
  function CompareWeights(a: real, b: real): (r: int)
    ensures r < 0 <==> a < b
    ensures r == 0 <==> a == b
  {
    if a < b then -1 else if a > b then 1 else 0
  }

  /** `EdgeWeightComparator`: by weight first, then by child label. */
  function CompareEdges(e1: Edge<real>, e2: Edge<real>): (r: int)
    ensures r < 0 <==> e1.edgeLabel < e2.edgeLabel || (e1.edgeLabel == e2.edgeLabel && Lt(e1.child, e2.child))
    ensures r == 0 <==> e1.edgeLabel == e2.edgeLabel && e1.child == e2.child
  {
    var x := CompareWeights(e1.edgeLabel, e2.edgeLabel);
    CompareZero(e1.child, e2.child);
    if x == 0 then Compare(e1.child, e2.child) else x
  }

  /** "Sorts no later than" under `EdgeWeightComparator`. */
  function EdgeLe(e1: Edge<real>, e2: Edge<real>): bool
  {
    CompareEdges(e1, e2) <= 0
  }

  /** `EdgeWeightComparator` is a total preorder, so the expansion order is well defined. */
  lemma EdgeLeIsOrder()
    ensures Total(EdgeLe) && Transitive(EdgeLe)
  {
    forall a, b ensures EdgeLe(a, b) || EdgeLe(b, a) {
      LeTotal(a.child, b.child);
      CompareAntisymmetric(a.child, b.child);
    }
    forall a, b, c | EdgeLe(a, b) && EdgeLe(b, c) ensures EdgeLe(a, c) {
      if a.edgeLabel == b.edgeLabel == c.edgeLabel {
        LeTransitive(a.child, b.child, c.child);
      }
    }
  }

  /** `QueueCostComparator`: by total weight. */
  function CompareCost(a1: seq<Edge<real>>, a2: seq<Edge<real>>): (r: int)
    ensures r < 0 <==> Cost(a1) < Cost(a2)
    ensures r == 0 <==> Cost(a1) == Cost(a2)
  {
    var a1Sum := Cost(a1);
    var a2Sum := Cost(a2);
    if a1Sum < a2Sum then -1 else if a1Sum > a2Sum then 1 else 0
  }

  /** `PriorityQueue.poll`: the position of a cheapest path. Which of several equally cheap
      paths is taken is not promised. */
  method PopMin(active: seq<seq<Edge<real>>>) returns (j: nat)
    requires |active| > 0
    ensures j < |active|
    ensures forall k :: 0 <= k < |active| ==> Cost(active[j]) <= Cost(active[k])
  {
    j := 0;
    var k := 1;
    while k < |active|
      invariant j < k <= |active|
      invariant forall m :: 0 <= m < k ==> Cost(active[j]) <= Cost(active[m])
    {
      if CompareCost(active[k], active[j]) < 0 {
        j := k;
      }
      k := k + 1;
    }
  }

  /** The zero-weight self-loop every candidate path starts with. */
  function Seed(s: string): Edge<real>
  {
    Edge(s, s, 0.0)
  }

  /** A queued path: the seed followed by a walk from the start node. */
  ghost predicate Entry(adj: Adjacency, s: string, q: seq<Edge<real>>)
  {
    |q| >= 1 && q[0] == Seed(s) && IsWalk(adj, s, q[1..])
  }

  /** A queued path ending at `x` that costs at most `c`. */
  ghost predicate Reaches(q: seq<Edge<real>>, x: string, c: real)
  {
    |q| > 0 && q[|q| - 1].child == x && Cost(q) <= c
  }

  /** `D` maps each finished node to a cost no walk to it undercuts. */
  ghost predicate Settled(adj: Adjacency, s: string, D: map<string, real>)
  {
    forall v, w :: v in D && IsWalk(adj, s, w) && End(s, w) == v ==> D[v] <= Cost(w)
  }

  /** Every edge out of a finished node into an unfinished one has been pushed. */
  ghost predicate Pushed(adj: Adjacency, D: map<string, real>, active: seq<seq<Edge<real>>>, fin: set<string>)
  {
    forall v, e :: v in D && v in adj && e in adj[v] && e.child !in fin ==>
      exists q :: q in active && Reaches(q, e.child, D[v] + e.edgeLabel)
  }

  /** The seed path stays queued until the start node is finished. */
  ghost predicate Seeded(s: string, active: seq<seq<Edge<real>>>, fin: set<string>)
  {
    s !in fin ==> [Seed(s)] in active
  }

  /** A queued path ends where its walk ends and costs what its walk costs. */
  lemma EntryFacts(adj: Adjacency, s: string, q: seq<Edge<real>>)
    requires Entry(adj, s, q)
    ensures q[|q| - 1].child == End(s, q[1..]) && Cost(q) == Cost(q[1..])
  {
    assert q == [Seed(s)] + q[1..];
    CostCons(Seed(s), q[1..]);
  }

  /** The edge by which a walk leaves a finished node bounds the walk's cost from below. */
  lemma CrossingBound(adj: Adjacency, s: string, D: map<string, real>, w: seq<Edge<real>>, j: nat)
    requires NonNegative(adj) && Settled(adj, s, D)
    requires IsWalk(adj, s, w) && 1 <= j <= |w| && At(s, w, j - 1) in D
    ensures D[At(s, w, j - 1)] + w[j - 1].edgeLabel <= Cost(w)
  {
    var p := w[..j - 1];
    WalkPrefix(adj, s, w, j - 1);
    assert D[At(s, w, j - 1)] <= Cost(p);
    assert w[..j] == p + [w[j - 1]];
    CostSnoc(p, w[j - 1]);
    assert D[At(s, w, j - 1)] + w[j - 1].edgeLabel <= Cost(w[..j]);
    PrefixCostLe(adj, s, w, j);
    assert Cost(w[..j]) <= Cost(w);
  }

  /** The search's central fact: any walk to an unfinished node costs at least as much as
      some queued path. */
  lemma Frontier(adj: Adjacency, s: string, D: map<string, real>, active: seq<seq<Edge<real>>>,
                 fin: set<string>, w: seq<Edge<real>>)
    requires NonNegative(adj) && D.Keys == fin
    requires Settled(adj, s, D) && Pushed(adj, D, active, fin) && Seeded(s, active, fin)
    requires IsWalk(adj, s, w) && End(s, w) !in fin
    ensures exists q :: q in active && Cost(q) <= Cost(w)
  {
    if s !in fin {
      SeedBound(adj, s, w);
      assert [Seed(s)] in active;
    } else {
      ExitWitness(adj, s, D, active, fin, w);
    }
  }

  /** When the start node is finished, the walk leaves the finished nodes somewhere, and the
      path pushed along that edge is the witness. */
  lemma ExitWitness(adj: Adjacency, s: string, D: map<string, real>, active: seq<seq<Edge<real>>>,
                    fin: set<string>, w: seq<Edge<real>>)
    requires NonNegative(adj) && D.Keys == fin && s in fin
    requires Settled(adj, s, D) && Pushed(adj, D, active, fin)
    requires IsWalk(adj, s, w) && End(s, w) !in fin
    ensures exists q :: q in active && Cost(q) <= Cost(w)
  {
    var j := LastExit(s, w, fin);
    CrossingWitness(adj, s, D, active, fin, w, j);
  }

  /** The seed path costs nothing, so no walk undercuts it. */
  lemma SeedBound(adj: Adjacency, s: string, w: seq<Edge<real>>)
    requires NonNegative(adj) && IsWalk(adj, s, w)
    ensures Cost([Seed(s)]) <= Cost(w)
  {
    CostNonNegative(adj, s, w);
    CostCons(Seed(s), []);
    assert [Seed(s)] + [] == [Seed(s)];
  }

  /** The path pushed along the edge by which a walk leaves the finished nodes. */
  lemma CrossingWitness(adj: Adjacency, s: string, D: map<string, real>, active: seq<seq<Edge<real>>>,
                        fin: set<string>, w: seq<Edge<real>>, j: nat)
    requires NonNegative(adj) && D.Keys == fin
    requires Settled(adj, s, D) && Pushed(adj, D, active, fin)
    requires IsWalk(adj, s, w) && 1 <= j <= |w| && At(s, w, j - 1) in fin && At(s, w, j) !in fin
    ensures exists q :: q in active && Cost(q) <= Cost(w)
  {
    var u := At(s, w, j - 1);
    var e := w[j - 1];
    assert u in adj && e in adj[u];
    CrossingBound(adj, s, D, w, j);
    assert e.child !in fin;
    var q :| q in active && Reaches(q, e.child, D[u] + e.edgeLabel);
  }

  /** The queue after `poll` has taken the path at position `j`. */
  function Remove<T>(a: seq<T>, j: nat): (r: seq<T>)
    requires j < |a|
    ensures |r| == |a| - 1
    ensures forall x :: x in r ==> x in a
  {
    a[..j] + a[j + 1..]
  }

  /** Only the polled copy leaves the queue. */
  lemma RemoveKeeps<T>(a: seq<T>, j: nat, x: T)
    requires j < |a| && x in a && x != a[j]
    ensures x in Remove(a, j)
  {
    var k :| 0 <= k < |a| && a[k] == x;
    if k < j {
      assert Remove(a, j)[k] == x;
    } else {
      assert Remove(a, j)[k - 1] == x;
    }
  }

  /** Dropping a path that ends at a finished node loses no needed witness. */
  lemma DiscardKeeps(adj: Adjacency, s: string, D: map<string, real>, active: seq<seq<Edge<real>>>,
                     fin: set<string>, j: nat)
    requires Pushed(adj, D, active, fin) && Seeded(s, active, fin)
    requires j < |active| && |active[j]| > 0 && active[j][|active[j]| - 1].child in fin
    ensures Pushed(adj, D, Remove(active, j), fin) && Seeded(s, Remove(active, j), fin)
  {
    forall v, e | v in D && v in adj && e in adj[v] && e.child !in fin
      ensures exists q :: q in Remove(active, j) && Reaches(q, e.child, D[v] + e.edgeLabel)
    {
      var q :| q in active && Reaches(q, e.child, D[v] + e.edgeLabel);
      RemoveKeeps(active, j, q);
    }
    if s !in fin {
      RemoveKeeps(active, j, [Seed(s)]);
    }
  }

  /** The cheapest queued path to an unfinished node is a cheapest walk to it. */
  lemma SettleNew(adj: Adjacency, s: string, D: map<string, real>, active: seq<seq<Edge<real>>>,
                  fin: set<string>, j: nat, v: string)
    requires NonNegative(adj) && D.Keys == fin
    requires Settled(adj, s, D) && Pushed(adj, D, active, fin) && Seeded(s, active, fin)
    requires j < |active| && forall k :: 0 <= k < |active| ==> Cost(active[j]) <= Cost(active[k])
    requires v !in fin
    ensures Settled(adj, s, D[v := Cost(active[j])])
    ensures forall w :: IsWalk(adj, s, w) && End(s, w) == v ==> Cost(active[j]) <= Cost(w)
  {
    forall w | IsWalk(adj, s, w) && End(s, w) == v ensures Cost(active[j]) <= Cost(w) {
      Frontier(adj, s, D, active, fin, w);
      var q :| q in active && Cost(q) <= Cost(w);
      var k :| 0 <= k < |active| && active[k] == q;
    }
  }

  /** After expanding the end node `v` of the polled path, every edge out of a finished node
      into an unfinished one is still covered. */
  lemma ExpandKeeps(adj: Adjacency, s: string, D: map<string, real>, active: seq<seq<Edge<real>>>,
                    fin: set<string>, j: nat, v: string, active': seq<seq<Edge<real>>>)
    requires D.Keys == fin && Pushed(adj, D, active, fin) && Seeded(s, active, fin)
    requires j < |active| && |active[j]| > 0 && active[j][|active[j]| - 1].child == v && v !in fin
    requires forall x :: x in Remove(active, j) ==> x in active'
    requires v in adj ==> forall e :: e in adj[v] && e.child !in fin ==> active[j] + [e] in active'
    ensures Pushed(adj, D[v := Cost(active[j])], active', fin + {v})
    ensures Seeded(s, active', fin + {v})
  {
    var D' := D[v := Cost(active[j])];
    forall u, e | u in D' && u in adj && e in adj[u] && e.child !in fin + {v}
      ensures exists q :: q in active' && Reaches(q, e.child, D'[u] + e.edgeLabel)
    {
      if u == v {
        var q := active[j] + [e];
        CostSnoc(active[j], e);
        assert q in active' && Reaches(q, e.child, D'[u] + e.edgeLabel);
      } else {
        var q :| q in active && Reaches(q, e.child, D[u] + e.edgeLabel);
        RemoveKeeps(active, j, q);
      }
    }
    if s !in fin + {v} {
      RemoveKeeps(active, j, [Seed(s)]);
    }
  }

  /** The paths pushed when `p` is expanded along `es`: one per edge whose child is not
      finished, in the order of `es`. */
  function Extensions(p: seq<Edge<real>>, es: seq<Edge<real>>, finished: seq<string>): seq<seq<Edge<real>>>
  {
    if es == [] then []
    else
      var e := es[|es| - 1];
      Extensions(p, es[..|es| - 1], finished) + (if e.child in finished then [] else [p + [e]])
  }

  /** Exactly the extensions along edges into unfinished nodes are pushed. */
  lemma {:induction false} ExtensionsMembers(p: seq<Edge<real>>, es: seq<Edge<real>>, finished: seq<string>)
    ensures forall e :: e in es && e.child !in finished ==> p + [e] in Extensions(p, es, finished)
    ensures forall x :: x in Extensions(p, es, finished) ==> exists e :: e in es && e.child !in finished && x == p + [e]
  {
    if es != [] {
      var init := es[..|es| - 1];
      ExtensionsMembers(p, init, finished);
      assert es == init + [es[|es| - 1]];
    }
  }

  /** An extension of a queued path along an edge of its end node is a queued path. */
  lemma ExtensionEntry(adj: Adjacency, s: string, p: seq<Edge<real>>, e: Edge<real>)
    requires Entry(adj, s, p) && End(s, p[1..]) in adj && e in adj[End(s, p[1..])]
    ensures Entry(adj, s, p + [e]) && (p + [e])[|p|].child == e.child
  {
    WalkSnoc(adj, s, p[1..], e);
    assert (p + [e])[1..] == p[1..] + [e];
  }

  /** The inner loop of `findPath`: pushes the extension of `minPath` along each edge, in
      order, whose child is not finished. */
  method PushExtensions(active: seq<seq<Edge<real>>>, minPath: seq<Edge<real>>, es: seq<Edge<real>>,
                        finished: seq<string>) returns (r: seq<seq<Edge<real>>>)
    ensures r == active + Extensions(minPath, es, finished)
  {
    r := active;
    var i := 0;
    while i < |es|
      invariant 0 <= i <= |es| && r == active + Extensions(minPath, es[..i], finished)
    {
      var nextEdge := es[i];
      assert es[..i + 1][..i] == es[..i];
      if nextEdge.child !in finished {
        var newPath := minPath + [nextEdge];
        r := r + [newPath];
      }
      i := i + 1;
    }
    assert es[..i] == es;
  }

  /** One expansion keeps every loop invariant: the end node of the polled path is settled at
      that path's cost, and its outgoing edges into unfinished nodes are pushed. */
  lemma ExpandStep(adj: Adjacency, s: string, D: map<string, real>, before: seq<seq<Edge<real>>>,
                   fin: set<string>, j: nat, finished: seq<string>, sortedEdges: seq<Edge<real>>,
                   active: seq<seq<Edge<real>>>)
    requires NonNegative(adj) && D.Keys == fin && (forall x :: x in finished <==> x in fin)
    requires Settled(adj, s, D) && Pushed(adj, D, before, fin) && Seeded(s, before, fin)
    requires forall q :: q in before ==> Entry(adj, s, q)
    requires j < |before| && forall k :: 0 <= k < |before| ==> Cost(before[j]) <= Cost(before[k])
    requires |before[j]| >= 1 && End(s, before[j][1..]) in adj && End(s, before[j][1..]) !in fin
    requires multiset(sortedEdges) == multiset(adj[End(s, before[j][1..])])
    requires active == Remove(before, j) + Extensions(before[j], sortedEdges, finished)
    ensures forall q :: q in active ==> Entry(adj, s, q)
    ensures Settled(adj, s, D[End(s, before[j][1..]) := Cost(before[j])])
    ensures Pushed(adj, D[End(s, before[j][1..]) := Cost(before[j])], active, fin + {End(s, before[j][1..])})
    ensures Seeded(s, active, fin + {End(s, before[j][1..])})
  {
    var minPath := before[j];
    var v := End(s, minPath[1..]);
    EntryFacts(adj, s, minPath);
    ExtensionsMembers(minPath, sortedEdges, finished);
    forall q | q in active ensures Entry(adj, s, q) {
      if q !in Remove(before, j) {
        var e :| e in sortedEdges && e.child !in finished && q == minPath + [e];
        assert e in multiset(adj[v]);
        ExtensionEntry(adj, s, minPath, e);
      }
    }
    forall e | e in adj[v] && e.child !in fin ensures minPath + [e] in active {
      assert e in multiset(sortedEdges);
    }
    SettleNew(adj, s, D, before, fin, j, v);
    ExpandKeeps(adj, s, D, before, fin, j, v, active);
  }

  /** While only the seed is queued, the polled path ends at the start node. */
  lemma SoleSeed(active: seq<seq<Edge<real>>>, j: nat, s: string)
    requires active == [[Seed(s)]] && j < |active|
    ensures active[j] == [Seed(s)] && active[j][|active[j]| - 1].child == s
  {
  }

  /** The loop invariant of the search. */
  ghost predicate Inv(adj: Adjacency, s: string, goal: string, active: seq<seq<Edge<real>>>,
                      finished: seq<string>, fin: set<string>, D: map<string, real>)
  {
    && (forall q :: q in active ==> Entry(adj, s, q))
    && (forall x :: x in finished <==> x in fin)
    && D.Keys == fin && fin <= adj.Keys && goal !in fin
    && Settled(adj, s, D) && Pushed(adj, D, active, fin) && Seeded(s, active, fin)
    && (s == goal ==> active == [[Seed(s)]])
  }

  /** The invariant holds with only the seed queued and nothing finished. */
  lemma InitialInv(adj: Adjacency, s: string, goal: string)
    requires s in adj
    ensures Inv(adj, s, goal, [[Seed(s)]], [], {}, map[])
  {
    assert [Seed(s)][1..] == [];
  }

  /** Polling a path whose end is finished and not the goal keeps the invariant. */
  lemma DiscardStep(adj: Adjacency, s: string, goal: string, before: seq<seq<Edge<real>>>,
                    finished: seq<string>, fin: set<string>, D: map<string, real>, j: nat)
    requires Inv(adj, s, goal, before, finished, fin, D) && j < |before|
    requires |before[j]| > 0 && before[j][|before[j]| - 1].child in fin && before[j][|before[j]| - 1].child != goal
    ensures Inv(adj, s, goal, Remove(before, j), finished, fin, D)
  {
    DiscardKeeps(adj, s, D, before, fin, j);
    if s == goal {
      SoleSeed(before, j, s);
    }
  }

  /** Polling a cheapest path that ends at the goal yields a cheapest walk to the goal. */
  lemma GoalStep(adj: Adjacency, s: string, goal: string, before: seq<seq<Edge<real>>>,
                 finished: seq<string>, fin: set<string>, D: map<string, real>, j: nat)
    requires NonNegative(adj) && Inv(adj, s, goal, before, finished, fin, D)
    requires j < |before| && forall k :: 0 <= k < |before| ==> Cost(before[j]) <= Cost(before[k])
    requires |before[j]| > 0 && before[j][|before[j]| - 1].child == goal
    ensures IsWalk(adj, s, before[j][1..]) && End(s, before[j][1..]) == goal
    ensures forall w :: IsWalk(adj, s, w) && End(s, w) == goal ==> Cost(before[j][1..]) <= Cost(w)
    ensures s == goal ==> before[j][1..] == []
  {
    EntryFacts(adj, s, before[j]);
    SettleNew(adj, s, D, before, fin, j, goal);
    if s == goal {
      SoleSeed(before, j, s);
    }
  }

  /** Expanding the end node of a cheapest polled path keeps the invariant and finishes one
      more node of the table. */
  lemma ExpandInv(adj: Adjacency, s: string, goal: string, before: seq<seq<Edge<real>>>,
                  finished: seq<string>, fin: set<string>, D: map<string, real>, j: nat,
                  sortedEdges: seq<Edge<real>>, active: seq<seq<Edge<real>>>)
    requires NonNegative(adj) && Closed(adj) && s in adj && Inv(adj, s, goal, before, finished, fin, D)
    requires j < |before| && forall k :: 0 <= k < |before| ==> Cost(before[j]) <= Cost(before[k])
    requires |before[j]| > 0
    requires before[j][|before[j]| - 1].child !in fin && before[j][|before[j]| - 1].child != goal
    requires before[j][|before[j]| - 1].child in adj
    requires multiset(sortedEdges) == multiset(adj[before[j][|before[j]| - 1].child])
    requires active == Remove(before, j) + Extensions(before[j], sortedEdges, finished)
    ensures var v := before[j][|before[j]| - 1].child;
            && Inv(adj, s, goal, active, finished + [v], fin + {v}, D[v := Cost(before[j])])
            && adj.Keys - (fin + {v}) < adj.Keys - fin
  {
    var v := before[j][|before[j]| - 1].child;
    EntryFacts(adj, s, before[j]);
    ExpandStep(adj, s, D, before, fin, j, finished, sortedEdges, active);
    if s == goal {
      SoleSeed(before, j, s);
    }
  }

  /** Every queued path is non-empty and ends at a node of a closed table. */
  lemma QueuedEndInTable(adj: Adjacency, s: string, goal: string, active: seq<seq<Edge<real>>>,
                         finished: seq<string>, fin: set<string>, D: map<string, real>, j: nat)
    requires Closed(adj) && s in adj && Inv(adj, s, goal, active, finished, fin, D) && j < |active|
    ensures |active[j]| > 0 && active[j][|active[j]| - 1].child in adj
  {
    assert Entry(adj, s, active[j]);
    EntryFacts(adj, s, active[j]);
    EndInTable(adj, s, active[j][1..]);
  }

  /** An empty queue means the goal is unreachable. */
  lemma ExhaustedStep(adj: Adjacency, s: string, goal: string, finished: seq<string>,
                      fin: set<string>, D: map<string, real>)
    requires NonNegative(adj) && Inv(adj, s, goal, [], finished, fin, D)
    ensures forall w :: IsWalk(adj, s, w) ==> End(s, w) != goal
  {
    forall w | IsWalk(adj, s, w) ensures End(s, w) != goal {
      if End(s, w) == goal {
        Frontier(adj, s, D, [], fin, w);
      }
    }
  }

  /** The search loop of `findPath`, after both endpoints have been validated: the cheapest
      walk from `s` to `goal`, or nothing when no walk reaches `goal`. */
  method ShortestPath(g: Graph<real>, s: string, goal: string) returns (r: Option<seq<Edge<real>>>)
    requires g.TableOk() && s in g.nodes && Closed(g.Adj()) && NonNegative(g.Adj())
    ensures r.Some? ==> IsWalk(g.Adj(), s, r.value) && End(s, r.value) == goal
    ensures r.Some? ==> forall w :: IsWalk(g.Adj(), s, w) && End(s, w) == goal ==> Cost(r.value) <= Cost(w)
    ensures r.None? ==> forall w :: IsWalk(g.Adj(), s, w) ==> End(s, w) != goal
    ensures s == goal ==> r == Some([])
  {
    ghost var adj := g.Adj();
    var active: seq<seq<Edge<real>>> := [[Seed(s)]];
    var finished: seq<string> := [];
    ghost var fin: set<string> := {};
    ghost var D: map<string, real> := map[];
    InitialInv(adj, s, goal);
    while |active| > 0
      invariant Inv(adj, s, goal, active, finished, fin, D)
      decreases adj.Keys - fin, |active|
    {
      var j := PopMin(active);
      var minPath := active[j];
      ghost var before := active;
      QueuedEndInTable(adj, s, goal, active, finished, fin, D, j);
      active := Remove(active, j);
      var minDest := minPath[|minPath| - 1].child;
      if minDest == goal {
        GoalStep(adj, s, goal, before, finished, fin, D, j);
        return Some(minPath[1..]);
      }
      if minDest in finished {
        DiscardStep(adj, s, goal, before, finished, fin, D, j);
      } else {
        var node := g.GetNode(minDest);
        var nodeEdges := node.value.GetEdges();
        var sortedEdges := Sort(nodeEdges, EdgeLe);
        active := PushExtensions(active, minPath, sortedEdges, finished);
        ExpandInv(adj, s, goal, before, finished, fin, D, j, sortedEdges, active);
        D := D[minDest := Cost(minPath)];
        fin := fin + {minDest};
        finished := finished + [minDest];
      }
    }
    ExhaustedStep(adj, s, goal, finished, fin, D);
    return None;
  }
}
