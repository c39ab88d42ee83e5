/** `campus.CampusParser`: splits the lines of a node file (`name,id,x,y`) and an edge file
    (`id1,id2`) and folds them into the id table, the building table, the pathway set and a
    table of fresh nodes. Each file is given as its sequence of lines. */
module CampusParsing {
  import opened Nodes

  /** The stored data of one id: `[name, x, y]`. */
  datatype Record = Record(name: string, x: string, y: string)

  /** One node line, split. */
  datatype NodeRow = NodeRow(name: string, id: string, x: string, y: string)

  /** One edge line, split: the list `[id1, id2]`. */
  datatype Pathway = Pathway(id1: string, id2: string)

  /** Number of occurrences of `c` in `s`. */
  function CountOf(s: string, c: char): nat
  {
    if s == [] then 0 else (if s[0] == c then 1 else 0) + CountOf(s[1..], c)
  }

  /** `String.indexOf(c, from)`: the first position at or after `from` holding `c`, or -1. */
  function IndexOf(s: string, c: char, from: nat): (i: int)
    ensures -1 <= i < |s|
    ensures i >= 0 ==> from <= i && s[i] == c && c !in s[from..i]
    ensures i == -1 ==> from >= |s| || c !in s[from..]
    decreases |s| - from
  {
    if from >= |s| then -1
    else if s[from] == c then from
    else IndexOf(s, c, from + 1)
  }

  /** Searching from `from` finds `c` exactly when the rest holds one, and skips one occurrence. */
  lemma {:induction false} IndexOfCount(s: string, c: char, from: nat)
    requires from <= |s|
    ensures IndexOf(s, c, from) == -1 <==> CountOf(s[from..], c) == 0
    ensures IndexOf(s, c, from) >= 0 ==> CountOf(s[IndexOf(s, c, from) + 1..], c) == CountOf(s[from..], c) - 1
    decreases |s| - from
  {
    if from < |s| {
      assert s[from..][1..] == s[from + 1..];
      IndexOfCount(s, c, from + 1);
    }
  }

  /** The text before the first comma and the text after it. */
  function SplitFirst(s: string): (string, string)
    requires ',' in s
  {
    var i := IndexOf(s, ',', 0);
    assert s[0..] == s;
    (s[..i], s[i + 1..])
  }

  /** The head holds no comma, and joining the two halves with a comma gives back `s`. */
  lemma SplitFirstJoins(s: string)
    requires ',' in s
    ensures var r := SplitFirst(s);
            s == r.0 + "," + r.1 && ',' !in r.0 && CountOf(r.1, ',') == CountOf(s, ',') - 1
  {
    var i := IndexOf(s, ',', 0);
    assert s[0..] == s;
    IndexOfCount(s, ',', 0);
    assert s == s[..i] + "," + s[i + 1..];
  }

  lemma CountPositive(s: string, c: char)
    requires CountOf(s, c) > 0
    ensures c in s
  {
    if s[0] != c {
      CountPositive(s[1..], c);
    }
  }

  /** A node line holds at least three commas. */
  predicate NodeLine(line: string)
  {
    CountOf(line, ',') >= 3
  }

  lemma NodeLineRest(line: string)
    requires NodeLine(line)
    ensures ',' in line && ',' in SplitFirst(line).1 && ',' in SplitFirst(SplitFirst(line).1).1
  {
    CountPositive(line, ',');
    SplitFirstJoins(line);
    CountPositive(SplitFirst(line).1, ',');
    SplitFirstJoins(SplitFirst(line).1);
    CountPositive(SplitFirst(SplitFirst(line).1).1, ',');
  }

  /** The first three commas split a node line into its four fields: `line.indexOf(",", i + 1)`
      is the first comma of the text after position `i`. */
  function SplitNodeLine(line: string): NodeRow
    requires NodeLine(line)
  {
    NodeLineRest(line);
    var (name, rest1) := SplitFirst(line);
    var (id, rest2) := SplitFirst(rest1);
    var (x, y) := SplitFirst(rest2);
    NodeRow(name, id, x, y)
  }

  /** The four fields joined by commas give back the line; only the last may hold a comma. */
  lemma NodeLineJoins(line: string)
    requires NodeLine(line)
    ensures var r := SplitNodeLine(line);
            line == r.name + "," + (r.id + "," + (r.x + "," + r.y)) && ',' !in r.name && ',' !in r.id && ',' !in r.x
  {
    NodeLineRest(line);
    SplitFirstJoins(line);
    SplitFirstJoins(SplitFirst(line).1);
    SplitFirstJoins(SplitFirst(SplitFirst(line).1).1);
  }

  /** The first comma splits an edge line; the second id is everything after it. */
  function SplitEdgeLine(line: string): Pathway
    requires ',' in line
  {
    var (id1, id2) := SplitFirst(line);
    Pathway(id1, id2)
  }

  /** The two ids joined by a comma give back the line, and the first holds no comma. */
  lemma EdgeLineJoins(line: string)
    requires ',' in line
    ensures line == SplitEdgeLine(line).id1 + "," + SplitEdgeLine(line).id2 && ',' !in SplitEdgeLine(line).id1
  {
    SplitFirstJoins(line);
  }

  lemma {:induction false} CountConcat(a: string, b: string, c: char)
    ensures CountOf(a + b, c) == CountOf(a, c) + CountOf(b, c)
  {
    if a == [] {
      assert a + b == b;
    } else {
      assert (a + b)[0] == a[0] && (a + b)[1..] == a[1..] + b;
      CountConcat(a[1..], b, c);
    }
  }

  lemma {:induction false} CountAbsent(a: string, c: char)
    requires c !in a
    ensures CountOf(a, c) == 0
  {
    if a != [] {
      assert forall x :: x in a[1..] ==> x in a;
      CountAbsent(a[1..], c);
    }
  }

  /** A comma-free head and any tail, joined by a comma, split back into the two. */
  lemma SplitFirstOfJoin(a: string, b: string)
    requires ',' !in a
    ensures CountOf(a + "," + b, ',') == CountOf(b, ',') + 1
    ensures SplitFirst(a + "," + b) == (a, b)
  {
    CountConcat(a + ",", b, ',');
    CountConcat(a, ",", ',');
    CountAbsent(a, ',');
    var r := SplitFirst(a + "," + b);
    assert (a + "," + b)[|a|] == ',';
    SplitFirstJoins(a + "," + b);
    SplitUnique(r.0, r.1, a, b);
  }

  /** Joining comma-free name, id and x with any y gives back the same four fields. */
  lemma NodeLineRoundTrip(row: NodeRow)
    requires ',' !in row.name && ',' !in row.id && ',' !in row.x
    ensures NodeLine(row.name + "," + (row.id + "," + (row.x + "," + row.y)))
    ensures SplitNodeLine(row.name + "," + (row.id + "," + (row.x + "," + row.y))) == row
  {
    SplitFirstOfJoin(row.x, row.y);
    SplitFirstOfJoin(row.id, row.x + "," + row.y);
    SplitFirstOfJoin(row.name, row.id + "," + (row.x + "," + row.y));
  }

  /** Joining a comma-free id1 with any id2 gives back the same pair. */
  lemma EdgeLineRoundTrip(p: Pathway)
    requires ',' !in p.id1
    ensures ',' in p.id1 + "," + p.id2
    ensures SplitEdgeLine(p.id1 + "," + p.id2) == p
  {
    assert (p.id1 + "," + p.id2)[|p.id1|] == ',';
    SplitFirstOfJoin(p.id1, p.id2);
  }

  /** A comma-free head before the first comma is determined by the string. */
  lemma SplitUnique(a: string, b: string, c: string, d: string)
    requires ',' !in a && ',' !in c && a + "," + b == c + "," + d
    ensures a == c && b == d
  {
    var s := a + "," + b;
    assert s[..|a|] == a && s[|a|] == ',';
    assert s[..|c|] == c && s[|c|] == ',';
    assert |a| == |c|;
    assert b == s[|a| + 1..] && d == s[|c| + 1..];
  }

  predicate NodeFile(lines: seq<string>)
  {
    forall i :: 0 <= i < |lines| ==> NodeLine(lines[i])
  }

  predicate EdgeFile(lines: seq<string>)
  {
    forall i :: 0 <= i < |lines| ==> ',' in lines[i]
  }

  /** Successive `put`s into an empty map: the later pair for a key overwrites the earlier one. */
  function Assign<K, V>(kv: seq<(K, V)>): map<K, V>
  {
    if kv == [] then map[] else Assign(kv[..|kv| - 1])[kv[|kv| - 1].0 := kv[|kv| - 1].1]
  }

  /** Every key put is present, and nothing else. */
  lemma {:induction false} AssignDomain<K, V>(kv: seq<(K, V)>, k: K)
    ensures k in Assign(kv) <==> exists i :: 0 <= i < |kv| && kv[i].0 == k
  {
    if kv != [] {
      var init := kv[..|kv| - 1];
      AssignDomain(init, k);
      if exists i :: 0 <= i < |init| && init[i].0 == k {
        var i :| 0 <= i < |init| && init[i].0 == k;
        assert kv[i] == init[i];
      }
      if exists i :: 0 <= i < |kv| && kv[i].0 == k {
        var i :| 0 <= i < |kv| && kv[i].0 == k;
        if i < |init| { assert init[i] == kv[i]; }
      }
    }
  }

  /** Last write wins: the value of a key is the one of its last pair. */
  lemma {:induction false} AssignLast<K, V>(kv: seq<(K, V)>, i: nat)
    requires i < |kv|
    requires forall j :: i < j < |kv| ==> kv[j].0 != kv[i].0
    ensures kv[i].0 in Assign(kv) && Assign(kv)[kv[i].0] == kv[i].1
  {
    if i < |kv| - 1 {
      var init := kv[..|kv| - 1];
      assert init[i] == kv[i];
      forall j | i < j < |init| ensures init[j].0 != init[i].0 {
        assert init[j] == kv[j];
      }
      AssignLast(init, i);
    }
  }

  lemma AssignSnoc<K, V>(kv: seq<(K, V)>, x: (K, V))
    ensures Assign(kv + [x]) == Assign(kv)[x.0 := x.1]
  {
    assert (kv + [x])[..|kv|] == kv;
  }

  /** The node lines, split. */
  function NodeRows(lines: seq<string>): (r: seq<NodeRow>)
    requires NodeFile(lines)
    ensures |r| == |lines| && forall i :: 0 <= i < |lines| ==> r[i] == SplitNodeLine(lines[i])
  {
    seq(|lines|, i requires 0 <= i < |lines| => SplitNodeLine(lines[i]))
  }

  /** The `put(id, [name, x, y])` sequence of the node file. */
  function IdPuts(rows: seq<NodeRow>): (r: seq<(string, Record)>)
    ensures |r| == |rows| && forall i :: 0 <= i < |rows| ==> r[i] == (rows[i].id, Record(rows[i].name, rows[i].x, rows[i].y))
  {
    seq(|rows|, i requires 0 <= i < |rows| => (rows[i].id, Record(rows[i].name, rows[i].x, rows[i].y)))
  }

  /** The `put(name, id)` sequence of the node file. */
  function NamePuts(rows: seq<NodeRow>): (r: seq<(string, string)>)
    ensures |r| == |rows| && forall i :: 0 <= i < |rows| ==> r[i] == (rows[i].name, rows[i].id)
  {
    seq(|rows|, i requires 0 <= i < |rows| => (rows[i].name, rows[i].id))
  }

  /** The pathway set of an edge file. */
  function PathwaysOf(lines: seq<string>): (r: set<Pathway>)
    requires EdgeFile(lines)
    ensures forall p :: p in r <==> exists i :: 0 <= i < |lines| && SplitEdgeLine(lines[i]) == p
  {
    set i | 0 <= i < |lines| :: SplitEdgeLine(lines[i])
  }

  lemma NodeRowsSnoc(lines: seq<string>, n: nat)
    requires NodeFile(lines) && n < |lines|
    ensures NodeFile(lines[..n]) && NodeFile(lines[..n + 1])
    ensures var row := SplitNodeLine(lines[n]);
            && IdPuts(NodeRows(lines[..n + 1])) == IdPuts(NodeRows(lines[..n])) + [(row.id, Record(row.name, row.x, row.y))]
            && NamePuts(NodeRows(lines[..n + 1])) == NamePuts(NodeRows(lines[..n])) + [(row.name, row.id)]
  {
    var a := NodeRows(lines[..n]);
    var b := NodeRows(lines[..n + 1]);
    assert b == a + [SplitNodeLine(lines[n])];
  }

  lemma PathwaysSnoc(lines: seq<string>, m: nat)
    requires EdgeFile(lines) && m < |lines|
    ensures EdgeFile(lines[..m]) && EdgeFile(lines[..m + 1])
    ensures PathwaysOf(lines[..m + 1]) == PathwaysOf(lines[..m]) + {SplitEdgeLine(lines[m])}
  {
    var before := lines[..m];
    var after := lines[..m + 1];
    forall p ensures p in PathwaysOf(after) <==> p in PathwaysOf(before) + {SplitEdgeLine(lines[m])} {
      if p in PathwaysOf(after) {
        var i :| 0 <= i < m + 1 && SplitEdgeLine(after[i]) == p;
        if i < m { assert before[i] == after[i]; }
      }
      if p in PathwaysOf(before) {
        var i :| 0 <= i < m && SplitEdgeLine(before[i]) == p;
        assert after[i] == before[i];
      }
      if p == SplitEdgeLine(lines[m]) {
        assert after[m] == lines[m];
      }
    }
  }

  /** One more node line puts its row into both tables. */
  lemma TablesSnoc(lines: seq<string>, n: nat)
    requires NodeFile(lines) && n < |lines|
    ensures NodeFile(lines[..n]) && NodeFile(lines[..n + 1])
    ensures var row := SplitNodeLine(lines[n]);
            && Assign(IdPuts(NodeRows(lines[..n + 1])))
               == Assign(IdPuts(NodeRows(lines[..n])))[row.id := Record(row.name, row.x, row.y)]
            && Assign(NamePuts(NodeRows(lines[..n + 1]))) == Assign(NamePuts(NodeRows(lines[..n])))[row.name := row.id]
  {
    NodeRowsSnoc(lines, n);
    var row := SplitNodeLine(lines[n]);
    AssignSnoc(IdPuts(NodeRows(lines[..n])), (row.id, Record(row.name, row.x, row.y)));
    AssignSnoc(NamePuts(NodeRows(lines[..n])), (row.name, row.id));
  }

  /** Identical edge lines collapse into one pathway. */
  lemma RepeatedLineCollapses(lines: seq<string>, l: string)
    requires EdgeFile(lines) && ',' in l
    ensures EdgeFile(lines + [l, l]) && EdgeFile(lines + [l])
    ensures PathwaysOf(lines + [l, l]) == PathwaysOf(lines + [l])
  {
    var a := lines + [l, l];
    var b := lines + [l];
    forall p ensures p in PathwaysOf(a) <==> p in PathwaysOf(b) {
      if p in PathwaysOf(a) {
        var i :| 0 <= i < |a| && SplitEdgeLine(a[i]) == p;
        if i == |lines| + 1 { assert SplitEdgeLine(b[|lines|]) == p; } else { assert b[i] == a[i]; }
      }
      if p in PathwaysOf(b) {
        var i :| 0 <= i < |b| && SplitEdgeLine(b[i]) == p;
        assert a[i] == b[i];
      }
    }
  }

  /** `readData`: the id table, the building table, the pathway set and a fresh node per id.
      (The tables start out empty, as they do in the one caller.) */
  method ReadData(nodeLines: seq<string>, edgeLines: seq<string>)
    returns (dataFromIDs: map<string, Record>, buildings: map<string, string>,
             pathways: set<Pathway>, nodes: map<string, Node<real>>)
    requires NodeFile(nodeLines) && EdgeFile(edgeLines)
    ensures dataFromIDs == Assign(IdPuts(NodeRows(nodeLines)))
    ensures buildings == Assign(NamePuts(NodeRows(nodeLines)))
    ensures pathways == PathwaysOf(edgeLines)
    ensures nodes.Keys == dataFromIDs.Keys
    ensures forall id :: id in nodes ==>
              fresh(nodes[id]) && nodes[id].nodeLabel == id && nodes[id].edges == [] && nodes[id].Valid()
  {
    dataFromIDs, buildings, nodes := ReadNodeLines(nodeLines);
    pathways := ReadEdgeLines(edgeLines);
  }

  /** The node-file loop of `readData`. */
  method ReadNodeLines(nodeLines: seq<string>)
    returns (dataFromIDs: map<string, Record>, buildings: map<string, string>, nodes: map<string, Node<real>>)
    requires NodeFile(nodeLines)
    ensures dataFromIDs == Assign(IdPuts(NodeRows(nodeLines)))
    ensures buildings == Assign(NamePuts(NodeRows(nodeLines)))
    ensures nodes.Keys == dataFromIDs.Keys
    ensures forall id :: id in nodes ==>
              fresh(nodes[id]) && nodes[id].nodeLabel == id && nodes[id].edges == [] && nodes[id].Valid()
  {
    dataFromIDs, buildings, nodes := map[], map[], map[];
    var n := 0;
    while n < |nodeLines|
      invariant 0 <= n <= |nodeLines| && NodeFile(nodeLines[..n])
      invariant dataFromIDs == Assign(IdPuts(NodeRows(nodeLines[..n])))
      invariant buildings == Assign(NamePuts(NodeRows(nodeLines[..n])))
      invariant nodes.Keys == dataFromIDs.Keys
      invariant forall id :: id in nodes ==>
                  fresh(nodes[id]) && nodes[id].nodeLabel == id && nodes[id].edges == [] && nodes[id].Valid()
    {
      var row := SplitNodeLine(nodeLines[n]);
      TablesSnoc(nodeLines, n);
      dataFromIDs, buildings, nodes := PutRow(row, dataFromIDs, buildings, nodes);
      n := n + 1;
    }
    assert nodeLines[..n] == nodeLines;
  }

  /** The three `put` calls for one node line. */
  method PutRow(row: NodeRow, dataFromIDs: map<string, Record>, buildings: map<string, string>,
                nodes: map<string, Node<real>>)
    returns (dataFromIDs': map<string, Record>, buildings': map<string, string>, nodes': map<string, Node<real>>)
    ensures dataFromIDs' == dataFromIDs[row.id := Record(row.name, row.x, row.y)]
    ensures buildings' == buildings[row.name := row.id]
    ensures nodes'.Keys == nodes.Keys + {row.id}
    ensures fresh(nodes'[row.id]) && nodes'[row.id].nodeLabel == row.id && nodes'[row.id].edges == []
    ensures nodes'[row.id].Valid()
    ensures forall id :: id in nodes && id != row.id ==> nodes'[id] == nodes[id]
  {
    dataFromIDs' := dataFromIDs[row.id := Record(row.name, row.x, row.y)];
    buildings' := buildings[row.name := row.id];
    var node := new Node<real>(row.id);
    nodes' := nodes[row.id := node];
  }

  /** The edge-file loop of `readData`. */
  method ReadEdgeLines(edgeLines: seq<string>) returns (pathways: set<Pathway>)
    requires EdgeFile(edgeLines)
    ensures pathways == PathwaysOf(edgeLines)
  {
    pathways := {};
    var m := 0;
    while m < |edgeLines|
      invariant 0 <= m <= |edgeLines| && EdgeFile(edgeLines[..m])
      invariant pathways == PathwaysOf(edgeLines[..m])
    {
      PathwaysSnoc(edgeLines, m);
      pathways := pathways + {SplitEdgeLine(edgeLines[m])};
      m := m + 1;
    }
    assert edgeLines[..m] == edgeLines;
  }
}
