/**
  The coverage graph of network_reader.py, as an arena: every node lives in a
  map from its geo id, and a node's neighbour list holds the ids of the nodes
  it was linked to (duplicates and self-links included, edges directed). This
  module holds the pure definitions the `Network` class is specified by, and
  the lemmas about them.
 */
module Graph {

  /** One coverage region: its geo id, its current value and the ids of its
      neighbours in the order they were attached. */
  datatype Node = Node(geoId: string, value: real, neighbors: seq<string>)

  type Nodes = map<string, Node>

  /** The node the one-argument constructor builds: value 0, no neighbours. */
  function Placeholder(geoId: string): (n: Node)
    ensures n.geoId == geoId && n.value == 0.0 && n.neighbors == []
  {
    Node(geoId, 0.0, [])
  }

  /** The arena invariant: every node is filed under its own id, and every
      neighbour id names a node of the arena. */
  ghost predicate WellFormed(nodes: Nodes)
  {
    forall id :: id in nodes ==>
      nodes[id].geoId == id && forall n :: n in nodes[id].neighbors ==> n in nodes
  }

  /** Every id of `ns` is a node and has an entry in `taken`. */
  ghost predicate Resolves(nodes: Nodes, ns: seq<string>, taken: map<string, bool>)
  {
    forall n :: n in ns ==> n in nodes && n in taken
  }

  /** What one neighbour adds to a total: its value, or nothing once taken. */
  function Credit(nodes: Nodes, taken: map<string, bool>, n: string): (c: real)
    requires n in nodes && n in taken
    ensures taken[n] ==> c == 0.0
    ensures !taken[n] ==> c == nodes[n].value
  {
    if taken[n] then 0.0 else nodes[n].value
  }

  /** The credits of the neighbour list `ns`, accumulated front to back. */
  function NeighbourSum(nodes: Nodes, ns: seq<string>, taken: map<string, bool>): (r: real)
    requires Resolves(nodes, ns, taken)
    ensures (forall n :: n in ns ==> nodes[n].value >= 0.0) ==> 0.0 <= r <= ValueSum(nodes, ns)
    decreases |ns|
  {
    if ns == [] then 0.0
    else NeighbourSum(nodes, ns[..|ns| - 1], taken) + Credit(nodes, taken, ns[|ns| - 1])
  }

  /** get_total_value: a node's own value plus the credits of its neighbours. */
  function TotalValue(nodes: Nodes, geoId: string, taken: map<string, bool>): (r: real)
    requires geoId in nodes && Resolves(nodes, nodes[geoId].neighbors, taken)
    ensures r == nodes[geoId].value + ValueSum(nodes, Untaken(nodes[geoId].neighbors, taken))
  {
    NeighbourSumIsUntakenValues(nodes, nodes[geoId].neighbors, taken);
    nodes[geoId].value + NeighbourSum(nodes, nodes[geoId].neighbors, taken)
  }

  /** The ids of `ns` not marked taken, in order. */
  function Untaken(ns: seq<string>, taken: map<string, bool>): (r: seq<string>)
    requires forall n :: n in ns ==> n in taken
    ensures forall n :: n in r <==> n in ns && !taken[n]
    decreases |ns|
  {
    if ns == [] then []
    else
      var last := ns[|ns| - 1];
      Untaken(ns[..|ns| - 1], taken) + (if taken[last] then [] else [last])
  }

  /** The plain sum of the values of the nodes listed in `ns`. */
  function ValueSum(nodes: Nodes, ns: seq<string>): real
    requires forall n :: n in ns ==> n in nodes
    decreases |ns|
  {
    if ns == [] then 0.0 else ValueSum(nodes, ns[..|ns| - 1]) + nodes[ns[|ns| - 1]].value
  }

  /** One step of add_neighbors: link `n` to `geoId`, first creating a value-0
      placeholder for `n` if it is not yet a node. */
  function AttachOne(nodes: Nodes, geoId: string, n: string): (r: Nodes)
    requires geoId in nodes
    ensures r.Keys == nodes.Keys + {n}
    ensures r[geoId] == nodes[geoId].(neighbors := nodes[geoId].neighbors + [n])
    ensures forall m :: m in nodes && m != geoId ==> r[m] == nodes[m]
    ensures n !in nodes ==> r[n] == Placeholder(n)
  {
    var withN := if n in nodes then nodes else nodes[n := Placeholder(n)];
    withN[geoId := withN[geoId].(neighbors := withN[geoId].neighbors + [n])]
  }

  /** add_neighbors: the arena after linking each id of `ids` to `geoId`, in order. */
  function WithNeighbors(nodes: Nodes, geoId: string, ids: seq<string>): (r: Nodes)
    requires geoId in nodes
    ensures forall n :: n in r <==> n in nodes || n in ids
    decreases |ids|
  {
    if ids == [] then nodes else WithNeighbors(AttachOne(nodes, geoId, ids[0]), geoId, ids[1..])
  }

  /** `s` lists node ids by non-increasing own value. */
  ghost predicate ByValueDescending(nodes: Nodes, s: seq<string>)
  {
    && (forall k :: 0 <= k < |s| ==> s[k] in nodes)
    && (forall i, j :: 0 <= i < j < |s| ==> nodes[s[i]].value >= nodes[s[j]].value)
  }

  // ---------------------------------------------------------------------------
  // Total value

  /** The sum over a concatenation is the sum of the sums. */
  lemma {:induction false} NeighbourSumAppend(nodes: Nodes, a: seq<string>, b: seq<string>, taken: map<string, bool>)
    requires Resolves(nodes, a, taken) && Resolves(nodes, b, taken)
    ensures Resolves(nodes, a + b, taken)
    ensures NeighbourSum(nodes, a + b, taken) == NeighbourSum(nodes, a, taken) + NeighbourSum(nodes, b, taken)
    decreases |b|
  {
    if b == [] {
      assert a + b == a;
    } else {
      var b' := b[..|b| - 1];
      NeighbourSumAppend(nodes, a, b', taken);
      assert (a + b)[..|a + b| - 1] == a + b';
    }
  }

  /** The credited sum is exactly the plain sum of the values of the
      neighbours not marked taken. */
  lemma {:induction false} NeighbourSumIsUntakenValues(nodes: Nodes, ns: seq<string>, taken: map<string, bool>)
    requires Resolves(nodes, ns, taken)
    ensures NeighbourSum(nodes, ns, taken) == ValueSum(nodes, Untaken(ns, taken))
    decreases |ns|
  {
    if ns != [] {
      var init, last := ns[..|ns| - 1], ns[|ns| - 1];
      NeighbourSumIsUntakenValues(nodes, init, taken);
      var u := Untaken(init, taken);
      if taken[last] {
        assert Untaken(ns, taken) == u + [];
        assert u + [] == u;
      } else {
        assert Untaken(ns, taken) == u + [last];
        assert (u + [last])[..|u + [last]| - 1] == u;
      }
    }
  }

  /** Neighbours that are all taken add nothing. */
  lemma {:induction false} AllTakenAddNothing(nodes: Nodes, ns: seq<string>, taken: map<string, bool>)
    requires Resolves(nodes, ns, taken)
    requires forall n :: n in ns ==> taken[n]
    ensures NeighbourSum(nodes, ns, taken) == 0.0
    decreases |ns|
  {
    if ns != [] {
      AllTakenAddNothing(nodes, ns[..|ns| - 1], taken);
    }
  }

  /** A node with no neighbours, or whose neighbours are all taken, is worth
      its own value. */
  lemma OwnValueWhenNeighboursTaken(nodes: Nodes, geoId: string, taken: map<string, bool>)
    requires geoId in nodes && Resolves(nodes, nodes[geoId].neighbors, taken)
    requires forall n :: n in nodes[geoId].neighbors ==> taken[n]
    ensures TotalValue(nodes, geoId, taken) == nodes[geoId].value
  {
    AllTakenAddNothing(nodes, nodes[geoId].neighbors, taken);
  }

  /** Taken neighbours contribute nothing: the sum depends only on the values
      of the neighbours not marked taken. */
  lemma {:induction false} TakenValuesIrrelevant(nodes: Nodes, nodes': Nodes, ns: seq<string>, taken: map<string, bool>)
    requires Resolves(nodes, ns, taken) && Resolves(nodes', ns, taken)
    requires forall n :: n in ns && !taken[n] ==> nodes'[n].value == nodes[n].value
    ensures NeighbourSum(nodes', ns, taken) == NeighbourSum(nodes, ns, taken)
    decreases |ns|
  {
    if ns != [] {
      TakenValuesIrrelevant(nodes, nodes', ns[..|ns| - 1], taken);
    }
  }

  /** With non-negative values, marking more neighbours taken never raises
      the sum. */
  lemma {:induction false} MoreTakenNeverRaises(nodes: Nodes, ns: seq<string>, taken: map<string, bool>, taken': map<string, bool>)
    requires Resolves(nodes, ns, taken) && Resolves(nodes, ns, taken')
    requires forall n :: n in ns ==> nodes[n].value >= 0.0
    requires forall n :: n in ns && taken[n] ==> taken'[n]
    ensures NeighbourSum(nodes, ns, taken') <= NeighbourSum(nodes, ns, taken)
    decreases |ns|
  {
    if ns != [] {
      MoreTakenNeverRaises(nodes, ns[..|ns| - 1], taken, taken');
    }
  }

  /** Three tracts: A (10, linked to B and C), B (5, linked to A) and C (3,
      linked to A). Untaken, their totals are 18, 15 and 13; once A is marked
      taken, B is worth only its own 5. */
  lemma WorkedExampleTotals()
    ensures var nodes := map["A" := Node("A", 10.0, ["B", "C"]), "B" := Node("B", 5.0, ["A"]),
                             "C" := Node("C", 3.0, ["A"])];
      var none := map["A" := false, "B" := false, "C" := false];
      && WellFormed(nodes)
      && TotalValue(nodes, "A", none) == 18.0
      && TotalValue(nodes, "B", none) == 15.0
      && TotalValue(nodes, "C", none) == 13.0
      && TotalValue(nodes, "B", none["A" := true]) == 5.0
  {
    var nodes := map["A" := Node("A", 10.0, ["B", "C"]), "B" := Node("B", 5.0, ["A"]),
                     "C" := Node("C", 3.0, ["A"])];
    var none := map["A" := false, "B" := false, "C" := false];
    assert ["B", "C"][..1] == ["B"];
    assert ["B"][..0] == [];
    assert ["A"][..0] == [];
    assert NeighbourSum(nodes, ["B", "C"], none) == 8.0;
  }

  // ---------------------------------------------------------------------------
  // Attaching neighbours

  /** add_neighbors grows `geoId`'s list by exactly `ids`, appended in the
      given order; its id and value stay as they were. */
  lemma {:induction false} WithNeighborsAppends(nodes: Nodes, geoId: string, ids: seq<string>)
    requires geoId in nodes
    ensures WithNeighbors(nodes, geoId, ids)[geoId] == nodes[geoId].(neighbors := nodes[geoId].neighbors + ids)
    decreases |ids|
  {
    if ids != [] {
      WithNeighborsAppends(AttachOne(nodes, geoId, ids[0]), geoId, ids[1..]);
      assert ids == [ids[0]] + ids[1..];
    } else {
      assert nodes[geoId].neighbors + ids == nodes[geoId].neighbors;
    }
  }

  /** add_neighbors changes no node but `geoId`: an existing node is never
      replaced and no reverse edge is added. */
  lemma {:induction false} WithNeighborsKeepsOthers(nodes: Nodes, geoId: string, ids: seq<string>)
    requires geoId in nodes
    ensures forall n :: n in nodes && n != geoId ==> WithNeighbors(nodes, geoId, ids)[n] == nodes[n]
    decreases |ids|
  {
    if ids != [] {
      WithNeighborsKeepsOthers(AttachOne(nodes, geoId, ids[0]), geoId, ids[1..]);
    }
  }

  /** The only nodes add_neighbors creates are value-0 placeholders with no
      neighbours, one for each listed id that was absent. */
  lemma {:induction false} WithNeighborsPlaceholders(nodes: Nodes, geoId: string, ids: seq<string>)
    requires geoId in nodes
    ensures var r := WithNeighbors(nodes, geoId, ids);
      forall n :: n in r && n !in nodes ==> n in ids && r[n] == Placeholder(n)
    decreases |ids|
  {
    if ids != [] {
      var a := AttachOne(nodes, geoId, ids[0]);
      WithNeighborsPlaceholders(a, geoId, ids[1..]);
      WithNeighborsKeepsOthers(a, geoId, ids[1..]);
    }
  }

  /** add_neighbors keeps the arena well formed: the ids it links to are
      nodes afterwards, and nothing is filed under a foreign id. */
  lemma {:induction false} WithNeighborsWellFormed(nodes: Nodes, geoId: string, ids: seq<string>)
    requires geoId in nodes && WellFormed(nodes)
    ensures WellFormed(WithNeighbors(nodes, geoId, ids))
    decreases |ids|
  {
    if ids != [] {
      var a := AttachOne(nodes, geoId, ids[0]);
      assert WellFormed(a);
      WithNeighborsWellFormed(a, geoId, ids[1..]);
    }
  }

  /** After add_neighbors the node's total value is its old total plus the
      credits of the newly attached ids. */
  lemma AttachedTotal(nodes: Nodes, geoId: string, ids: seq<string>, taken: map<string, bool>)
    requires geoId in nodes && Resolves(nodes, nodes[geoId].neighbors, taken)
    requires forall n :: n in ids ==> n in taken
    ensures var r := WithNeighbors(nodes, geoId, ids);
      && Resolves(r, r[geoId].neighbors, taken)
      && TotalValue(r, geoId, taken) == TotalValue(nodes, geoId, taken) + NeighbourSum(r, ids, taken)
  {
    var r := WithNeighbors(nodes, geoId, ids);
    WithNeighborsAppends(nodes, geoId, ids);
    WithNeighborsKeepsOthers(nodes, geoId, ids);
    var old_ns := nodes[geoId].neighbors;
    forall n | n in old_ns ensures n in r && r[n].value == nodes[n].value {
    }
    TakenValuesIrrelevant(nodes, r, old_ns, taken);
    NeighbourSumAppend(r, old_ns, ids, taken);
  }

  // ---------------------------------------------------------------------------
  // Ordering

  /** The first id of a list sorted by value that holds each node id once is
      a node of greatest own value. */
  lemma FirstIsMaximum(nodes: Nodes, s: seq<string>)
    requires ByValueDescending(nodes, s)
    requires multiset(s) == multiset(nodes.Keys)
    requires |s| > 0
    ensures s[0] in nodes
    ensures forall id :: id in nodes ==> nodes[s[0]].value >= nodes[id].value
  {
    forall id | id in nodes ensures nodes[s[0]].value >= nodes[id].value {
      assert id in multiset(s);
      var k :| 0 <= k < |s| && s[k] == id;
      if k > 0 {
        assert nodes[s[0]].value >= nodes[s[k]].value;
      }
    }
  }
}
