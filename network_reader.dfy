/**
  network_reader.py: the `Network` that owns the coverage graph, the in-place
  ordering of its ids by value, and the part of `read_network` that turns the
  feature table, the prediction rows and the adjacency map into a graph.
  Reading the CSV and JSON files is not modelled: the tables arrive as
  values.
 */
module NetworkReader {
  import opened Wrappers
  import opened Graph

  /** Why building the graph aborts. */
  datatype Error =
    | MissingFeatures(geoId: string)   // a prediction row names a tract with no feature row
    | ZeroLabourForce                  // the salary figure divides by a zero labour force

  /** A tract's feature row: population, salary figure, baseline attainment. */
  datatype Features = Features(population: real, salary: real, pct: real)

  /** One prediction row: the tract id and its predicted attainment, `None`
      when the field does not parse as a number. */
  datatype PredictionRow = PredictionRow(geoId: string, prediction: Option<real>)

  /** The weight function `read_network` is parameterised by, such as
      `Optimizer.AddedAverageSalary`. */
  type WeightFunction = (real, real, real, real) -> real

  class Network {
    /** The nodes, by geo id. */
    var nodes: Nodes
    /** The ids ordered by `InitialSort`. */
    var sortedList: seq<string>

    ghost predicate Valid()
      reads this
    {
      WellFormed(nodes)
    }

    constructor ()
      ensures Valid() && nodes == map[] && sortedList == []
    {
      nodes := map[];
      sortedList := [];
    }

    /** add_node(Node(geoId, value)): file a fresh neighbour-less node under its id. */
    method AddNode(geoId: string, value: real)
      requires Valid()
      modifies this`nodes
      ensures Valid()
      ensures nodes == old(nodes)[geoId := Node(geoId, value, [])]
    {
      nodes := nodes[geoId := Node(geoId, value, [])];
    }

    /** has_node. */
    predicate HasNode(geoId: string): (b: bool)
      reads this
      ensures b <==> geoId in nodes
      ensures Valid() && b ==> nodes[geoId].geoId == geoId
    {
      geoId in nodes
    }

    /** get_val. */
    function GetVal(geoId: string): (v: real)
      reads this
      requires geoId in nodes
      ensures v == nodes[geoId].value
    {
      nodes[geoId].value
    }

    /** Node.set_val on the node filed under `geoId`. */
    method SetVal(geoId: string, value: real)
      requires Valid() && geoId in nodes
      modifies this`nodes
      ensures Valid()
      ensures nodes == old(nodes)[geoId := old(nodes)[geoId].(value := value)]
    {
      nodes := nodes[geoId := nodes[geoId].(value := value)];
    }

    /** Node.add_neighbor on the node filed under `geoId`. */
    method AddNeighbor(geoId: string, neighbor: string)
      requires Valid() && geoId in nodes && neighbor in nodes
      modifies this`nodes
      ensures Valid()
      ensures nodes == old(nodes)[geoId := old(nodes)[geoId].(neighbors := old(nodes)[geoId].neighbors + [neighbor])]
    {
      nodes := nodes[geoId := nodes[geoId].(neighbors := nodes[geoId].neighbors + [neighbor])];
    }

    /** add_neighbors: link each of `neighborIds` to `geoId` in order, creating
        a value-0 placeholder for every id not yet a node. */
    method AddNeighbors(geoId: string, neighborIds: seq<string>)
      requires Valid() && geoId in nodes
      modifies this`nodes
      ensures Valid()
      ensures nodes == WithNeighbors(old(nodes), geoId, neighborIds)
    {
      var i := 0;
      while i < |neighborIds|
        invariant 0 <= i <= |neighborIds|
        invariant Valid() && geoId in nodes
        invariant WithNeighbors(nodes, geoId, neighborIds[i..]) == WithNeighbors(old(nodes), geoId, neighborIds)
      {
        var neighbor := neighborIds[i];
        ghost var before := nodes;
        if HasNode(neighbor) {
          AddNeighbor(geoId, neighbor);
        } else {
          AddNode(neighbor, 0.0);
          AddNeighbor(geoId, neighbor);
        }
        assert nodes == AttachOne(before, geoId, neighbor);
        assert neighborIds[i..][1..] == neighborIds[i + 1..];
        i := i + 1;
      }
    }

    /** Node.get_total_value: the node's own value plus the value of every
        neighbour not marked taken. */
    method GetTotalValue(geoId: string, taken: map<string, bool>) returns (val: real)
      requires Valid() && geoId in nodes
      requires forall n :: n in nodes[geoId].neighbors ==> n in taken
      ensures val == TotalValue(nodes, geoId, taken)
    {
      var node := nodes[geoId];
      val := node.value;
      var i := 0;
      while i < |node.neighbors|
        invariant 0 <= i <= |node.neighbors|
        invariant val == node.value + NeighbourSum(nodes, node.neighbors[..i], taken)
      {
        var neighbor := node.neighbors[i];
        assert node.neighbors[..i + 1][..i] == node.neighbors[..i];
        if !taken[neighbor] {
          val := val + GetVal(neighbor);
        }
        i := i + 1;
      }
      assert node.neighbors[..i] == node.neighbors;
    }

    /** initial_sort: every node id exactly once, by non-increasing own value. */
    method InitialSort()
      requires Valid()
      modifies this`sortedList
      ensures multiset(sortedList) == multiset(nodes.Keys)
      ensures ByValueDescending(nodes, sortedList)
    {
      var ids: seq<string> := [];
      var rest := nodes.Keys;
      while rest != {}
        invariant rest <= nodes.Keys
        invariant multiset(ids) + multiset(rest) == multiset(nodes.Keys)
        invariant forall k :: 0 <= k < |ids| ==> ids[k] in nodes
        decreases |rest|
      {
        var id :| id in rest;
        ids := ids + [id];
        rest := rest - {id};
      }
      var a := new string[|ids|](k requires 0 <= k < |ids| => ids[k]);
      assert a[..] == ids;
      SortByValueDescending(a, nodes);
      sortedList := a[..];
    }
  }

  /** Exchange two entries of `a`. */
  method Swap(a: array<string>, i: int, j: int)
    requires 0 <= i < a.Length && 0 <= j < a.Length
    modifies a
    ensures a[i] == old(a[j]) && a[j] == old(a[i])
    ensures forall m :: 0 <= m < a.Length && m != i && m != j ==> a[m] == old(a[m])
    ensures multiset(a[..]) == old(multiset(a[..]))
  {
    a[i], a[j] := a[j], a[i];
  }

  /** `a[lo..hi]` names nodes by non-increasing own value. */
  ghost predicate SortedSlice(a: array<string>, nodes: Nodes, lo: int, hi: int)
    reads a
    requires 0 <= lo <= hi <= a.Length
    requires forall k :: lo <= k < hi ==> a[k] in nodes
  {
    forall p, q :: lo <= p < q < hi ==> nodes[a[p]].value >= nodes[a[q]].value
  }

  /** One pass of the insertion sort: sink `a[i]` into the sorted prefix
      `a[..i]` until the prefix `a[..i + 1]` is sorted. */
  method InsertByValue(a: array<string>, nodes: Nodes, i: int)
    requires 0 <= i < a.Length
    requires forall k :: 0 <= k < a.Length ==> a[k] in nodes
    requires SortedSlice(a, nodes, 0, i)
    modifies a
    ensures forall k :: 0 <= k < a.Length ==> a[k] in nodes
    ensures SortedSlice(a, nodes, 0, i + 1)
    ensures forall k :: i < k < a.Length ==> a[k] == old(a[k])
    ensures multiset(a[..]) == old(multiset(a[..]))
  {
    var j := i;
    while j > 0 && nodes[a[j - 1]].value < nodes[a[j]].value
      invariant 0 <= j <= i
      invariant forall k :: 0 <= k < a.Length ==> a[k] in nodes
      invariant forall p, q :: 0 <= p < q <= i && p != j && q != j ==> nodes[a[p]].value >= nodes[a[q]].value
      invariant forall q :: j < q <= i ==> nodes[a[q]].value < nodes[a[j]].value
      invariant forall k :: i < k < a.Length ==> a[k] == old(a[k])
      invariant multiset(a[..]) == old(multiset(a[..]))
    {
      Swap(a, j - 1, j);
      j := j - 1;
    }
  }

  /** The in-place sort of initial_sort: reorder `a` by non-increasing own
      value of the nodes it names. */
  method SortByValueDescending(a: array<string>, nodes: Nodes)
    requires forall k :: 0 <= k < a.Length ==> a[k] in nodes
    modifies a
    ensures ByValueDescending(nodes, a[..])
    ensures multiset(a[..]) == old(multiset(a[..]))
  {
    var i := 0;
    while i < a.Length
      invariant 0 <= i <= a.Length
      invariant forall k :: 0 <= k < a.Length ==> a[k] in nodes
      invariant SortedSlice(a, nodes, 0, i)
      invariant multiset(a[..]) == old(multiset(a[..]))
    {
      InsertByValue(a, nodes, i);
      i := i + 1;
    }
  }

  /** The salary figure of a census row (line 70): median income times
      households over the labour force, with no fallback when the labour
      force is zero. */
  function SalaryFigure(income: real, households: real, labourForce: real): (r: Result<real, Error>)
    ensures r.Ok? <==> labourForce != 0.0
    ensures r.Ok? ==> r.value * labourForce == income * households
  {
    if labourForce == 0.0 then Err(ZeroLabourForce) else Ok(income * households / labourForce)
  }

  /** The prediction a weight is computed from: the parsed value, or 0.0 when
      the field did not parse. */
  function PredictionOrZero(p: Option<real>): (x: real)
    ensures p.Some? ==> x == p.value
    ensures p.None? ==> x == 0.0
  {
    match p
    case Some(x) => x
    case None => 0.0
  }

  /** The weight one prediction row gives its tract. */
  function RowWeight(row: PredictionRow, features: map<string, Features>, computeWeight: WeightFunction): (w: real)
    requires row.geoId in features
    ensures var f := features[row.geoId];
      && (row.prediction.Some? ==> w == computeWeight(f.population, f.salary, f.pct, row.prediction.value))
      && (row.prediction.None? ==> w == computeWeight(f.population, f.salary, f.pct, 0.0))
  {
    var f := features[row.geoId];
    computeWeight(f.population, f.salary, f.pct, PredictionOrZero(row.prediction))
  }

  /** No later row names the same tract as row `i`. */
  ghost predicate LastRowFor(rows: seq<PredictionRow>, i: int)
    requires 0 <= i < |rows|
  {
    forall j :: i < j < |rows| ==> rows[j].geoId != rows[i].geoId
  }

  /** The weight table of read_network (lines 75-80): one weight per tract
      named by a prediction row, the last row for a tract winning. A row whose
      tract has no feature row aborts the whole read. */
  method ComputeWeights(rows: seq<PredictionRow>, features: map<string, Features>, computeWeight: WeightFunction)
    returns (r: Result<map<string, real>, Error>)
    ensures r.Err? <==> exists i :: 0 <= i < |rows| && rows[i].geoId !in features
    ensures r.Err? ==> exists i :: (0 <= i < |rows| && rows[i].geoId !in features
      && r.error == MissingFeatures(rows[i].geoId)
      && forall j :: 0 <= j < i ==> rows[j].geoId in features)
    ensures r.Ok? ==> r.value.Keys == set i | 0 <= i < |rows| :: rows[i].geoId
    ensures r.Ok? ==> forall i :: 0 <= i < |rows| && LastRowFor(rows, i) ==>
      rows[i].geoId in features && r.value[rows[i].geoId] == RowWeight(rows[i], features, computeWeight)
  {
    var weights: map<string, real> := map[];
    var i := 0;
    while i < |rows|
      invariant 0 <= i <= |rows|
      invariant forall j :: 0 <= j < i ==> rows[j].geoId in features
      invariant weights.Keys == set j | 0 <= j < i :: rows[j].geoId
      invariant forall j :: 0 <= j < i && (forall k :: j < k < i ==> rows[k].geoId != rows[j].geoId) ==>
        weights[rows[j].geoId] == RowWeight(rows[j], features, computeWeight)
    {
      var row := rows[i];
      if row.geoId !in features {
        return Err(MissingFeatures(row.geoId));
      }
      var f := features[row.geoId];
      var w := computeWeight(f.population, f.salary, f.pct, PredictionOrZero(row.prediction));
      weights := weights[row.geoId := w];
      i := i + 1;
    }
    r := Ok(weights);
  }

  /** The weight a node gets: its entry in the weight table, or 0.0. */
  function WeightOrZero(weights: map<string, real>, geoId: string): (w: real)
    ensures geoId in weights ==> w == weights[geoId]
    ensures geoId !in weights ==> w == 0.0
  {
    if geoId in weights then weights[geoId] else 0.0
  }

  /** The ids the adjacency lists of the keys in `keys` refer to. */
  ghost function Referenced(adjacency: map<string, seq<string>>, keys: set<string>): set<string>
  {
    set k, n | k in keys && k in adjacency && n in adjacency[k] :: n
  }

  /** The state of the assembly loop once the keys in `done` are processed:
      each of them is a node with its weight and its adjacency list, and every
      other node is a placeholder one of them refers to. */
  ghost predicate AssembledUpTo(adjacency: map<string, seq<string>>, weights: map<string, real>,
                                done: set<string>, nodes: Nodes)
  {
    && done <= adjacency.Keys
    && WellFormed(nodes)
    && (forall n :: n in nodes <==> n in done || n in Referenced(adjacency, done))
    && (forall k :: k in done ==> nodes[k] == Node(k, WeightOrZero(weights, k), adjacency[k]))
    && (forall n :: n in nodes && n !in done ==> nodes[n] == Placeholder(n))
  }

  /** Processing one more key adds exactly the ids of its adjacency list to
      the referenced ids. */
  lemma ReferencedGrows(adjacency: map<string, seq<string>>, done: set<string>, key: string)
    requires key in adjacency
    ensures forall n :: n in Referenced(adjacency, done + {key}) <==>
      n in Referenced(adjacency, done) || n in adjacency[key]
  {
    forall n | n in adjacency[key] ensures n in Referenced(adjacency, done + {key}) {
      assert key in done + {key};
    }
  }

  /** A key the assembly loop has not reached yet is at most a placeholder. */
  lemma PendingIsPlaceholder(adjacency: map<string, seq<string>>, weights: map<string, real>,
                             done: set<string>, nodes: Nodes, key: string)
    requires AssembledUpTo(adjacency, weights, done, nodes)
    requires key !in done
    ensures key in nodes ==> nodes[key] == Placeholder(key)
  {
  }

  /** One iteration of the assembly loop adds `key` and the ids of its
      adjacency list to the nodes. */
  lemma StepKeys(adjacency: map<string, seq<string>>, done: set<string>, nodes: Nodes, key: string, node: Node)
    requires forall n :: n in nodes <==> n in done || n in Referenced(adjacency, done)
    requires key in adjacency
    ensures var r := WithNeighbors(nodes[key := node], key, adjacency[key]);
      forall n :: n in r <==> n in done + {key} || n in Referenced(adjacency, done + {key})
  {
    ReferencedGrows(adjacency, done, key);
  }

  /** One iteration of the assembly loop gives `key` its weight and exactly
      its adjacency list, and touches no other node but to add placeholders. */
  lemma StepNodes(adjacency: map<string, seq<string>>, weights: map<string, real>,
                  done: set<string>, nodes: Nodes, key: string)
    requires done <= adjacency.Keys
    requires forall k :: k in done ==> k in nodes && nodes[k] == Node(k, WeightOrZero(weights, k), adjacency[k])
    requires forall n :: n in nodes && n !in done ==> nodes[n] == Placeholder(n)
    requires key in adjacency && key !in done
    ensures var r := WithNeighbors(nodes[key := Node(key, WeightOrZero(weights, key), [])], key, adjacency[key]);
      && (forall k :: k in done + {key} ==> k in r && r[k] == Node(k, WeightOrZero(weights, k), adjacency[k]))
      && (forall n :: n in r && n !in done + {key} ==> r[n] == Placeholder(n))
  {
    var valued := nodes[key := Node(key, WeightOrZero(weights, key), [])];
    WithNeighborsAppends(valued, key, adjacency[key]);
    WithNeighborsKeepsOthers(valued, key, adjacency[key]);
    WithNeighborsPlaceholders(valued, key, adjacency[key]);
  }

  /** One iteration of the assembly loop keeps the arena well formed. */
  lemma StepWellFormed(nodes: Nodes, key: string, value: real, ids: seq<string>)
    requires WellFormed(nodes)
    ensures WellFormed(WithNeighbors(nodes[key := Node(key, value, [])], key, ids))
  {
    var valued := nodes[key := Node(key, value, [])];
    assert WellFormed(valued);
    WithNeighborsWellFormed(valued, key, ids);
  }

  /** One iteration of the assembly loop keeps `AssembledUpTo`: give `key`
      its weight, keeping a placeholder's (empty) neighbour list, then attach
      its adjacency list. */
  lemma AssembleStep(adjacency: map<string, seq<string>>, weights: map<string, real>,
                     done: set<string>, nodes: Nodes, key: string)
    requires AssembledUpTo(adjacency, weights, done, nodes)
    requires key in adjacency && key !in done
    ensures AssembledUpTo(adjacency, weights, done + {key},
      WithNeighbors(nodes[key := Node(key, WeightOrZero(weights, key), [])], key, adjacency[key]))
  {
    StepKeys(adjacency, done, nodes, key, Node(key, WeightOrZero(weights, key), []));
    StepNodes(adjacency, weights, done, nodes, key);
    StepWellFormed(nodes, key, WeightOrZero(weights, key), adjacency[key]);
  }

  /** Once every key is processed, the nodes are exactly the keys and the ids
      they refer to. */
  lemma AssembledAll(adjacency: map<string, seq<string>>, weights: map<string, real>, nodes: Nodes)
    requires AssembledUpTo(adjacency, weights, adjacency.Keys, nodes)
    ensures nodes.Keys == adjacency.Keys + Referenced(adjacency, adjacency.Keys)
    ensures forall k :: k in adjacency ==> nodes[k] == Node(k, WeightOrZero(weights, k), adjacency[k])
    ensures forall n :: n in nodes && n !in adjacency ==> nodes[n] == Placeholder(n)
  {
  }

  /** The assembly loop of read_network (lines 82-87): each adjacency key
      becomes a node carrying its weight (0.0 if unweighted) and exactly its
      adjacency list; every other referenced id is a value-0 placeholder with
      no neighbours. The order the keys are visited in does not matter. */
  method Assemble(adjacency: map<string, seq<string>>, weights: map<string, real>) returns (net: Network)
    ensures fresh(net) && net.Valid()
    ensures net.nodes.Keys == adjacency.Keys + Referenced(adjacency, adjacency.Keys)
    ensures forall k :: k in adjacency ==>
      net.nodes[k] == Node(k, WeightOrZero(weights, k), adjacency[k])
    ensures forall n :: n in net.nodes && n !in adjacency ==> net.nodes[n] == Placeholder(n)
  {
    net := new Network();
    var rest := adjacency.Keys;
    ghost var done: set<string> := {};
    while rest != {}
      invariant forall k :: k in rest <==> k in adjacency && k !in done
      invariant net.Valid()
      invariant AssembledUpTo(adjacency, weights, done, net.nodes)
      decreases |rest|
    {
      var key :| key in rest;
      var w := WeightOrZero(weights, key);
      ghost var before := net.nodes;
      PendingIsPlaceholder(adjacency, weights, done, before, key);
      if net.HasNode(key) {
        net.SetVal(key, w);
      } else {
        net.AddNode(key, w);
      }
      assert net.nodes == before[key := Node(key, w, [])];
      net.AddNeighbors(key, adjacency[key]);
      AssembleStep(adjacency, weights, done, before, key);
      assert AssembledUpTo(adjacency, weights, done + {key}, net.nodes);
      rest := rest - {key};
      done := done + {key};
    }
    assert done == adjacency.Keys;
    AssembledAll(adjacency, weights, net.nodes);
  }

  /** read_network on already-parsed tables: compute the weight table, then
      assemble the graph. A prediction row for a tract with no feature row
      aborts before any graph is built. */
  method ReadNetwork(adjacency: map<string, seq<string>>, features: map<string, Features>,
                     rows: seq<PredictionRow>, computeWeight: WeightFunction)
    returns (r: Result<Network, Error>)
    ensures r.Err? <==> exists i :: 0 <= i < |rows| && rows[i].geoId !in features
    ensures r.Err? ==> exists i :: (0 <= i < |rows| && rows[i].geoId !in features
      && r.error == MissingFeatures(rows[i].geoId)
      && forall j :: 0 <= j < i ==> rows[j].geoId in features)
    ensures r.Ok? ==> fresh(r.value) && r.value.Valid()
    ensures r.Ok? ==> r.value.nodes.Keys == adjacency.Keys + Referenced(adjacency, adjacency.Keys)
    ensures r.Ok? ==> forall k :: k in adjacency ==>
      r.value.nodes[k].neighbors == adjacency[k]
      && (forall i :: 0 <= i < |rows| && rows[i].geoId == k && LastRowFor(rows, i) ==>
            r.value.nodes[k].value == RowWeight(rows[i], features, computeWeight))
      && ((forall i :: 0 <= i < |rows| ==> rows[i].geoId != k) ==> r.value.nodes[k].value == 0.0)
    ensures r.Ok? ==> forall n :: n in r.value.nodes && n !in adjacency ==> r.value.nodes[n] == Placeholder(n)
  {
    var weights := ComputeWeights(rows, features, computeWeight);
    if weights.Err? {
      return Err(weights.error);
    }
    var net := Assemble(adjacency, weights.value);
    r := Ok(net);
  }
}
