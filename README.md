# Coverage graph and benefit weights of the education-deserts optimizer

This project models, in Dafny, the two pieces of the education-deserts
repository that carry program logic:

- **The coverage graph** (`network_reader.py`). A `Network` owns every census
  tract's `Node`, keyed by geo id. Each node holds a mutable value (the
  tract's benefit) and an ordered list of neighbouring tracts. Linking a node
  to an id that is not yet a node creates a value-0 placeholder. A node's
  total value is its own value plus the values of its neighbours not marked
  taken. `initial_sort` orders the ids by own value. `read_network` computes
  one weight per prediction row and then builds one node per adjacency key.
- **The weight functions** (`optimizer.py`). Each one clamps the predicted
  gain in attainment at zero and uses it to blend the tract's salary with the
  fixed reference salary 50516.

Module layout:

- `Wrappers` (`wrappers.dfy`): `Option` and `Result`.
- `Optimizer` (`optimizer.dfy`): the weight functions as functions over
  `real`, with lemmas about them.
- `Graph` (`graph.dfy`): the pure arena description of the graph. A node is
  the datatype `Node(geoId, value, neighbors)`, and neighbour references are
  ids into a `map<string, Node>`. It defines the total value
  (`TotalValue`), the effect of `add_neighbors` (`WithNeighbors`) and the
  lemmas about both.
- `NetworkReader` (`network_reader.dfy`): the class `Network`. Its methods
  update the `nodes` map in place and are proved against the `Graph`
  definitions. The module also holds the in-place array sort behind
  `initial_sort`, the weight-table loop, the assembly loop and
  `ReadNetwork`, which combines the last two.

The Python source cannot run as written: its methods lack `self`, a second
`__init__` shadows the first, `true` is undefined, `dict.keys()` cannot be
sorted in place, and a CSV reader cannot be sliced. The first `__init__`
(network_reader.py:5) also takes `(val, geo_id)`, while the call at
network_reader.py:86 passes `Node(key, weight)`, id first. The model follows
the evident intent instead:

- `Node(id, value)` builds a node with that id and value, in the argument
  order of the call site; `Node(id)` builds one whose value is 0.
- Methods act on their own object.
- `initial_sort` sorts the list of ids in descending order.
- The prediction rows are the CSV rows after the header.

Node methods act on nodes in place. In the arena they become `Network`
methods on the node's id:

- `set_val` becomes `SetVal`.
- `add_neighbor` becomes `AddNeighbor`.
- `get_total_value` becomes `GetTotalValue`.

`get_neighbors` and `get_id` are the fields `neighbors` and `geoId`
of a `Node`.

Where the design description of the system and the code disagree, the model
follows the code:

- The weight functions do not subtract the baseline salary. They return the
  blended salary, not a net gain (`Optimizer.ResultIsGrossNotNet`).
- `initial_sort` orders by a node's own value, not its total value.
- The salary figure has no fallback for a zero labour force.
  `SalaryFigure` reports that case as an error.
- No lazy-greedy selection loop exists in the code (no `take`, no
  reinsertion), so none is modelled.

## Model

| member | source | states |
|---|---|---|
| `Optimizer.AttainmentGain` | optimizer.py:4 | the gain is the larger of zero and `pct_pred - pct`: never negative, at least the raw difference, and equal to one of the two |
| `Optimizer.AddedAverageSalary` | optimizer.py:3-5 | the result is the salary moved by `diff` of the way towards 50516: `salary + diff * (50516 - salary)` |
| `Optimizer.AddedTotalSalary` | optimizer.py:7-9 | the total variant is exactly the population times the average variant |
| `Optimizer.NoGainKeepsSalary` | optimizer.py:3-9 | when the prediction is no better than the baseline, the gain is 0, the average variant returns `salary` and the total variant returns `population * salary` |
| `Optimizer.AverageIgnoresPopulation` | optimizer.py:3-5 | the first argument of the average variant has no effect on its result |
| `Optimizer.AverageBetweenSalaryAndReference` | optimizer.py:4-5 | for a salary at or below 50516 the result is at least the salary, and with a gain of at most 1 it is at most 50516 |
| `Optimizer.ResultIsGrossNotNet` | optimizer.py:3-9 | the results exceed the net gain `diff * (50516 - salary)` by the baseline salary (scaled by population for the total variant): the baseline is not subtracted |
| `Optimizer.WorkedExample` | optimizer.py:3-9 | population 1000, salary 40000, baseline 0.2, prediction 0.3 give a gain of 0.1, an average of 41051.6 (net 1051.6) and a total of 41051600 |
| `Graph.Placeholder` | network_reader.py:10-13 | the one-argument node constructor gives the id, value 0 and no neighbours |
| `Graph.Credit` | network_reader.py:33-34 | a taken neighbour adds 0, an untaken one adds its value |
| `Graph.NeighbourSum` | network_reader.py:32-34 | with non-negative values, the accumulated neighbour credit lies between 0 and the sum of all neighbour values |
| `Graph.TotalValue` | network_reader.py:30-35 | a node's total value is its own value plus the plain sum of the values of its neighbours not marked taken |
| `Graph.Untaken` | network_reader.py:32-34 | the ids kept are exactly the neighbours not marked taken |
| `Graph.NeighbourSumIsUntakenValues` | network_reader.py:30-35 | the accumulated neighbour credit equals the plain sum of the values of the neighbours not marked taken |
| `Graph.NeighbourSumAppend` | network_reader.py:30-35 | the credit of a concatenated neighbour list is the sum of the credits of its parts |
| `Graph.AllTakenAddNothing` | network_reader.py:32-34 | neighbours that are all taken contribute zero |
| `Graph.OwnValueWhenNeighboursTaken` | network_reader.py:30-35 | a node with no neighbours, or with every neighbour taken, has total value equal to its own value |
| `Graph.TakenValuesIrrelevant` | network_reader.py:33-34 | the total does not depend on the values of taken neighbours: two arenas that agree on the untaken neighbours give the same sum |
| `Graph.MoreTakenNeverRaises` | network_reader.py:30-35 | with non-negative values, marking more neighbours taken never increases the neighbour credit |
| `Graph.WorkedExampleTotals` | network_reader.py:30-35 | for A(10; B, C), B(5; A), C(3; A) the totals are 18, 15 and 13, and B's total is 5 once A is taken |
| `Graph.AttachOne` | network_reader.py:49-53 | one iteration adds the id to the node set, appends it to the target's neighbour list, leaves every other existing node unchanged, and creates a placeholder when the id was absent |
| `Graph.WithNeighbors` | network_reader.py:47-53 | after `add_neighbors`, the node ids are exactly the old ids plus the listed ids |
| `Graph.WithNeighborsAppends` | network_reader.py:47-53 | the target node's neighbour list grows by exactly the given ids, appended in the given order; its id and value are unchanged |
| `Graph.WithNeighborsKeepsOthers` | network_reader.py:47-53 | every other existing node is unchanged: no existing node is replaced and no reverse edge is added |
| `Graph.WithNeighborsPlaceholders` | network_reader.py:49-53 | every node that `add_neighbors` creates is one of the listed ids and is a placeholder with value 0 and no neighbours |
| `Graph.WithNeighborsWellFormed` | network_reader.py:47-53 | `add_neighbors` keeps every node filed under its own id with every neighbour id resolving to a node |
| `Graph.AttachedTotal` | network_reader.py:30-53 | after `add_neighbors(g, ids)`, g's total value is its old total plus the credit of the newly attached ids |
| `Graph.FirstIsMaximum` | network_reader.py:58-60 | the first id of a list ordered by descending value that holds every node id once names a node of greatest own value |
| `NetworkReader.Network.constructor` | network_reader.py:38-39 | a new network has no nodes |
| `NetworkReader.Network.AddNode` | network_reader.py:41-42 | `add_node(Node(id, value))` files a fresh node with no neighbours under its id, changes nothing else and keeps the arena well formed |
| `NetworkReader.Network.HasNode` | network_reader.py:44-45 | true exactly when a node is filed under the id, and in a valid network that node carries the id |
| `NetworkReader.Network.GetVal` | network_reader.py:55-56 | returns the value of the node filed under the id |
| `NetworkReader.Network.SetVal` | network_reader.py:15-16 | only the node's value changes, to the given value |
| `NetworkReader.Network.AddNeighbor` | network_reader.py:21-22 | only the node's neighbour list changes, by one id appended at the end |
| `NetworkReader.Network.AddNeighbors` | network_reader.py:47-53 | the loop leaves the arena equal to `WithNeighbors` of the old arena, whose properties are the `Graph.WithNeighbors*` lemmas |
| `NetworkReader.Network.GetTotalValue` | network_reader.py:30-35 | the accumulating loop returns the node's `TotalValue`: its own value plus the values of neighbours not marked taken |
| `NetworkReader.Network.InitialSort` | network_reader.py:58-60 | `sortedList` holds every node id exactly once, ordered by non-increasing own value |
| `NetworkReader.SortByValueDescending` | network_reader.py:60 | the in-place sort leaves the array a permutation of its old contents, ordered by non-increasing own value |
| `NetworkReader.SalaryFigure` | network_reader.py:70 | the figure exists exactly when the labour force is nonzero, and then times the labour force it gives income times households |
| `NetworkReader.PredictionOrZero` | network_reader.py:77-80 | a parsed prediction is used as is; a field that does not parse gives 0.0 |
| `NetworkReader.RowWeight` | network_reader.py:76-80 | a row's weight is the weight function applied to its tract's population, salary and baseline and to the parsed prediction, or to 0.0 when it does not parse |
| `NetworkReader.ComputeWeights` | network_reader.py:75-80 | aborts exactly when some prediction row's tract has no features, reporting the first such row; otherwise there is one weight per predicted tract, from that tract's last row, computed with prediction 0.0 when the value did not parse |
| `NetworkReader.WeightOrZero` | network_reader.py:84-86 | a node gets its tract's entry in the weight table, or 0.0 when the table has none |
| `NetworkReader.AssembleStep` | network_reader.py:82-87 | one iteration of the assembly loop preserves the loop's description of the graph built so far |
| `NetworkReader.Assemble` | network_reader.py:82-87 | each adjacency key becomes a node with its weight (0.0 if unweighted) and exactly its adjacency list; every other node is a value-0 placeholder for a referenced id; the arena is well formed |
| `NetworkReader.ReadNetwork` | network_reader.py:62-89 | fails exactly when a prediction row names a tract with no features, reporting the first such row; otherwise the graph has the node set, the neighbour lists and the values (last row's weight, or 0.0) stated for `Assemble` and `ComputeWeights` |

## Left out

- File and JSON/CSV reading in `read_network` (network_reader.py:63-75): the adjacency map, feature table and prediction rows are passed in as values. A prediction field that does not parse is `None`.
- Building the feature table from census rows (network_reader.py:69-71): only the per-row salary arithmetic is modelled, as `SalaryFigure`.
- Dictionary insertion order: the adjacency keys are visited in an unspecified order. The final graph is proved the same for every order. The order of ties in `initial_sort` is not specified.
- NetworkReader.SortByValueDescending: does not state that the sort is stable. Python's sort keeps tied ids in insertion order; the model only promises a descending permutation.
- NetworkReader.Network.AddNode: takes an id and a value rather than a node object, because every call site passes a freshly built node. When an id already exists, Python replaces the dictionary entry while other nodes keep references to the old object. In the arena they refer to the new node. No call site does this.
- NetworkReader.Network.AddNeighbors: requires the node to exist, as it does at the only call site (network_reader.py:87, after :83-86 have created it). For an absent node the source does not always fail, and a failure can leave changes behind. With an empty id list nothing happens. If the first listed id is the node's own id, :52 creates it as a placeholder and :53 links it to itself, with no error. If the first listed id is some other absent id, :52 adds its placeholder before :53 raises a lookup error. If it is present, :50 raises at once.
- NetworkReader.Network.GetTotalValue: `taken` is a map from id to flag. Every neighbour id must be a key, where the source would raise a lookup error.
- Floating point: values and weights are exact reals, with no rounding.
- data-preprocessing.py, data_preprocessing.py, index_builder.py and helper.py: downloads, shapefile and spatial-index queries, and trigonometry. These are I/O and foreign geometry libraries.
