# Ising model of a social network: graph building, per-user energies and Metropolis simulation

This project models the computational core of the "IBM Z Datathon Ising Model" repository.
That repository builds an undirected networkx graph of users from the rows of a pandas
DataFrame, where each row gives a source and a target user. It merges per-row values
(such as timestamps) into node and edge attribute lists, and writes each user's `spin`
from a DataFrame. It then treats the users as Ising spins in two ways:

- **Static analysis** (`ising.py`). Every user `n` with behaviour `b_n ∈ {+1, -1}` gets
  the energy `-J · b_n · Σ_{m ∈ nbrs(n)} b_m`. Users whose energy has magnitude below a
  threshold are reported as "susceptible".
- **Metropolis simulation** (`IsingModel.py`). A ±1 spin array indexed through a
  node-to-slot map carries the total energy `-Σ_{(u,v) ∈ E} s_u·s_v`. Single-spin flips are
  accepted or undone by the Metropolis rule, one node at a time, for a number of sweeps
  per temperature. After the sweeps at each temperature, the mean spin is recorded.

A networkx graph is the class `NetworkGraph.Graph`. Its field `topo` holds the shape: the
node list in insertion order, and one entry per undirected edge. The node dictionaries are
a map from node to attribute dictionary, and the edge dictionaries are a list in step with
the edges. `Coupled(J, x)` is `-J · x`, the coupling constant applied to an integer
quantity.

The Dafny modules follow the source files:

| module | file | models |
|---|---|---|
| `NetworkGraph` | `network_graph.dfy` | the part of networkx's undirected `Graph` the code relies on: `Graph()`, `add_edge`, `node in G`, `has_edge`, `neighbors`, node and edge attribute dictionaries |
| `GraphHandling` | `graph_handling.dfy` | `create_graph`, `add_node_attributes`, `add_edge_attributes` of `src/network_graph/graph_handling.py` |
| `GraphLoader` | `graph_loader.dfy` | `create_graph`, `add_node_attributes` of `src/network_graph/graph_loader.py` |
| `ProcessNodes` | `process_nodes.dfy` | `process_nodes` of `src/network_graph/process_nodes.py` |
| `IsingAnalysis` | `ising.dfy` | `ising_energy`, `identify_susceptible_users` of `src/Ising_Model/ising.py` |
| `Metropolis` | `ising_model.dfy` | class `IsingModel` of `src/Ising_Model/IsingModel.py` |

Each loop of the source is a Dafny method with a loop. The method is proved against a
function that folds the rows, edges or nodes one at a time. Closed-form lemmas then say
what that fold means. For example:

- After `add_node_attributes`, a node's list is its old value followed by the values of
  the rows naming it, in row order.
- After `process_nodes`, a node's `spin` is the value of the last row naming it.
- The per-node energies add up to twice the edge energy.
- A Metropolis trial is exactly the textbook rule stated with the local energy change
  `2·s_i·Σ_{j ∈ nbrs(i)} s_j`.

The two global random generators (`np.random.choice` and `random.random`) are oracles held
by class `Rng`, with a cursor counting how many draws each has consumed. The simulation
is therefore a deterministic function of those draws.

## Model

| member | source | states |
|---|---|---|
| NetworkGraph.FindEdge | src/network_graph/graph_handling.py:89 | the first position joining `a` and `b` in either orientation; it is past the end exactly when the graph has no such edge |
| NetworkGraph.AddEdgeTo | src/network_graph/graph_handling.py:26 | `add_edge(u, v)` keeps the graph well formed (distinct nodes, edges between nodes, one entry per undirected edge); the nodes become exactly the old ones plus `u` and `v`; an edge is appended exactly when `u` and `v` were not yet joined |
| NetworkGraph.AddEdgeToKeepsOrder | src/network_graph/graph_handling.py:26 | the existing nodes keep their positions ahead of any new ones, and `u` and `v` are joined afterwards |
| NetworkGraph.AddEdgeConsistent | src/network_graph/graph_handling.py:26 | after `add_edge` there is still a node dictionary for exactly the nodes and one edge dictionary per edge |
| NetworkGraph.AddFreshEdge | src/network_graph/graph_handling.py:26 | appending an edge between two nodes not yet joined keeps at most one entry per undirected edge |
| NetworkGraph.SameEdgeSameIndex | src/network_graph/graph_handling.py:89-100 | in a simple edge list two entries joining the same pair are the same entry, so `G.edges[u, v]` and `G.edges[v, u]` are one dictionary |
| NetworkGraph.Neighbors | src/Ising_Model/ising.py:25 | `m` is a neighbour of `n` exactly when an edge joins them |
| NetworkGraph.NoNeighbors | src/Ising_Model/ising.py:25 | a node has no neighbours exactly when no edge touches it |
| NetworkGraph.NeighborsAreNodes | src/Ising_Model/ising.py:26 | every neighbour is an endpoint of an edge, so its `behavior` lookup succeeds |
| NetworkGraph.NeighborSumSnoc | src/Ising_Model/ising.py:25-26 | one more edge adds its far end to the neighbour sum of each of its ends and nothing to other nodes |
| NetworkGraph.WithNode | src/network_graph/graph_handling.py:26 | a node new to the graph starts with an empty dictionary; existing dictionaries are kept |
| NetworkGraph.BareAfterAddEdge | src/network_graph/graph_handling.py:26 | adding an edge without attributes leaves every node and edge dictionary empty |
| NetworkGraph.Graph.constructor | src/network_graph/graph_handling.py:18 | `nx.Graph()` has no nodes, no edges and no attributes |
| NetworkGraph.Graph.Contains | src/network_graph/graph_handling.py:52 | `node in G` holds exactly for the nodes of the graph's shape `topo` |
| NetworkGraph.Graph.HasEdgeBetween | src/network_graph/graph_handling.py:89 | `G.has_edge(u, v)` holds exactly when some edge joins `u` and `v` either way round |
| NetworkGraph.Graph.AddEdge | src/network_graph/graph_handling.py:26 | the graph stays consistent and the new shape `topo` is `AddEdgeTo` of the old; new endpoints get empty dictionaries; a new edge gets an empty dictionary and an existing edge keeps its own |
| GraphHandling.MergeAttr | src/network_graph/graph_handling.py:54-63 | an absent attribute becomes `[d]`, a scalar `x` becomes `[x, d]`, a list gets `d` appended; no other key changes |
| GraphHandling.MergeAbsorb | src/network_graph/graph_handling.py:54-63 | merging one more value after the values `ds` is merging `ds + [d]` |
| GraphHandling.Build | src/network_graph/graph_handling.py:18-26 | the graph built edge by edge from an empty graph is well formed: distinct nodes, edges between nodes, one entry per undirected edge |
| GraphHandling.BuildRow | src/network_graph/graph_handling.py:21-26 | processing row `i` is one `add_edge` of its pair on the graph built from the rows before it |
| GraphHandling.BuildNodes | src/network_graph/graph_handling.py:18-28 | the nodes of the built graph are exactly the endpoints of the pairs |
| GraphHandling.BuildEdges | src/network_graph/graph_handling.py:18-28 | two nodes are joined in the built graph exactly when some row pairs them, either way round |
| GraphHandling.EdgeStep | src/network_graph/graph_handling.py:26 | after `add_edge(u, v)` two nodes are joined exactly when they were before or they are `u` and `v` |
| GraphHandling.CreateGraph | src/network_graph/graph_handling.py:5-28 | returns a fresh well-formed graph whose shape is the fold of `add_edge` over the row pairs, with no attributes |
| GraphHandling.NodeAttrsAfter | src/network_graph/graph_handling.py:47-63 | processing the rows keeps exactly the same set of nodes with dictionaries |
| GraphHandling.NodeAttrsClosedForm | src/network_graph/graph_handling.py:47-63 | a node's dictionary ends as its old one with the values of the rows naming it merged into `attribute_col` in row order; rows naming other nodes or no node have no effect on it |
| GraphHandling.AddNodeAttributes | src/network_graph/graph_handling.py:31-65 | returns the same graph; nodes, edges and edge dictionaries are unchanged; the node dictionaries are the row-by-row merge |
| GraphHandling.EdgeAttrsAfter | src/network_graph/graph_handling.py:83-100 | processing the rows keeps one dictionary per edge |
| GraphHandling.EdgeAttrsClosedForm | src/network_graph/graph_handling.py:83-100 | an edge's dictionary ends as its old one with the values of the rows naming that edge, in either orientation, merged in row order |
| GraphHandling.AddEdgeAttributes | src/network_graph/graph_handling.py:67-102 | returns the same graph; nodes, edges and node dictionaries are unchanged; the edge dictionaries are the row-by-row merge |
| GraphHandling.EdgeListLength | src/network_graph/graph_handling.py:98-100 | an edge without the attribute ends with the list of the matching rows' values, or still without it when no row matches |
| GraphLoader.CreateGraph | src/network_graph/graph_loader.py:4-27 | returns a fresh attribute-free graph whose nodes are exactly the row endpoints and whose edges are exactly the unordered row pairs |
| GraphLoader.EndsOfRows | src/network_graph/graph_loader.py:20-25 | a node is an endpoint of the pairs exactly when some row names it as source or target |
| GraphLoader.AddNodeAttributes | src/network_graph/graph_loader.py:30-64 | returns the same graph with nodes, edges and edge dictionaries unchanged; every node's dictionary is its old one with the values of the rows naming it merged in row order |
| GraphLoader.NodeListFromAbsent | src/network_graph/graph_loader.py:60-62 | a node without the attribute ends with the list of the values of the rows naming it, or still without it when no row names it; its other keys are unchanged |
| GraphLoader.ValuesForRows | src/network_graph/graph_loader.py:46-62 | the collected values are exactly the values of the rows naming the node, one per such row |
| ProcessNodes.SpinsAfter | src/network_graph/process_nodes.py:18-25 | processing the rows keeps exactly the same set of nodes with dictionaries |
| ProcessNodes.LastValueIsLast | src/network_graph/process_nodes.py:18-25 | the value a node ends with is absent exactly when no row names it, and otherwise comes from a row naming it after which no row names it |
| ProcessNodes.SpinsClosedForm | src/network_graph/process_nodes.py:18-25 | a node named by some row ends with `spin` set to the last such row's value; a node named by no row keeps its dictionary; other keys are untouched |
| ProcessNodes.ProcessNodes | src/network_graph/process_nodes.py:3-27 | returns the same graph; nodes, edges and edge dictionaries are unchanged; node dictionaries are the row-by-row overwrite of `spin` |
| IsingAnalysis.IsingEnergy | src/Ising_Model/ising.py:4-31 | the result has exactly the graph's nodes as keys, and node `n` maps to `-J · b_n · Σ_{m ∈ nbrs(n)} b_m` |
| IsingAnalysis.NeighborBehaviorSum | src/Ising_Model/ising.py:22-26 | the inner loop returns the sum of the neighbours' behaviours |
| IsingAnalysis.IdentifySusceptibleUsers | src/Ising_Model/ising.py:33-50 | a node is in the result exactly when it is a node whose energy has magnitude below `threshold`, and it maps to that energy |
| IsingAnalysis.IsolatedNodeEnergy | src/Ising_Model/ising.py:22-29 | a node without neighbours has energy 0 |
| IsingAnalysis.UniformAlignment | src/Ising_Model/ising.py:20-29 | when all behaviours are the same spin, a node's alignment is its number of neighbours |
| IsingAnalysis.UniformEnergy | src/Ising_Model/ising.py:29 | when all behaviours are the same spin, a node's energy is `-J` times its number of neighbours |
| IsingAnalysis.SusceptibleIffBalanced | src/Ising_Model/ising.py:48 | with `J = 1`, ±1 behaviours and threshold 0.5, a node is susceptible exactly when its neighbours' behaviours sum to 0 |
| IsingAnalysis.TouchSumValue | src/Ising_Model/ising.py:25-26 | over distinct nodes, an edge between two distinct nodes contributes `b_u · b_v` to the weighted neighbour sums once for each of its ends that is among the nodes |
| IsingAnalysis.WeightedSnocEdge | src/Ising_Model/ising.py:25-26 | one more edge adds its contribution to the weighted neighbour sums |
| IsingAnalysis.TermSnoc | src/Ising_Model/ising.py:25-29 | one more edge changes one node's alignment by that node's behaviour times what the edge adds to its neighbour sum |
| IsingAnalysis.WeightedIsTwiceEdgeSum | src/Ising_Model/ising.py:20-29 | on distinct nodes and edges without self-loops, `Σ_n b_n · Σ_{m ∈ nbrs(n)} b_m = -2 · E`, with `E` the total energy of `calculate_energy` |
| IsingAnalysis.WeightedIsSum | src/Ising_Model/ising.py:20-29 | the weighted neighbour sum is the sum of the per-node alignments |
| IsingAnalysis.EnergySumWeighted | src/Ising_Model/ising.py:29 | the per-node energies add up to `-J` times the weighted neighbour sum |
| IsingAnalysis.DoubleCounting | src/Ising_Model/ising.py:18-31 | on a graph without self-loops the per-node energies of `ising_energy` add up to `-J · (-2 · E)`, that is `2 · J · E`, where `E` is the total energy of `calculate_energy` |
| Metropolis.EnergyBounds | src/Ising_Model/IsingModel.py:36-45 | with ±1 spins the total energy lies in `[-|E|, |E|]` |
| Metropolis.AlignedEnergy | src/Ising_Model/IsingModel.py:36-45 | when all spins agree the total energy is the ground-state value `-|E|` |
| Metropolis.FlipDelta | src/Ising_Model/IsingModel.py:65-72 | on a graph without self-loops, flipping node `n` changes the total energy by `2 · s_n · Σ_{m ∈ nbrs(n)} s_m` |
| Metropolis.IndexOf | src/Ising_Model/IsingModel.py:27 | the keys are exactly the nodes; node `i` gets slot `i`; every slot names its node back |
| Metropolis.IndexOfIndexes | src/Ising_Model/IsingModel.py:27 | in a well-formed graph every slot is below the node count and every edge endpoint has a slot |
| Metropolis.IndexOfInjective | src/Ising_Model/IsingModel.py:27 | no two nodes share a slot |
| Metropolis.FlipThroughIndex | src/Ising_Model/IsingModel.py:54-55 | negating node `n`'s slot negates `n`'s spin and no other node's |
| Metropolis.FlipTwice | src/Ising_Model/IsingModel.py:75-76 | flipping the same node twice restores the array and its energy |
| Metropolis.Trial | src/Ising_Model/IsingModel.py:65-76 | a trial keeps the array length, keeps ±1 spins and changes no slot other than its own |
| Metropolis.TrialIsMetropolis | src/Ising_Model/IsingModel.py:65-76 | with `d = 2 · s_n · Σ s_m`: `d ≤ 0` keeps the flip and consumes no draw; `d > 0` consumes one draw and undoes the flip exactly when that draw rejects |
| Metropolis.ArrayFlipDelta | src/Ising_Model/IsingModel.py:65-72 | `new_energy - current_energy` for node `n` equals the local energy change `2 · s_n · Σ s_m` |
| Metropolis.TrialByDelta | src/Ising_Model/IsingModel.py:72-76 | the trial in terms of its energy change: undone only when the change is positive and the draw rejects, one draw consumed only on a positive change |
| Metropolis.SweepPrefix | src/Ising_Model/IsingModel.py:64-76 | after the first `k` trials, at most `k` draws are consumed, spins stay ±1, and slots from `k` on are untouched |
| Metropolis.Sweep | src/Ising_Model/IsingModel.py:57-76 | a sweep keeps ±1 spins and consumes at most one draw per node |
| Metropolis.Sweeps | src/Ising_Model/IsingModel.py:95-96 | `m` sweeps keep ±1 spins and consume at most `m` draws per node |
| Metropolis.SweepNeverRaisesEnergy | src/Ising_Model/IsingModel.py:64-76 | when every uphill move is rejected, no part of a sweep raises the total energy |
| Metropolis.TrialNeverRaisesEnergy | src/Ising_Model/IsingModel.py:75-76 | when every uphill move is rejected, a trial does not raise the total energy |
| Metropolis.Draw | src/Ising_Model/IsingModel.py:26 | `np.random.choice([-1, 1], size=n)` yields `n` entries, each ±1 |
| Metropolis.SumBounds | src/Ising_Model/IsingModel.py:99 | the sum of `n` spins lies in `[-n, n]` |
| Metropolis.MeanSpin | src/Ising_Model/IsingModel.py:99 | `np.mean(spins)` is NaN exactly for an empty array; otherwise it is the number whose product with the length is the sum, and for ±1 spins it lies in `[-1, 1]` |
| Metropolis.Simulation | src/Ising_Model/IsingModel.py:78-102 | one mean per temperature; the spin array keeps its length and holds ±1 spins once a temperature has been simulated |
| Metropolis.SimulationSnoc | src/Ising_Model/IsingModel.py:91-100 | one more temperature draws fresh spins from the next coin draws, runs the sweeps and appends one mean |
| Metropolis.SimulationMeansInRange | src/Ising_Model/IsingModel.py:99-100 | every recorded mean is in `[-1, 1]`, or NaN when the graph has no nodes |
| Metropolis.Rng.Choice | src/Ising_Model/IsingModel.py:26 | returns a fresh array of the next `n` coin draws as ±1 and advances the coin cursor by `n` |
| Metropolis.Rng.DrawRejects | src/Ising_Model/IsingModel.py:75 | reports whether the next uniform draw rejects and advances the uniform cursor by one |
| Metropolis.IsingModel.constructor | src/Ising_Model/IsingModel.py:17-27 | stores the graph and its node count, builds the node index, and draws one ±1 spin per node from the coin draws |
| Metropolis.IsingModel.ValidIndexInjective | src/Ising_Model/IsingModel.py:27 | in any valid model the index keys are exactly the graph's nodes and no two nodes share a slot |
| Metropolis.IsingModel.CalculateEnergy | src/Ising_Model/IsingModel.py:29-45 | returns the total energy `-Σ s_u · s_v` of the current array, which lies in `[-|E|, |E|]` |
| Metropolis.IsingModel.FlipSpin | src/Ising_Model/IsingModel.py:47-55 | negates the node's slot and leaves every other slot unchanged |
| Metropolis.IsingModel.TrialAt | src/Ising_Model/IsingModel.py:65-76 | the loop body for node `i` leaves the array and draw cursor as `Trial` prescribes |
| Metropolis.IsingModel.MonteCarloStep | src/Ising_Model/IsingModel.py:57-76 | leaves the array and draw cursor as `Sweep` prescribes; no coin draw is consumed |
| Metropolis.IsingModel.Equilibrate | src/Ising_Model/IsingModel.py:95-96 | `steps` sweeps, or none for a negative count, as `Sweeps` prescribes |
| Metropolis.IsingModel.Simulate | src/Ising_Model/IsingModel.py:78-102 | the result, final array and both cursors are `Simulation`'s; one value per temperature, each in `[-1, 1]` or NaN for an empty graph |

## Left out

- Plotting (`plot_correlation_vs_temperature`), the `tqdm` progress bar, `run_ising_model_analysis`
  (which calls the two modelled functions and prints) and `export_graph_to_csv` (file output)
  are not modelled: they are output only.
- The scrapers, sentiment scoring, community detection and visualisation files are not part
  of this model.
- Randomness: `np.random.choice` and `random.random` are oracles (`coin`, `rejects`) with
  draw counters. The test `random.random() >= np.exp(-ΔE / T)` is the oracle `rejects`,
  so floating-point `exp` is not modelled, and neither is the behaviour at `T = 0`.
- IsingAnalysis.IsingEnergy and IsingAnalysis.IdentifySusceptibleUsers return maps, which
  have no order, while the Python dicts keep node order; only the printing, which is not
  modelled, sees that order. The defaults `J=1.0` and `threshold=0.5` are ordinary
  parameters that every caller passes.
- Floating point: `J`, `threshold`, energies and means are exact reals. In exact reals
  `-J * b * s` and `-J * (b * s)` are the same. Spins, energies and sums are unbounded
  integers; numpy's 64-bit integers cannot overflow at these magnitudes.
- DataFrame cells and node identifiers are text (`string`); pandas' dtypes are not modelled.
  A missing column (`KeyError`) and a missing `behavior` (`KeyError`) are excluded by the
  preconditions `HasColumns` and `Labelled`.
- The graph in `ising.py` is documented as a directed `nx.DiGraph`, but every graph the
  repository builds is an undirected `nx.Graph`. The model treats it as undirected, so
  `neighbors` means both directions.
- `ising.py` reads `behavior` while `process_nodes` writes `spin`. The model passes the
  behaviours to `IsingEnergy` as a map from node to ±1 rather than reading a node attribute.
- `process_nodes.py` annotates a parameter with `pd.DataFrame` without importing pandas.
  As written, that module fails with `NameError` when it is imported. The model gives the
  function body its evident meaning.
- `networkx` neighbour order is adjacency insertion order. `Neighbors` lists neighbours in
  edge order. Only their sum is used, and a sum does not depend on the order.
- GraphLoader.CreateGraph and GraphLoader.AddNodeAttributes run the GraphHandling methods.
  The Python functions are copies of each other line for line.
- The in-place aliasing of Python lists (appending to the list object stored in a
  dictionary) is modelled as replacing the dictionary entry with the longer list.
- Metropolis.FlipDelta, Metropolis.ArrayFlipDelta, Metropolis.TrialIsMetropolis: these
  require a graph without self-loops. A row whose source equals its target makes
  `create_graph` add a self-loop, and there the full-energy delta that the source and
  `Trial` compute differs from the local formula.
- IsingAnalysis.DoubleCounting and IsingAnalysis.WeightedIsTwiceEdgeSum: likewise, these
  require no self-loops.
- The loop bodies of `monte_carlo_step` and `simulate`, and the inner loop of
  `ising_energy`, are separate methods (`TrialAt`, `Equilibrate`, `NeighborBehaviorSum`).
  This keeps each proof small; the statements and their order are the source's.
