/** The static per-user analysis: each node's Ising energy -J·b_n·Σ_{m ∈ nbrs(n)} b_m from
    its `behavior` (+1 or -1) and its neighbours' behaviours, and the users whose energy is
    small in magnitude ("susceptible"). */
module IsingAnalysis {
  import opened NetworkGraph
  import Metropolis

  /** b_n · Σ_{m ∈ nbrs(n)} b_m: how far `n` agrees with its neighbours. */
  function Alignment(edges: seq<Edge>, behavior: map<NodeId, int>, n: NodeId): int
    requires EndpointsIn(edges, behavior.Keys) && n in behavior
  {
    behavior[n] * NeighborSum(edges, n, behavior)
  }

  /** -J · x: an integer quantity weighted by the coupling constant. */
  function Coupled(J: real, x: int): real
  {
    -J * x as real
  }

  /** The energy of node `n`: -J · b_n · Σ_{m ∈ nbrs(n)} b_m. */
  function NodeEnergy(edges: seq<Edge>, behavior: map<NodeId, int>, J: real, n: NodeId): real
    requires EndpointsIn(edges, behavior.Keys) && n in behavior
  {
    Coupled(J, Alignment(edges, behavior, n))
  }

  /** Every node of the graph carries a `behavior` (otherwise the lookup raises `KeyError`),
      and so does every endpoint of an edge. */
  predicate Labelled(nodes: seq<NodeId>, edges: seq<Edge>, behavior: map<NodeId, int>)
  {
    && (forall k :: 0 <= k < |nodes| ==> nodes[k] in behavior)
    && EndpointsIn(edges, behavior.Keys)
  }

  /** `ising_energy(graph, J)`: for each node in turn, sum the neighbours' behaviours and
      record -J·b_n·sum. The result has exactly the graph's nodes as keys. */
  method IsingEnergy(nodes: seq<NodeId>, edges: seq<Edge>, behavior: map<NodeId, int>, J: real)
    returns (energy: map<NodeId, real>)
    requires Labelled(nodes, edges, behavior)
    ensures forall n :: n in energy <==> n in nodes
    ensures forall n :: n in energy ==> energy[n] == NodeEnergy(edges, behavior, J, n)
  {
    energy := map[];
    var i := 0;
    while i < |nodes|
      invariant 0 <= i <= |nodes|
      invariant forall n :: n in energy <==> n in nodes[..i]
      invariant forall n :: n in energy ==> n in behavior && energy[n] == NodeEnergy(edges, behavior, J, n)
    {
      var node := nodes[i];
      var nodeBehavior := behavior[node];
      var interactionSum := NeighborBehaviorSum(edges, behavior, node);
      var alignment := nodeBehavior * interactionSum;
      assert alignment == Alignment(edges, behavior, node);
      energy := energy[node := Coupled(J, alignment)];
      assert nodes[..i + 1] == nodes[..i] + [node];
      i := i + 1;
    }
    assert nodes[..i] == nodes;
  }

  /** The inner loop of `ising_energy`: add up `behavior` over `graph.neighbors(node)`. */
  method NeighborBehaviorSum(edges: seq<Edge>, behavior: map<NodeId, int>, node: NodeId) returns (sum: int)
    requires EndpointsIn(edges, behavior.Keys)
    ensures sum == NeighborSum(edges, node, behavior)
  {
    var neighbors := Neighbors(edges, node);
    NeighborsAreNodes(edges, node, behavior.Keys);
    sum := 0;
    var j := 0;
    while j < |neighbors|
      invariant 0 <= j <= |neighbors|
      invariant sum == SumOver(neighbors[..j], behavior)
    {
      assert neighbors[..j + 1][..j] == neighbors[..j];
      sum := sum + behavior[neighbors[j]];
      j := j + 1;
    }
    assert neighbors[..j] == neighbors;
  }

  /** `abs(x)`. */
  function Abs(x: real): real
  {
    if x < 0.0 then -x else x
  }

  /** `identify_susceptible_users(graph, J, threshold)`: the entries of `ising_energy` whose
      magnitude is below `threshold`, values unchanged; a sub-map of the energies. */
  method IdentifySusceptibleUsers(nodes: seq<NodeId>, edges: seq<Edge>, behavior: map<NodeId, int>,
                                  J: real, threshold: real)
    returns (susceptible: map<NodeId, real>)
    requires Labelled(nodes, edges, behavior)
    ensures forall n :: n in susceptible <==> n in nodes && Abs(NodeEnergy(edges, behavior, J, n)) < threshold
    ensures forall n :: n in susceptible ==> susceptible[n] == NodeEnergy(edges, behavior, J, n)
  {
    var energyValues := IsingEnergy(nodes, edges, behavior, J);
    susceptible := map n | n in energyValues && Abs(energyValues[n]) < threshold :: energyValues[n];
  }

  // ---------------------------------------------------------------------------
  // Properties of the per-node energy

  /** A node without neighbours has energy 0. */
  lemma IsolatedNodeEnergy(edges: seq<Edge>, behavior: map<NodeId, int>, J: real, n: NodeId)
    requires EndpointsIn(edges, behavior.Keys) && n in behavior
    requires forall m :: !HasEdge(edges, n, m)
    ensures NodeEnergy(edges, behavior, J, n) == 0.0
  {
    NoNeighbors(edges, n);
  }

  /** A sum over nodes that all carry the value `b` is `b` times their number. */
  lemma {:induction false} UniformSum(ns: seq<NodeId>, value: map<NodeId, int>, b: int)
    requires forall k :: 0 <= k < |ns| ==> ns[k] in value && value[ns[k]] == b
    ensures SumOver(ns, value) == b * |ns|
  {
    if ns != [] {
      UniformSum(ns[..|ns| - 1], value, b);
    }
  }

  /** When every behaviour is the same spin, a node's energy is -J times its number of
      neighbours. */
  lemma UniformEnergy(edges: seq<Edge>, behavior: map<NodeId, int>, J: real, n: NodeId, b: int)
    requires EndpointsIn(edges, behavior.Keys) && n in behavior
    requires b == 1 || b == -1
    requires forall m :: m in behavior ==> behavior[m] == b
    ensures NodeEnergy(edges, behavior, J, n) == -J * |Neighbors(edges, n)| as real
  {
    UniformAlignment(edges, behavior, n, b);
  }

  /** When every behaviour is the same spin, a node agrees with each of its neighbours. */
  lemma UniformAlignment(edges: seq<Edge>, behavior: map<NodeId, int>, n: NodeId, b: int)
    requires EndpointsIn(edges, behavior.Keys) && n in behavior
    requires b == 1 || b == -1
    requires forall m :: m in behavior ==> behavior[m] == b
    ensures Alignment(edges, behavior, n) == |Neighbors(edges, n)|
  {
    var ns := Neighbors(edges, n);
    NeighborsAreNodes(edges, n, behavior.Keys);
    UniformSum(ns, behavior, b);
    SpinTimesMultiple(behavior[n], NeighborSum(edges, n, behavior), |ns|);
  }

  /** s · (s · k) = k for a spin s. */
  lemma SpinTimesMultiple(s: int, sum: int, k: int)
    requires (s == 1 || s == -1) && sum == s * k
    ensures s * sum == k
  {
  }

  /** With J = 1, ±1 behaviours and threshold 0.5, a node is susceptible exactly when its
      neighbours' behaviours cancel out. */
  lemma SusceptibleIffBalanced(edges: seq<Edge>, behavior: map<NodeId, int>, n: NodeId)
    requires EndpointsIn(edges, behavior.Keys) && n in behavior
    requires behavior[n] == 1 || behavior[n] == -1
    ensures Abs(NodeEnergy(edges, behavior, 1.0, n)) < 0.5 <==> NeighborSum(edges, n, behavior) == 0
  {
    var s := NeighborSum(edges, n, behavior);
    assert Alignment(edges, behavior, n) == 0 <==> s == 0;
  }

  // ---------------------------------------------------------------------------
  // Double counting: the per-node energies add up to twice the edge energy

  /** Σ_{n ∈ nodes} b_n · Σ_{m ∈ nbrs(n)} b_m. */
  function Weighted(nodes: seq<NodeId>, edges: seq<Edge>, behavior: map<NodeId, int>): int
    requires Labelled(nodes, edges, behavior)
  {
    if nodes == [] then 0
    else
      var n := nodes[|nodes| - 1];
      Weighted(nodes[..|nodes| - 1], edges, behavior) + Alignment(edges, behavior, n)
  }

  /** What the edge `e` adds to the neighbour sum of `n`. */
  function Touch(e: Edge, n: NodeId, behavior: map<NodeId, int>): int
    requires e.u in behavior && e.v in behavior
  {
    if e.u == n then behavior[e.v] else if e.v == n then behavior[e.u] else 0
  }

  /** Σ_{n ∈ nodes} b_n · Touch(e, n). */
  function TouchSum(nodes: seq<NodeId>, e: Edge, behavior: map<NodeId, int>): int
    requires forall k :: 0 <= k < |nodes| ==> nodes[k] in behavior
    requires e.u in behavior && e.v in behavior
  {
    if nodes == [] then 0
    else
      var n := nodes[|nodes| - 1];
      TouchSum(nodes[..|nodes| - 1], e, behavior) + behavior[n] * Touch(e, n, behavior)
  }

  /** An edge between two distinct nodes is seen once from each end. */
  lemma {:induction false} TouchSumValue(nodes: seq<NodeId>, e: Edge, behavior: map<NodeId, int>)
    requires forall k :: 0 <= k < |nodes| ==> nodes[k] in behavior
    requires e.u in behavior && e.v in behavior
    requires Distinct(nodes) && e.u != e.v
    ensures TouchSum(nodes, e, behavior)
         == (if e.u in nodes then behavior[e.u] * behavior[e.v] else 0)
          + (if e.v in nodes then behavior[e.v] * behavior[e.u] else 0)
  {
    if nodes != [] {
      var prefix := nodes[..|nodes| - 1];
      var n := nodes[|nodes| - 1];
      assert nodes == prefix + [n];
      DistinctSnoc(prefix, n);
      TouchSumValue(prefix, e, behavior);
    }
  }

  /** One more edge adds its `Touch` to every node's term. */
  lemma {:induction false} WeightedSnocEdge(nodes: seq<NodeId>, edges: seq<Edge>, e: Edge, behavior: map<NodeId, int>)
    requires Labelled(nodes, edges + [e], behavior)
    ensures Labelled(nodes, edges, behavior) && e.u in behavior && e.v in behavior
    ensures Weighted(nodes, edges + [e], behavior) == Weighted(nodes, edges, behavior) + TouchSum(nodes, e, behavior)
  {
    LabelledPrefix(nodes, edges, e, behavior);
    if nodes != [] {
      var prefix := nodes[..|nodes| - 1];
      var n := nodes[|nodes| - 1];
      WeightedSnocEdge(prefix, edges, e, behavior);
      TermSnoc(edges, e, n, behavior);
    }
  }

  /** The edge list without its new edge still has labelled endpoints. */
  lemma LabelledPrefix(nodes: seq<NodeId>, edges: seq<Edge>, e: Edge, behavior: map<NodeId, int>)
    requires Labelled(nodes, edges + [e], behavior)
    ensures Labelled(nodes, edges, behavior) && e.u in behavior && e.v in behavior
  {
    var all := edges + [e];
    assert all[|all| - 1] == e;
    assert forall k :: 0 <= k < |edges| ==> edges[k] == all[k];
  }

  /** One node's term after one more edge. */
  lemma TermSnoc(edges: seq<Edge>, e: Edge, n: NodeId, behavior: map<NodeId, int>)
    requires EndpointsIn(edges + [e], behavior.Keys) && n in behavior
    requires e.u in behavior && e.v in behavior
    ensures EndpointsIn(edges, behavior.Keys)
    ensures Alignment(edges + [e], behavior, n) == Alignment(edges, behavior, n) + behavior[n] * Touch(e, n, behavior)
  {
    NeighborSumSnoc(edges, e, n, behavior);
    var b := behavior[n];
    var x := NeighborSum(edges, n, behavior);
    var t := Touch(e, n, behavior);
    assert b * (x + t) == b * x + b * t;
  }

  /** Σ_n b_n · Σ_{m ∈ nbrs(n)} b_m = 2 · Σ_{(u,v) ∈ edges} b_u · b_v, when every endpoint
      is a node, the nodes are distinct and there are no self-loops. */
  lemma {:induction false} WeightedIsTwiceEdgeSum(nodes: seq<NodeId>, edges: seq<Edge>, behavior: map<NodeId, int>)
    requires Labelled(nodes, edges, behavior)
    requires Distinct(nodes) && EndpointsIn(edges, set n | n in nodes) && NoSelfLoops(edges)
    ensures Weighted(nodes, edges, behavior) == -2 * Metropolis.TotalEnergy(edges, behavior)
  {
    if edges == [] {
      WeightedNoEdges(nodes, behavior);
    } else {
      var prefix := edges[..|edges| - 1];
      var e := edges[|edges| - 1];
      assert edges == prefix + [e];
      WeightedSnocEdge(nodes, prefix, e, behavior);
      WeightedIsTwiceEdgeSum(nodes, prefix, behavior);
      TouchSumValue(nodes, e, behavior);
      assert e.u in nodes && e.v in nodes;
    }
  }

  /** Without edges every neighbour sum, and so the weighted sum, is 0. */
  lemma {:induction false} WeightedNoEdges(nodes: seq<NodeId>, behavior: map<NodeId, int>)
    requires Labelled(nodes, [], behavior)
    ensures Weighted(nodes, [], behavior) == 0
  {
    if nodes != [] {
      WeightedNoEdges(nodes[..|nodes| - 1], behavior);
      assert Neighbors([], nodes[|nodes| - 1]) == [];
    }
  }

  /** The alignment of every node, in node order. */
  function Alignments(nodes: seq<NodeId>, edges: seq<Edge>, behavior: map<NodeId, int>): (r: seq<int>)
    requires Labelled(nodes, edges, behavior)
    ensures |r| == |nodes|
    ensures forall k :: 0 <= k < |nodes| ==> r[k] == Alignment(edges, behavior, nodes[k])
  {
    seq(|nodes|, k requires 0 <= k < |nodes| => Alignment(edges, behavior, nodes[k]))
  }

  /** Σ_k -J · xs[k]. */
  function ScaledSum(xs: seq<int>, J: real): real
  {
    if xs == [] then 0.0 else ScaledSum(xs[..|xs| - 1], J) + Coupled(J, xs[|xs| - 1])
  }

  /** Σ_{n ∈ nodes} energy(n): the k-th term -J · Alignments[k] is `NodeEnergy` of the k-th node. */
  function EnergySum(nodes: seq<NodeId>, edges: seq<Edge>, behavior: map<NodeId, int>, J: real): real
    requires Labelled(nodes, edges, behavior)
  {
    ScaledSum(Alignments(nodes, edges, behavior), J)
  }

  /** The weighted sum is the plain sum of the alignments. */
  lemma {:induction false} WeightedIsSum(nodes: seq<NodeId>, edges: seq<Edge>, behavior: map<NodeId, int>)
    requires Labelled(nodes, edges, behavior)
    ensures Weighted(nodes, edges, behavior) == Metropolis.Sum(Alignments(nodes, edges, behavior))
  {
    if nodes != [] {
      var prefix := nodes[..|nodes| - 1];
      WeightedIsSum(prefix, edges, behavior);
      assert Alignments(nodes, edges, behavior)[..|nodes| - 1] == Alignments(prefix, edges, behavior);
    }
  }

  /** Scaling every term by -J scales the sum by -J. */
  lemma {:induction false} ScaledSumIsScaled(xs: seq<int>, J: real)
    ensures ScaledSum(xs, J) == Coupled(J, Metropolis.Sum(xs))
  {
    if xs != [] {
      var prefix := xs[..|xs| - 1];
      ScaledSumIsScaled(prefix, J);
      ScaleStep(ScaledSum(prefix, J), J, Metropolis.Sum(prefix), xs[|xs| - 1], Metropolis.Sum(xs));
    }
  }

  /** One more term of a sum scaled by -J. */
  lemma ScaleStep(total: real, J: real, w: int, a: int, sum: int)
    requires total == Coupled(J, w) && sum == w + a
    ensures total + Coupled(J, a) == Coupled(J, sum)
  {
  }

  /** On an undirected graph without self-loops the per-node energies add up to
      -J · (-2 · E) = 2 · J · E, with E = -Σ_{(u,v)} b_u · b_v the total edge energy: each
      edge is counted from both ends. */
  lemma DoubleCounting(nodes: seq<NodeId>, edges: seq<Edge>, behavior: map<NodeId, int>, J: real)
    requires Labelled(nodes, edges, behavior)
    requires Distinct(nodes) && EndpointsIn(edges, set n | n in nodes) && NoSelfLoops(edges)
    ensures EnergySum(nodes, edges, behavior, J) == Coupled(J, -2 * Metropolis.TotalEnergy(edges, behavior))
  {
    WeightedIsTwiceEdgeSum(nodes, edges, behavior);
    EnergyFromWeighted(nodes, edges, behavior, J);
  }

  /** The per-node energies are -J times the weighted sum, so a weighted sum of -2·E
      gives energies adding up to -J · (-2·E). */
  lemma EnergyFromWeighted(nodes: seq<NodeId>, edges: seq<Edge>, behavior: map<NodeId, int>, J: real)
    requires Labelled(nodes, edges, behavior)
    requires Weighted(nodes, edges, behavior) == -2 * Metropolis.TotalEnergy(edges, behavior)
    ensures EnergySum(nodes, edges, behavior, J) == Coupled(J, -2 * Metropolis.TotalEnergy(edges, behavior))
  {
    EnergySumWeighted(nodes, edges, behavior, J);
  }

  /** The per-node energies add up to -J times the weighted sum. */
  lemma EnergySumWeighted(nodes: seq<NodeId>, edges: seq<Edge>, behavior: map<NodeId, int>, J: real)
    requires Labelled(nodes, edges, behavior)
    ensures EnergySum(nodes, edges, behavior, J) == Coupled(J, Weighted(nodes, edges, behavior))
  {
    ScaledSumIsScaled(Alignments(nodes, edges, behavior), J);
    WeightedIsSum(nodes, edges, behavior);
  }
}
