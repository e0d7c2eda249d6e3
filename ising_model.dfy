/** The Metropolis engine of `IsingModel`: a ±1 spin per node, the total energy
    -Σ_{(u,v) ∈ edges} s_u·s_v, single-spin flips, one Monte Carlo sweep in node order
    and the temperature driver that reports the mean spin per temperature. */
module Metropolis {
  import opened NetworkGraph

  // ---------------------------------------------------------------------------
  // Spins and energy

  /** Every entry is a spin, +1 or -1. */
  predicate AllSpins(s: seq<int>)
  {
    forall k :: 0 <= k < |s| ==> s[k] == 1 || s[k] == -1
  }

  predicate SpinValues(spin: map<NodeId, int>)
  {
    forall n :: n in spin ==> spin[n] == 1 || spin[n] == -1
  }

  /** -Σ_{(u, v) ∈ edges} s_u · s_v, accumulated edge by edge. */
  function TotalEnergy(edges: seq<Edge>, spin: map<NodeId, int>): int
    requires EndpointsIn(edges, spin.Keys)
  {
    if edges == [] then 0
    else
      var e := edges[|edges| - 1];
      TotalEnergy(edges[..|edges| - 1], spin) - spin[e.u] * spin[e.v]
  }

  /** With ±1 spins every edge contributes -1 or +1, so the energy lies in [-|E|, |E|]. */
  lemma {:induction false} EnergyBounds(edges: seq<Edge>, spin: map<NodeId, int>)
    requires EndpointsIn(edges, spin.Keys) && SpinValues(spin)
    ensures -|edges| <= TotalEnergy(edges, spin) <= |edges|
  {
    if edges != [] {
      var e := edges[|edges| - 1];
      EnergyBounds(edges[..|edges| - 1], spin);
      assert spin[e.u] * spin[e.v] == 1 || spin[e.u] * spin[e.v] == -1 by {
        assert spin[e.u] == 1 || spin[e.u] == -1;
        assert spin[e.v] == 1 || spin[e.v] == -1;
      }
    }
  }

  /** When all spins agree every edge contributes -1: the ground-state energy -|E|. */
  lemma {:induction false} AlignedEnergy(edges: seq<Edge>, spin: map<NodeId, int>, s: int)
    requires EndpointsIn(edges, spin.Keys)
    requires s == 1 || s == -1
    requires forall n :: n in spin ==> spin[n] == s
    ensures TotalEnergy(edges, spin) == -|edges|
  {
    if edges != [] {
      var e := edges[|edges| - 1];
      AlignedEnergy(edges[..|edges| - 1], spin, s);
      assert spin[e.u] * spin[e.v] == s * s;
    }
  }

  /** The local energy change of flipping `n`: 2·s_n·Σ_{m ∈ nbrs(n)} s_m. */
  function LocalDelta(edges: seq<Edge>, n: NodeId, spin: map<NodeId, int>): int
    requires EndpointsIn(edges, spin.Keys) && n in spin
  {
    2 * spin[n] * NeighborSum(edges, n, spin)
  }

  /** The key identity behind the Metropolis step: on a graph without self-loops,
      flipping the spin of `n` changes the total energy by 2·s_n·Σ_{m ∈ nbrs(n)} s_m,
      where s_n is the spin before the flip. */
  lemma {:induction false} FlipDelta(edges: seq<Edge>, spin: map<NodeId, int>, n: NodeId)
    requires EndpointsIn(edges, spin.Keys) && n in spin
    requires NoSelfLoops(edges)
    ensures EndpointsIn(edges, spin[n := -spin[n]].Keys)
    ensures TotalEnergy(edges, spin[n := -spin[n]]) - TotalEnergy(edges, spin)
         == LocalDelta(edges, n, spin)
  {
    var flipped := spin[n := -spin[n]];
    assert flipped.Keys == spin.Keys;
    if edges == [] {
      assert Neighbors(edges, n) == [];
    } else {
      var prefix := edges[..|edges| - 1];
      var e := edges[|edges| - 1];
      assert edges == prefix + [e];
      assert e.u != e.v;
      FlipDelta(prefix, spin, n);
      NeighborSumSnoc(prefix, e, n, spin);
      var s := spin[n];
      var x := if e.u == n then spin[e.v] else if e.v == n then spin[e.u] else 0;
      var before := spin[e.u] * spin[e.v];
      var after := flipped[e.u] * flipped[e.v];
      assert before - after == 2 * s * x by {
        if e.u == n || e.v == n {
          EdgeFlip(spin[e.u], spin[e.v], flipped[e.u], flipped[e.v], s, x);
        }
      }
      SnocDelta(TotalEnergy(prefix, flipped), TotalEnergy(prefix, spin),
                TotalEnergy(edges, flipped), TotalEnergy(edges, spin),
                before, after, s, NeighborSum(prefix, n, spin), x, NeighborSum(edges, n, spin));
    }
  }

  /** Negating one end of an edge changes its product a·b by twice (that end)·(the other). */
  lemma EdgeFlip(a: int, b: int, a': int, b': int, s: int, x: int)
    requires (a' == -a && b' == b && s == a && x == b) || (a' == a && b' == -b && s == b && x == a)
    ensures a * b - a' * b' == 2 * s * x
  {
  }

  /** One more edge: the prefix's energy change plus the last edge's change is the
      whole change, and it distributes over the neighbour sum. */
  lemma SnocDelta(prefixFlipped: int, prefixSpin: int, allFlipped: int, allSpin: int,
                  before: int, after: int, s: int, prefixSum: int, x: int, allSum: int)
    requires allFlipped == prefixFlipped - after && allSpin == prefixSpin - before
    requires prefixFlipped - prefixSpin == 2 * s * prefixSum
    requires before - after == 2 * s * x
    requires allSum == prefixSum + x
    ensures allFlipped - allSpin == 2 * s * allSum
  {
  }

  // ---------------------------------------------------------------------------
  // The node index and the spin array

  /** `{node: i for i, node in enumerate(nodes)}`. */
  function IndexOf(nodes: seq<NodeId>): (idx: map<NodeId, nat>)
    requires Distinct(nodes)
    ensures forall n :: n in idx <==> n in nodes
    ensures forall i :: 0 <= i < |nodes| ==> idx[nodes[i]] == i
    ensures forall n :: n in idx ==> idx[n] < |nodes| && nodes[idx[n]] == n
  {
    if nodes == [] then map[]
    else
      var k := |nodes| - 1;
      var prefix := nodes[..k];
      assert nodes == prefix + [nodes[k]];
      DistinctSnoc(prefix, nodes[k]);
      IndexOf(prefix)[nodes[k] := k]
  }

  /** Every node has a slot below `size`, and every edge joins indexed nodes. */
  ghost predicate Indexed(edges: seq<Edge>, idx: map<NodeId, nat>, size: nat)
  {
    (forall n :: n in idx ==> idx[n] < size) && EndpointsIn(edges, idx.Keys)
  }

  lemma IndexOfIndexes(t: Topology)
    requires WellFormed(t)
    ensures Indexed(t.edges, IndexOf(t.nodes), |t.nodes|)
  {
    var idx := IndexOf(t.nodes);
    forall k | 0 <= k < |t.edges| ensures t.edges[k].u in idx && t.edges[k].v in idx {
      assert t.edges[k].u in (set n | n in t.nodes);
      assert t.edges[k].v in (set n | n in t.nodes);
    }
  }

  /** The spin of each node, read through the index. */
  function SpinMap(idx: map<NodeId, nat>, s: seq<int>): (spin: map<NodeId, int>)
    requires forall n :: n in idx ==> idx[n] < |s|
    ensures spin.Keys == idx.Keys
    ensures forall n :: n in spin ==> spin[n] == s[idx[n]]
  {
    map n | n in idx :: s[idx[n]]
  }

  /** `calculate_energy()` for the spin array `s`. */
  function Energy(edges: seq<Edge>, idx: map<NodeId, nat>, s: seq<int>): int
    requires Indexed(edges, idx, |s|)
  {
    TotalEnergy(edges, SpinMap(idx, s))
  }

  /** No two nodes share a slot. */
  predicate Injective(idx: map<NodeId, nat>)
  {
    forall a, b :: a in idx && b in idx && idx[a] == idx[b] ==> a == b
  }

  lemma IndexOfInjective(nodes: seq<NodeId>)
    requires Distinct(nodes)
    ensures Injective(IndexOf(nodes))
  {
  }

  /** Negating slot `idx[n]` of the array is negating the spin of `n` and of no other
      node, because the index is one-to-one. */
  lemma FlipThroughIndex(idx: map<NodeId, nat>, s: seq<int>, n: NodeId)
    requires Injective(idx) && n in idx
    requires forall m :: m in idx ==> idx[m] < |s|
    ensures SpinMap(idx, s[idx[n] := -s[idx[n]]]) == SpinMap(idx, s)[n := -s[idx[n]]]
  {
  }

  /** Flipping the same node twice restores every spin and so the energy: the flip-back of
      a rejected move undoes the trial flip. */
  lemma FlipTwice(edges: seq<Edge>, idx: map<NodeId, nat>, s: seq<int>, n: NodeId)
    requires Indexed(edges, idx, |s|) && n in idx
    ensures var once := s[idx[n] := -s[idx[n]]];
            && once[idx[n] := -once[idx[n]]] == s
            && Energy(edges, idx, once[idx[n] := -once[idx[n]]]) == Energy(edges, idx, s)
  {
    var once := s[idx[n] := -s[idx[n]]];
    assert once[idx[n] := -once[idx[n]]] == s;
  }

  // ---------------------------------------------------------------------------
  // One Metropolis sweep, as a function of the spins and the random draws consumed

  /** The spins and how many `random.random()` draws have been consumed. */
  datatype Chain = Chain(spins: seq<int>, draws: nat)

  /** One trial at slot `i`, as the source performs it: flip, recompute the full energy,
      and when the energy rose, consume a draw and flip back if `rejects` says the draw
      was at least exp(-ΔE / T). */
  function Trial(edges: seq<Edge>, idx: map<NodeId, nat>, c: Chain, i: nat, T: real,
                 rejects: (nat, int, real) -> bool): (r: Chain)
    requires Indexed(edges, idx, |c.spins|) && i < |c.spins|
    ensures |r.spins| == |c.spins|
    ensures AllSpins(c.spins) ==> AllSpins(r.spins)
    ensures forall j :: 0 <= j < |c.spins| && j != i ==> r.spins[j] == c.spins[j]
  {
    var flipped := c.spins[i := -c.spins[i]];
    var deltaEnergy := Energy(edges, idx, flipped) - Energy(edges, idx, c.spins);
    if deltaEnergy > 0 && rejects(c.draws, deltaEnergy, T) then Chain(c.spins, c.draws + 1)
    else if deltaEnergy > 0 then Chain(flipped, c.draws + 1)
    else Chain(flipped, c.draws)
  }

  /** The trial is the Metropolis rule stated with the local energy change
      d = 2·s_i·Σ_{j ∈ nbrs(i)} s_j: a flip with d ≤ 0 is always kept and consumes no
      draw; a flip with d > 0 consumes exactly one draw and is undone exactly when that
      draw rejects it. */
  lemma TrialIsMetropolis(edges: seq<Edge>, idx: map<NodeId, nat>, c: Chain, n: NodeId, T: real,
                          rejects: (nat, int, real) -> bool)
    requires Injective(idx) && NoSelfLoops(edges)
    requires Indexed(edges, idx, |c.spins|) && n in idx
    ensures var d := LocalDelta(edges, n, SpinMap(idx, c.spins));
            var r := Trial(edges, idx, c, idx[n], T, rejects);
            && r.draws == (if d > 0 then c.draws + 1 else c.draws)
            && r.spins == (if d > 0 && rejects(c.draws, d, T) then c.spins else c.spins[idx[n] := -c.spins[idx[n]]])
  {
    var d := LocalDelta(edges, n, SpinMap(idx, c.spins));
    ArrayFlipDelta(edges, idx, c.spins, n);
    TrialByDelta(edges, idx, c, idx[n], T, rejects, d);
  }

  /** The naive delta `new_energy - current_energy` that `monte_carlo_step` computes for
      node i equals the local formula 2·s_i·Σ_{j ∈ nbrs(i)} s_j on a graph without
      self-loops, with s_i the spin before the flip. */
  lemma ArrayFlipDelta(edges: seq<Edge>, idx: map<NodeId, nat>, s: seq<int>, n: NodeId)
    requires Injective(idx) && NoSelfLoops(edges)
    requires Indexed(edges, idx, |s|) && n in idx
    ensures Energy(edges, idx, s[idx[n] := -s[idx[n]]]) - Energy(edges, idx, s)
         == LocalDelta(edges, n, SpinMap(idx, s))
  {
    FlipThroughIndex(idx, s, n);
    FlipDelta(edges, SpinMap(idx, s), n);
  }

  /** `Trial` in terms of its energy change `d`. */
  lemma TrialByDelta(edges: seq<Edge>, idx: map<NodeId, nat>, c: Chain, i: nat, T: real,
                     rejects: (nat, int, real) -> bool, d: int)
    requires Indexed(edges, idx, |c.spins|) && i < |c.spins|
    requires d == Energy(edges, idx, c.spins[i := -c.spins[i]]) - Energy(edges, idx, c.spins)
    ensures Trial(edges, idx, c, i, T, rejects)
         == if d > 0 && rejects(c.draws, d, T) then Chain(c.spins, c.draws + 1)
            else Chain(c.spins[i := -c.spins[i]], if d > 0 then c.draws + 1 else c.draws)
  {
  }

  /** The first `k` trials of a sweep: slot 0, 1, ..., k-1 in turn, each seeing the flips
      kept before it. */
  function SweepPrefix(edges: seq<Edge>, idx: map<NodeId, nat>, c: Chain, k: nat, T: real,
                       rejects: (nat, int, real) -> bool): (r: Chain)
    requires Indexed(edges, idx, |c.spins|) && k <= |c.spins|
    ensures |r.spins| == |c.spins|
    ensures AllSpins(c.spins) ==> AllSpins(r.spins)
    ensures c.draws <= r.draws <= c.draws + k
    ensures forall j :: k <= j < |c.spins| ==> r.spins[j] == c.spins[j]
  {
    if k == 0 then c
    else Trial(edges, idx, SweepPrefix(edges, idx, c, k - 1, T, rejects), k - 1, T, rejects)
  }

  /** `monte_carlo_step(T)`: one trial per node, in node order. */
  function Sweep(edges: seq<Edge>, idx: map<NodeId, nat>, c: Chain, T: real,
                 rejects: (nat, int, real) -> bool): (r: Chain)
    requires Indexed(edges, idx, |c.spins|)
    ensures |r.spins| == |c.spins|
    ensures AllSpins(c.spins) ==> AllSpins(r.spins)
    ensures c.draws <= r.draws <= c.draws + |c.spins|
  {
    SweepPrefix(edges, idx, c, |c.spins|, T, rejects)
  }

  /** `m` sweeps in a row. */
  function Sweeps(edges: seq<Edge>, idx: map<NodeId, nat>, c: Chain, m: nat, T: real,
                  rejects: (nat, int, real) -> bool): (r: Chain)
    requires Indexed(edges, idx, |c.spins|)
    ensures |r.spins| == |c.spins|
    ensures AllSpins(c.spins) ==> AllSpins(r.spins)
    ensures c.draws <= r.draws <= c.draws + m * |c.spins|
  {
    if m == 0 then c
    else
      var prev := Sweeps(edges, idx, c, m - 1, T, rejects);
      assert (m - 1) * |c.spins| + |c.spins| == m * |c.spins|;
      Sweep(edges, idx, prev, T, rejects)
  }

  /** When every uphill move is rejected (the T → 0 limit), no trial raises the total
      energy, so neither does a sweep or any part of one. */
  lemma {:induction false} SweepNeverRaisesEnergy(edges: seq<Edge>, idx: map<NodeId, nat>, c: Chain,
                                                  k: nat, T: real, rejects: (nat, int, real) -> bool)
    requires Indexed(edges, idx, |c.spins|) && k <= |c.spins|
    requires forall j: nat, d: int :: d > 0 ==> rejects(j, d, T)
    ensures Energy(edges, idx, SweepPrefix(edges, idx, c, k, T, rejects).spins) <= Energy(edges, idx, c.spins)
  {
    if k > 0 {
      SweepNeverRaisesEnergy(edges, idx, c, k - 1, T, rejects);
      var p := SweepPrefix(edges, idx, c, k - 1, T, rejects);
      TrialNeverRaisesEnergy(edges, idx, p, k - 1, T, rejects);
    }
  }

  lemma TrialNeverRaisesEnergy(edges: seq<Edge>, idx: map<NodeId, nat>, c: Chain, i: nat, T: real,
                               rejects: (nat, int, real) -> bool)
    requires Indexed(edges, idx, |c.spins|) && i < |c.spins|
    requires forall j: nat, d: int :: d > 0 ==> rejects(j, d, T)
    ensures Energy(edges, idx, Trial(edges, idx, c, i, T, rejects).spins) <= Energy(edges, idx, c.spins)
  {
    var flipped := c.spins[i := -c.spins[i]];
    var deltaEnergy := Energy(edges, idx, flipped) - Energy(edges, idx, c.spins);
    if deltaEnergy > 0 {
      assert rejects(c.draws, deltaEnergy, T);
    }
  }

  // ---------------------------------------------------------------------------
  // The temperature driver

  /** np.random.choice([-1, 1], size=n) from the `coin` draws starting at `from`. */
  function Draw(coin: nat -> bool, from: nat, n: nat): (s: seq<int>)
    ensures |s| == n && AllSpins(s)
  {
    seq(n, k requires 0 <= k < n => if coin(from + k) then 1 else -1)
  }

  /** A float64 mean: `np.mean` of an empty array is NaN. */
  datatype Correlation = Number(value: real) | NaN

  /** Σ s, added up front to back. */
  function Sum(s: seq<int>): int
  {
    if s == [] then 0 else Sum(s[..|s| - 1]) + s[|s| - 1]
  }

  /** `np.mean(spins)`: NaN exactly for an empty array; otherwise the number that times
      the length gives the sum, which for ±1 spins lies in [-1, 1]. */
  function MeanSpin(s: seq<int>): (r: Correlation)
    ensures r == NaN <==> |s| == 0
    ensures r.Number? ==> r.value * |s| as real == Sum(s) as real
    ensures AllSpins(s) && |s| > 0 ==> r.Number? && -1.0 <= r.value <= 1.0
  {
    if |s| == 0 then NaN
    else
      var m := Sum(s) as real / |s| as real;
      assert m * |s| as real == Sum(s) as real;
      assert AllSpins(s) ==> -1.0 <= m <= 1.0 by {
        if AllSpins(s) {
          SumBounds(s);
          RatioBounds(Sum(s) as real, |s| as real);
        }
      }
      Number(m)
  }

  lemma {:induction false} SumBounds(s: seq<int>)
    requires AllSpins(s)
    ensures -|s| <= Sum(s) <= |s|
  {
    if s != [] {
      SumBounds(s[..|s| - 1]);
    }
  }

  lemma RatioBounds(x: real, n: real)
    requires n > 0.0 && -n <= x <= n
    ensures -1.0 <= x / n <= 1.0
  {
    assert (x / n) * n == x;
  }

  /** `len(range(steps))`. */
  function RangeLength(steps: int): nat
  {
    if steps < 0 then 0 else steps
  }

  /** The result of `simulate`, the spins it leaves behind and the draws consumed. */
  datatype Run = Run(means: seq<Correlation>, spins: seq<int>, coins: nat, draws: nat)

  /** `simulate(temperatures, steps)` from spins `s0` with `coins0` choice draws and
      `draws0` uniform draws already consumed: per temperature, fresh random spins, the
      sweeps, and the mean spin appended. */
  function Simulation(edges: seq<Edge>, idx: map<NodeId, nat>, temperatures: seq<real>, steps: int,
                      coin: nat -> bool, rejects: (nat, int, real) -> bool,
                      s0: seq<int>, coins0: nat, draws0: nat): (r: Run)
    requires Indexed(edges, idx, |s0|)
    ensures |r.means| == |temperatures| && |r.spins| == |s0|
    ensures temperatures != [] ==> AllSpins(r.spins)
    ensures temperatures == [] ==> r == Run([], s0, coins0, draws0)
  {
    if temperatures == [] then Run([], s0, coins0, draws0)
    else
      var prev := Simulation(edges, idx, temperatures[..|temperatures| - 1], steps, coin, rejects, s0, coins0, draws0);
      var start := Draw(coin, prev.coins, |s0|);
      var c := Sweeps(edges, idx, Chain(start, prev.draws), RangeLength(steps), temperatures[|temperatures| - 1], rejects);
      Run(prev.means + [MeanSpin(c.spins)], c.spins, prev.coins + |s0|, c.draws)
  }

  /** One more temperature: fresh spins from the next coin draws, the sweeps, and one
      more mean. */
  lemma SimulationSnoc(edges: seq<Edge>, idx: map<NodeId, nat>, temperatures: seq<real>, t: nat, steps: int,
                       coin: nat -> bool, rejects: (nat, int, real) -> bool,
                       s0: seq<int>, coins0: nat, draws0: nat)
    requires Indexed(edges, idx, |s0|) && t < |temperatures|
    ensures var prev := Simulation(edges, idx, temperatures[..t], steps, coin, rejects, s0, coins0, draws0);
            var c := Sweeps(edges, idx, Chain(Draw(coin, prev.coins, |s0|), prev.draws), RangeLength(steps),
                            temperatures[t], rejects);
            Simulation(edges, idx, temperatures[..t + 1], steps, coin, rejects, s0, coins0, draws0)
            == Run(prev.means + [MeanSpin(c.spins)], c.spins, prev.coins + |s0|, c.draws)
  {
    assert temperatures[..t + 1][..t] == temperatures[..t];
  }

  /** What `np.mean` of `size` spins can be: NaN when there are none, else a number in
      [-1, 1]. */
  predicate MeanInRange(m: Correlation, size: nat)
  {
    if size == 0 then m == NaN else m.Number? && -1.0 <= m.value <= 1.0
  }

  /** One value per temperature: the mean of ±1 spins, so in [-1, 1]; NaN for a graph
      without nodes. */
  lemma {:induction false} SimulationMeansInRange(edges: seq<Edge>, idx: map<NodeId, nat>, temperatures: seq<real>,
                                                  steps: int, coin: nat -> bool, rejects: (nat, int, real) -> bool,
                                                  s0: seq<int>, coins0: nat, draws0: nat)
    requires Indexed(edges, idx, |s0|)
    ensures var r := Simulation(edges, idx, temperatures, steps, coin, rejects, s0, coins0, draws0);
            forall k :: 0 <= k < |r.means| ==> MeanInRange(r.means[k], |s0|)
  {
    if temperatures != [] {
      var prefix := temperatures[..|temperatures| - 1];
      SimulationMeansInRange(edges, idx, prefix, steps, coin, rejects, s0, coins0, draws0);
      assert var r0 := Simulation(edges, idx, prefix, steps, coin, rejects, s0, coins0, draws0);
             forall k :: 0 <= k < |r0.means| ==> MeanInRange(r0.means[k], |s0|);
      var prev := Simulation(edges, idx, prefix, steps, coin, rejects, s0, coins0, draws0);
      var start := Draw(coin, prev.coins, |s0|);
      var c := Sweeps(edges, idx, Chain(start, prev.draws), RangeLength(steps), temperatures[|temperatures| - 1], rejects);
      var r := Simulation(edges, idx, temperatures, steps, coin, rejects, s0, coins0, draws0);
      assert r.means == prev.means + [MeanSpin(c.spins)];
      assert MeanInRange(MeanSpin(c.spins), |s0|);
    }
  }

  // ---------------------------------------------------------------------------
  // The random sources and the engine

  /** The two global random sources the engine draws from. numpy's generator gives the
      `np.random.choice([-1, 1])` draws: draw k is +1 when `coin(k)`. Python's `random`
      module gives the uniform draws: `rejects(k, dE, T)` says that uniform draw number
      k was at least exp(-dE / T). */
  class Rng {
    const coin: nat -> bool
    const rejects: (nat, int, real) -> bool
    var coinsUsed: nat
    var drawsUsed: nat

    constructor (coin: nat -> bool, rejects: (nat, int, real) -> bool)
      ensures this.coin == coin && this.rejects == rejects
      ensures coinsUsed == 0 && drawsUsed == 0
    {
      this.coin, this.rejects := coin, rejects;
      coinsUsed, drawsUsed := 0, 0;
    }

    /** `np.random.choice([-1, 1], size=n)`. */
    method Choice(n: nat) returns (a: array<int>)
      modifies this
      ensures fresh(a) && a[..] == Draw(coin, old(coinsUsed), n)
      ensures coinsUsed == old(coinsUsed) + n && drawsUsed == old(drawsUsed)
    {
      var from, f := coinsUsed, coin;
      a := new int[n](k requires 0 <= k => if f(from + k) then 1 else -1);
      coinsUsed := coinsUsed + n;
    }

    /** `random.random() >= np.exp(-dE / T)`. */
    method DrawRejects(dE: int, T: real) returns (r: bool)
      modifies this
      ensures r == rejects(old(drawsUsed), dE, T)
      ensures drawsUsed == old(drawsUsed) + 1 && coinsUsed == old(coinsUsed)
    {
      r := rejects(drawsUsed, dE, T);
      drawsUsed := drawsUsed + 1;
    }
  }

  /** `IsingModel(graph)`: the graph, its node count, the node index and the spin array. */
  class IsingModel {
    const graph: Topology
    const nNodes: nat
    var spins: array<int>
    const nodeToIndex: map<NodeId, nat>

    /** The graph is well formed; the index gives node i slot i, every slot names its
        node back (so the keys are exactly the nodes) and every edge joins indexed nodes;
        the spin array has one ±1 slot per node. */
    ghost predicate Valid()
      reads this, spins
    {
      && WellFormed(graph)
      && nNodes == |graph.nodes|
      && (forall i :: 0 <= i < nNodes ==> graph.nodes[i] in nodeToIndex && nodeToIndex[graph.nodes[i]] == i)
      && Indexed(graph.edges, nodeToIndex, nNodes)
      && (forall n {:trigger graph.nodes[nodeToIndex[n]]} :: n in nodeToIndex ==> graph.nodes[nodeToIndex[n]] == n)
      && spins.Length == nNodes
      && AllSpins(spins[..])
    }

    constructor (graph: Topology, rng: Rng)
      requires WellFormed(graph)
      modifies rng
      ensures Valid() && fresh(spins)
      ensures this.graph == graph && nNodes == |graph.nodes| && nodeToIndex == IndexOf(graph.nodes)
      ensures spins[..] == Draw(rng.coin, old(rng.coinsUsed), |graph.nodes|)
      ensures rng.coinsUsed == old(rng.coinsUsed) + |graph.nodes| && rng.drawsUsed == old(rng.drawsUsed)
    {
      var a := rng.Choice(|graph.nodes|);
      this.graph := graph;
      nNodes := |graph.nodes|;
      spins := a;
      nodeToIndex := IndexOf(graph.nodes);
      new;
      IndexOfIndexes(graph);
    }

    /** No two nodes of a valid model share a slot, so a flip through the index touches
        one node only. */
    lemma ValidIndexInjective()
      requires Valid()
      ensures Injective(nodeToIndex)
      ensures forall n :: n in nodeToIndex <==> n in graph.nodes
    {
      forall a, b | a in nodeToIndex && b in nodeToIndex && nodeToIndex[a] == nodeToIndex[b]
        ensures a == b
      {
        assert graph.nodes[nodeToIndex[a]] == a && graph.nodes[nodeToIndex[b]] == b;
      }
      forall n | n in nodeToIndex ensures n in graph.nodes {
        assert graph.nodes[nodeToIndex[n]] == n;
      }
      forall n | n in graph.nodes ensures n in nodeToIndex {
        var i :| 0 <= i < |graph.nodes| && graph.nodes[i] == n;
      }
    }

    /** `calculate_energy()`: -Σ s_u·s_v over the edges, one edge at a time. */
    method CalculateEnergy() returns (energy: int)
      requires Valid()
      ensures energy == Energy(graph.edges, nodeToIndex, spins[..])
      ensures -|graph.edges| <= energy <= |graph.edges|
    {
      var edges := graph.edges;
      ghost var spin := SpinMap(nodeToIndex, spins[..]);
      energy := 0;
      var k := 0;
      while k < |edges|
        invariant 0 <= k <= |edges|
        invariant EndpointsIn(edges[..k], spin.Keys)
        invariant energy == TotalEnergy(edges[..k], spin)
      {
        var s1 := spins[nodeToIndex[edges[k].u]];
        var s2 := spins[nodeToIndex[edges[k].v]];
        assert edges[..k + 1][..k] == edges[..k];
        energy := energy - s1 * s2;
        k := k + 1;
      }
      assert edges[..k] == edges;
      EnergyBounds(edges, spin);
    }

    /** `flip_spin(node)`: negate the node's slot and nothing else. */
    method FlipSpin(node: NodeId)
      requires Valid() && node in nodeToIndex
      modifies spins
      ensures Valid()
      ensures spins[..] == old(spins[..])[nodeToIndex[node] := -old(spins[nodeToIndex[node]])]
    {
      var index := nodeToIndex[node];
      spins[index] := -spins[index];
    }

    /** `monte_carlo_step(temperature)`. */
    method MonteCarloStep(temperature: real, rng: Rng)
      requires Valid()
      modifies spins, rng
      ensures Valid()
      ensures Chain(spins[..], rng.drawsUsed)
           == Sweep(graph.edges, nodeToIndex, Chain(old(spins[..]), old(rng.drawsUsed)), temperature, rng.rejects)
      ensures rng.coinsUsed == old(rng.coinsUsed)
    {
      ghost var c0 := Chain(spins[..], rng.drawsUsed);
      var i := 0;
      while i < |graph.nodes|
        invariant 0 <= i <= |graph.nodes|
        invariant Valid()
        invariant Chain(spins[..], rng.drawsUsed) == SweepPrefix(graph.edges, nodeToIndex, c0, i, temperature, rng.rejects)
        invariant rng.coinsUsed == old(rng.coinsUsed)
      {
        TrialAt(i, temperature, rng);
        i := i + 1;
      }
    }

    /** The body of the loop in `monte_carlo_step` for the `i`-th node: flip, compare the
        two full energies, and on a rise draw and possibly flip back. */
    method TrialAt(i: nat, temperature: real, rng: Rng)
      requires Valid() && i < |graph.nodes|
      modifies spins, rng
      ensures Valid()
      ensures Chain(spins[..], rng.drawsUsed)
           == Trial(graph.edges, nodeToIndex, Chain(old(spins[..]), old(rng.drawsUsed)), i, temperature, rng.rejects)
      ensures rng.coinsUsed == old(rng.coinsUsed)
    {
      var node := graph.nodes[i];
      assert nodeToIndex[node] == i;
      ghost var before := Chain(spins[..], rng.drawsUsed);
      ghost var flipped := before.spins[i := -before.spins[i]];
      var currentEnergy := CalculateEnergy();
      FlipSpin(node);
      assert spins[..] == flipped;
      var newEnergy := CalculateEnergy();
      var deltaEnergy := newEnergy - currentEnergy;
      TrialByDelta(graph.edges, nodeToIndex, before, i, temperature, rng.rejects, deltaEnergy);
      if deltaEnergy > 0 {
        var rejected := rng.DrawRejects(deltaEnergy, temperature);
        if rejected {
          FlipSpin(node);
          assert spins[..] == before.spins;
        }
      }
    }

    /** The inner loop of `simulate`: `steps` sweeps at temperature `temp`. */
    method Equilibrate(temp: real, steps: int, rng: Rng)
      requires Valid()
      modifies spins, rng
      ensures Valid()
      ensures Chain(spins[..], rng.drawsUsed)
           == Sweeps(graph.edges, nodeToIndex, Chain(old(spins[..]), old(rng.drawsUsed)), RangeLength(steps), temp, rng.rejects)
      ensures rng.coinsUsed == old(rng.coinsUsed)
    {
      ghost var start := Chain(spins[..], rng.drawsUsed);
      var step := 0;
      while step < steps
        invariant 0 <= step <= RangeLength(steps)
        invariant Valid()
        invariant Chain(spins[..], rng.drawsUsed) == Sweeps(graph.edges, nodeToIndex, start, step, temp, rng.rejects)
        invariant rng.coinsUsed == old(rng.coinsUsed)
      {
        MonteCarloStep(temp, rng);
        step := step + 1;
      }
    }

    /** `simulate(temperatures, steps_per_temperature)`: the mean spin after the sweeps
        at each temperature, in order. */
    method Simulate(temperatures: seq<real>, stepsPerTemperature: int, rng: Rng)
      returns (correlationData: seq<Correlation>)
      requires Valid()
      modifies this, rng
      ensures Valid()
      ensures Run(correlationData, spins[..], rng.coinsUsed, rng.drawsUsed)
           == Simulation(graph.edges, nodeToIndex, temperatures, stepsPerTemperature, rng.coin, rng.rejects,
                         old(spins[..]), old(rng.coinsUsed), old(rng.drawsUsed))
      ensures |correlationData| == |temperatures|
      ensures forall k :: 0 <= k < |correlationData| ==> MeanInRange(correlationData[k], nNodes)
    {
      ghost var s0, coins0, draws0 := spins[..], rng.coinsUsed, rng.drawsUsed;
      correlationData := [];
      var t := 0;
      while t < |temperatures|
        invariant 0 <= t <= |temperatures|
        invariant Valid()
        invariant Run(correlationData, spins[..], rng.coinsUsed, rng.drawsUsed)
               == Simulation(graph.edges, nodeToIndex, temperatures[..t], stepsPerTemperature,
                             rng.coin, rng.rejects, s0, coins0, draws0)
      {
        var temp := temperatures[t];
        ghost var prev := Run(correlationData, spins[..], rng.coinsUsed, rng.drawsUsed);
        spins := rng.Choice(nNodes);
        Equilibrate(temp, stepsPerTemperature, rng);
        var correlation := MeanSpin(spins[..]);
        correlationData := correlationData + [correlation];
        SimulationSnoc(graph.edges, nodeToIndex, temperatures, t, stepsPerTemperature, rng.coin, rng.rejects,
                       s0, coins0, draws0);
        t := t + 1;
      }
      assert temperatures[..t] == temperatures;
      SimulationMeansInRange(graph.edges, nodeToIndex, temperatures, stepsPerTemperature, rng.coin, rng.rejects,
                             s0, coins0, draws0);
    }
  }
}
