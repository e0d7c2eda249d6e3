/** The part of networkx's undirected `Graph` that the rest of the model relies on:
    nodes kept in insertion order, one entry per undirected edge (self-loops allowed),
    a per-node attribute dictionary and one attribute dictionary per edge, shared by
    both orientations of that edge. */
module NetworkGraph {

  /** Node identifiers and DataFrame cells are both modelled as text. */
  type NodeId = string
  type Datum = string

  datatype Option<T> = None | Some(value: T)

  /** An attribute value: a plain value, or a Python list of values. */
  datatype Value = Scalar(datum: Datum) | List(items: seq<Datum>)

  /** One attribute dictionary, `G.nodes[n]` or `G.edges[u, v]`. */
  type AttrMap = map<string, Value>

  function Lookup(attrs: AttrMap, key: string): Option<Value>
  {
    if key in attrs then Some(attrs[key]) else None
  }

  datatype Edge = Edge(u: NodeId, v: NodeId)

  /** The graph's shape: `G.nodes()` in iteration order and one entry per edge. */
  datatype Topology = Topology(nodes: seq<NodeId>, edges: seq<Edge>)

  /** `e` is the undirected edge between `a` and `b`. */
  predicate Joins(e: Edge, a: NodeId, b: NodeId)
  {
    (e.u == a && e.v == b) || (e.u == b && e.v == a)
  }

  predicate HasEdge(edges: seq<Edge>, a: NodeId, b: NodeId)
  {
    exists k :: 0 <= k < |edges| && Joins(edges[k], a, b)
  }

  /** No node is listed twice. */
  predicate Distinct(nodes: seq<NodeId>)
  {
    DistinctUpTo(nodes, |nodes|)
  }

  /** The first `n` entries are pairwise different: each differs from every earlier one. */
  predicate DistinctUpTo(nodes: seq<NodeId>, n: nat)
    requires n <= |nodes|
  {
    n == 0 || (DistinctUpTo(nodes, n - 1) && forall i :: 0 <= i < n - 1 ==> nodes[i] != nodes[n - 1])
  }

  /** Whether the first `n` entries are distinct depends on those entries only. */
  lemma {:induction false} DistinctUpToPrefix(a: seq<NodeId>, b: seq<NodeId>, n: nat)
    requires n <= |a| && n <= |b| && forall i :: 0 <= i < n ==> a[i] == b[i]
    ensures DistinctUpTo(a, n) <==> DistinctUpTo(b, n)
  {
    if n > 0 {
      DistinctUpToPrefix(a, b, n - 1);
    }
  }

  /** A list is distinct exactly when its front is distinct and its last entry is new. */
  lemma DistinctSnoc(nodes: seq<NodeId>, n: NodeId)
    ensures Distinct(nodes + [n]) <==> Distinct(nodes) && n !in nodes
  {
    var all := nodes + [n];
    DistinctUpToPrefix(nodes, all, |nodes|);
    assert n in nodes <==> exists i :: 0 <= i < |nodes| && all[i] == n;
  }

  /** Any two positions of a distinct list hold different nodes. */
  lemma {:induction false} DistinctPairs(nodes: seq<NodeId>, n: nat, i: nat, j: nat)
    requires n <= |nodes| && DistinctUpTo(nodes, n) && i < j < n
    ensures nodes[i] != nodes[j]
  {
    if j < n - 1 {
      DistinctPairs(nodes, n - 1, i, j);
    }
  }

  /** No two entries of `edges` are the same undirected edge. */
  predicate SimpleEdges(edges: seq<Edge>)
  {
    SimpleUpTo(edges, |edges|)
  }

  /** Among the first `n` entries, each joins a pair that no earlier entry joins. */
  predicate SimpleUpTo(edges: seq<Edge>, n: nat)
    requires n <= |edges|
  {
    n == 0
    || (SimpleUpTo(edges, n - 1)
        && forall i :: 0 <= i < n - 1 ==> !Joins(edges[n - 1], edges[i].u, edges[i].v))
  }

  /** Whether the first `n` entries are simple depends on those entries only. */
  lemma {:induction false} SimpleUpToPrefix(a: seq<Edge>, b: seq<Edge>, n: nat)
    requires n <= |a| && n <= |b| && forall i :: 0 <= i < n ==> a[i] == b[i]
    ensures SimpleUpTo(a, n) <==> SimpleUpTo(b, n)
  {
    if n > 0 {
      SimpleUpToPrefix(a, b, n - 1);
    }
  }

  predicate EndpointsIn(edges: seq<Edge>, s: set<NodeId>)
  {
    forall k :: 0 <= k < |edges| ==> edges[k].u in s && edges[k].v in s
  }

  predicate NoSelfLoops(edges: seq<Edge>)
  {
    forall k :: 0 <= k < |edges| ==> edges[k].u != edges[k].v
  }

  /** What every networkx `Graph` satisfies: distinct nodes, edges between nodes of
      the graph, and at most one edge per unordered pair. */
  ghost predicate WellFormed(t: Topology)
  {
    && Distinct(t.nodes)
    && EndpointsIn(t.edges, set n | n in t.nodes)
    && SimpleEdges(t.edges)
  }

  /** Two entries joining the same pair of a simple edge list are the same entry. */
  lemma SameEdgeSameIndex(edges: seq<Edge>, i: nat, j: nat, a: NodeId, b: NodeId)
    requires SimpleEdges(edges)
    requires i < |edges| && j < |edges|
    requires Joins(edges[i], a, b) && Joins(edges[j], a, b)
    ensures i == j
  {
    SimplePairs(edges, |edges|, i, j, a, b);
  }

  lemma {:induction false} SimplePairs(edges: seq<Edge>, n: nat, i: nat, j: nat, a: NodeId, b: NodeId)
    requires n <= |edges| && SimpleUpTo(edges, n)
    requires i < n && j < n
    requires Joins(edges[i], a, b) && Joins(edges[j], a, b)
    ensures i == j
  {
    if i < n - 1 && j < n - 1 {
      SimplePairs(edges, n - 1, i, j, a, b);
    }
  }

  /** The position of the edge between `a` and `b` (`G.has_edge(a, b)` holds exactly
      when it is below `|edges|`). */
  function FindEdge(edges: seq<Edge>, a: NodeId, b: NodeId): (k: nat)
    ensures k <= |edges|
    ensures k < |edges| ==> Joins(edges[k], a, b)
    ensures forall j :: 0 <= j < k ==> !Joins(edges[j], a, b)
    ensures k == |edges| <==> !HasEdge(edges, a, b)
  {
    FindEdgeFrom(edges, a, b, 0)
  }

  /** The first position at or after `i` of an edge between `a` and `b`, or `|edges|`. */
  function FindEdgeFrom(edges: seq<Edge>, a: NodeId, b: NodeId, i: nat): (k: nat)
    requires i <= |edges|
    ensures i <= k <= |edges|
    ensures k < |edges| ==> Joins(edges[k], a, b)
    ensures forall j :: i <= j < k ==> !Joins(edges[j], a, b)
    decreases |edges| - i
  {
    if i == |edges| || Joins(edges[i], a, b) then i
    else FindEdgeFrom(edges, a, b, i + 1)
  }

  /** Appending `n` to the node list unless it is already there. */
  function AddNode(nodes: seq<NodeId>, n: NodeId): (r: seq<NodeId>)
    requires Distinct(nodes)
    ensures Distinct(r)
    ensures forall m :: m in r <==> m in nodes || m == n
    ensures |nodes| <= |r| && r[..|nodes|] == nodes
  {
    DistinctSnoc(nodes, n);
    if n in nodes then nodes else nodes + [n]
  }

  /** Appending an edge between a pair that is not yet joined keeps the list simple. */
  lemma AddFreshEdge(edges: seq<Edge>, u: NodeId, v: NodeId)
    requires SimpleEdges(edges) && !HasEdge(edges, u, v)
    ensures SimpleEdges(edges + [Edge(u, v)])
    ensures HasEdge(edges + [Edge(u, v)], u, v)
  {
    var all := edges + [Edge(u, v)];
    SimpleUpToPrefix(edges, all, |edges|);
    forall i | 0 <= i < |edges| ensures !Joins(all[|edges|], all[i].u, all[i].v) {
      assert all[i] == edges[i];
    }
    assert Joins(all[|edges|], u, v);
  }

  /** Edges between old nodes, and the new edge between `u` and `v`, join nodes of the grown
      node list. */
  lemma EndpointsGrow(edges: seq<Edge>, nodes: seq<NodeId>, grown: seq<NodeId>, u: NodeId, v: NodeId)
    requires EndpointsIn(edges, set n | n in nodes)
    requires forall m :: m in grown <==> m in nodes || m == u || m == v
    ensures EndpointsIn(edges + [Edge(u, v)], set n | n in grown)
    ensures EndpointsIn(edges, set n | n in grown)
  {
  }

  /** `G.add_edge(u, v)`: add each endpoint that is not yet a node (u first), and add the
      edge unless the pair is already joined. */
  function AddEdgeTo(t: Topology, u: NodeId, v: NodeId): (r: Topology)
    requires WellFormed(t)
    ensures WellFormed(r)
    ensures forall n :: n in r.nodes <==> n in t.nodes || n == u || n == v
    ensures r.edges == if HasEdge(t.edges, u, v) then t.edges else t.edges + [Edge(u, v)]
  {
    var withU := AddNode(t.nodes, u);
    var withV := AddNode(withU, v);
    EndpointsGrow(t.edges, t.nodes, withV, u, v);
    if HasEdge(t.edges, u, v) then
      Topology(withV, t.edges)
    else
      AddFreshEdge(t.edges, u, v);
      Topology(withV, t.edges + [Edge(u, v)])
  }

  /** `G.add_edge(u, v)` keeps the existing nodes first and in their order, and leaves `u`
      and `v` joined. */
  lemma AddEdgeToKeepsOrder(t: Topology, u: NodeId, v: NodeId)
    requires WellFormed(t)
    ensures var r := AddEdgeTo(t, u, v);
            |t.nodes| <= |r.nodes| && r.nodes[..|t.nodes|] == t.nodes && HasEdge(r.edges, u, v)
  {
    var withU := AddNode(t.nodes, u);
    assert AddNode(withU, v)[..|t.nodes|] == withU[..|withU|][..|t.nodes|];
    if !HasEdge(t.edges, u, v) {
      AddFreshEdge(t.edges, u, v);
    }
  }

  /** `list(G.neighbors(n))`, in edge order: the other endpoint of every edge at `n`;
      a self-loop lists `n` once. */
  function Neighbors(edges: seq<Edge>, n: NodeId): (ns: seq<NodeId>)
    ensures |ns| <= |edges|
    ensures forall m :: m in ns <==> HasEdge(edges, n, m)
  {
    if edges == [] then []
    else
      var prefix := edges[..|edges| - 1];
      var e := edges[|edges| - 1];
      var ns := Neighbors(prefix, n) + (if e.u == n then [e.v] else if e.v == n then [e.u] else []);
      assert forall m :: HasEdge(edges, n, m) <==> HasEdge(prefix, n, m) || Joins(e, n, m) by {
        forall m ensures HasEdge(edges, n, m) <==> HasEdge(prefix, n, m) || Joins(e, n, m) {
          if HasEdge(edges, n, m) {
            var k :| 0 <= k < |edges| && Joins(edges[k], n, m);
            if k < |prefix| { assert prefix[k] == edges[k]; }
          }
          if HasEdge(prefix, n, m) {
            var k :| 0 <= k < |prefix| && Joins(prefix[k], n, m);
            assert edges[k] == prefix[k];
          }
        }
      }
      ns
  }

  /** A node has no neighbours exactly when no edge touches it. */
  lemma NoNeighbors(edges: seq<Edge>, n: NodeId)
    ensures Neighbors(edges, n) == [] <==> forall m :: !HasEdge(edges, n, m)
  {
    var ns := Neighbors(edges, n);
    if ns != [] {
      var m := ns[0];
      assert m in ns;
    }
  }

  /** Sum of `value[m]` over the nodes `ns`, in order. */
  function SumOver(ns: seq<NodeId>, value: map<NodeId, int>): int
    requires forall k :: 0 <= k < |ns| ==> ns[k] in value
  {
    if ns == [] then 0 else SumOver(ns[..|ns| - 1], value) + value[ns[|ns| - 1]]
  }

  lemma NeighborsAreNodes(edges: seq<Edge>, n: NodeId, s: set<NodeId>)
    requires EndpointsIn(edges, s)
    ensures forall k :: 0 <= k < |Neighbors(edges, n)| ==> Neighbors(edges, n)[k] in s
  {
    var ns := Neighbors(edges, n);
    forall k | 0 <= k < |ns| ensures ns[k] in s {
      assert ns[k] in ns;
      var j :| 0 <= j < |edges| && Joins(edges[j], n, ns[k]);
    }
  }

  /** Σ_{m ∈ neighbours(n)} value[m]. */
  function NeighborSum(edges: seq<Edge>, n: NodeId, value: map<NodeId, int>): int
    requires EndpointsIn(edges, value.Keys)
  {
    NeighborsAreNodes(edges, n, value.Keys);
    SumOver(Neighbors(edges, n), value)
  }

  /** The neighbour sum grows edge by edge: the last edge adds its far end when it
      touches `n`. */
  lemma NeighborSumSnoc(edges: seq<Edge>, e: Edge, n: NodeId, value: map<NodeId, int>)
    requires EndpointsIn(edges + [e], value.Keys)
    requires e.u in value && e.v in value
    ensures EndpointsIn(edges, value.Keys)
    ensures NeighborSum(edges + [e], n, value)
         == NeighborSum(edges, n, value)
            + (if e.u == n then value[e.v] else if e.v == n then value[e.u] else 0)
  {
    var all := edges + [e];
    assert all[..|all| - 1] == edges;
    assert forall k :: 0 <= k < |edges| ==> edges[k] == all[k];
    assert all[|all| - 1] == e;
    var ns := Neighbors(edges, n);
    NeighborsAreNodes(edges, n, value.Keys);
    var extra := if e.u == n then [e.v] else if e.v == n then [e.u] else [];
    assert Neighbors(all, n) == ns + extra;
    if extra != [] {
      assert (ns + extra)[..|ns + extra| - 1] == ns;
    } else {
      assert ns + extra == ns;
    }
  }

  /** Node dictionaries after `n` becomes a node: a new node starts with an empty one. */
  function WithNode(attrs: map<NodeId, AttrMap>, n: NodeId): (r: map<NodeId, AttrMap>)
    ensures r.Keys == attrs.Keys + {n}
    ensures forall m :: m in attrs ==> r[m] == attrs[m]
    ensures n !in attrs ==> r[n] == map[]
  {
    if n in attrs then attrs else attrs[n := map[]]
  }

  /** Every node dictionary is empty. */
  ghost predicate BareNodes(attrs: map<NodeId, AttrMap>)
  {
    forall n :: n in attrs ==> attrs[n] == map[]
  }

  /** Every edge dictionary is empty. */
  ghost predicate BareEdges(attrs: seq<AttrMap>)
  {
    forall k :: 0 <= k < |attrs| ==> attrs[k] == map[]
  }

  /** Adding an edge with no attributes keeps every dictionary empty. */
  lemma BareAfterAddEdge(nodeAttrs: map<NodeId, AttrMap>, edgeAttrs: seq<AttrMap>, u: NodeId, v: NodeId, isNew: bool)
    requires BareNodes(nodeAttrs) && BareEdges(edgeAttrs)
    ensures BareNodes(WithNode(WithNode(nodeAttrs, u), v))
    ensures BareEdges(if isNew then edgeAttrs + [map[]] else edgeAttrs)
  {
  }

  /** A well-formed shape with one dictionary per node and one per edge. */
  ghost predicate Consistent(t: Topology, nodeAttrs: map<NodeId, AttrMap>, edgeAttrs: seq<AttrMap>)
  {
    && WellFormed(t)
    && (forall n :: n in nodeAttrs <==> n in t.nodes)
    && |edgeAttrs| == |t.edges|
  }

  /** `G.add_edge(u, v)` keeps the dictionaries in step with the shape. */
  lemma AddEdgeConsistent(t: Topology, nodeAttrs: map<NodeId, AttrMap>, edgeAttrs: seq<AttrMap>, u: NodeId, v: NodeId)
    requires Consistent(t, nodeAttrs, edgeAttrs)
    ensures Consistent(AddEdgeTo(t, u, v), WithNode(WithNode(nodeAttrs, u), v),
                       if HasEdge(t.edges, u, v) then edgeAttrs else edgeAttrs + [map[]])
  {
  }

  /** A networkx `Graph` object: its shape, its node dictionaries (`G.nodes[n]`) and its
      edge dictionaries (`G.edges[u, v]`, one per entry of `edges`). */
  class Graph {
    var topo: Topology
    var nodeAttrs: map<NodeId, AttrMap>
    var edgeAttrs: seq<AttrMap>

    ghost predicate Valid()
      reads this
    {
      Consistent(topo, nodeAttrs, edgeAttrs)
    }

    /** No node and no edge carries an attribute yet. */
    ghost predicate Bare()
      reads this
    {
      BareNodes(nodeAttrs) && BareEdges(edgeAttrs)
    }

    /** `nx.Graph()`. */
    constructor ()
      ensures Valid() && Bare()
      ensures topo == Topology([], []) && nodeAttrs == map[] && edgeAttrs == []
    {
      topo := Topology([], []);
      nodeAttrs, edgeAttrs := map[], [];
    }

    /** `node in G`. */
    function Contains(n: NodeId): (b: bool)
      reads this
      requires Valid()
      ensures b <==> n in topo.nodes
    {
      n in nodeAttrs
    }

    /** `G.has_edge(u, v)`, in either orientation. */
    function HasEdgeBetween(u: NodeId, v: NodeId): (b: bool)
      reads this
      ensures b <==> HasEdge(topo.edges, u, v)
    {
      FindEdge(topo.edges, u, v) < |topo.edges|
    }

    /** `G.add_edge(u, v)` with no attributes: new endpoints get empty dictionaries, a new
        edge gets an empty dictionary, and an existing edge is left as it is (so an
        attribute-free graph stays attribute-free, by `BareAfterAddEdge`). */
    method AddEdge(u: NodeId, v: NodeId)
      requires Valid()
      modifies this
      ensures Valid()
      ensures topo == AddEdgeTo(old(topo), u, v)
      ensures nodeAttrs == WithNode(WithNode(old(nodeAttrs), u), v)
      ensures edgeAttrs == if HasEdge(old(topo.edges), u, v) then old(edgeAttrs) else old(edgeAttrs) + [map[]]
    {
      AddEdgeConsistent(topo, nodeAttrs, edgeAttrs, u, v);
      topo, nodeAttrs, edgeAttrs := AddEdgeTo(topo, u, v), WithNode(WithNode(nodeAttrs, u), v),
        if HasEdge(topo.edges, u, v) then edgeAttrs else edgeAttrs + [map[]];
    }
  }
}
