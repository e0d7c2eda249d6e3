/** Building a networkx graph from the rows of a DataFrame and merging per-row values into
    node and edge attribute lists. */
module GraphHandling {
  import opened NetworkGraph

  /** One DataFrame row: column name to cell. */
  type Row = map<string, Datum>

  /** Every row has the named columns (otherwise `row[col]` raises `KeyError`). */
  predicate HasColumns(df: seq<Row>, cols: set<string>)
  {
    forall i :: 0 <= i < |df| ==> cols <= df[i].Keys
  }

  // ---------------------------------------------------------------------------
  // Merging one value into an attribute

  /** The values an attribute holds: none when absent, one for a scalar, the list itself. */
  function Items(v: Option<Value>): seq<Datum>
  {
    match v
    case None => []
    case Some(Scalar(d)) => [d]
    case Some(List(ds)) => ds
  }

  /** The merge step of `add_node_attributes` and `add_edge_attributes`: an absent attribute
      becomes `[d]`, a list gets `d` appended, a scalar `x` becomes `[x, d]`. Whatever the
      case, the attribute afterwards lists the values it held followed by `d`, and no other
      key changes. */
  function MergeAttr(attrs: AttrMap, key: string, d: Datum): (r: AttrMap)
    ensures r.Keys == attrs.Keys + {key}
    ensures Lookup(r, key) == Some(List(Items(Lookup(attrs, key)) + [d]))
    ensures forall k :: k != key ==> Lookup(r, k) == Lookup(attrs, k)
  {
    if key in attrs then
      match attrs[key]
      case List(items) => attrs[key := List(items + [d])]
      case Scalar(prior) =>
        assert Items(Lookup(attrs, key)) + [d] == [prior, d];
        attrs[key := List([prior, d])]
    else
      assert Items(Lookup(attrs, key)) + [d] == [d];
      attrs[key := List([d])]
  }

  /** The dictionary after the values `ds` were merged into `key`, in order. */
  function Absorb(attrs: AttrMap, key: string, ds: seq<Datum>): AttrMap
  {
    if ds == [] then attrs else attrs[key := List(Items(Lookup(attrs, key)) + ds)]
  }

  /** Two dictionaries that agree on every lookup are equal. */
  lemma LookupExt(a: AttrMap, b: AttrMap)
    requires forall k :: Lookup(a, k) == Lookup(b, k)
    ensures a == b
  {
    assert forall k :: k in a <==> Lookup(a, k).Some?;
    assert a.Keys == b.Keys;
    forall k | k in a ensures a[k] == b[k] {
      assert Lookup(a, k) == Lookup(b, k);
    }
  }

  /** Merging one more value continues the list. */
  lemma MergeAbsorb(attrs: AttrMap, key: string, ds: seq<Datum>, d: Datum)
    ensures MergeAttr(Absorb(attrs, key, ds), key, d) == Absorb(attrs, key, ds + [d])
  {
    var before := Absorb(attrs, key, ds);
    var merged := MergeAttr(before, key, d);
    var after := Absorb(attrs, key, ds + [d]);
    assert Items(Lookup(before, key)) == Items(Lookup(attrs, key)) + ds;
    forall k ensures Lookup(merged, k) == Lookup(after, k) {
      if k == key {
        assert Items(Lookup(attrs, key)) + ds + [d] == Items(Lookup(attrs, key)) + (ds + [d]);
      }
    }
    LookupExt(merged, after);
  }

  // ---------------------------------------------------------------------------
  // create_graph

  /** The (source, target) pair of every row. */
  function Pairs(df: seq<Row>, sourceCol: string, targetCol: string): (ps: seq<Edge>)
    requires HasColumns(df, {sourceCol, targetCol})
    ensures |ps| == |df|
    ensures forall i :: 0 <= i < |df| ==> ps[i] == Edge(df[i][sourceCol], df[i][targetCol])
  {
    seq(|df|, i requires 0 <= i < |df| => Edge(df[i][sourceCol], df[i][targetCol]))
  }

  /** The graph that `add_edge` builds from an empty `nx.Graph()`, pair by pair. */
  function Build(pairs: seq<Edge>): (t: Topology)
    ensures WellFormed(t)
  {
    if pairs == [] then Topology([], [])
    else
      var e := pairs[|pairs| - 1];
      AddEdgeTo(Build(pairs[..|pairs| - 1]), e.u, e.v)
  }

  /** Processing row `i` adds its pair to the graph built from the rows before it. */
  lemma BuildRow(df: seq<Row>, sourceCol: string, targetCol: string, i: nat)
    requires HasColumns(df, {sourceCol, targetCol}) && i < |df|
    ensures Build(Pairs(df, sourceCol, targetCol)[..i + 1])
         == AddEdgeTo(Build(Pairs(df, sourceCol, targetCol)[..i]), df[i][sourceCol], df[i][targetCol])
  {
    var pairs := Pairs(df, sourceCol, targetCol);
    assert pairs[..i + 1][..i] == pairs[..i];
  }

  /** Every endpoint of every pair. */
  function Ends(pairs: seq<Edge>): set<NodeId>
  {
    if pairs == [] then {}
    else
      var e := pairs[|pairs| - 1];
      Ends(pairs[..|pairs| - 1]) + {e.u, e.v}
  }

  /** The pair list with one more entry joins what it joined before and the new pair. */
  lemma HasEdgeSnoc(edges: seq<Edge>, e: Edge, a: NodeId, b: NodeId)
    ensures HasEdge(edges + [e], a, b) <==> HasEdge(edges, a, b) || Joins(e, a, b)
  {
    var all := edges + [e];
    if HasEdge(all, a, b) {
      var k :| 0 <= k < |all| && Joins(all[k], a, b);
      if k < |edges| {
        assert edges[k] == all[k];
      }
    }
    if HasEdge(edges, a, b) {
      var k :| 0 <= k < |edges| && Joins(edges[k], a, b);
      assert all[k] == edges[k];
    }
    if Joins(e, a, b) {
      assert all[|edges|] == e;
    }
  }

  /** `create_graph` yields exactly the row endpoints as nodes. */
  lemma {:induction false} BuildNodes(pairs: seq<Edge>)
    ensures forall n :: n in Build(pairs).nodes <==> n in Ends(pairs)
  {
    if pairs != [] {
      BuildNodes(pairs[..|pairs| - 1]);
    }
  }

  /** `create_graph` yields exactly the unordered row pairs as edges: a repeated or reversed
      row adds nothing new. */
  lemma {:induction false} BuildEdges(pairs: seq<Edge>)
    ensures forall a, b :: HasEdge(Build(pairs).edges, a, b) <==> HasEdge(pairs, a, b)
  {
    if pairs != [] {
      var prefix := pairs[..|pairs| - 1];
      var e := pairs[|pairs| - 1];
      assert pairs == prefix + [e];
      BuildEdges(prefix);
      var t := Build(prefix);
      var r := Build(pairs);
      forall a, b ensures HasEdge(r.edges, a, b) <==> HasEdge(pairs, a, b) {
        HasEdgeSnoc(prefix, e, a, b);
        EdgeStep(t, e, a, b);
      }
    }
  }

  /** One `add_edge(u, v)` joins what was joined before and the pair (u, v). */
  lemma EdgeStep(t: Topology, e: Edge, a: NodeId, b: NodeId)
    requires WellFormed(t)
    ensures HasEdge(AddEdgeTo(t, e.u, e.v).edges, a, b) <==> HasEdge(t.edges, a, b) || Joins(e, a, b)
  {
    if HasEdge(t.edges, e.u, e.v) {
      if Joins(e, a, b) {
        var k :| 0 <= k < |t.edges| && Joins(t.edges[k], e.u, e.v);
        assert Joins(t.edges[k], a, b);
      }
    } else {
      HasEdgeSnoc(t.edges, Edge(e.u, e.v), a, b);
    }
  }

  /** `create_graph(source_col, target_col, df)`: one `add_edge` per row. */
  method CreateGraph(sourceCol: string, targetCol: string, df: seq<Row>) returns (graph: Graph)
    requires HasColumns(df, {sourceCol, targetCol})
    ensures fresh(graph) && graph.Valid()
    ensures graph.topo == Build(Pairs(df, sourceCol, targetCol))
    ensures graph.Bare()
  {
    graph := new Graph();
    ghost var pairs := Pairs(df, sourceCol, targetCol);
    var i := 0;
    while i < |df|
      invariant 0 <= i <= |df|
      invariant fresh(graph) && graph.Valid()
      invariant graph.topo == Build(pairs[..i])
      invariant graph.Bare()
    {
      var source := df[i][sourceCol];
      var target := df[i][targetCol];
      BareAfterAddEdge(graph.nodeAttrs, graph.edgeAttrs, source, target, !HasEdge(graph.topo.edges, source, target));
      graph.AddEdge(source, target);
      BuildRow(df, sourceCol, targetCol, i);
      i := i + 1;
    }
    assert pairs[..i] == pairs;
  }

  // ---------------------------------------------------------------------------
  // add_node_attributes

  /** The node dictionaries after `add_node_attributes` has processed the rows of `df`. */
  function NodeAttrsAfter(attrs: map<NodeId, AttrMap>, df: seq<Row>, nodeCol: string, attrCol: string)
    : (r: map<NodeId, AttrMap>)
    requires HasColumns(df, {nodeCol, attrCol})
    ensures r.Keys == attrs.Keys
  {
    if df == [] then attrs
    else
      var prev := NodeAttrsAfter(attrs, df[..|df| - 1], nodeCol, attrCol);
      var row := df[|df| - 1];
      var node := row[nodeCol];
      if node in prev then prev[node := MergeAttr(prev[node], attrCol, row[attrCol])] else prev
  }

  /** The `attrCol` values of the rows that name `n`, in row order. */
  function ValuesFor(df: seq<Row>, nodeCol: string, attrCol: string, n: NodeId): seq<Datum>
    requires HasColumns(df, {nodeCol, attrCol})
  {
    if df == [] then []
    else
      var row := df[|df| - 1];
      ValuesFor(df[..|df| - 1], nodeCol, attrCol, n) + (if row[nodeCol] == n then [row[attrCol]] else [])
  }

  /** After `add_node_attributes` each node's dictionary is its old one with the values of
      the rows naming it merged into `attrCol` in row order; nothing else changes. */
  lemma {:induction false} NodeAttrsClosedForm(attrs: map<NodeId, AttrMap>, df: seq<Row>,
                                               nodeCol: string, attrCol: string, n: NodeId)
    requires HasColumns(df, {nodeCol, attrCol}) && n in attrs
    ensures NodeAttrsAfter(attrs, df, nodeCol, attrCol)[n]
         == Absorb(attrs[n], attrCol, ValuesFor(df, nodeCol, attrCol, n))
  {
    if df != [] {
      var prefix := df[..|df| - 1];
      var row := df[|df| - 1];
      NodeAttrsClosedForm(attrs, prefix, nodeCol, attrCol, n);
      var prev := NodeAttrsAfter(attrs, prefix, nodeCol, attrCol);
      if row[nodeCol] == n {
        MergeAbsorb(attrs[n], attrCol, ValuesFor(prefix, nodeCol, attrCol, n), row[attrCol]);
      } else {
        assert ValuesFor(prefix, nodeCol, attrCol, n) + [] == ValuesFor(prefix, nodeCol, attrCol, n);
        assert NodeAttrsAfter(attrs, df, nodeCol, attrCol)[n] == prev[n];
      }
    }
  }

  /** `add_node_attributes(G, node_col, attribute_col, df)`: for each row whose node is in
      `G`, merge the row's value into that node's `attribute_col` entry. */
  method AddNodeAttributes(G: Graph, nodeCol: string, attributeCol: string, df: seq<Row>) returns (result: Graph)
    requires G.Valid() && HasColumns(df, {nodeCol, attributeCol})
    modifies G
    ensures result == G && G.Valid()
    ensures G.topo == old(G.topo) && G.edgeAttrs == old(G.edgeAttrs)
    ensures G.nodeAttrs == NodeAttrsAfter(old(G.nodeAttrs), df, nodeCol, attributeCol)
  {
    var i := 0;
    while i < |df|
      invariant 0 <= i <= |df|
      invariant G.Valid()
      invariant G.topo == old(G.topo) && G.edgeAttrs == old(G.edgeAttrs)
      invariant G.nodeAttrs == NodeAttrsAfter(old(G.nodeAttrs), df[..i], nodeCol, attributeCol)
    {
      var row := df[i];
      var node := row[nodeCol];
      var attribute := row[attributeCol];
      assert df[..i + 1][..i] == df[..i];
      if G.Contains(node) {
        var attrs := G.nodeAttrs[node];
        if attributeCol in attrs {
          match attrs[attributeCol]
          case List(items) =>
            G.nodeAttrs := G.nodeAttrs[node := attrs[attributeCol := List(items + [attribute])]];
          case Scalar(prior) =>
            G.nodeAttrs := G.nodeAttrs[node := attrs[attributeCol := List([prior, attribute])]];
        } else {
          G.nodeAttrs := G.nodeAttrs[node := attrs[attributeCol := List([attribute])]];
        }
      }
      i := i + 1;
    }
    assert df[..i] == df;
    result := G;
  }

  // ---------------------------------------------------------------------------
  // add_edge_attributes

  /** The edge dictionaries after `add_edge_attributes` has processed the rows of `df`. */
  function EdgeAttrsAfter(edges: seq<Edge>, attrs: seq<AttrMap>, df: seq<Row>,
                          col1: string, col2: string, attrCol: string): (r: seq<AttrMap>)
    requires HasColumns(df, {col1, col2, attrCol}) && |attrs| == |edges|
    ensures |r| == |attrs|
  {
    if df == [] then attrs
    else
      var prev := EdgeAttrsAfter(edges, attrs, df[..|df| - 1], col1, col2, attrCol);
      var row := df[|df| - 1];
      var k := FindEdge(edges, row[col1], row[col2]);
      if HasEdge(edges, row[col1], row[col2]) then prev[k := MergeAttr(prev[k], attrCol, row[attrCol])]
      else prev
  }

  /** The `attrCol` values of the rows whose pair is the edge `e`, in either orientation,
      in row order. */
  function EdgeValuesFor(df: seq<Row>, col1: string, col2: string, attrCol: string, e: Edge): seq<Datum>
    requires HasColumns(df, {col1, col2, attrCol})
  {
    if df == [] then []
    else
      var row := df[|df| - 1];
      EdgeValuesFor(df[..|df| - 1], col1, col2, attrCol, e)
        + (if Joins(e, row[col1], row[col2]) then [row[attrCol]] else [])
  }

  /** After `add_edge_attributes` each edge's dictionary is its old one with the values of
      the rows naming that edge (either way round) merged into `attrCol` in row order. */
  lemma {:induction false} EdgeAttrsClosedForm(edges: seq<Edge>, attrs: seq<AttrMap>, df: seq<Row>,
                                               col1: string, col2: string, attrCol: string, k: nat)
    requires HasColumns(df, {col1, col2, attrCol})
    requires SimpleEdges(edges) && |attrs| == |edges| && k < |edges|
    ensures EdgeAttrsAfter(edges, attrs, df, col1, col2, attrCol)[k]
         == Absorb(attrs[k], attrCol, EdgeValuesFor(df, col1, col2, attrCol, edges[k]))
  {
    if df != [] {
      var prefix := df[..|df| - 1];
      var row := df[|df| - 1];
      var a, b := row[col1], row[col2];
      EdgeAttrsClosedForm(edges, attrs, prefix, col1, col2, attrCol, k);
      var j := FindEdge(edges, a, b);
      var earlier := EdgeValuesFor(prefix, col1, col2, attrCol, edges[k]);
      if Joins(edges[k], a, b) {
        assert HasEdge(edges, a, b);
        SameEdgeSameIndex(edges, j, k, a, b);
        MergeAbsorb(attrs[k], attrCol, earlier, row[attrCol]);
      } else {
        assert earlier + [] == earlier;
        assert j != k;
      }
    }
  }

  /** `add_edge_attributes(G, edge_col, attribute_col, df)`: for each row whose pair is an
      edge of `G`, merge the row's value into that edge's `attribute_col` entry. */
  method AddEdgeAttributes(G: Graph, edgeCol: (string, string), attributeCol: string, df: seq<Row>)
    returns (result: Graph)
    requires G.Valid() && HasColumns(df, {edgeCol.0, edgeCol.1, attributeCol})
    modifies G
    ensures result == G && G.Valid()
    ensures G.topo == old(G.topo) && G.nodeAttrs == old(G.nodeAttrs)
    ensures G.edgeAttrs == EdgeAttrsAfter(G.topo.edges, old(G.edgeAttrs), df, edgeCol.0, edgeCol.1, attributeCol)
  {
    var i := 0;
    while i < |df|
      invariant 0 <= i <= |df|
      invariant G.Valid()
      invariant G.topo == old(G.topo) && G.nodeAttrs == old(G.nodeAttrs)
      invariant G.edgeAttrs == EdgeAttrsAfter(G.topo.edges, old(G.edgeAttrs), df[..i], edgeCol.0, edgeCol.1, attributeCol)
    {
      var row := df[i];
      var node1 := row[edgeCol.0];
      var node2 := row[edgeCol.1];
      var attribute := row[attributeCol];
      assert df[..i + 1][..i] == df[..i];
      if G.HasEdgeBetween(node1, node2) {
        var k := FindEdge(G.topo.edges, node1, node2);
        var attrs := G.edgeAttrs[k];
        if attributeCol in attrs {
          match attrs[attributeCol]
          case List(items) =>
            G.edgeAttrs := G.edgeAttrs[k := attrs[attributeCol := List(items + [attribute])]];
          case Scalar(prior) =>
            G.edgeAttrs := G.edgeAttrs[k := attrs[attributeCol := List([prior, attribute])]];
        } else {
          G.edgeAttrs := G.edgeAttrs[k := attrs[attributeCol := List([attribute])]];
        }
      }
      i := i + 1;
    }
    assert df[..i] == df;
    result := G;
  }

  /** Starting from an edge without the attribute, the edge ends up with exactly one list
      entry per matching row, or still without the attribute when no row matches. */
  lemma EdgeListLength(edges: seq<Edge>, attrs: seq<AttrMap>, df: seq<Row>,
                       col1: string, col2: string, attrCol: string, k: nat)
    requires HasColumns(df, {col1, col2, attrCol})
    requires SimpleEdges(edges) && |attrs| == |edges| && k < |edges|
    requires attrCol !in attrs[k]
    ensures var after := EdgeAttrsAfter(edges, attrs, df, col1, col2, attrCol)[k];
            var ds := EdgeValuesFor(df, col1, col2, attrCol, edges[k]);
            && (ds == [] ==> attrCol !in after)
            && (ds != [] ==> attrCol in after && after[attrCol] == List(ds))
  {
    EdgeAttrsClosedForm(edges, attrs, df, col1, col2, attrCol, k);
  }
}
