/** The second copy of the graph builders. Its `create_graph` and `add_node_attributes` do
    what the `GraphHandling` versions do row for row, so they run those; what this module
    adds is their outcome in closed form. */
module GraphLoader {
  import opened NetworkGraph
  import opened GraphHandling

  /** `create_graph(source_col, target_col, df)`: the nodes are exactly the endpoints of
      the rows and the edges exactly the unordered row pairs; no node dictionary and no
      edge dictionary carries anything. */
  method CreateGraph(sourceCol: string, targetCol: string, df: seq<Row>) returns (graph: Graph)
    requires HasColumns(df, {sourceCol, targetCol})
    ensures fresh(graph) && graph.Valid() && graph.Bare()
    ensures forall n :: n in graph.topo.nodes <==> n in Ends(Pairs(df, sourceCol, targetCol))
    ensures forall a, b :: HasEdge(graph.topo.edges, a, b) <==> HasEdge(Pairs(df, sourceCol, targetCol), a, b)
  {
    graph := GraphHandling.CreateGraph(sourceCol, targetCol, df);
    BuildNodes(Pairs(df, sourceCol, targetCol));
    BuildEdges(Pairs(df, sourceCol, targetCol));
  }

  /** A node is an endpoint of the pairs exactly when some row names it as source or target. */
  lemma {:induction false} EndsOfRows(df: seq<Row>, sourceCol: string, targetCol: string, n: NodeId)
    requires HasColumns(df, {sourceCol, targetCol})
    ensures n in Ends(Pairs(df, sourceCol, targetCol))
        <==> exists i :: 0 <= i < |df| && (df[i][sourceCol] == n || df[i][targetCol] == n)
  {
    if df != [] {
      var prefix := df[..|df| - 1];
      EndsOfRows(prefix, sourceCol, targetCol, n);
      assert Pairs(df, sourceCol, targetCol)[..|df| - 1] == Pairs(prefix, sourceCol, targetCol);
      if exists i :: 0 <= i < |df| && (df[i][sourceCol] == n || df[i][targetCol] == n) {
        var i :| 0 <= i < |df| && (df[i][sourceCol] == n || df[i][targetCol] == n);
        if i < |df| - 1 {
          assert prefix[i] == df[i];
        }
      }
      if exists i :: 0 <= i < |prefix| && (prefix[i][sourceCol] == n || prefix[i][targetCol] == n) {
        var i :| 0 <= i < |prefix| && (prefix[i][sourceCol] == n || prefix[i][targetCol] == n);
        assert df[i] == prefix[i];
      }
    }
  }

  /** `add_node_attributes(G, node_col, attribute_col, df)`: the node set, the edge set and
      the edge dictionaries stay as they were; every node's dictionary is its old one with
      the values of the rows naming it merged into `attribute_col` in row order, and rows
      naming no node of `G` leave no trace. */
  method AddNodeAttributes(G: Graph, nodeCol: string, attributeCol: string, df: seq<Row>) returns (result: Graph)
    requires G.Valid() && HasColumns(df, {nodeCol, attributeCol})
    modifies G
    ensures result == G && G.Valid()
    ensures G.topo == old(G.topo) && G.edgeAttrs == old(G.edgeAttrs)
    ensures G.nodeAttrs.Keys == old(G.nodeAttrs.Keys)
    ensures forall n :: n in old(G.nodeAttrs) ==>
              G.nodeAttrs[n] == Absorb(old(G.nodeAttrs[n]), attributeCol, ValuesFor(df, nodeCol, attributeCol, n))
  {
    ghost var before := G.nodeAttrs;
    result := GraphHandling.AddNodeAttributes(G, nodeCol, attributeCol, df);
    forall n | n in before
      ensures G.nodeAttrs[n] == Absorb(before[n], attributeCol, ValuesFor(df, nodeCol, attributeCol, n))
    {
      NodeAttrsClosedForm(before, df, nodeCol, attributeCol, n);
    }
  }

  /** Starting with the attribute absent, a node ends up with the list of the values of the
      rows naming it, in row order, and keeps the attribute absent when no row names it;
      every other key of its dictionary is as it was. */
  lemma NodeListFromAbsent(attrs: map<NodeId, AttrMap>, df: seq<Row>, nodeCol: string, attrCol: string, n: NodeId)
    requires HasColumns(df, {nodeCol, attrCol}) && n in attrs && attrCol !in attrs[n]
    ensures var after := NodeAttrsAfter(attrs, df, nodeCol, attrCol)[n];
            var ds := ValuesFor(df, nodeCol, attrCol, n);
            && Lookup(after, attrCol) == (if ds == [] then None else Some(List(ds)))
            && forall k :: k != attrCol ==> Lookup(after, k) == Lookup(attrs[n], k)
  {
    NodeAttrsClosedForm(attrs, df, nodeCol, attrCol, n);
    var ds := ValuesFor(df, nodeCol, attrCol, n);
    assert Items(Lookup(attrs[n], attrCol)) + ds == ds;
    var after := Absorb(attrs[n], attrCol, ds);
    forall k | k != attrCol ensures Lookup(after, k) == Lookup(attrs[n], k) {
    }
  }

  /** The values collected for a node are exactly the values of the rows naming it: every
      collected value comes from such a row, and their number is the number of such rows. */
  lemma {:induction false} ValuesForRows(df: seq<Row>, nodeCol: string, attrCol: string, n: NodeId)
    requires HasColumns(df, {nodeCol, attrCol})
    ensures |ValuesFor(df, nodeCol, attrCol, n)| == Count(df, nodeCol, n)
    ensures forall d :: d in ValuesFor(df, nodeCol, attrCol, n) <==>
              exists i :: 0 <= i < |df| && df[i][nodeCol] == n && df[i][attrCol] == d
  {
    if df != [] {
      var prefix := df[..|df| - 1];
      var row := df[|df| - 1];
      ValuesForRows(prefix, nodeCol, attrCol, n);
      var vs := ValuesFor(df, nodeCol, attrCol, n);
      var earlier := ValuesFor(prefix, nodeCol, attrCol, n);
      forall d ensures d in vs <==> exists i :: 0 <= i < |df| && df[i][nodeCol] == n && df[i][attrCol] == d {
        if d in vs {
          if d in earlier {
            var i :| 0 <= i < |prefix| && prefix[i][nodeCol] == n && prefix[i][attrCol] == d;
            assert df[i] == prefix[i];
          } else {
            assert df[|df| - 1] == row;
          }
        }
        if exists i :: 0 <= i < |df| && df[i][nodeCol] == n && df[i][attrCol] == d {
          var i :| 0 <= i < |df| && df[i][nodeCol] == n && df[i][attrCol] == d;
          if i < |prefix| {
            assert prefix[i] == df[i];
          }
        }
      }
    }
  }

  /** The number of rows naming `n` in `nodeCol`. */
  function Count(df: seq<Row>, nodeCol: string, n: NodeId): nat
    requires HasColumns(df, {nodeCol})
  {
    if df == [] then 0
    else Count(df[..|df| - 1], nodeCol, n) + (if df[|df| - 1][nodeCol] == n then 1 else 0)
  }
}
