/** Writing each node's `spin` attribute from a DataFrame. */
module ProcessNodes {
  import opened NetworkGraph
  import opened GraphHandling

  /** The attribute key `process_nodes` writes. */
  const SpinKey: string := "spin"

  /** The node dictionaries after `process_nodes` has processed the rows of `df`: a row
      naming a node of the graph overwrites that node's `spin`. */
  function SpinsAfter(attrs: map<NodeId, AttrMap>, df: seq<Row>, nodeCol: string, spinCol: string)
    : (r: map<NodeId, AttrMap>)
    requires HasColumns(df, {nodeCol, spinCol})
    ensures r.Keys == attrs.Keys
  {
    if df == [] then attrs
    else
      var prev := SpinsAfter(attrs, df[..|df| - 1], nodeCol, spinCol);
      var row := df[|df| - 1];
      var node := row[nodeCol];
      if node in prev then prev[node := prev[node][SpinKey := Scalar(row[spinCol])]] else prev
  }

  /** The `spinCol` value of the last row naming `n`, if any row does. */
  function LastValue(df: seq<Row>, nodeCol: string, spinCol: string, n: NodeId): Option<Datum>
    requires HasColumns(df, {nodeCol, spinCol})
  {
    if df == [] then None
    else if df[|df| - 1][nodeCol] == n then Some(df[|df| - 1][spinCol])
    else LastValue(df[..|df| - 1], nodeCol, spinCol, n)
  }

  /** `LastValue` is what its name says: it is absent exactly when no row names `n`, and
      otherwise it is the value of a row naming `n` after which no row names `n`. */
  lemma {:induction false} LastValueIsLast(df: seq<Row>, nodeCol: string, spinCol: string, n: NodeId)
    requires HasColumns(df, {nodeCol, spinCol})
    ensures LastValue(df, nodeCol, spinCol, n).None? <==> forall i :: 0 <= i < |df| ==> df[i][nodeCol] != n
    ensures LastValue(df, nodeCol, spinCol, n).Some? ==>
              exists i :: 0 <= i < |df| && df[i][nodeCol] == n
                && LastValue(df, nodeCol, spinCol, n).value == df[i][spinCol]
                && forall j :: i < j < |df| ==> df[j][nodeCol] != n
  {
    if df != [] {
      var prefix := df[..|df| - 1];
      var last := |df| - 1;
      LastValueIsLast(prefix, nodeCol, spinCol, n);
      if df[last][nodeCol] != n {
        if LastValue(prefix, nodeCol, spinCol, n).None? {
          forall i | 0 <= i < |df| ensures df[i][nodeCol] != n {
            if i < last {
              assert df[i] == prefix[i];
            }
          }
        } else {
          var i :| 0 <= i < |prefix| && prefix[i][nodeCol] == n
            && LastValue(prefix, nodeCol, spinCol, n).value == prefix[i][spinCol]
            && forall j :: i < j < |prefix| ==> prefix[j][nodeCol] != n;
          assert df[i] == prefix[i];
          forall j | i < j < |df| ensures df[j][nodeCol] != n {
            if j < last {
              assert df[j] == prefix[j];
            }
          }
        }
      }
    }
  }

  /** After `process_nodes` a node named by some row has as `spin` the value of the last
      row naming it; a node named by no row keeps its dictionary; every key other than
      `spin` is untouched. */
  lemma {:induction false} SpinsClosedForm(attrs: map<NodeId, AttrMap>, df: seq<Row>,
                                           nodeCol: string, spinCol: string, n: NodeId)
    requires HasColumns(df, {nodeCol, spinCol}) && n in attrs
    ensures SpinsAfter(attrs, df, nodeCol, spinCol)[n]
         == match LastValue(df, nodeCol, spinCol, n)
            case None => attrs[n]
            case Some(v) => attrs[n][SpinKey := Scalar(v)]
  {
    if df != [] {
      var prefix := df[..|df| - 1];
      SpinsClosedForm(attrs, prefix, nodeCol, spinCol, n);
      var prev := SpinsAfter(attrs, prefix, nodeCol, spinCol);
      var row := df[|df| - 1];
      if row[nodeCol] == n {
        match LastValue(prefix, nodeCol, spinCol, n)
        case None =>
        case Some(v) =>
          assert attrs[n][SpinKey := Scalar(v)][SpinKey := Scalar(row[spinCol])]
              == attrs[n][SpinKey := Scalar(row[spinCol])];
      }
    }
  }

  /** `process_nodes(G, df, node_col, spin_col)`: for each row whose node is in `G`, set
      that node's `spin` to the row's value. The node set, the edge set and the edge
      dictionaries stay as they were. */
  method ProcessNodes(G: Graph, df: seq<Row>, nodeCol: string, spinCol: string) returns (result: Graph)
    requires G.Valid() && HasColumns(df, {nodeCol, spinCol})
    modifies G
    ensures result == G && G.Valid()
    ensures G.topo == old(G.topo) && G.edgeAttrs == old(G.edgeAttrs)
    ensures G.nodeAttrs == SpinsAfter(old(G.nodeAttrs), df, nodeCol, spinCol)
  {
    var i := 0;
    while i < |df|
      invariant 0 <= i <= |df|
      invariant G.Valid()
      invariant G.topo == old(G.topo) && G.edgeAttrs == old(G.edgeAttrs)
      invariant G.nodeAttrs == SpinsAfter(old(G.nodeAttrs), df[..i], nodeCol, spinCol)
    {
      var row := df[i];
      var node := row[nodeCol];
      var spinValue := row[spinCol];
      assert df[..i + 1][..i] == df[..i];
      if G.Contains(node) {
        G.nodeAttrs := G.nodeAttrs[node := G.nodeAttrs[node][SpinKey := Scalar(spinValue)]];
      }
      i := i + 1;
    }
    assert df[..i] == df;
    result := G;
  }
}
