/**
 * The two selection helpers of the test suite (select_test.go, `selectNode` and `selectNodes`):
 * compile an expression, start an iterator on a navigator over `root`, and collect the nodes
 * the iterator stops at. They show what `NodeIterator.MoveNext` promises: the cursor visits
 * exactly the positions the query yields, in order.
 */
module TestSelection {
  import opened TestTree
  import opened TestNavigator
  import opened XPath

  /** `selectNode`: the node of the first match, or null when nothing matches. */
  method SelectNode(root: TNode, expr: string, build: string -> Built) returns (n: TNode?)
    requires Compile(expr, build).Success?
    ensures var p := build(expr).query.value.Pending();
            n == if p == [] then null else p[0].curr
  {
    ghost var p := build(expr).query.value.Pending();
    var nav := CreateNavigator(root);
    var t := Select(nav, expr, build);
    assert t.query.Pending() == p;
    n := null;
    var ok := t.MoveNext();
    if ok {
      assert p != [] && t.node.curr == p[0].curr;
      n := t.Current().curr;
    }
  }

  /** `selectNodes`: the nodes of every match, in the order the query yields them. */
  method SelectNodes(root: TNode, expr: string, build: string -> Built) returns (nodes: seq<TNode>)
    requires Compile(expr, build).Success?
    ensures var p := build(expr).query.value.Pending();
            |nodes| == |p| && forall i :: 0 <= i < |p| ==> nodes[i] == p[i].curr
  {
    ghost var p := build(expr).query.value.Pending();
    var nav := CreateNavigator(root);
    var t := Select(nav, expr, build);
    nodes := [];
    while true
      invariant fresh(t) && fresh(t.node) && (t.query.Engine? ==> fresh(t.query.state))
      invariant |nodes| <= |p| && t.query.Pending() == p[|nodes|..]
      invariant forall i :: 0 <= i < |nodes| ==> nodes[i] == p[i].curr
      invariant unchanged(p)
      decreases |p| - |nodes|
    {
      ghost var k := |nodes|;
      var ok := t.MoveNext();
      if !ok {
        break;
      }
      assert t.node.curr == p[k].curr && t.query.Pending() == p[k + 1..];
      nodes := nodes + [t.Current().curr];
    }
  }
}
