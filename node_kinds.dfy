/** The kinds of node an XPath cursor can stand on (xpath.go, `NodeType`). */
module NodeKinds {

  /** Go declares `type NodeType int`, so any integer is a node type; the named kinds are 0..5. */
  newtype NodeType = int

  const RootNode: NodeType := 0
  const ElementNode: NodeType := 1
  const AttributeNode: NodeType := 2
  const TextNode: NodeType := 3
  const CommentNode: NodeType := 4
  /** Used by the query engine only, to match any kind of node. */
  const AllNode: NodeType := 5

  /** The named kinds in declaration order; the `iota` block numbers them 0, 1, 2, ... */
  function Kinds(): (ks: seq<NodeType>)
    ensures |ks| == 6
    ensures forall i :: 0 <= i < |ks| ==> ks[i] as int == i
  {
    [RootNode, ElementNode, AttributeNode, TextNode, CommentNode, AllNode]
  }
}
