/**
 * The cursor over the test document tree (select_test.go, `TNodeNavigator`).
 *
 * A navigator sits on a node `curr` of the tree that starts at `root`. When `attr` is not -1 the
 * navigator is on the `attr`-th attribute of `curr` rather than on `curr` itself. Only
 * `MoveToNextAttribute` and `MoveTo` touch `attr`; the moves between nodes keep it as it was,
 * so after one of them `attr` can lie outside the attribute list of the new `curr`. The
 * accessors that index the attribute list ask for `AttrInRange()`, where the source would
 * panic on an out-of-range index.
 */
module TestNavigator {
  import opened NodeKinds
  import opened Text
  import opened TestTree

  class TNodeNavigator {
    var curr: TNode
    var root: TNode
    var attr: int

    /** `attr` is -1 or an attribute position; nothing in the navigator ever makes it smaller. */
    ghost predicate Valid()
      reads this
    {
      attr >= -1
    }

    /** `attr` can be used to index the attribute list of the current node. */
    ghost predicate AttrInRange()
      reads this, curr
    {
      attr == -1 || 0 <= attr < |curr.Attr|
    }

    /** The struct literal `TNodeNavigator{curr, root, attr}`. */
    constructor (curr: TNode, root: TNode, attr: int)
      ensures this.curr == curr && this.root == root && this.attr == attr
    {
      this.curr, this.root, this.attr := curr, root, attr;
    }

    /** An element navigator with `attr` set is on an attribute; otherwise on `curr` itself. */
    function NodeType(): (t: NodeKinds.NodeType)
      reads this, curr
      ensures curr.Type == ElementNode && attr != -1 ==> t == AttributeNode
      ensures attr == -1 || curr.Type != ElementNode ==> t == curr.Type
    {
      if curr.Type == ElementNode && attr != -1 then AttributeNode else curr.Type
    }

    /** The key of the current attribute, or the data of the current node. */
    function LocalName(): (name: string)
      reads this, curr
      requires AttrInRange()
      ensures attr != -1 ==> name == curr.Attr[attr].Key
      ensures attr == -1 ==> name == curr.Data
    {
      if attr != -1 then curr.Attr[attr].Key else curr.Data
    }

    /** The test tree has no namespaces. */
    function Prefix(): (p: string)
      ensures p == ""
    {
      ""
    }

    /**
     * The value of the current position: a comment or text node gives its data, an attribute
     * its value, an element the trimmed data of its direct text children, anything else "".
     */
    ghost function ValueSpec(nodes: set<TNode>): string
      reads this, nodes
      requires Tree(nodes) && curr in nodes
      requires curr.Type == ElementNode ==> AttrInRange()
    {
      if curr.Type == CommentNode || curr.Type == TextNode then curr.Data
      else if curr.Type == ElementNode then
        if attr != -1 then curr.Attr[attr].Value
        else ChildrenInTree(nodes, curr); TrimmedText(curr.Children)
      else ""
    }

    /** `Value`: walks the children of an element through their sibling links. */
    method Value(ghost nodes: set<TNode>) returns (s: string)
      requires Tree(nodes) && curr in nodes
      requires curr.Type == ElementNode ==> AttrInRange()
      ensures s == ValueSpec(nodes)
    {
      var n := curr;
      if n.Type == CommentNode {
        return n.Data;
      } else if n.Type == ElementNode {
        if attr != -1 {
          return n.Attr[attr].Value;
        }
        s := "";
        assert Linked(n, nodes);
        ChildrenInTree(nodes, n);
        var node := n.FirstChild;
        ghost var k := 0;
        while node != null
          invariant k <= |n.Children|
          invariant node == if k < |n.Children| then n.Children[k] else null
          invariant s == TrimmedText(n.Children[..k])
          decreases |n.Children| - k
        {
          ChildIsYounger(nodes, n, k);
          assert n.Children[..k + 1][..k] == n.Children[..k];
          if node.Type == TextNode {
            s := s + TrimSpace(node.Data);
          }
          node := node.NextSibling;
          k := k + 1;
        }
        assert n.Children[..k] == n.Children;
        return s;
      } else if n.Type == TextNode {
        return n.Data;
      }
      return "";
    }

    /** A new navigator at the same position; later moves of either leave the other alone. */
    method Copy() returns (c: TNodeNavigator)
      ensures fresh(c) && c.curr == curr && c.root == root && c.attr == attr
    {
      c := new TNodeNavigator(curr, root, attr);
    }

    /** The node under the navigator. */
    function Current(): (n: TNode)
      reads this
      ensures n == curr
    {
      curr
    }

    /** Back to the node the navigator was created on. */
    method MoveToRoot()
      modifies this
      ensures curr == root && root == old(root) && attr == old(attr)
    {
      curr := root;
    }

    /** Up to the parent, when there is one. */
    method MoveToParent() returns (ok: bool)
      modifies this
      ensures ok == (old(curr.Parent) != null)
      ensures curr == (if ok then old(curr.Parent) else old(curr))
      ensures root == old(root) && attr == old(attr)
    {
      var node := curr.Parent;
      if node != null {
        curr := node;
        return true;
      }
      return false;
    }

    /**
     * On to the next attribute of the current node. From -1 (the node itself) this is the
     * first attribute; past the last one the navigator stays where it is.
     */
    method MoveToNextAttribute() returns (ok: bool)
      modifies this
      ensures ok == (old(attr) < |curr.Attr| - 1)
      ensures attr == (if ok then old(attr) + 1 else old(attr))
      ensures curr == old(curr) && root == old(root)
      ensures old(Valid()) ==> Valid()
      ensures old(Valid()) && ok ==> 0 <= attr < |curr.Attr|
    {
      if attr >= |curr.Attr| - 1 {
        return false;
      }
      attr := attr + 1;
      return true;
    }

    /** Down to the first child, when there is one. */
    method MoveToChild() returns (ok: bool)
      modifies this
      ensures ok == (old(curr.FirstChild) != null)
      ensures curr == (if ok then old(curr.FirstChild) else old(curr))
      ensures root == old(root) && attr == old(attr)
    {
      var node := curr.FirstChild;
      if node != null {
        curr := node;
        return true;
      }
      return false;
    }

    /**
     * Back along the previous-sibling links to the first sibling. It fails, and does not move,
     * when the navigator is already on a first sibling. Under a parent the node reached is the
     * parent's first child.
     */
    method MoveToFirst(ghost nodes: set<TNode>) returns (ok: bool)
      requires Tree(nodes) && curr in nodes
      modifies this
      ensures ok == (old(curr.PrevSibling) != null)
      ensures curr == FirstSibling(old(curr), nodes)
      ensures !ok ==> curr == old(curr)
      ensures curr in nodes && curr.Parent == old(curr.Parent)
      ensures curr.PrevSibling == null
      ensures curr.Parent != null ==> curr == curr.Parent.FirstChild
      ensures root == old(root) && attr == old(attr)
    {
      if curr.PrevSibling == null {
        FirstOfSiblings(nodes, curr);
        return false;
      }
      while true
        invariant curr in nodes && FirstSibling(curr, nodes) == FirstSibling(old(curr), nodes)
        invariant root == old(root) && attr == old(attr)
        decreases curr.Id
      {
        var node := curr.PrevSibling;
        if node == null {
          break;
        }
        assert Linked(curr, nodes);
        curr := node;
      }
      FirstOfSiblings(nodes, curr);
      return true;
    }

    /** The string form of a navigator is its value. */
    method String(ghost nodes: set<TNode>) returns (s: string)
      requires Tree(nodes) && curr in nodes
      requires curr.Type == ElementNode ==> AttrInRange()
      ensures s == ValueSpec(nodes)
    {
      s := Value(nodes);
    }

    /** On to the next sibling, when there is one. */
    method MoveToNext() returns (ok: bool)
      modifies this
      ensures ok == (old(curr.NextSibling) != null)
      ensures curr == (if ok then old(curr.NextSibling) else old(curr))
      ensures root == old(root) && attr == old(attr)
    {
      var node := curr.NextSibling;
      if node != null {
        curr := node;
        return true;
      }
      return false;
    }

    /** Back to the previous sibling, when there is one. */
    method MoveToPrevious() returns (ok: bool)
      modifies this
      ensures ok == (old(curr.PrevSibling) != null)
      ensures curr == (if ok then old(curr.PrevSibling) else old(curr))
      ensures root == old(root) && attr == old(attr)
    {
      var node := curr.PrevSibling;
      if node != null {
        curr := node;
        return true;
      }
      return false;
    }

    /** To the position of `other`, which must be a navigator over the same tree. */
    method MoveTo(other: TNodeNavigator) returns (ok: bool)
      modifies this
      ensures ok == (old(other.root) == old(root))
      ensures ok ==> curr == old(other.curr) && attr == old(other.attr)
      ensures !ok ==> curr == old(curr) && attr == old(attr)
      ensures root == old(root)
      ensures old(Valid()) && old(other.Valid()) ==> Valid()
    {
      if other.root != root {
        return false;
      }
      curr, attr := other.curr, other.attr;
      return true;
    }
  }

  /** `createNavigator`: a navigator on `n`, which is also its root, not on an attribute. */
  method CreateNavigator(n: TNode) returns (nav: TNodeNavigator)
    ensures fresh(nav) && nav.curr == n && nav.root == n && nav.attr == -1
    ensures nav.Valid() && nav.AttrInRange()
  {
    nav := new TNodeNavigator(n, n, -1);
  }

  /** The trimmed data of the text nodes among `cs`, in order. */
  ghost function TrimmedText(cs: seq<TNode>): string
    reads cs
  {
    if cs == [] then ""
    else
      var last := cs[|cs| - 1];
      TrimmedText(cs[..|cs| - 1]) + (if last.Type == TextNode then TrimSpace(last.Data) else "")
  }

  /** A text node without children whose data has no surrounding white space. */
  ghost predicate TrimmedLeaf(c: TNode)
    reads c
  {
    c.Type == TextNode && c.Children == [] && Trimmed(c.Data)
  }

  /**
   * When every child of `n` is a trimmed text leaf, the trimmed text of the first `k`
   * children is the subtree text they contribute to `n`.
   */
  lemma {:induction false} TrimmedTextOfLeaves(nodes: set<TNode>, n: TNode, k: nat)
    requires Tree(nodes) && n in nodes && k <= |n.Children|
    requires forall i :: 0 <= i < |n.Children| ==> TrimmedLeaf(n.Children[i])
    ensures TrimmedText(n.Children[..k]) == ChildrenText(n, k, nodes)
  {
    if k > 0 {
      TrimmedTextOfLeaves(nodes, n, k - 1);
      ChildIsYounger(nodes, n, k - 1);
      var c := n.Children[k - 1];
      assert TrimmedLeaf(c);
      LeafText(nodes, c);
      TrimmedTextStep(n.Children, k);
      TrimSpaceOfTrimmed(c.Data);
    }
  }

  /** Extending a list of nodes by one extends its trimmed text by that node's contribution. */
  lemma TrimmedTextStep(cs: seq<TNode>, k: nat)
    requires 0 < k <= |cs|
    ensures TrimmedText(cs[..k]) ==
            TrimmedText(cs[..k - 1]) + (if cs[k - 1].Type == TextNode then TrimSpace(cs[k - 1].Data) else "")
  {
    assert cs[..k][..k - 1] == cs[..k - 1];
  }

  /** A text node without children contributes exactly its data to the text of its subtree. */
  lemma LeafText(nodes: set<TNode>, c: TNode)
    requires Tree(nodes) && c in nodes && c.Type == TextNode && c.Children == []
    ensures SubtreeText(c, nodes) == c.Data
  {
    assert ChildrenText(c, 0, nodes) == "";
  }

  /**
   * The two notions of value agree on an element whose children are all trimmed text leaves:
   * the navigator's value (trimmed text of the direct children) is the node's own value (the
   * text of the whole subtree). Any other text below the element, or any white space at the
   * ends of a child's data, can make them differ.
   */
  lemma ValueAgreesOnTextLeaves(nav: TNodeNavigator, nodes: set<TNode>)
    requires Tree(nodes) && nav.curr in nodes
    requires nav.curr.Type == ElementNode && nav.attr == -1
    requires forall i :: 0 <= i < |nav.curr.Children| ==> TrimmedLeaf(nav.curr.Children[i])
    ensures nav.ValueSpec(nodes) == SubtreeText(nav.curr, nodes)
  {
    TrimmedTextOfLeaves(nodes, nav.curr, |nav.curr.Children|);
    assert nav.curr.Children[..|nav.curr.Children|] == nav.curr.Children;
  }

  /**
   * `MoveToChild` keeps the attribute index: a navigator moved from the first attribute of an
   * element to the element's text child still has `attr == 0`, which no longer indexes an
   * attribute, and it reports the text child's kind.
   */
  method AttributeIndexSurvivesMoveToChild() returns (nav: TNodeNavigator)
    ensures nav.Valid() && nav.attr == 0 && !nav.AttrInRange()
    ensures nav.NodeType() == TextNode
  {
    ghost var nodes: set<TNode> := {};
    var p := new TNode("a", ElementNode, nodes);
    nodes := nodes + {p};
    p.AddAttribute("id", "1", nodes);
    var t := p.CreateChildNode("x", TextNode, nodes);
    nav := CreateNavigator(p);
    var onAttr := nav.MoveToNextAttribute();
    var down := nav.MoveToChild();
  }

  /** The node reached from `n` by following `PrevSibling` links until there is none. */
  ghost function FirstSibling(n: TNode, nodes: set<TNode>): (f: TNode)
    reads nodes
    requires Tree(nodes) && n in nodes
    ensures f in nodes && f.PrevSibling == null && f.Parent == n.Parent && f.Id <= n.Id
    ensures n.PrevSibling == null ==> f == n
    decreases n.Id
  {
    assert Linked(n, nodes);
    if n.PrevSibling == null then n else FirstSibling(n.PrevSibling, nodes)
  }

  /** A node of a tree without a previous sibling is the first child of its parent, if any. */
  lemma FirstOfSiblings(nodes: set<TNode>, t: TNode)
    requires Tree(nodes) && t in nodes && t.PrevSibling == null
    ensures t.Parent != null ==> t == t.Parent.FirstChild
  {
    assert Linked(t, nodes);
    if t.Parent != null {
      assert Linked(t.Parent, nodes);
      assert ChildAt(t.Parent, t.Index, nodes);
    }
  }
}
