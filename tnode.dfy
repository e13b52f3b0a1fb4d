/**
 * The in-memory document tree used to exercise the XPath engine (select_test.go, `TNode`).
 *
 * Every node carries the five links of the source. The children of a node form a doubly
 * linked list through `PrevSibling`/`NextSibling`, with `FirstChild` and `LastChild` at its
 * ends. Three ghost fields record what the links encode: `Children` is the list of children
 * in sibling order, `Index` is a node's position in its parent's `Children`, and `Id` is the
 * node's rank in creation order. The ghost set `nodes` passed to the builders holds every
 * node created so far; `Tree(nodes)` ties the links to `Children`.
 */
module TestTree {
  import opened NodeKinds

  datatype Attribute = Attribute(Key: string, Value: string)

  class TNode {
    var Parent: TNode?
    var FirstChild: TNode?
    var LastChild: TNode?
    var PrevSibling: TNode?
    var NextSibling: TNode?

    var Type: NodeType
    var Data: string
    var Attr: seq<Attribute>

    ghost var Children: seq<TNode>
    ghost var Index: nat
    ghost var Id: nat

    /** `createNode`: a node with no links and no attributes, the newest of `nodes`. */
    constructor (data: string, typ: NodeType, ghost nodes: set<TNode>)
      requires Tree(nodes)
      ensures Tree(nodes + {this}) && Id == |nodes|
      ensures Data == data && Type == typ && Attr == []
      ensures Parent == null && FirstChild == null && LastChild == null
      ensures PrevSibling == null && NextSibling == null && Children == []
    {
      Data, Type, Attr := data, typ, [];
      Parent, FirstChild, LastChild, PrevSibling, NextSibling := null, null, null, null, null;
      Children, Index, Id := [], 0, |nodes|;
      new;
      TreeGrows(nodes, this);
    }

    /**
     * `createChildNode`: a new node of kind `typ` appended as the last child of this node.
     * Only this node, its former last child and the new node change.
     */
    method CreateChildNode(data: string, typ: NodeType, ghost nodes: set<TNode>) returns (n: TNode)
      requires Tree(nodes) && this in nodes
      modifies this, LastChild
      ensures fresh(n) && Tree(nodes + {n})
      ensures n.Data == data && n.Type == typ && n.Attr == [] && n.Children == []
      ensures n.Parent == this && n.FirstChild == null && n.LastChild == null && n.NextSibling == null
      ensures n.PrevSibling == old(LastChild)
      ensures Children == old(Children) + [n] && LastChild == n
      ensures FirstChild == if old(FirstChild) == null then n else old(FirstChild)
      ensures old(LastChild) != null ==> old(LastChild).NextSibling == n
      ensures old(LastChild) != null ==>
                var c := old(LastChild);
                && c.Data == old(c.Data) && c.Type == old(c.Type) && c.Attr == old(c.Attr)
                && c.Parent == old(c.Parent) && c.PrevSibling == old(c.PrevSibling)
                && c.FirstChild == old(c.FirstChild) && c.LastChild == old(c.LastChild)
                && c.Children == old(c.Children)
      ensures Parent == old(Parent) && PrevSibling == old(PrevSibling) && NextSibling == old(NextSibling)
      ensures Type == old(Type) && Data == old(Data) && Attr == old(Attr)
    {
      ghost var last := LastChild;
      LastChildOf(nodes, this);
      n := new TNode(data, typ, nodes);
      LinkChild(n);
      Spliced(Splice(nodes, this, last, n));
    }

    /** The link step of `createChildNode`: the unlinked node `n` becomes the last child. */
    method LinkChild(n: TNode)
      requires n != this && n != LastChild && LastChild != this && n.PrevSibling == null
      requires (FirstChild == null) == (LastChild == null)
      modifies this, LastChild, n
      ensures n.Parent == this && n.PrevSibling == old(LastChild) && n.Index == old(|Children|)
      ensures Children == old(Children) + [n] && LastChild == n
      ensures FirstChild == if old(FirstChild) == null then n else old(FirstChild)
      ensures Parent == old(Parent) && PrevSibling == old(PrevSibling) && NextSibling == old(NextSibling)
      ensures Type == old(Type) && Data == old(Data) && Attr == old(Attr)
      ensures Index == old(Index) && Id == old(Id)
      ensures unchanged(n`Data, n`Type, n`Attr, n`NextSibling, n`FirstChild, n`LastChild, n`Children, n`Id)
      ensures old(LastChild) != null ==>
                var c := old(LastChild);
                && c.NextSibling == n
                && unchanged(c`Data, c`Type, c`Attr, c`Parent, c`PrevSibling, c`FirstChild, c`LastChild)
                && unchanged(c`Children, c`Index, c`Id)
    {
      n.Parent := this;
      if FirstChild == null {
        FirstChild := n;
      } else {
        LastChild.NextSibling := n;
        n.PrevSibling := LastChild;
      }
      LastChild := n;
      n.Index := |Children|;
      Children := Children + [n];
    }

    /**
     * `appendNode`: a new node placed right after this one, under the same parent, which
     * (if there is one) gets it as its new last child. The source overwrites `NextSibling`
     * unconditionally; the sibling list stays well formed only when this node is the last of
     * its siblings, which is what the precondition asks.
     */
    method AppendNode(data: string, typ: NodeType, ghost nodes: set<TNode>) returns (n: TNode)
      requires Tree(nodes) && this in nodes && NextSibling == null
      modifies this, Parent
      ensures fresh(n) && Tree(nodes + {n})
      ensures n.Data == data && n.Type == typ && n.Attr == [] && n.Children == []
      ensures n.Parent == Parent && n.PrevSibling == this && n.NextSibling == null
      ensures n.FirstChild == null && n.LastChild == null
      ensures NextSibling == n && Parent == old(Parent) && PrevSibling == old(PrevSibling)
      ensures FirstChild == old(FirstChild) && LastChild == old(LastChild) && Children == old(Children)
      ensures Type == old(Type) && Data == old(Data) && Attr == old(Attr)
      ensures Parent != null ==>
                && Parent.LastChild == n && Parent.Children == old(Parent.Children) + [n]
                && Parent.FirstChild == old(Parent.FirstChild) && Parent.Parent == old(Parent.Parent)
                && Parent.PrevSibling == old(Parent.PrevSibling) && Parent.NextSibling == old(Parent.NextSibling)
                && Parent.Data == old(Parent.Data) && Parent.Type == old(Parent.Type)
                && Parent.Attr == old(Parent.Attr)
    {
      LastOfSiblings(nodes, this);
      n := new TNode(data, typ, nodes);
      LinkSibling(n);
      Spliced(Splice(nodes, Parent, this, n));
    }

    /** The link step of `appendNode`: the unlinked node `n` comes right after this one. */
    method LinkSibling(n: TNode)
      requires n != this && n != Parent && Parent != this && n.PrevSibling == null
      modifies this, Parent, n
      ensures n.Parent == old(Parent) && n.PrevSibling == this && NextSibling == n
      ensures old(Parent) != null ==> n.Index == old(|Parent.Children|)
      ensures unchanged(n`Data, n`Type, n`Attr, n`NextSibling, n`FirstChild, n`LastChild, n`Children, n`Id)
      ensures unchanged(`Parent, `PrevSibling, `FirstChild, `LastChild, `Children, `Data, `Type, `Attr)
      ensures unchanged(`Index, `Id)
      ensures old(Parent) != null ==>
                var p := old(Parent);
                && p.LastChild == n && p.Children == old(p.Children) + [n]
                && unchanged(p`Parent, p`PrevSibling, p`NextSibling, p`FirstChild, p`Data, p`Type, p`Attr)
                && unchanged(p`Index, p`Id)
    {
      n.Parent := Parent;
      NextSibling := n;
      n.PrevSibling := this;
      if Parent != null {
        Parent.LastChild := n;
        n.Index := |Parent.Children|;
        Parent.Children := Parent.Children + [n];
      }
    }

    /** `addAttribute`: exactly one attribute `(k, v)` added after the existing ones. */
    method AddAttribute(k: string, v: string, ghost nodes: set<TNode>)
      requires Tree(nodes)
      modifies this
      ensures Attr == old(Attr) + [Attribute(k, v)]
      ensures Tree(nodes)
      ensures Parent == old(Parent) && FirstChild == old(FirstChild) && LastChild == old(LastChild)
      ensures PrevSibling == old(PrevSibling) && NextSibling == old(NextSibling)
      ensures Type == old(Type) && Data == old(Data) && Children == old(Children)
    {
      Attr := Attr + [Attribute(k, v)];
      forall m | m in nodes ensures Linked(m, nodes) {
        assert old(Linked(m, nodes));
        forall j | 0 <= j < |m.Children| ensures ChildAt(m, j, nodes) {
          assert old(ChildAt(m, j, nodes));
        }
      }
    }

    /**
     * `TNode.Value`: a text node gives its own data; any other node gives the data of every
     * text node of its subtree, in document order, untrimmed.
     */
    method Value(ghost nodes: set<TNode>) returns (s: string)
      requires Tree(nodes) && this in nodes
      ensures s == if Type == TextNode then Data else SubtreeText(this, nodes)
    {
      if Type == TextNode {
        return Data;
      }
      s := Output(this, nodes);
    }
  }

  /**
   * The links of `n` agree with the ghost children lists, and `n` is younger than its parent
   * and its previous sibling.
   */
  ghost predicate Linked(n: TNode, nodes: set<TNode>)
    reads nodes
    requires n in nodes
  {
    && n.Id < |nodes|
    && (n.Parent != null ==>
          && n.Parent in nodes && n.Parent.Id < n.Id
          && n.Index < |n.Parent.Children| && n.Parent.Children[n.Index] == n)
    && (n.PrevSibling != null ==>
          n.PrevSibling in nodes && n.PrevSibling.Id < n.Id && n.PrevSibling.Parent == n.Parent)
    && (n.NextSibling != null ==> n.NextSibling in nodes)
    && n.FirstChild == (if n.Children == [] then null else n.Children[0])
    && n.LastChild == (if n.Children == [] then null else n.Children[|n.Children| - 1])
    && (forall k :: 0 <= k < |n.Children| ==> ChildAt(n, k, nodes))
  }

  /** The `k`-th child of `n` points back at `n` and at its neighbours in `n.Children`. */
  ghost predicate ChildAt(n: TNode, k: nat, nodes: set<TNode>)
    reads nodes
    requires n in nodes && k < |n.Children|
  {
    var c := n.Children[k];
    && c in nodes && c.Parent == n && c.Index == k
    && c.PrevSibling == (if k == 0 then null else n.Children[k - 1])
    && c.NextSibling == (if k + 1 == |n.Children| then null else n.Children[k + 1])
  }

  /**
   * Every node of `nodes` is linked consistently. (The trigger keeps the solver from chasing
   * links on its own: a proof names the node whose links it needs.)
   */
  ghost predicate Tree(nodes: set<TNode>)
    reads nodes
  {
    forall n {:trigger Linked(n, nodes)} :: n in nodes ==> Linked(n, nodes)
  }

  /** Children are created after their parent. */
  lemma ChildIsYounger(nodes: set<TNode>, n: TNode, k: nat)
    requires Tree(nodes) && n in nodes && k < |n.Children|
    ensures ChildAt(n, k, nodes) && n.Children[k] in nodes && n.Id < n.Children[k].Id < |nodes|
  {
    assert Linked(n, nodes);
    assert ChildAt(n, k, nodes);
    assert Linked(n.Children[k], nodes);
  }

  /** The children of a node of a tree are nodes of the tree. */
  lemma ChildrenInTree(nodes: set<TNode>, n: TNode)
    requires Tree(nodes) && n in nodes
    ensures forall i :: 0 <= i < |n.Children| ==> n.Children[i] in nodes
  {
    assert Linked(n, nodes);
    forall i | 0 <= i < |n.Children| ensures n.Children[i] in nodes {
      assert ChildAt(n, i, nodes);
    }
  }

  /** Registering a fresh, unlinked node keeps the tree well formed. */
  lemma TreeGrows(nodes: set<TNode>, n: TNode)
    requires Tree(nodes) && n !in nodes && n.Id == |nodes|
    requires n.Parent == null && n.PrevSibling == null && n.NextSibling == null
    requires n.FirstChild == null && n.LastChild == null && n.Children == []
    ensures Tree(nodes + {n})
  {
    var nodes' := nodes + {n};
    forall m | m in nodes' ensures Linked(m, nodes') {
      if m != n {
        assert Linked(m, nodes);
        forall k | 0 <= k < |m.Children| ensures ChildAt(m, k, nodes') {
          assert ChildAt(m, k, nodes);
        }
      }
    }
  }

  /** The last child of a node of a tree is another node of the tree, last among its siblings. */
  lemma LastChildOf(nodes: set<TNode>, p: TNode)
    requires Tree(nodes) && p in nodes
    ensures (p.FirstChild == null) == (p.LastChild == null) == (p.Children == [])
    ensures p.LastChild != null ==>
              && p.LastChild in nodes && p.LastChild != p
              && p.LastChild.Parent == p && p.LastChild.NextSibling == null
  {
    assert Linked(p, nodes);
    if p.LastChild != null {
      ChildIsYounger(nodes, p, |p.Children| - 1);
    }
  }

  /** A node of a tree that is last among its siblings is the last child of its parent. */
  lemma LastOfSiblings(nodes: set<TNode>, t: TNode)
    requires Tree(nodes) && t in nodes && t.NextSibling == null
    ensures t.Parent != null ==>
              && t.Parent in nodes && t.Parent != t && t.Parent.FirstChild != null
              && t.Index == |t.Parent.Children| - 1 && t.Parent.LastChild == t
  {
    assert Linked(t, nodes);
    if t.Parent != null {
      assert Linked(t.Parent, nodes);
      assert ChildAt(t.Parent, t.Index, nodes);
    }
  }

  /**
   * A splice in progress: the newest node `node` is being linked in under `owner` (null for a
   * node without parent) right after `prev` (null when it becomes the only child).
   */
  datatype Splice = Splice(nodes: set<TNode>, owner: TNode?, prev: TNode?, node: TNode)

  /**
   * The step shared by `createChildNode` and `appendNode`, as a relation between the heap
   * before and after it: `node` has been linked after `prev` under `owner`, and nothing but
   * these three changed.
   */
  twostate predicate SpliceStep(new s: Splice)
    reads s.nodes, s.owner, s.prev, s.node
  {
    var nodes, p, q, n := s.nodes, s.owner, s.prev, s.node;
    && old(allocated(nodes)) && old(allocated(p)) && old(allocated(q))
    && old(Tree(nodes)) && n !in nodes && n.Id == |nodes|
    && (p != null ==> p in nodes && p != q)
    && (q != null ==> q in nodes)
    && (forall x :: x in nodes && x != p && x != q ==> unchanged(x))
    && n.Parent == p && n.PrevSibling == q && n.NextSibling == null
    && n.FirstChild == null && n.LastChild == null && n.Children == []
    && (q != null ==>
          && q.NextSibling == n && q.Parent == old(q.Parent) == p
          && q.PrevSibling == old(q.PrevSibling) && q.FirstChild == old(q.FirstChild)
          && q.LastChild == old(q.LastChild) && q.Children == old(q.Children)
          && q.Index == old(q.Index) && q.Id == old(q.Id))
    && (p != null ==>
          && q == old(p.LastChild)
          && p.Children == old(p.Children) + [n] && p.LastChild == n
          && p.FirstChild == (if old(p.FirstChild) == null then n else old(p.FirstChild))
          && p.Parent == old(p.Parent) && p.PrevSibling == old(p.PrevSibling)
          && p.NextSibling == old(p.NextSibling) && p.Index == old(p.Index) && p.Id == old(p.Id)
          && n.Index == old(|p.Children|))
  }

  /** After the step, the tree is well formed again, the new node included. */
  twostate lemma Spliced(new s: Splice)
    requires SpliceStep(s)
    ensures Tree(s.nodes + {s.node})
  {
    var nodes' := s.nodes + {s.node};
    forall m | m in nodes' ensures Linked(m, nodes') {
      if m == s.node {
        SplicedNode(s);
      } else if m == s.owner {
        SplicedOwner(s);
      } else {
        SplicedOther(SpliceAt(s, m));
      }
    }
  }

  /** The new node is linked under its owner, after its previous sibling. */
  twostate lemma SplicedNode(new s: Splice)
    requires SpliceStep(s)
    ensures Linked(s.node, s.nodes + {s.node})
  {
    var nodes, p, q, n := s.nodes, s.owner, s.prev, s.node;
    if q != null {
      assert old(Linked(q, nodes));
    }
    if p != null {
      assert old(Linked(p, nodes));
      assert ChildAt(p, n.Index, nodes + {n});
    }
  }

  /** The owner's links agree with its children list, which now ends with the new node. */
  twostate lemma SplicedOwner(new s: Splice)
    requires SpliceStep(s) && s.owner != null
    ensures Linked(s.owner, s.nodes + {s.node})
  {
    var nodes, p, q, n := s.nodes, s.owner, s.prev, s.node;
    assert old(Linked(p, nodes));
    if q != null {
      assert old(ChildAt(p, |p.Children| - 1, nodes));
    }
    forall k | 0 <= k < |p.Children| ensures ChildAt(p, k, nodes + {n}) {
      if k < |p.Children| - 1 {
        assert old(ChildAt(p, k, nodes));
      }
    }
  }

  /** A node of a splice other than the new node and the owner. */
  datatype SpliceAt = SpliceAt(s: Splice, m: TNode)

  /** Every other node keeps its links, and they still agree with its children list. */
  twostate lemma SplicedOther(new t: SpliceAt)
    requires SpliceStep(t.s) && t.m in t.s.nodes && t.m != t.s.owner
    ensures Linked(t.m, t.s.nodes + {t.s.node})
  {
    var nodes, m := t.s.nodes, t.m;
    assert old(Linked(m, nodes));
    forall k | 0 <= k < |m.Children| ensures ChildAt(m, k, nodes + {t.s.node}) {
      assert old(ChildAt(m, k, nodes));
    }
  }

  /**
   * The text of the subtree under `n`: its own data if it is a text node, followed by the
   * subtree text of each child in sibling order (a pre-order walk).
   */
  ghost function SubtreeText(n: TNode, nodes: set<TNode>): string
    reads nodes
    requires Tree(nodes) && n in nodes
    decreases |nodes| - n.Id, 1
  {
    (if n.Type == TextNode then n.Data else "") + ChildrenText(n, |n.Children|, nodes)
  }

  /** The subtree texts of the first `k` children of `n`, concatenated. */
  ghost function ChildrenText(n: TNode, k: nat, nodes: set<TNode>): string
    reads nodes
    requires Tree(nodes) && n in nodes && k <= |n.Children|
    decreases |nodes| - n.Id, 0, k
  {
    if k == 0 then ""
    else
      ChildIsYounger(nodes, n, k - 1);
      ChildrenText(n, k - 1, nodes) + SubtreeText(n.Children[k - 1], nodes)
  }

  /** The recursive `output` closure of `TNode.Value`: walks the children through their links. */
  method Output(node: TNode, ghost nodes: set<TNode>) returns (s: string)
    requires Tree(nodes) && node in nodes
    ensures s == SubtreeText(node, nodes)
    decreases |nodes| - node.Id
  {
    s := if node.Type == TextNode then node.Data else "";
    ghost var own := s;
    assert Linked(node, nodes);
    var child := node.FirstChild;
    ghost var k := 0;
    while child != null
      invariant k <= |node.Children|
      invariant child == if k < |node.Children| then node.Children[k] else null
      invariant s == own + ChildrenText(node, k, nodes)
      decreases |node.Children| - k
    {
      ChildIsYounger(nodes, node, k);
      var text := Output(child, nodes);
      AppendAssoc(own, ChildrenText(node, k, nodes), text);
      s := s + text;
      child := child.NextSibling;
      k := k + 1;
    }
  }

  /** String concatenation regroups; naming the step keeps the proof of `Output` small. */
  lemma AppendAssoc(a: string, b: string, c: string)
    ensures (a + b) + c == a + (b + c)
  {
  }
}
