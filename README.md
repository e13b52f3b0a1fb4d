# XPath cursor and entry points, modelled in Dafny

This project models two pieces of the Go XPath package `xpath`.

**The test document tree and its cursor** (select_test.go):
- `TNode` is an XML-like node. Its children form a doubly linked list through `PrevSibling`/`NextSibling`, with `FirstChild`/`LastChild` at the ends and `Parent` pointing up.
- The builders `createNode`, `createChildNode`, `appendNode` and `addAttribute` rewrite those links in place.
- `TNodeNavigator` is a cursor over such a tree. It has three fields:
  - the current node;
  - the node it was created on;
  - an attribute index, -1 when the cursor is on the node itself.

**The public entry points of the package** (xpath.go):
- `Compile` and `MustCompile` turn an expression into an `Expr`.
- `Expr.Select`/`SelectWithNS` start a `NodeIterator`.
- `NodeIterator.MoveNext` pulls the next match.
- `Expr.Evaluate`/`EvaluateWithNS` give either a node-set iterator or a scalar.
- The package-level `Select` compiles and selects in one step.

The files and their modules:
- `node_kinds.dfy` (`NodeKinds`): the `NodeType` constants.
- `wrappers.dfy` (`Wrappers`): `Option` and `Result`.
- `text.dfy` (`Text`): Go's `strings.TrimSpace` over the `unicode.IsSpace` characters.
- `tnode.dfy` (`TestTree`): `TNode`, its builders and `TNode.Value`.
- `navigator.dfy` (`TestNavigator`): `TNodeNavigator`.
- `xpath.dfy` (`XPath`): the entry points.
- `selection.dfy` (`TestSelection`): the test helpers `selectNode` and `selectNodes`, as clients of `MoveNext`.

How the tree is represented:
- `TNode` is a class with the five link fields of the source.
- Three ghost fields record what the links encode:
  - `Children`, the children in sibling order;
  - `Index`, a node's position among its parent's children;
  - `Id`, the node's rank in creation order.
- Builders and tree walks take a ghost set `nodes` of every node created so far.
- `Tree(nodes)` says that the links of every node agree with its `Children` list, so the sibling links of every node with a parent are fixed by that parent's list. It also says that parents and previous siblings are older than the nodes that point to them. The sibling links of nodes without a parent (made by `appendNode` on such a node) belong to no list. `Tree` only requires that such links stay within `nodes`, and that a previous sibling is older and also has no parent. The age ordering is what makes `MoveToFirst` and the subtree walk of `TNode.Value` terminate.

How the query engine is represented:
- The engine (parser, axes, predicates) is not part of this model.
- A `Query` is either the no-op query `Nop` or an `Engine` query.
- An `Engine` query holds a `QueryState` with the navigators it has still to yield, in order, and the value it evaluates to.
- `build`, the parser that `Compile` calls, is a function parameter returning a query or nothing, and an error or nothing.

## Model

| member | source | states |
|---|---|---|
| `NodeKinds.Kinds` | xpath.go:11-29 | The six kinds Root, Element, Attribute, Text, Comment and all are the consecutive values 0 to 5 in declaration order, so no two are equal. |
| `Text.TrimSpace` | select_test.go:269 | The result is never longer than the input, and it is empty exactly when every character of the input is a space. |
| `Text.TrimSpaceSlice` | select_test.go:269 | The input is the trimmed string with an all-space prefix before it and an all-space suffix after it. |
| `Text.TrimSpaceTrimmed` | select_test.go:269 | The trimmed string neither starts nor ends with a space. |
| `Text.TrimSpaceIdempotent` | select_test.go:269 | Trimming a trimmed string changes nothing. |
| `Text.TrimSpaceOfTrimmed` | select_test.go:269 | A string with no space at either end is its own trim. |
| `Text.Start` | select_test.go:269 | The forward scan stops at the first non-space at or after its start, or at the end, and everything it passed is a space. |
| `Text.Stop` | select_test.go:269 | The backward scan never passes the start index. It stops just after the last non-space, and everything it passed is a space. |
| `TestTree.TNode.constructor` | select_test.go:362-364 | `createNode`: the new node has the given data and kind, no attributes and no links. It is the newest node, and the tree stays well formed. |
| `TestTree.TNode.CreateChildNode` | select_test.go:366-377 | The new node becomes the parent's last child and its `Parent` is set. `FirstChild` changes only when there were no children; otherwise the old last child and the new node are linked both ways. The children list becomes old ++ [n]. The old last child keeps its data, kind, attributes and every other link, and the tree stays well formed. |
| `TestTree.TNode.LinkChild` | select_test.go:367-375 | The link step of `createChildNode`: the parent, its former last child and the new node have their links set as above, and every other field of the three is unchanged. |
| `TestTree.TNode.AppendNode` | select_test.go:379-388 | The new node follows this one under the same parent, which (if there is one) gets it as its last child and as a new entry at the end of its children. This node and the parent keep their data, kind, attributes and other links. The tree stays well formed when this node was the last of its siblings. |
| `TestTree.TNode.LinkSibling` | select_test.go:381-386 | The link step of `appendNode`: this node, the new node and the parent (if any) have their links set as above, and every other field of the three is unchanged. |
| `TestTree.TNode.AddAttribute` | select_test.go:390-392 | Exactly one `(k, v)` is appended after the existing attributes. Links, data and the tree are unchanged. |
| `TestTree.TNode.Value` | select_test.go:214-231 | A text node gives its own data. Any other node gives the untrimmed data of every text node of its subtree, in pre-order (`SubtreeText`). |
| `TestTree.Output` | select_test.go:218-229 | Walking the children through `FirstChild`/`NextSibling` and recursing yields exactly the pre-order text of the subtree. |
| `TestTree.Spliced` | select_test.go:366-388 | Linking a new node after the last child of a parent, with nothing else changed, keeps every link consistent with the children lists. |
| `TestTree.TreeGrows` | select_test.go:362-364 | Adding a fresh unlinked node keeps the tree well formed. |
| `TestTree.LastChildOf` | select_test.go:370-374 | A node has a first child exactly when it has a last child. The last child is another node of the tree, points back to the parent and has no next sibling. |
| `TestTree.LastOfSiblings` | select_test.go:379-388 | A node without a next sibling is its parent's last child, at the last index. |
| `TestNavigator.CreateNavigator` | select_test.go:198-200 | `createNavigator` starts with `curr = root = n` and `attr = -1`, so the attribute index is in range. |
| `TestNavigator.TNodeNavigator.NodeType` | select_test.go:239-244 | The kind is `AttributeNode` when the current node is an element and `attr != -1`; otherwise it is the node's own kind. |
| `TestNavigator.TNodeNavigator.LocalName` | select_test.go:246-251 | The key of the current attribute when `attr != -1`, else the node's data. |
| `TestNavigator.TNodeNavigator.Prefix` | select_test.go:253-255 | Always the empty string. |
| `TestNavigator.TNodeNavigator.Value` | select_test.go:257-278 | Comment and text nodes give their data, and an element on an attribute gives that attribute's value. Any other element gives the trimmed data of its direct text children in sibling order (`TrimmedText`). Every other kind gives "". |
| `TestNavigator.TNodeNavigator.String` | select_test.go:331-333 | The string form is the value. |
| `TestNavigator.TNodeNavigator.Copy` | select_test.go:280-283 | A new navigator with the same `curr`, `root` and `attr`. Being fresh, later moves of it never affect the original. |
| `TestNavigator.TNodeNavigator.Current` | select_test.go:285-287 | The node under the navigator. |
| `TestNavigator.TNodeNavigator.MoveToRoot` | select_test.go:289-291 | `curr` becomes `root`; `root` and `attr` are kept. |
| `TestNavigator.TNodeNavigator.MoveToParent` | select_test.go:293-299 | True iff there is a parent, which then becomes `curr`. On false nothing moves. `root` and `attr` are kept. |
| `TestNavigator.TNodeNavigator.MoveToNextAttribute` | select_test.go:301-307 | True iff `attr < len(Attr) - 1`; then `attr` grows by exactly one and `curr` is kept. `attr >= -1` is preserved, and after a success `attr` indexes an attribute. |
| `TestNavigator.TNodeNavigator.MoveToChild` | select_test.go:309-315 | True iff there is a first child, which then becomes `curr`. On false nothing moves. `root` and `attr` are kept. |
| `TestNavigator.TNodeNavigator.MoveToFirst` | select_test.go:317-329 | True iff the node has a previous sibling. On false nothing moves. On true the cursor ends at `FirstSibling` of the start node: the end of its own chain of previous siblings, under the same parent. When there is a parent, that is the parent's first child. |
| `TestNavigator.FirstSibling` | select_test.go:321-327 | Following `PrevSibling` links from a node ends at a node of the same tree, under the same parent, without a previous sibling and no younger than the start. A node without a previous sibling is its own first sibling. |
| `TestNavigator.TNodeNavigator.MoveToNext` | select_test.go:335-341 | True iff there is a next sibling, which then becomes `curr`. On false nothing moves. `root` and `attr` are kept. |
| `TestNavigator.TNodeNavigator.MoveToPrevious` | select_test.go:343-349 | True iff there is a previous sibling, which then becomes `curr`. On false nothing moves. `root` and `attr` are kept. |
| `TestNavigator.TNodeNavigator.MoveTo` | select_test.go:351-360 | True iff both navigators have the same root; then `curr` and `attr` are copied from the other. `root` is always kept, and on false nothing changes. |
| `TestNavigator.FirstOfSiblings` | select_test.go:317-329 | A node without a previous sibling is its parent's first child. |
| `TestNavigator.LeafText` | select_test.go:214-231 | A text node without children contributes exactly its data to the subtree text. |
| `TestNavigator.TrimmedTextOfLeaves` | select_test.go:262-271 | When every child is a text leaf with trimmed data, the navigator's text of the first `k` children equals their pre-order subtree text. |
| `TestNavigator.ValueAgreesOnTextLeaves` | select_test.go:214-278 | On an element whose children are all text leaves with trimmed data, the navigator's value equals the node's own value. |
| `TestNavigator.AttributeIndexSurvivesMoveToChild` | select_test.go:301-315 | From the first attribute of an element, a move to the element's text child keeps `attr == 0`. That index is then outside the child's attribute list, and the navigator reports the child's kind `TextNode`. |
| `XPath.Identity` | xpath.go:113 | The identity namespace resolver. |
| `XPath.NodeIterator.Current` | xpath.go:81-83 | The navigator at the current match. |
| `XPath.NodeIterator.MoveNext` | xpath.go:86-95 | True iff the query still has a match; the query then drops it. On false the cursor is untouched. On true the cursor is at the match's `curr` and `attr`. When the roots agree it is the same navigator moved in place. Otherwise it is a fresh copy, and the navigator it replaces keeps its `curr`, `attr` and `root`. |
| `XPath.NodeIterator.NamespaceToPrefix` | xpath.go:97-99 | Namespaces are resolved by the iterator's resolver. |
| `XPath.Expr.String` | xpath.go:155-157 | The text the expression was compiled from. |
| `XPath.Expr.SelectWithNS` | xpath.go:108-110 | A fresh iterator whose cursor is `root` and whose query is a fresh clone of the expression's query, in the same position. The expression's own query is not touched. |
| `XPath.Expr.Select` | xpath.go:112-114 | `SelectWithNS` with the identity resolver. |
| `XPath.Expr.EvaluateWithNS` | xpath.go:130-138 | A node-set result becomes a fresh iterator over `root`. Its query is a clone in the same position and evaluates the same, with fresh state, so the expression's own query is never touched. A scalar is returned unchanged. |
| `XPath.Expr.Evaluate` | xpath.go:140-142 | `EvaluateWithNS` with the identity resolver: the same iterator over a fresh clone of the query, or the same scalar. |
| `XPath.Compile` | xpath.go:160-172 | Succeeds iff the expression is non-empty, `build` reports no error and gives a query. On success the `Expr` has exactly the input text and `build`'s query. Otherwise there are three errors: the empty expression, `build`'s error passed on unchanged, and the undeclared-variable error when `build` gives no query. |
| `XPath.MustCompile` | xpath.go:175-181 | Never fails and always keeps the input text. It is `Compile`'s result when that succeeds, and the expression with the no-op query otherwise. |
| `XPath.Select` | xpath.go:146-152 | Compiles and selects with the identity resolver: a fresh iterator over `root` with the compiled query's matches. |
| `TestSelection.SelectNode` | select_test.go:180-186 | The node of the first match, or null when the query yields nothing. |
| `TestSelection.SelectNodes` | select_test.go:188-196 | Exactly the nodes of the query's matches, in the order it yields them. |

## Left out

- The query engine (`build`, the `query` types, `nopQuery`, axes, predicates, functions and coercions) is not part of this model. A query is a stand-in with a fixed list of matches and a fixed evaluation result.
- A stand-in query's matches do not depend on the iterator passed to `query.Select` or `query.Evaluate`. They are fixed when the query is built, so the root an expression is run from does not change what it yields.
- The no-op query used by `MustCompile` yields no match, and its `Evaluate` is taken to be an empty node-set. Its source is not part of this model.
- `query.Evaluate` is a pure function of the query here. The engine may update the query's internal state while evaluating.
- `EvaluateIterator` (xpath.go:116-126) only carries `root` and the resolver to the engine. The stand-in does not consult it, so it is not modelled.
- Floating-point numbers from evaluation are `real`; rounding and NaN are not modelled.
- Error values are tags (`EmptyExpression`, `BuildFailed`, `UndeclaredVariable`), not message strings. The text formatting is not modelled. This includes `Compile` passing the formatted message to `fmt.Errorf` as a format string, which garbles a `%` in the expression.
- The `NodeNavigator` interface has one implementation, `TNodeNavigator`, so `MoveTo`'s type assertion always succeeds. `NamespaceURI` is declared by the interface but not implemented by the test navigator, which has `Prefix` instead; the interface itself has no separate model.
- `TestTree.TNode.AppendNode` asks that the node be the last of its siblings. The source overwrites `NextSibling` unconditionally, and on a node with a next sibling that would cut the list.
- `TestNavigator.TNodeNavigator.LocalName` and `TestNavigator.TNodeNavigator.Value` ask that `attr` index an attribute when it is not -1. The source indexes the slice and panics otherwise.
- `XPath.Select` asks that the expression compile. The source panics otherwise.
- `TestTree.TNode.Value`, `TestNavigator.TNodeNavigator.Value`, `TestNavigator.TNodeNavigator.String` and `TestNavigator.TNodeNavigator.MoveToFirst` ask for a well-formed tree (`Tree`). On a cyclic sibling list the Go loops would not end.
- Strings are sequences of Unicode characters. Go's strings are UTF-8 bytes that `strings.TrimSpace` decodes; invalid UTF-8 is not modelled.
- `bytes.Buffer` is string concatenation. Go's `int` is unbounded here; `attr` only grows by one per call.
- Not modelled: the `Test*` functions, `testXPath`, `testXPath2` and `testXPath3` (select_test.go:19-178), and the `example()` document (select_test.go:394-456). Their expected results depend on the query engine.
