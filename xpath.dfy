/**
 * The public entry points of the XPath package (xpath.go): compiling an expression, selecting
 * with it through a `NodeIterator`, and evaluating it.
 *
 * The query engine behind a compiled expression (its parser, axes and predicates) is not part
 * of this model. A `Query` stands in for it: either the no-op query, or an engine query whose
 * `QueryState` holds the positions it has still to yield, in order, and the value it evaluates
 * to. Positions are `TNodeNavigator`s, the only navigator of the repository.
 */
module XPath {
  import opened Wrappers
  import opened TestNavigator

  /** A scalar result of evaluation (the source's bool, float64 and string). */
  datatype Scalar = Boolean(b: bool) | Number(x: real) | Str(s: string)

  /** What a query evaluates to: a node-set, which the source hands back as a query, or a scalar. */
  datatype EvalValue = NodeSet | ScalarValue(v: Scalar)

  /** The state of an engine query: what `Select` will still yield, and what `Evaluate` gives. */
  class QueryState {
    var pending: seq<TNodeNavigator>
    const answer: EvalValue

    constructor (pending: seq<TNodeNavigator>, answer: EvalValue)
      ensures this.pending == pending && this.answer == answer
    {
      this.pending, this.answer := pending, answer;
    }
  }

  datatype Query = Nop | Engine(state: QueryState)
  {
    /** The objects a query's selection changes. */
    ghost function Repr(): set<object>
    {
      if Nop? then {} else {state}
    }

    /** The positions still to be yielded, in order; the no-op query yields none. */
    ghost function Pending(): seq<TNodeNavigator>
      reads Repr()
    {
      if Nop? then [] else state.pending
    }

    /** `query.Select`: the next position, or null once the query is exhausted. */
    method Select() returns (n: TNodeNavigator?)
      modifies Repr()
      ensures n == if old(Pending()) == [] then null else old(Pending())[0]
      ensures Pending() == if old(Pending()) == [] then [] else old(Pending())[1..]
    {
      if Nop? || state.pending == [] {
        return null;
      }
      n := state.pending[0];
      state.pending := state.pending[1..];
    }

    /** `query.Evaluate`: the no-op query evaluates to the empty node-set. */
    function Evaluate(): (v: EvalValue)
      ensures Nop? ==> v == NodeSet
      ensures Engine? ==> v == state.answer
    {
      if Nop? then NodeSet else state.answer
    }

    /** `query.Clone`: a query in the same position whose state is shared with nothing. */
    method Clone() returns (c: Query)
      ensures c.Nop? == Nop? && c.Pending() == Pending() && c.Evaluate() == Evaluate()
      ensures c.Engine? ==> fresh(c.state)
    {
      if Nop? {
        return Nop;
      }
      var s := new QueryState(state.pending, state.answer);
      return Engine(s);
    }
  }

  /** The identity namespace resolver used by `Select`, `Evaluate` and the deprecated `Select`. */
  function Identity(ns: string): (r: string)
    ensures r == ns
  {
    ns
  }

  /** The cursor over the matches of a query: `node` is at the last match pulled. */
  class NodeIterator {
    var node: TNodeNavigator
    const query: Query
    const ns2prefix: string -> string

    constructor (node: TNodeNavigator, query: Query, ns2prefix: string -> string)
      ensures this.node == node && this.query == query && this.ns2prefix == ns2prefix
    {
      this.node, this.query, this.ns2prefix := node, query, ns2prefix;
    }

    /** The navigator at the current match. */
    function Current(): (n: TNodeNavigator)
      reads this
      ensures n == node
    {
      node
    }

    /**
     * Pulls the next match. When there is one the cursor moves to it, in place when the match
     * is over the same root, and otherwise the cursor becomes a copy of the match.
     */
    method MoveNext() returns (ok: bool)
      modifies this, node, query.Repr()
      ensures ok == (old(query.Pending()) != [])
      ensures query.Pending() == if ok then old(query.Pending())[1..] else []
      ensures !ok ==> node == old(node) && unchanged(node)
      ensures ok ==> node.curr == old(query.Pending()[0].curr)
      ensures ok ==> node.attr == old(query.Pending()[0].attr)
      ensures ok ==> node.root == if old(query.Pending()[0].root) == old(node.root)
                                 then old(node.root) else old(query.Pending()[0].root)
      ensures ok && old(query.Pending()[0].root) == old(node.root) ==> node == old(node)
      ensures ok && old(query.Pending()[0].root) != old(node.root) ==>
                && fresh(node)
                && old(node).curr == old(node.curr) && old(node).attr == old(node.attr)
                && old(node).root == old(node.root)
    {
      var n := query.Select();
      if n != null {
        var moved := node.MoveTo(n);
        if !moved {
          node := n.Copy();
        }
        return true;
      }
      return false;
    }

    /** Resolves a namespace through the iterator's resolver. */
    function NamespaceToPrefix(n: string): (p: string)
      ensures p == ns2prefix(n)
    {
      ns2prefix(n)
    }
  }

  /** Why `Compile` refused an expression. */
  datatype CompileError =
    | EmptyExpression
    | BuildFailed(msg: string)
    | UndeclaredVariable(expr: string)

  /** What the parser returns: a query or nothing, and an error or nothing. */
  datatype Built = Built(query: Option<Query>, err: Option<string>)

  /** A compiled expression: its text and its query. */
  datatype Expr = Expr(s: string, q: Query)
  {
    /** The text the expression was compiled from. */
    function String(): (t: string)
      ensures t == s
    {
      s
    }

    /** An iterator that starts at `root` and runs a fresh copy of this expression's query. */
    method SelectWithNS(root: TNodeNavigator, ns: string -> string) returns (it: NodeIterator)
      ensures fresh(it) && it.node == root && it.ns2prefix == ns
      ensures it.query.Pending() == q.Pending() && it.query.Evaluate() == q.Evaluate()
      ensures it.query.Engine? ==> q.Engine? && fresh(it.query.state)
    {
      var c := q.Clone();
      it := new NodeIterator(root, c, ns);
    }

    /** `SelectWithNS` with the identity namespace resolver. */
    method Select(root: TNodeNavigator) returns (it: NodeIterator)
      ensures fresh(it) && it.node == root && it.ns2prefix == Identity
      ensures it.query.Pending() == q.Pending() && it.query.Evaluate() == q.Evaluate()
      ensures it.query.Engine? ==> fresh(it.query.state)
    {
      it := SelectWithNS(root, Identity);
    }

    /** A node-set result becomes an iterator over `root`; a scalar is returned as it is. */
    method EvaluateWithNS(root: TNodeNavigator, ns: string -> string) returns (r: Evaluated)
      ensures r.Iterated? <==> q.Evaluate() == NodeSet
      ensures r.Plain? ==> q.Evaluate() == ScalarValue(r.v)
      ensures r.Iterated? ==> fresh(r.it) && r.it.node == root && r.it.ns2prefix == ns
      ensures r.Iterated? ==> r.it.query.Pending() == q.Pending() && r.it.query.Evaluate() == q.Evaluate()
      ensures r.Iterated? && r.it.query.Engine? ==> fresh(r.it.query.state)
    {
      var val := q.Evaluate();
      match val
      case NodeSet =>
        var it := SelectWithNS(root, ns);
        return Iterated(it);
      case ScalarValue(v) =>
        return Plain(v);
    }

    /** `EvaluateWithNS` with the identity namespace resolver. */
    method Evaluate(root: TNodeNavigator) returns (r: Evaluated)
      ensures r.Iterated? <==> q.Evaluate() == NodeSet
      ensures r.Plain? ==> q.Evaluate() == ScalarValue(r.v)
      ensures r.Iterated? ==> fresh(r.it) && r.it.node == root && r.it.ns2prefix == Identity
      ensures r.Iterated? ==> r.it.query.Pending() == q.Pending() && r.it.query.Evaluate() == q.Evaluate()
      ensures r.Iterated? && r.it.query.Engine? ==> fresh(r.it.query.state)
    {
      r := EvaluateWithNS(root, Identity);
    }
  }

  /** The result of `Evaluate`: an iterator over a node-set, or a scalar. */
  datatype Evaluated = Iterated(it: NodeIterator) | Plain(v: Scalar)

  /**
   * `Compile`: the empty expression is refused, a parser error is passed on unchanged, and a
   * parse that produced no query is reported as an undeclared variable.
   */
  function Compile(expr: string, build: string -> Built): (r: Result<Expr, CompileError>)
    ensures r.Success? <==> expr != "" && build(expr).err.None? && build(expr).query.Some?
    ensures r.Success? ==> r.value.String() == expr && r.value.q == build(expr).query.value
    ensures expr == "" ==> r == Failure(EmptyExpression)
    ensures expr != "" && build(expr).err.Some? ==> r == Failure(BuildFailed(build(expr).err.value))
    ensures expr != "" && build(expr).err.None? && build(expr).query.None? ==>
              r == Failure(UndeclaredVariable(expr))
  {
    if expr == "" then Failure(EmptyExpression)
    else
      var built := build(expr);
      if built.err.Some? then Failure(BuildFailed(built.err.value))
      else if built.query.None? then Failure(UndeclaredVariable(expr))
      else Success(Expr(expr, built.query.value))
  }

  /** `MustCompile`: never fails; an expression that does not compile gets the no-op query. */
  function MustCompile(expr: string, build: string -> Built): (e: Expr)
    ensures e.String() == expr
    ensures Compile(expr, build).Success? ==> e == Compile(expr, build).value
    ensures Compile(expr, build).Failure? ==> e.q == Nop
  {
    var r := Compile(expr, build);
    if r.Failure? then Expr(expr, Nop) else r.value
  }

  /**
   * The deprecated package-level `Select`: compiles `expr` and selects with it from `root`.
   * The source panics when `expr` does not compile; here that is the caller's obligation.
   */
  method Select(root: TNodeNavigator, expr: string, build: string -> Built) returns (it: NodeIterator)
    requires Compile(expr, build).Success?
    ensures fresh(it) && it.node == root && it.ns2prefix == Identity
    ensures it.query.Pending() == build(expr).query.value.Pending()
    ensures it.query.Engine? ==> fresh(it.query.state)
  {
    var r := Compile(expr, build);
    var e := r.value;
    it := e.Select(root);
  }
}
