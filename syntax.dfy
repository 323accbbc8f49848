/**
 * The syntax tree the parser hands to the semantic analyser, and the order in
 * which the generic walker `traverse` visits it.
 *
 * A node has a kind, an ordered list of child slots and a sibling link, as in
 * the C `TreeNode`; the attribute union becomes the fields of each kind.
 */
module Syntax {
  import opened Wrappers

  type NodeId = nat

  /** The semantic types.  `Unset` is the value of a declaration or parameter
      node's type field that the analyser never writes: it compares unequal to
      the three real types. */
  datatype ExpType = Void | Integer | IntegerArray | Unset

  /** The type specifier of a declaration (`int` or `void`). */
  datatype TypeSpecifier = IntSpec | VoidSpec

  /** Binary operators of C-minus. */
  datatype Op = Plus | Minus | Times | Over | Lt | Let | Gt | Get | Eq | Neq

  datatype Kind =
    // declarations: child 0 is the type specifier; a function has its
    // parameter list in child 1 and its body in child 2
    | FuncDecl(name: string)
    | VarDecl(name: string)
    | VectorVarDecl(name: string, size: int)
    // statements
    | CompoundStmt
    | IfStmt
    | WhileStmt
    | ReturnStmt
    // expressions
    | AssignExp
    | OpExp(op: Op)
    | ConstExp(value: int)
    | IdExp(name: string)
    | VectorIdExp(name: string)
    | CallExp(name: string)
    // parameters: child 0 is the type specifier
    | ScalarParam(name: string)
    | VectorParam(name: string)
    // type specifier
    | TypeNode(spec: TypeSpecifier)

  /** Expression nodes are the ones whose type field starts out `Void`. */
  predicate IsExpression(k: Kind) {
    k.AssignExp? || k.OpExp? || k.ConstExp? || k.IdExp? || k.VectorIdExp? || k.CallExp?
  }

  datatype Tree = Null | Node(id: NodeId, line: int, kind: Kind, child: seq<Tree>, sibling: Tree)

  /** Child slot `i`, or `Null` when the node has no such slot. */
  function Child(t: Tree, i: nat): (c: Tree)
    ensures c.Node? ==> t.Node? && i < |t.child| && c == t.child[i]
  {
    if t.Node? && i < |t.child| then t.child[i] else Null
  }

  /** The line of a node, or `fallback` for a missing one. */
  function LineOr(t: Tree, fallback: int): int {
    if t.Node? then t.line else fallback
  }

  /** True when `t` is a type-specifier node saying `void`. */
  predicate IsVoidSpec(t: Tree) {
    t.Node? && t.kind == TypeNode(VoidSpec)
  }

  /** True when `t` is a type-specifier node saying `int`. */
  predicate IsIntSpec(t: Tree) {
    t.Node? && t.kind == TypeNode(IntSpec)
  }

  /** The nodes of a sibling chain, in order. */
  function Chain(t: Tree): (r: seq<Tree>)
    ensures forall i :: 0 <= i < |r| ==> r[i].Node?
    ensures t.Null? <==> r == []
    decreases t
  {
    if t.Null? then [] else [t] + Chain(t.sibling)
  }

  // ---------------------------------------------------------------------
  // Visit order of the generic walker

  datatype Visit = PreVisit(node: Tree) | PostVisit(node: Tree)

  /** The calls `traverse` makes: the pre-visit of a node, then the walks of
      its child slots in index order, then its post-visit, then the walk of
      its sibling.  A null tree makes no call. */
  function Walk(t: Tree): (r: seq<Visit>)
    ensures t.Null? <==> r == []
    decreases t, 1
  {
    match t
    case Null => []
    case Node(_, _, _, child, sibling) =>
      [PreVisit(t)] + WalkChildren(t, |child|) + [PostVisit(t)] + Walk(sibling)
  }

  /** The walks of the first `n` child slots of `t`, in index order. */
  function WalkChildren(t: Tree, n: nat): seq<Visit>
    requires t.Node? && n <= |t.child|
    decreases t, 0, n
  {
    if n == 0 then [] else WalkChildren(t, n - 1) + Walk(t.child[n - 1])
  }

  /** One visit applied to the nodes still open (innermost last): a
      pre-visit opens its node; a post-visit must close the innermost open
      node, and is a mismatch (`None`) otherwise. */
  function CloseStep(open: seq<Tree>, v: Visit): Option<seq<Tree>>
  {
    match v
    case PreVisit(n) => Some(open + [n])
    case PostVisit(n) =>
      if |open| > 0 && open[|open| - 1] == n then Some(open[..|open| - 1]) else None
  }

  /** The nodes still open after the visits `vs`, starting from `open`, or
      `None` when some post-visit does not close the innermost open node. */
  function Close(vs: seq<Visit>, open: seq<Tree>): Option<seq<Tree>>
  {
    if vs == [] then Some(open)
    else
      match Close(vs[..|vs| - 1], open)
      case None => None
      case Some(o) => CloseStep(o, vs[|vs| - 1])
  }

  /** A well-nested visit sequence: every post-visit closes the innermost
      node whose pre-visit is still open, and at the end none is open. */
  predicate Nested(vs: seq<Visit>) {
    Close(vs, []) == Some([])
  }

  lemma {:induction false} CloseAppend(a: seq<Visit>, b: seq<Visit>, open: seq<Tree>)
    ensures Close(a + b, open) == match Close(a, open) case None => None case Some(o) => Close(b, o)
    decreases |b|
  {
    if b == [] {
      assert a + b == a;
    } else {
      var b' := b[..|b| - 1];
      assert (a + b)[..|a + b| - 1] == a + b';
      assert (a + b)[|a + b| - 1] == b[|b| - 1];
      CloseAppend(a, b', open);
    }
  }

  /** A walk starting with any nodes open closes exactly the nodes it opens,
      each by its own post-visit. */
  lemma {:induction false} WalkBalanced(t: Tree, open: seq<Tree>)
    ensures Close(Walk(t), open) == Some(open)
    decreases t, 1
  {
    match t
    case Null =>
      assert Walk(t) == [];
    case Node(_, _, _, child, sibling) =>
      var pre, wc := [PreVisit(t)], WalkChildren(t, |child|);
      assert Close(pre, open) == Some(open + [t]) by {
        assert pre[..0] == [];
      }
      WalkChildrenBalanced(t, |child|, open + [t]);
      CloseAppend(pre, wc, open);
      var body := pre + wc + [PostVisit(t)];
      assert body[..|body| - 1] == pre + wc;
      assert (open + [t])[..|open|] == open;
      assert Close(body, open) == Some(open);
      WalkBalanced(sibling, open);
      CloseAppend(body, Walk(sibling), open);
      assert Walk(t) == body + Walk(sibling);
  }

  lemma {:induction false} WalkChildrenBalanced(t: Tree, n: nat, open: seq<Tree>)
    requires t.Node? && n <= |t.child|
    ensures Close(WalkChildren(t, n), open) == Some(open)
    decreases t, 0, n
  {
    if n == 0 {
      assert WalkChildren(t, n) == [];
    } else {
      WalkChildrenBalanced(t, n - 1, open);
      WalkBalanced(t.child[n - 1], open);
      CloseAppend(WalkChildren(t, n - 1), Walk(t.child[n - 1]), open);
    }
  }

  lemma AppendAssoc(a: seq<Visit>, b: seq<Visit>, c: seq<Visit>)
    ensures a + b + c == a + (b + c)
  {
  }

  /** A trace extended by the calls of node `t` and then by the walk of its
      sibling is the trace extended by the walk of `t`. */
  lemma WalkTrace(v0: seq<Visit>, t: Tree)
    requires t.Node?
    ensures v0 + [PreVisit(t)] + WalkChildren(t, |t.child|) + [PostVisit(t)] + Walk(t.sibling) == v0 + Walk(t)
  {
    var own := [PreVisit(t)] + WalkChildren(t, |t.child|) + [PostVisit(t)];
    assert Walk(t) == own + Walk(t.sibling);
    AppendAssoc(v0, own, Walk(t.sibling));
    assert v0 + [PreVisit(t)] + WalkChildren(t, |t.child|) + [PostVisit(t)] == v0 + own;
  }

  /** The walker's calls are well nested: every post-visit closes the most
      recent pre-visit that is still open, and a whole walk closes them all. */
  lemma WalkNested(t: Tree)
    ensures Nested(Walk(t))
  {
    WalkBalanced(t, []);
  }

  /** The walk of a node begins with its own pre-visit, and its post-visit
      comes after the walks of all its child slots and before anything of its
      sibling. */
  lemma WalkShape(t: Tree)
    requires t.Node?
    ensures |Walk(t)| > 0 && Walk(t)[0] == PreVisit(t)
    ensures var k := 1 + |WalkChildren(t, |t.child|)|;
      k < |Walk(t)| && Walk(t)[k] == PostVisit(t) &&
      Walk(t)[1..k] == WalkChildren(t, |t.child|) &&
      Walk(t)[k + 1..] == Walk(t.sibling)
  {
    var c := WalkChildren(t, |t.child|);
    var head := [PreVisit(t)] + c + [PostVisit(t)];
    var w := head + Walk(t.sibling);
    assert Walk(t) == w;
    var k := 1 + |c|;
    assert |head| == k + 1 && head[k] == PostVisit(t);
    assert w[..k + 1] == head;
    assert head[1..k] == c;
    assert w[k + 1..] == Walk(t.sibling);
  }

  // ---------------------------------------------------------------------
  // Shapes of subtree that keep the scope stack balanced in the
  // construction pass

  /** No function declaration and no compound statement anywhere in the
      chain starting at `t`: walking it cannot touch the scope stack. */
  ghost predicate FlagFree(t: Tree)
    decreases t
  {
    match t
    case Null => true
    case Node(_, _, kind, child, sibling) =>
      !kind.FuncDecl? && !kind.CompoundStmt? && FlagFree(sibling) &&
      forall i :: 0 <= i < |child| ==> FlagFree(child[i])
  }

  /** Every function declaration in the chain starting at `t` has a type
      specifier and a parameter list free of scopes, and a compound body
      (with no sibling) in slot 2 and no further slot. */
  ghost predicate Bodied(t: Tree)
    decreases t
  {
    match t
    case Null => true
    case Node(_, _, kind, child, sibling) =>
      Bodied(sibling) &&
      if kind.FuncDecl? then
        |child| == 3 && FlagFree(child[0]) && FlagFree(child[1]) && FuncBody(child[2])
      else
        forall i :: 0 <= i < |child| ==> Bodied(child[i])
  }

  /** A function body: a compound statement without sibling whose slots are
      themselves `Bodied`. */
  ghost predicate FuncBody(t: Tree)
    decreases t
  {
    t.Node? && t.kind.CompoundStmt? && t.sibling.Null? &&
    forall i :: 0 <= i < |t.child| ==> Bodied(t.child[i])
  }

  /** Number of function declarations named `main` in the chain at `t`. */
  function CountMain(t: Tree): nat
    decreases t, 1
  {
    match t
    case Null => 0
    case Node(_, _, kind, child, sibling) =>
      (if kind == FuncDecl("main") then 1 else 0) + CountMainChildren(t, |child|) + CountMain(sibling)
  }

  function CountMainChildren(t: Tree, n: nat): nat
    requires t.Node? && n <= |t.child|
    decreases t, 0, n
  {
    if n == 0 then 0 else CountMainChildren(t, n - 1) + CountMain(t.child[n - 1])
  }
}
