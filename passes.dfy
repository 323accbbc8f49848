/**
 * Whole walks: the state a pass reaches after the walker's calls over a
 * tree (`Run` over `Walk`), the two pass drivers `buildSymtab` and
 * `typeCheck` as functions of the state, and what a walk does to the scope
 * stack, the flag `preserveLastScope` and the count of `main` declarations.
 */
module Passes {
  import opened Wrappers
  import opened Syntax
  import opened Rules
  import opened Semantics

  /** The visitor pair a walk runs: `insertNode`/`afterInsertNode` or
      `beforeCheckNode`/`checkNode`. */
  datatype Pass = Construction | Checking

  /** The messages a walk of each pass can report. */
  function PassMessages(p: Pass): set<string> {
    if p == Construction then ConstructionMessages else CheckMessages
  }

  /** One call the walker makes: the pass's pre-visit or post-visit of a
      node.  (A walk never visits a null tree; such a visit changes
      nothing.) */
  function Apply(pass: Pass, s: State, v: Visit): (r: State)
    requires Good(s)
    ensures Good(r)
  {
    if v.node.Null? then s
    else match v
      case PreVisit(t) => if pass == Construction then InsertStep(s, t) else BeforeCheckStep(s, t)
      case PostVisit(t) => if pass == Construction then AfterInsertStep(s, t) else CheckStep(s, t)
  }

  /** The state after the calls `vs`, made in order from `s`. */
  function Run(pass: Pass, s: State, vs: seq<Visit>): (r: State)
    requires Good(s)
    ensures Good(r)
    decreases |vs|
  {
    if vs == [] then s else Apply(pass, Run(pass, s, vs[..|vs| - 1]), vs[|vs| - 1])
  }

  /** Every call keeps the global scope, never removes a scope, and only
      appends diagnostics of its pass. */
  lemma ApplyKeeps(pass: Pass, s: State, v: Visit)
    requires Good(s)
    ensures var r := Apply(pass, s, v);
      r.global == s.global && |r.scopes| >= |s.scopes| && Appended(s.log, r.log, PassMessages(pass))
  {
  }

  /** So does any sequence of calls. */
  lemma {:induction false} RunKeeps(pass: Pass, s: State, vs: seq<Visit>)
    requires Good(s)
    ensures var r := Run(pass, s, vs);
      r.global == s.global && |r.scopes| >= |s.scopes| && Appended(s.log, r.log, PassMessages(pass))
    decreases |vs|
  {
    if vs != [] {
      var s1 := Run(pass, s, vs[..|vs| - 1]);
      RunKeeps(pass, s, vs[..|vs| - 1]);
      ApplyKeeps(pass, s1, vs[|vs| - 1]);
      AppendedTrans(s.log, s1.log, Run(pass, s, vs).log, PassMessages(pass));
    }
  }

  lemma RunSnoc(pass: Pass, s: State, vs: seq<Visit>, v: Visit)
    requires Good(s)
    ensures Run(pass, s, vs + [v]) == Apply(pass, Run(pass, s, vs), v)
  {
    assert (vs + [v])[..|vs|] == vs;
  }

  /** Running two stretches of calls one after the other is running them
      together. */
  lemma {:induction false} RunAppend(pass: Pass, s: State, a: seq<Visit>, b: seq<Visit>)
    requires Good(s)
    ensures Run(pass, s, a + b) == Run(pass, Run(pass, s, a), b)
    decreases |b|
  {
    if b == [] {
      assert a + b == a;
    } else {
      var b' := b[..|b| - 1];
      assert a + b == (a + b') + [b[|b| - 1]];
      assert b == b' + [b[|b| - 1]];
      RunSnoc(pass, s, a + b', b[|b| - 1]);
      RunSnoc(pass, Run(pass, s, a), b', b[|b| - 1]);
      RunAppend(pass, s, a, b');
    }
  }

  // ---------------------------------------------------------------------
  // The walk of a chain, of a node and of its child slots

  /** The walk of a node is the node's own calls, then the walk of its
      sibling. */
  lemma RunWalk(pass: Pass, s: State, t: Tree)
    requires Good(s) && t.Node?
    ensures Run(pass, s, Walk(t)) ==
      Run(pass, Run(pass, s, [PreVisit(t)] + WalkChildren(t, |t.child|) + [PostVisit(t)]), Walk(t.sibling))
  {
    var own := [PreVisit(t)] + WalkChildren(t, |t.child|) + [PostVisit(t)];
    assert Walk(t) == own + Walk(t.sibling);
    RunAppend(pass, s, own, Walk(t.sibling));
  }

  /** A node's own calls: its pre-visit, the walks of its child slots, its
      post-visit. */
  lemma RunNode(pass: Pass, s: State, t: Tree)
    requires Good(s) && t.Node?
    ensures Run(pass, s, [PreVisit(t)] + WalkChildren(t, |t.child|) + [PostVisit(t)]) ==
      Apply(pass, Run(pass, Apply(pass, s, PreVisit(t)), WalkChildren(t, |t.child|)), PostVisit(t))
  {
    var c := WalkChildren(t, |t.child|);
    RunSnoc(pass, s, [], PreVisit(t));
    assert [] + [PreVisit(t)] == [PreVisit(t)];
    RunAppend(pass, s, [PreVisit(t)], c);
    RunSnoc(pass, s, [PreVisit(t)] + c, PostVisit(t));
  }

  /** The walks of the first `n` child slots are those of the first `n - 1`,
      then that of slot `n - 1`. */
  lemma RunChild(pass: Pass, s: State, t: Tree, n: nat)
    requires Good(s) && t.Node? && 0 < n <= |t.child|
    ensures Run(pass, s, WalkChildren(t, n)) ==
      Run(pass, Run(pass, s, WalkChildren(t, n - 1)), Walk(t.child[n - 1]))
  {
    RunAppend(pass, s, WalkChildren(t, n - 1), Walk(t.child[n - 1]));
  }

  // ---------------------------------------------------------------------
  // Counting `main`

  /** The construction pass adds one to the count for every function
      declaration named `main` in the chain; the checking pass leaves the
      count alone. */
  lemma {:induction false} WalkMains(pass: Pass, s: State, t: Tree)
    requires Good(s)
    ensures Run(pass, s, Walk(t)).mainCount ==
      s.mainCount + if pass == Construction then CountMain(t) else 0
    decreases t, 2
  {
    if t.Null? {
      assert Walk(t) == [];
    } else {
      RunWalk(pass, s, t);
      NodeMains(pass, s, t);
      WalkMains(pass, Run(pass, s, [PreVisit(t)] + WalkChildren(t, |t.child|) + [PostVisit(t)]), t.sibling);
    }
  }

  lemma {:induction false} NodeMains(pass: Pass, s: State, t: Tree)
    requires Good(s) && t.Node?
    ensures Run(pass, s, [PreVisit(t)] + WalkChildren(t, |t.child|) + [PostVisit(t)]).mainCount ==
      s.mainCount +
      if pass == Construction then (if t.kind == FuncDecl("main") then 1 else 0) + CountMainChildren(t, |t.child|) else 0
    decreases t, 1
  {
    RunNode(pass, s, t);
    ChildrenMains(pass, Apply(pass, s, PreVisit(t)), t, |t.child|);
  }

  lemma {:induction false} ChildrenMains(pass: Pass, s: State, t: Tree, n: nat)
    requires Good(s) && t.Node? && n <= |t.child|
    ensures Run(pass, s, WalkChildren(t, n)).mainCount ==
      s.mainCount + if pass == Construction then CountMainChildren(t, n) else 0
    decreases t, 0, n
  {
    if n == 0 {
      assert WalkChildren(t, n) == [];
    } else {
      RunChild(pass, s, t, n);
      ChildrenMains(pass, s, t, n - 1);
      WalkMains(pass, Run(pass, s, WalkChildren(t, n - 1)), t.child[n - 1]);
    }
  }

  // ---------------------------------------------------------------------
  // The scope stack

  /** Every child slot of `t` is free of functions and compound statements. */
  ghost predicate ChildrenFlagFree(t: Tree)
    requires t.Node?
  {
    forall j :: 0 <= j < |t.child| ==> FlagFree(t.child[j])
  }

  /** Every child slot of `t` is `Bodied`. */
  ghost predicate ChildrenBodied(t: Tree)
    requires t.Node?
  {
    forall j :: 0 <= j < |t.child| ==> Bodied(t.child[j])
  }

  /** The slots of a function declaration as `Bodied` asks them to be. */
  ghost predicate FuncShape(t: Tree)
    requires t.Node?
  {
    |t.child| == 3 && FlagFree(t.child[0]) && FlagFree(t.child[1]) && FuncBody(t.child[2])
  }

  lemma FuncBodyBodied(t: Tree)
    requires FuncBody(t)
    ensures Bodied(t)
  {
  }

  /** The checking pass always brings the stack back: every compound
      statement pops what its pre-visit pushed.  In the construction pass
      the stack comes back over a chain without functions and compound
      statements (flag untouched) and over a chain whose functions all have
      a compound body (when the flag starts clear); a function body walked
      with the flag set pops the scope its declaration pushed. */
  lemma {:induction false} WalkStack(pass: Pass, s: State, t: Tree)
    requires Good(s)
    ensures var r := Run(pass, s, Walk(t));
      (pass == Checking ==> r.stack == s.stack) &&
      (pass == Construction && FlagFree(t) ==>
        r.stack == s.stack && r.preserveLastScope == s.preserveLastScope) &&
      (pass == Construction && Bodied(t) && !s.preserveLastScope ==>
        r.stack == s.stack && !r.preserveLastScope) &&
      (pass == Construction && FuncBody(t) && s.preserveLastScope && |s.stack| > 0 ==>
        r.stack == s.stack[..|s.stack| - 1] && !r.preserveLastScope)
    decreases t, 2
  {
    if t.Null? {
      assert Walk(t) == [];
    } else {
      var s1 := Run(pass, s, [PreVisit(t)] + WalkChildren(t, |t.child|) + [PostVisit(t)]);
      RunWalk(pass, s, t);
      NodeStack(pass, s, t);
      WalkStack(pass, s1, t.sibling);
      if t.sibling.Null? {
        assert Walk(t.sibling) == [];
      }
    }
  }

  lemma {:induction false} NodeStack(pass: Pass, s: State, t: Tree)
    requires Good(s) && t.Node?
    ensures var r := Run(pass, s, [PreVisit(t)] + WalkChildren(t, |t.child|) + [PostVisit(t)]);
      (pass == Checking ==> r.stack == s.stack) &&
      (pass == Construction && !t.kind.FuncDecl? && !t.kind.CompoundStmt? && ChildrenFlagFree(t) ==>
        r.stack == s.stack && r.preserveLastScope == s.preserveLastScope) &&
      (pass == Construction && Bodied(t) && !s.preserveLastScope ==>
        r.stack == s.stack && !r.preserveLastScope) &&
      (pass == Construction && FuncBody(t) && s.preserveLastScope && |s.stack| > 0 ==>
        r.stack == s.stack[..|s.stack| - 1] && !r.preserveLastScope)
    decreases t, 1
  {
    RunNode(pass, s, t);
    var s1 := Apply(pass, s, PreVisit(t));
    ChildrenStack(pass, s1, t, |t.child|);
  }

  lemma {:induction false} ChildrenStack(pass: Pass, s: State, t: Tree, n: nat)
    requires Good(s) && t.Node? && n <= |t.child|
    ensures var r := Run(pass, s, WalkChildren(t, n));
      (pass == Checking ==> r.stack == s.stack) &&
      (pass == Construction && ChildrenFlagFree(t) ==>
        r.stack == s.stack && r.preserveLastScope == s.preserveLastScope) &&
      (pass == Construction && ChildrenBodied(t) && !s.preserveLastScope ==>
        r.stack == s.stack && !r.preserveLastScope) &&
      (pass == Construction && FuncShape(t) && n < 3 ==>
        r.stack == s.stack && r.preserveLastScope == s.preserveLastScope) &&
      (pass == Construction && FuncShape(t) && n == 3 && s.preserveLastScope && |s.stack| > 0 ==>
        r.stack == s.stack[..|s.stack| - 1] && !r.preserveLastScope) &&
      (pass == Construction && FuncShape(t) && n == 3 && !s.preserveLastScope ==>
        r.stack == s.stack && !r.preserveLastScope)
    decreases t, 0, n
  {
    if n == 0 {
      assert WalkChildren(t, n) == [];
    } else {
      var c := t.child[n - 1];
      var s1 := Run(pass, s, WalkChildren(t, n - 1));
      RunChild(pass, s, t, n);
      ChildrenStack(pass, s, t, n - 1);
      WalkStack(pass, s1, c);
      if pass == Construction && FuncShape(t) && n == 3 && !s.preserveLastScope {
        FuncBodyBodied(c);
      }
    }
  }

  // ---------------------------------------------------------------------
  // The two pass drivers

  /** `buildSymtab`: a new global scope is created and pushed, the
      construction pass walks the tree, and the global scope is popped.
      Every `main` declaration is counted, and over a tree whose functions
      all have a compound body the stack comes back as it was. */
  function BuildSymtabRun(s: State, tree: Tree): (r: State)
    requires Good(s)
    ensures Good(r) && r.global == |s.scopes| < |r.scopes|
    ensures Appended(s.log, r.log, ConstructionMessages)
    ensures r.mainCount == s.mainCount + CountMain(tree)
    ensures Bodied(tree) && !s.preserveLastScope ==> r.stack == s.stack && !r.preserveLastScope
  {
    var s1 := PushNewScope(s.(global := |s.scopes|), None);
    RunKeeps(Construction, s1, Walk(tree));
    WalkMains(Construction, s1, tree);
    WalkStack(Construction, s1, tree);
    assert (s.stack + [|s.scopes|])[..|s.stack|] == s.stack;
    PopScope(Run(Construction, s1, Walk(tree)))
  }

  /** `typeCheck`: the global scope is pushed again, the checking pass walks
      the tree, the global scope is popped, and a missing `main` is reported
      at the tree's first line.  The stack and the count come back as they
      were. */
  function TypeCheckRun(s: State, tree: Tree): (r: State)
    requires Good(s) && s.global < |s.scopes|
    ensures Good(r) && r.global == s.global && s.log <= r.log
    ensures r.stack == s.stack && r.mainCount == s.mainCount
  {
    var s1 := s.(stack := s.stack + [s.global]);
    RunKeeps(Checking, s1, Walk(tree));
    WalkMains(Checking, s1, tree);
    WalkStack(Checking, s1, tree);
    assert (s.stack + [s.global])[..|s.stack|] == s.stack;
    var s2 := PopScope(Run(Checking, s1, Walk(tree)));
    if s2.mainCount == 0 then Report(s2, LineOr(tree, 0), MsgNoMain) else s2
  }

  /** The checking pass reports a missing `main` exactly when the
      construction pass counted none: the walk itself never reports it. */
  lemma NoMainReported(s: State, tree: Tree)
    requires Good(s) && s.global < |s.scopes|
    ensures var r := TypeCheckRun(s, tree);
      Diagnostic(LineOr(tree, 0), MsgNoMain) in r.log[|s.log|..] <==> s.mainCount == 0
  {
    var s1 := s.(stack := s.stack + [s.global]);
    var s2 := PopScope(Run(Checking, s1, Walk(tree)));
    RunKeeps(Checking, s1, Walk(tree));
    WalkMains(Checking, s1, tree);
    var r := TypeCheckRun(s, tree);
    if s.mainCount == 0 {
      assert r.log == s2.log + [Diagnostic(LineOr(tree, 0), MsgNoMain)];
      assert r.log[|s.log|..][|r.log| - 1 - |s.log|] == r.log[|r.log| - 1];
    } else {
      assert MsgNoMain !in CheckMessages;
      forall d | d in r.log[|s.log|..] ensures d.message != MsgNoMain {
        var i :| 0 <= i < |r.log[|s.log|..]| && r.log[|s.log|..][i] == d;
        assert r.log[|s.log| + i] == d;
      }
    }
  }
}
