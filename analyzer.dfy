/**
 * The semantic analyser itself: the module-level state of analyze.c as the
 * fields of one object, the four node visitors and the generic walker as
 * methods, and the two pass drivers `BuildSymtab` and `TypeCheck`.
 *
 * Node fields the C code writes in place (`t->type`, `t->attr.scope`) are
 * the maps `types` and `stamps`, keyed by node id.
 */
module Analyze {
  import opened Wrappers
  import opened Syntax
  import opened SymbolTable
  import opened Rules
  import opened Semantics
  import opened Passes

  class Analyzer {
    var scopes: seq<Scope>
    var stack: seq<ScopeId>
    var global: ScopeId
    var funcName: Option<string>
    var preserveLastScope: bool
    var mainCount: nat
    var types: map<NodeId, ExpType>
    var stamps: map<NodeId, ScopeId>
    var location: nat
    var log: seq<Diagnostic>
    /** The visitor calls made so far, in order. */
    ghost var visits: seq<Visit>

    function Snapshot(): State
      reads this
    {
      State(scopes, stack, global, funcName, preserveLastScope, mainCount, types, stamps, location, log)
    }

    ghost predicate Valid()
      reads this
    {
      Good(Snapshot())
    }

    /** A fresh analyser: no scope, no flag, no `main` seen, nothing reported. */
    constructor ()
      ensures Valid() && visits == []
      ensures Snapshot() == State([], [], 0, None, false, 0, map[], map[], 0, [])
    {
      scopes, stack, global := [], [], 0;
      funcName, preserveLastScope, mainCount := None, false, 0;
      types, stamps, location, log := map[], map[], 0, [];
      visits := [];
    }

    /** `symbolError` / `typeError`: one line-tagged diagnostic. */
    method ReportError(line: int, message: string)
      requires Valid()
      modifies this
      ensures Valid() && visits == old(visits)
      ensures Snapshot() == Report(old(Snapshot()), line, message)
    {
      log := log + [Diagnostic(line, message)];
    }

    /** `sc_push(sc_create(name))`. */
    method OpenScope(name: Option<string>)
      requires Valid()
      modifies this
      ensures Valid() && visits == old(visits)
      ensures Snapshot() == PushNewScope(old(Snapshot()), name)
    {
      scopes := scopes + [Scope(name, map[])];
      stack := stack + [|scopes| - 1];
    }

    /** `sc_pop()`. */
    method CloseScope()
      requires Valid()
      modifies this
      ensures Valid() && visits == old(visits)
      ensures Snapshot() == PopScope(old(Snapshot()))
    {
      if |stack| > 0 {
        stack := stack[..|stack| - 1];
      }
    }

    /** `st_insert(name, t->lineno, addLocation(), t)`. */
    method DeclareSymbol(name: string, t: Tree)
      requires Valid() && t.Node?
      modifies this
      ensures Valid() && visits == old(visits)
      ensures Snapshot() == Declare(old(Snapshot()), name, t)
    {
      if |stack| > 0 {
        scopes := Insert(scopes, stack, name, Symbol(t, t.line, location, []));
        location := location + 1;
      }
    }

    // -------------------------------------------------------------------
    // Construction pass

    method RecordUse(t: Tree, name: string, undeclared: string)
      requires Valid() && t.Node? && undeclared in ConstructionMessages
      modifies this
      ensures Valid() && visits == old(visits)
      ensures Snapshot() == InsertUse(old(Snapshot()), t, name, undeclared)
    {
      if Lookup(scopes, stack, name).None? {
        ReportError(t.line, undeclared);
      } else {
        scopes := AddUse(scopes, stack, name, t.line);
      }
    }

    method DeclareVariable(t: Tree, name: string, ty: ExpType)
      requires Valid() && t.Node?
      modifies this
      ensures Valid() && visits == old(visits)
      ensures Snapshot() == InsertVar(old(Snapshot()), t, name, ty)
    {
      if IsVoidSpec(Child(t, 0)) {
        ReportError(t.line, MsgVoidVariable);
        return;
      }
      types := types[t.id := ty];
      if LookupTop(scopes, stack, name).Some? {
        ReportError(t.line, MsgSymbolRedeclared);
      } else if LookupTopFunc(scopes, stack, name).Some? {
        // a name absent from the innermost scope is no function there either
        assert false;
      } else {
        DeclareSymbol(name, t);
      }
    }

    method DeclareParameter(t: Tree, name: string, scalar: bool)
      requires Valid() && t.Node?
      modifies this
      ensures Valid() && visits == old(visits)
      ensures Snapshot() == InsertParam(old(Snapshot()), t, name, scalar)
    {
      if IsVoidSpec(Child(t, 0)) {
        ReportError(Child(t, 0).line, MsgVoidParameter);
      }
      if Lookup(scopes, stack, name).None? {
        DeclareSymbol(name, t);
        if scalar {
          types := types[t.id := Integer];
        } else {
          ReportError(t.line, MsgParameterRedeclared);
        }
      }
    }

    method DeclareFunction(t: Tree, name: string)
      requires Valid() && t.Node?
      modifies this
      ensures Valid() && visits == old(visits)
      ensures Snapshot() == InsertFunc(old(Snapshot()), t, name)
    {
      funcName := Some(name);
      if name == "main" {
        mainCount := mainCount + 1;
      }
      if LookupTop(scopes, stack, name).Some? {
        ReportError(t.line, MsgFunctionRedeclared);
      } else {
        OpenFunction(t, name);
      }
    }

    /** The accepted declaration: insert, push the parameters' scope, set
        the flag, type the node. */
    method OpenFunction(t: Tree, name: string)
      requires Valid() && t.Node?
      modifies this
      ensures Valid() && visits == old(visits)
      ensures Snapshot() == OpenFunc(old(Snapshot()), t, name)
    {
      DeclareSymbol(name, t);
      OpenScope(Some(name));
      preserveLastScope := true;
      types := types[t.id := if IsIntSpec(Child(t, 0)) then Integer else Void];
    }

    /** A compound statement in the construction pass: it takes over the
        scope its function declaration opened, or opens one of its own, and
        is stamped with the top scope. */
    method EnterCompound(t: Tree)
      requires Valid() && t.Node?
      modifies this
      ensures Valid() && visits == old(visits)
      ensures Snapshot() == InsertCompound(old(Snapshot()), t)
    {
      if preserveLastScope {
        preserveLastScope := false;
      } else {
        OpenScope(funcName);
      }
      if |stack| > 0 {
        stamps := stamps[t.id := stack[|stack| - 1]];
      }
    }

    /** `insertNode`. */
    method InsertNode(t: Tree)
      requires Valid() && t.Node?
      modifies this
      ensures Valid() && visits == old(visits)
      ensures Snapshot() == InsertStep(old(Snapshot()), t)
    {
      if t.kind.VarDecl? || t.kind.VectorVarDecl? {
        InsertVariable(t);
      } else if t.kind.ScalarParam? || t.kind.VectorParam? {
        InsertParameter(t);
      } else {
        match t.kind {
          case CompoundStmt => EnterCompound(t);
          case IdExp(name) => RecordUse(t, name, MsgUndeclaredSymbol);
          case VectorIdExp(name) => RecordUse(t, name, MsgUndeclaredSymbol);
          case CallExp(name) => RecordUse(t, name, MsgUndeclaredFunction);
          case FuncDecl(name) => DeclareFunction(t, name);
          case _ =>
        }
      }
    }

    /** The variable cases of `insertNode`. */
    method InsertVariable(t: Tree)
      requires Valid() && t.Node? && (t.kind.VarDecl? || t.kind.VectorVarDecl?)
      modifies this
      ensures Valid() && visits == old(visits)
      ensures Snapshot() == InsertStep(old(Snapshot()), t)
    {
      if t.kind.VarDecl? {
        DeclareVariable(t, t.kind.name, Integer);
      } else {
        DeclareVariable(t, t.kind.name, IntegerArray);
      }
    }

    /** The parameter cases of `insertNode`. */
    method InsertParameter(t: Tree)
      requires Valid() && t.Node? && (t.kind.ScalarParam? || t.kind.VectorParam?)
      modifies this
      ensures Valid() && visits == old(visits)
      ensures Snapshot() == InsertStep(old(Snapshot()), t)
    {
      DeclareParameter(t, t.kind.name, t.kind.ScalarParam?);
    }

    /** `afterInsertNode`. */
    method AfterInsertNode(t: Tree)
      requires Valid() && t.Node?
      modifies this
      ensures Valid() && visits == old(visits)
      ensures Snapshot() == AfterInsertStep(old(Snapshot()), t)
    {
      if t.kind.CompoundStmt? {
        CloseScope();
      }
    }

    // -------------------------------------------------------------------
    // Type-checking pass

    /** `beforeCheckNode`. */
    method BeforeCheckNode(t: Tree)
      requires Valid() && t.Node?
      modifies this
      ensures Valid() && visits == old(visits)
      ensures Snapshot() == BeforeCheckStep(old(Snapshot()), t)
    {
      match t.kind {
        case FuncDecl(name) => funcName := Some(name);
        case CompoundStmt =>
          if t.id in stamps {
            stack := stack + [stamps[t.id]];
          } else {
            OpenScope(None);
          }
        case _ =>
      }
    }

    /** The argument loop of `checkNode`'s call case: walks the argument and
        parameter chains together and stops at the first mismatch. */
    method MatchArguments(args: Tree, params: Tree, callLine: int) returns (ds: seq<Diagnostic>)
      ensures ds == ArgDiagnostics(types, args, params, callLine)
    {
      var arg, param := args, params;
      ds := [];
      while arg.Node?
        invariant ds == []
        invariant ArgDiagnostics(types, args, params, callLine) == ArgDiagnostics(types, arg, param, callLine)
        decreases arg
      {
        if param.Null? {
          ds := [Diagnostic(arg.line, MsgArity)];
          return;
        }
        var problem := ArgRule(TypeOf(types, arg), TypeOf(types, param));
        if problem.Some? {
          ds := [Diagnostic(arg.line, problem.value)];
          return;
        }
        arg, param := arg.sibling, param.sibling;
      }
      if param.Node? {
        ds := [Diagnostic(callLine, MsgArity)];
      }
    }

    method CheckReturnStmt(t: Tree)
      requires Valid() && t.Node?
      modifies this
      ensures Valid() && visits == old(visits)
      ensures Snapshot() == CheckReturn(old(Snapshot()), t)
    {
      var f := if funcName.Some? then Lookup(scopes, stack, funcName.value) else None;
      if f.Some? {
        var e := Child(t, 0);
        var problem := ReturnRule(TypeOf(types, f.value.decl), if e.Null? then None else Some(TypeOf(types, e)));
        if problem.Some? {
          ReportError(t.line, problem.value);
        }
      }
    }

    method CheckVectorIdExp(t: Tree, name: string)
      requires Valid() && t.Node?
      modifies this
      ensures Valid() && visits == old(visits)
      ensures Snapshot() == CheckVectorId(old(Snapshot()), t, name)
    {
      var sym := Lookup(scopes, stack, name);
      if sym.None? {
        return;
      }
      var decl := sym.value.decl;
      if !(decl.Node? && (decl.kind.VectorVarDecl? || decl.kind.VectorParam?)) {
        ReportError(t.line, MsgExpectedArray);
      } else if TypeOf(types, Child(t, 0)) != Integer {
        ReportError(t.line, MsgIndexType);
      } else {
        types := types[t.id := Integer];
      }
    }

    method CheckCallExp(t: Tree, name: string)
      requires Valid() && t.Node?
      modifies this
      ensures Valid() && visits == old(visits)
      ensures Snapshot() == CheckCall(old(Snapshot()), t, name)
    {
      var f := Lookup(scopes, stack, name);
      if f.None? {
        ReportError(t.line, MsgUndeclaredFunction);
        return;
      }
      var decl := f.value.decl;
      if !(decl.Node? && decl.kind.FuncDecl?) {
        ReportError(t.line, MsgExpectedFunction);
        return;
      }
      var ds := MatchArguments(Child(t, 0), Child(decl, 1), t.line);
      log := log + ds;
      types := types[t.id := TypeOf(types, decl)];
    }

    /** `checkNode`. */
    method CheckNode(t: Tree)
      requires Valid() && t.Node?
      modifies this
      ensures Valid() && visits == old(visits)
      ensures Snapshot() == CheckStep(old(Snapshot()), t)
    {
      match t.kind {
        case CompoundStmt => CloseScope();
        case WhileStmt =>
          var c := Child(t, 0);
          if TypeOf(types, c) == Void {
            ReportError(LineOr(c, t.line), MsgVoidWhileTest);
          }
        case ReturnStmt => CheckReturnStmt(t);
        case AssignExp =>
          var left := Child(t, 0);
          var verdict := AssignRule(TypeOf(types, left), TypeOf(types, Child(t, 1)));
          match verdict {
            case Rejected(m) => ReportError(LineOr(left, t.line), m);
            case Typed(ty) => types := types[t.id := ty];
          }
        case OpExp(op) =>
          var verdict := OpRule(op, TypeOf(types, Child(t, 0)), TypeOf(types, Child(t, 1)));
          match verdict {
            case Rejected(m) => ReportError(t.line, m);
            case Typed(ty) => types := types[t.id := ty];
          }
        case ConstExp(_) => types := types[t.id := Integer];
        case IdExp(name) =>
          var sym := Lookup(scopes, stack, name);
          if sym.Some? {
            types := types[t.id := TypeOf(types, sym.value.decl)];
          }
        case VectorIdExp(name) => CheckVectorIdExp(t, name);
        case CallExp(name) => CheckCallExp(t, name);
        case _ =>
      }
    }
  
    // -------------------------------------------------------------------
    // The walker and the two passes

    /** `traverse`: the visit of `t` (see `VisitNode`), then the walk of its
        sibling.  The state it leaves is the pass's visitors run in order
        over `Walk(t)`; what that does to the scope stack and to the count
        of `main` declarations is proved about `Run` (`WalkStack`,
        `WalkMains`). */
    method Traverse(t: Tree, pass: Pass)
      requires Valid()
      modifies this
      ensures Valid() && visits == old(visits) + Walk(t)
      ensures Snapshot() == Run(pass, old(Snapshot()), Walk(t))
      decreases t, 2
    {
      if t.Null? {
        assert Walk(t) == [];
        return;
      }
      ghost var s0, v0 := Snapshot(), visits;
      VisitNode(t, pass);
      Traverse(t.sibling, pass);
      RunWalk(pass, s0, t);
      WalkTrace(v0, t);
    }

    /** One node: its pre-visit, the walks of its child slots, its post-visit. */
    method VisitNode(t: Tree, pass: Pass)
      requires Valid() && t.Node?
      modifies this
      ensures Valid() && visits == old(visits) + [PreVisit(t)] + WalkChildren(t, |t.child|) + [PostVisit(t)]
      ensures Snapshot() == Run(pass, old(Snapshot()), [PreVisit(t)] + WalkChildren(t, |t.child|) + [PostVisit(t)])
      decreases t, 1
    {
      ghost var s0 := Snapshot();
      PreVisitNode(t, pass);
      TraverseChildren(t, pass);
      PostVisitNode(t, pass);
      RunNode(pass, s0, t);
    }

    /** `preProc(t)`: `insertNode` or `beforeCheckNode`, as the pass says. */
    method PreVisitNode(t: Tree, pass: Pass)
      requires Valid() && t.Node?
      modifies this
      ensures Valid() && visits == old(visits) + [PreVisit(t)]
      ensures Snapshot() == Apply(pass, old(Snapshot()), PreVisit(t))
    {
      visits := visits + [PreVisit(t)];
      if pass == Construction {
        InsertNode(t);
      } else {
        BeforeCheckNode(t);
      }
    }

    /** `postProc(t)`: `afterInsertNode` or `checkNode`, as the pass says. */
    method PostVisitNode(t: Tree, pass: Pass)
      requires Valid() && t.Node?
      modifies this
      ensures Valid() && visits == old(visits) + [PostVisit(t)]
      ensures Snapshot() == Apply(pass, old(Snapshot()), PostVisit(t))
    {
      visits := visits + [PostVisit(t)];
      if pass == Construction {
        AfterInsertNode(t);
      } else {
        CheckNode(t);
      }
    }

    /** The `for` loop of `traverse` over the child slots of `t`. */
    method TraverseChildren(t: Tree, pass: Pass)
      requires Valid() && t.Node?
      modifies this
      ensures Valid() && visits == old(visits) + WalkChildren(t, |t.child|)
      ensures Snapshot() == Run(pass, old(Snapshot()), WalkChildren(t, |t.child|))
      decreases t, 0
    {
      ghost var s0, v0 := Snapshot(), visits;
      for i := 0 to |t.child|
        invariant Valid() && visits == v0 + WalkChildren(t, i)
        invariant Snapshot() == Run(pass, s0, WalkChildren(t, i))
      {
        TraverseChild(t, i, pass, s0, v0);
      }
    }

    /** One round of that loop: the walk of child slot `i` extends the calls
        made for the slots before it. */
    method TraverseChild(t: Tree, i: nat, pass: Pass, ghost s0: State, ghost v0: seq<Visit>)
      requires Valid() && Good(s0) && t.Node? && i < |t.child|
      requires visits == v0 + WalkChildren(t, i) && Snapshot() == Run(pass, s0, WalkChildren(t, i))
      modifies this
      ensures Valid() && visits == v0 + WalkChildren(t, i + 1)
      ensures Snapshot() == Run(pass, s0, WalkChildren(t, i + 1))
      decreases t, 0, i
    {
      ghost var done, next := WalkChildren(t, i), Walk(t.child[i]);
      Traverse(t.child[i], pass);
      assert Snapshot() == Run(pass, s0, WalkChildren(t, i + 1)) by {
        RunChild(pass, s0, t, i + 1);
      }
      assert visits == v0 + WalkChildren(t, i + 1) by {
        assert WalkChildren(t, i + 1) == done + next;
        AppendAssoc(v0, done, next);
      }
    }

    /** `buildSymtab`: a fresh global scope is created and pushed, the
        construction pass walks the tree, and the global scope is popped.
        Every `main` declaration is counted, and over a tree whose functions
        all have a compound body the stack comes back as it was. */
    method BuildSymtab(tree: Tree)
      requires Valid()
      modifies this
      ensures Valid() && visits == old(visits) + Walk(tree)
      ensures Snapshot() == BuildSymtabRun(old(Snapshot()), tree)
      ensures global == old(|scopes|) && global < |scopes|
      ensures mainCount == old(mainCount) + CountMain(tree)
      ensures Appended(old(log), log, ConstructionMessages)
      ensures Bodied(tree) && !old(preserveLastScope) ==> stack == old(stack) && !preserveLastScope
    {
      global := |scopes|;
      OpenScope(None);
      Traverse(tree, Construction);
      CloseScope();
    }

    /** `typeCheck`: the global scope is pushed again, the checking pass walks
        the tree, the global scope is popped, and a missing `main` is
        reported exactly when no `main` declaration was counted. */
    method TypeCheck(tree: Tree)
      requires Valid() && global < |scopes|
      modifies this
      ensures Valid() && visits == old(visits) + Walk(tree)
      ensures Snapshot() == TypeCheckRun(old(Snapshot()), tree)
      ensures stack == old(stack) && mainCount == old(mainCount) && old(log) <= log
      ensures Diagnostic(LineOr(tree, 0), MsgNoMain) in log[|old(log)|..] <==> mainCount == 0
    {
      ghost var s0 := Snapshot();
      stack := stack + [global];
      Traverse(tree, Checking);
      CloseScope();
      if mainCount == 0 {
        ReportError(LineOr(tree, 0), MsgNoMain);
      }
      NoMainReported(s0, tree);
    }
  }
}
