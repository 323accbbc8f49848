/**
 * What one visit of each pass guarantees, stated over the step functions
 * that the analyser's methods are proved to follow.
 */
module Properties {
  import opened Wrappers
  import opened Syntax
  import opened SymbolTable
  import opened Rules
  import opened Semantics

  // ---------------------------------------------------------------------
  // Construction pass

  /** A variable declaration is checked in order: a `void` specifier is one
      error and nothing else; otherwise the node is typed, and a name already
      in the innermost scope is one error; otherwise the variable is inserted
      into the innermost scope and no other scope changes. */
  lemma VarDeclOrder(s: State, t: Tree, name: string, ty: ExpType)
    requires Good(s) && t.Node?
    ensures var r := InsertVar(s, t, name, ty);
      (IsVoidSpec(Child(t, 0)) ==> r == s.(log := s.log + [Diagnostic(t.line, MsgVoidVariable)])) &&
      (!IsVoidSpec(Child(t, 0)) && LookupTop(s.scopes, s.stack, name).Some? ==>
        r == s.(types := s.types[t.id := ty], log := s.log + [Diagnostic(t.line, MsgSymbolRedeclared)])) &&
      (!IsVoidSpec(Child(t, 0)) && LookupTop(s.scopes, s.stack, name).None? && |s.stack| > 0 ==>
        r.log == s.log && r.types == s.types[t.id := ty] && r.location == s.location + 1 &&
        LookupTop(r.scopes, r.stack, name) == Some(Symbol(t, t.line, s.location, [])) &&
        forall id :: 0 <= id < |s.scopes| && id != s.stack[|s.stack| - 1] ==> r.scopes[id] == s.scopes[id])
  {
  }

  /** "function already declared with symbol name" is never reported: it is
      checked only once the innermost scope is known not to hold the name,
      and then it holds no function of that name either. */
  lemma FunctionClashUnreachable(s: State, t: Tree, name: string, ty: ExpType)
    requires Good(s) && t.Node?
    ensures var r := InsertVar(s, t, name, ty);
      forall i :: |s.log| <= i < |r.log| ==> r.log[i].message != MsgFunctionClash
  {
    var r := InsertVar(s, t, name, ty);
    if !IsVoidSpec(Child(t, 0)) && LookupTop(s.scopes, s.stack, name).None? {
      assert LookupTopFunc(s.scopes, s.stack, name).None?;
      assert r.log == s.log;
    }
  }

  /** A function declaration sets the current function and counts `main`.
      If the innermost scope already holds its name it is one rule-7 error,
      with nothing inserted, no scope pushed and the flag untouched.
      Otherwise it is inserted, a scope named after it is pushed, the
      one-shot flag is set, and it is typed `Integer` exactly for an `int`
      specifier. */
  lemma FuncDeclEffect(s: State, t: Tree, name: string)
    requires Good(s) && t.Node?
    ensures var r := InsertFunc(s, t, name);
      r.funcName == Some(name) &&
      r.mainCount == s.mainCount + (if name == "main" then 1 else 0) &&
      (LookupTop(s.scopes, s.stack, name).Some? ==>
        r == s.(funcName := Some(name), mainCount := r.mainCount,
                log := s.log + [Diagnostic(t.line, MsgFunctionRedeclared)])) &&
      (LookupTop(s.scopes, s.stack, name).None? && |s.stack| > 0 ==>
        r.log == s.log && r.preserveLastScope &&
        r.stack == s.stack + [|s.scopes|] &&
        r.scopes[|s.scopes|] == Scope(Some(name), map[]) &&
        LookupTop(r.scopes, s.stack, name) == Some(Symbol(t, t.line, s.location, [])) &&
        t.id in r.types && (r.types[t.id] == Integer <==> IsIntSpec(Child(t, 0))) &&
        (r.types[t.id] == Void <==> !IsIntSpec(Child(t, 0))))
  {
    var s1 := s.(funcName := Some(name), mainCount := s.mainCount + (if name == "main" then 1 else 0));
    if LookupTop(s.scopes, s.stack, name).None? && |s.stack| > 0 {
      var s2 := Declare(s1, name, t);
      assert s2.scopes == Insert(s.scopes, s.stack, name, Symbol(t, t.line, s.location, []));
      var r := InsertFunc(s, t, name);
      assert r.scopes == s2.scopes + [Scope(Some(name), map[])];
      assert r.scopes[s.stack[|s.stack| - 1]] == s2.scopes[s.stack[|s.stack| - 1]];
    }
  }

  /** A use of a name (identifier or call) that no scope on the stack holds
      is exactly one diagnostic and nothing else.  Otherwise nothing is
      reported, no scope gains or loses a name, and the name still resolves
      to the same declaration, with the line of the use appended. */
  lemma UseRecorded(s: State, t: Tree, name: string, undeclared: string)
    requires Good(s) && t.Node? && undeclared in ConstructionMessages
    ensures var r := InsertUse(s, t, name, undeclared);
      (Lookup(s.scopes, s.stack, name).None? ==>
        r == s.(log := s.log + [Diagnostic(t.line, undeclared)])) &&
      (Lookup(s.scopes, s.stack, name).Some? ==>
        var sym := Lookup(s.scopes, s.stack, name).value;
        r.log == s.log && r.stack == s.stack &&
        (forall id :: 0 <= id < |s.scopes| ==> r.scopes[id].table.Keys == s.scopes[id].table.Keys) &&
        Lookup(r.scopes, r.stack, name) == Some(sym.(uses := sym.uses + [t.line])))
  {
    AddUseResolves(s.scopes, s.stack, name, t.line, name);
  }

  /** Parameters as written: one whose name any scope on the stack already
      holds (a global, say) is silently not inserted; a new one is inserted,
      and then a scalar one is typed `Integer` while an array one is
      reported as redeclared (rule 4) and stays untyped. */
  lemma ParamRules(s: State, t: Tree, name: string, scalar: bool)
    requires Good(s) && t.Node?
    ensures var r := InsertParam(s, t, name, scalar);
      var voidDiag := if IsVoidSpec(Child(t, 0)) then [Diagnostic(Child(t, 0).line, MsgVoidParameter)] else [];
      (Lookup(s.scopes, s.stack, name).Some? ==> r == s.(log := s.log + voidDiag)) &&
      (Lookup(s.scopes, s.stack, name).None? && |s.stack| > 0 ==>
        LookupTop(r.scopes, r.stack, name) == Some(Symbol(t, t.line, s.location, [])) &&
        (scalar ==> r.log == s.log + voidDiag && r.types == s.types[t.id := Integer]) &&
        (!scalar ==> r.log == s.log + voidDiag + [Diagnostic(t.line, MsgParameterRedeclared)] &&
                     r.types == s.types))
  {
  }

  // ---------------------------------------------------------------------
  // Type-checking pass

  /** Matching arguments reports at most one diagnostic. */
  lemma {:induction false} ArgDiagnosticsAtMostOne(types: map<NodeId, ExpType>, arg: Tree, param: Tree, callLine: int)
    ensures |ArgDiagnostics(types, arg, param, callLine)| <= 1
    decreases arg
  {
    if arg.Node? && param.Node? && ArgRule(TypeOf(types, arg), TypeOf(types, param)).None? {
      ArgDiagnosticsAtMostOne(types, arg.sibling, param.sibling, callLine);
    }
  }

  /** Matching arguments reports nothing exactly when there are as many
      arguments as parameters and every argument is accepted for the
      parameter in the same position. */
  lemma {:induction false} ArgsAccepted(types: map<NodeId, ExpType>, arg: Tree, param: Tree, callLine: int)
    ensures ArgDiagnostics(types, arg, param, callLine) == [] <==>
      |Chain(arg)| == |Chain(param)| &&
      forall i :: 0 <= i < |Chain(arg)| ==> ArgRule(TypeOf(types, Chain(arg)[i]), TypeOf(types, Chain(param)[i])).None?
    decreases arg
  {
    if arg.Node? && param.Node? {
      var xs, ys := Chain(arg), Chain(param);
      assert xs == [arg] + Chain(arg.sibling) && ys == [param] + Chain(param.sibling);
      if ArgRule(TypeOf(types, arg), TypeOf(types, param)).None? {
        ArgsAccepted(types, arg.sibling, param.sibling, callLine);
        var xs', ys' := Chain(arg.sibling), Chain(param.sibling);
        if |xs| == |ys| && forall i :: 0 <= i < |xs| ==> ArgRule(TypeOf(types, xs[i]), TypeOf(types, ys[i])).None? {
          forall i | 0 <= i < |xs'| ensures ArgRule(TypeOf(types, xs'[i]), TypeOf(types, ys'[i])).None? {
            assert xs'[i] == xs[i + 1] && ys'[i] == ys[i + 1];
          }
        }
        if |xs'| == |ys'| && forall i :: 0 <= i < |xs'| ==> ArgRule(TypeOf(types, xs'[i]), TypeOf(types, ys'[i])).None? {
          forall i | 0 <= i < |xs| ensures ArgRule(TypeOf(types, xs[i]), TypeOf(types, ys[i])).None? {
            if i > 0 {
              assert xs[i] == xs'[i - 1] && ys[i] == ys'[i - 1];
            }
          }
        }
      } else {
        assert xs[0] == arg && ys[0] == param;
      }
    } else if arg.Node? {
      assert |Chain(arg)| > 0;
    } else if param.Node? {
      assert |Chain(param)| > 0;
    }
  }

  /** The number of leading argument/parameter pairs the rules accept. */
  function AcceptedPrefix(types: map<NodeId, ExpType>, arg: Tree, param: Tree): (k: nat)
    ensures k <= |Chain(arg)| && k <= |Chain(param)|
    decreases arg
  {
    if arg.Node? && param.Node? && ArgRule(TypeOf(types, arg), TypeOf(types, param)).None? then
      1 + AcceptedPrefix(types, arg.sibling, param.sibling)
    else 0
  }

  /** The diagnostic matching reports when it stops at position `k` of the
      argument list `xs` and the parameter list `ys` (an accepted pair at
      `k` reports nothing, but matching never stops at one). */
  function StopReport(types: map<NodeId, ExpType>, xs: seq<Tree>, ys: seq<Tree>, k: nat, callLine: int): seq<Diagnostic>
    requires k <= |xs| && k <= |ys| && forall i :: 0 <= i < |xs| ==> xs[i].Node?
  {
    if k < |xs| && k < |ys| then
      match ArgRule(TypeOf(types, xs[k]), TypeOf(types, ys[k]))
      case Some(m) => [Diagnostic(xs[k].line, m)]
      case None => []
    else if k < |xs| then [Diagnostic(xs[k].line, MsgArity)]
    else if k < |ys| then [Diagnostic(callLine, MsgArity)]
    else []
  }

  /** Every pair before the accepted prefix's end is accepted, and the pair
      at its end, when both lists reach that far, is refused. */
  lemma {:induction false} AcceptedPrefixStops(types: map<NodeId, ExpType>, arg: Tree, param: Tree)
    ensures var xs, ys, k := Chain(arg), Chain(param), AcceptedPrefix(types, arg, param);
      (forall i :: 0 <= i < k ==> ArgRule(TypeOf(types, xs[i]), TypeOf(types, ys[i])).None?) &&
      (k < |xs| && k < |ys| ==> ArgRule(TypeOf(types, xs[k]), TypeOf(types, ys[k])).Some?)
    decreases arg
  {
    var xs, ys := Chain(arg), Chain(param);
    if arg.Node? && param.Node? {
      assert xs == [arg] + Chain(arg.sibling) && ys == [param] + Chain(param.sibling);
      if ArgRule(TypeOf(types, arg), TypeOf(types, param)).None? {
        var xs', ys' := Chain(arg.sibling), Chain(param.sibling);
        var k' := AcceptedPrefix(types, arg.sibling, param.sibling);
        assert xs' == xs[1..] && ys' == ys[1..];
        AcceptedPrefixStops(types, arg.sibling, param.sibling);
        forall i | 1 <= i < k' + 1 ensures ArgRule(TypeOf(types, xs[i]), TypeOf(types, ys[i])).None? {
          assert xs[i] == xs'[i - 1] && ys[i] == ys'[i - 1];
        }
      } else {
        assert xs[0] == arg && ys[0] == param;
      }
    }
  }

  /** Matching reports what it finds where it stops: with `k` the end of
      the accepted prefix (`AcceptedPrefixStops`), the one diagnostic is the
      refusal of the pair at `k` at the argument's line, an arity error at
      the first surplus argument's line, or an arity error at the call's
      line when parameters are left over; nothing when both lists end at
      `k`. */
  lemma {:induction false} ArgDiagnosticsFirst(types: map<NodeId, ExpType>, arg: Tree, param: Tree, callLine: int)
    ensures ArgDiagnostics(types, arg, param, callLine) ==
      StopReport(types, Chain(arg), Chain(param), AcceptedPrefix(types, arg, param), callLine)
    decreases arg
  {
    var xs, ys := Chain(arg), Chain(param);
    if arg.Node? && param.Node? {
      assert xs == [arg] + Chain(arg.sibling) && ys == [param] + Chain(param.sibling);
      if ArgRule(TypeOf(types, arg), TypeOf(types, param)).None? {
        var k' := AcceptedPrefix(types, arg.sibling, param.sibling);
        ArgDiagnosticsFirst(types, arg.sibling, param.sibling, callLine);
        assert Chain(arg.sibling) == xs[1..] && Chain(param.sibling) == ys[1..];
        if k' < |xs| - 1 {
          assert xs[k' + 1] == xs[1..][k'];
        }
        if k' < |ys| - 1 {
          assert ys[k' + 1] == ys[1..][k'];
        }
      } else {
        assert xs[0] == arg && ys[0] == param;
      }
    } else if arg.Node? {
      assert xs[0] == arg;
    }
  }

  /** A call to a name no scope holds is one error and its type is left as
      it was; a call to a name that is not a function is one error
      ("expected function symbol") likewise.  A call to a function takes the
      function's declared type whatever its arguments, and reports at most
      one diagnostic, none exactly when the arguments match the parameters
      in number and, position by position, in kind. */
  lemma CallTyping(s: State, t: Tree, name: string)
    requires Good(s) && t.Node?
    ensures var r := CheckCall(s, t, name);
      var f := Lookup(s.scopes, s.stack, name);
      (f.None? ==> r == s.(log := s.log + [Diagnostic(t.line, MsgUndeclaredFunction)])) &&
      (f.Some? && !(f.value.decl.Node? && f.value.decl.kind.FuncDecl?) ==>
        r == s.(log := s.log + [Diagnostic(t.line, MsgExpectedFunction)])) &&
      (f.Some? && f.value.decl.Node? && f.value.decl.kind.FuncDecl? ==>
        var args, params := Chain(Child(t, 0)), Chain(Child(f.value.decl, 1));
        r.types == s.types[t.id := TypeOf(s.types, f.value.decl)] &&
        |s.log| <= |r.log| <= |s.log| + 1 &&
        (r.log == s.log <==>
          |args| == |params| &&
          forall i :: 0 <= i < |args| ==> ArgRule(TypeOf(s.types, args[i]), TypeOf(s.types, params[i])).None?))
  {
    var f := Lookup(s.scopes, s.stack, name);
    if f.Some? && f.value.decl.Node? && f.value.decl.kind.FuncDecl? {
      var ds := ArgDiagnostics(s.types, Child(t, 0), Child(f.value.decl, 1), t.line);
      ArgDiagnosticsAtMostOne(s.types, Child(t, 0), Child(f.value.decl, 1), t.line);
      ArgsAccepted(s.types, Child(t, 0), Child(f.value.decl, 1), t.line);
      assert s.log + ds == s.log <==> ds == [];
    }
  }

  /** `return` outside any function, or in one whose name resolves to
      nothing, changes nothing.  Inside a function whose name resolves to a
      `void` symbol it is accepted exactly when it has no expression or a
      void one, and is otherwise reported as a value returned from a void
      function; inside one resolving to an `Integer` symbol it is accepted
      exactly when it has a non-void expression, and is otherwise reported
      as a missing return value.  Either report is one diagnostic at the
      statement's line. */
  lemma ReturnChecked(s: State, t: Tree)
    requires Good(s) && t.Node?
    ensures var r := CheckReturn(s, t);
      var f := if s.funcName.Some? then Lookup(s.scopes, s.stack, s.funcName.value) else None;
      (f.None? ==> r == s) &&
      (f.Some? ==>
        var funcType := TypeOf(s.types, f.value.decl);
        var e := Child(t, 0);
        (funcType == Void ==> (r == s <==> e.Null? || TypeOf(s.types, e) == Void)) &&
        (funcType == Integer ==> (r == s <==> e.Node? && TypeOf(s.types, e) != Void)) &&
        (funcType == Void && r != s ==> r == s.(log := s.log + [Diagnostic(t.line, MsgNoReturnValue)])) &&
        (funcType == Integer && r != s ==> r == s.(log := s.log + [Diagnostic(t.line, MsgReturnValue)])) &&
        (funcType != Void && funcType != Integer ==> r == s))
  {
    if s.funcName.Some? && Lookup(s.scopes, s.stack, s.funcName.value).Some? {
      var f := Lookup(s.scopes, s.stack, s.funcName.value).value;
      var e := Child(t, 0);
      ReturnAccepts(TypeOf(s.types, f.decl), if e.Null? then None else Some(TypeOf(s.types, e)));
    }
  }

  /** An indexed use `a[i]` of an undeclared name changes nothing (its
      construction pass already reported it).  One of a declared name is
      typed `Integer` exactly when the name is declared as an array variable
      or an array parameter and the index is `Integer`; otherwise it is one
      diagnostic and keeps its type. */
  lemma VectorIdTyping(s: State, t: Tree, name: string)
    requires Good(s) && t.Node?
    ensures var r := CheckVectorId(s, t, name);
      var f := Lookup(s.scopes, s.stack, name);
      (f.None? ==> r == s) &&
      (f.Some? ==>
        var decl := f.value.decl;
        var ok := decl.Node? && (decl.kind.VectorVarDecl? || decl.kind.VectorParam?) &&
                  TypeOf(s.types, Child(t, 0)) == Integer;
        (ok ==> r == s.(types := s.types[t.id := Integer])) &&
        (!ok ==> r.types == s.types && |r.log| == |s.log| + 1))
  {
  }

  /** An assignment or binary operation either gets a type and reports
      nothing, or reports exactly one diagnostic and keeps its type; an
      accepted assignment has its left operand's type, an accepted operation
      is `Integer`, and a constant is always `Integer`. */
  lemma ExpressionTyping(s: State, t: Tree)
    requires Good(s) && t.Node? && (t.kind.AssignExp? || t.kind.OpExp? || t.kind.ConstExp?)
    ensures var r := CheckStep(s, t);
      (r.log == s.log && t.id in r.types && r.types == s.types[t.id := r.types[t.id]]) ||
      (r.types == s.types && |r.log| == |s.log| + 1)
    ensures var r := CheckStep(s, t);
      r.log == s.log && t.kind.AssignExp? ==> r.types[t.id] == TypeOf(s.types, Child(t, 0)) != IntegerArray
    ensures var r := CheckStep(s, t);
      r.log == s.log && !t.kind.AssignExp? ==> r.types[t.id] == Integer
  {
    if t.kind.AssignExp? {
      AssignAccepts(TypeOf(s.types, Child(t, 0)), TypeOf(s.types, Child(t, 1)));
    } else if t.kind.OpExp? {
      OpAccepts(t.kind.op, TypeOf(s.types, Child(t, 0)), TypeOf(s.types, Child(t, 1)));
    }
  }

  /** A `while` test is refused, with one diagnostic, exactly when its
      value is void; nothing else changes. */
  lemma WhileTest(s: State, t: Tree)
    requires Good(s) && t.Node? && t.kind.WhileStmt?
    ensures var r := CheckStep(s, t);
      var c := Child(t, 0);
      (TypeOf(s.types, c) == Void ==> r == s.(log := s.log + [Diagnostic(LineOr(c, t.line), MsgVoidWhileTest)])) &&
      (TypeOf(s.types, c) != Void ==> r == s)
  {
  }

  /** A plain identifier takes the type of the declaration its name
      resolves to in the innermost scope holding it, and never reports
      anything (an undeclared one was reported by the first pass). */
  lemma IdTyping(s: State, t: Tree)
    requires Good(s) && t.Node? && t.kind.IdExp?
    ensures var r := CheckStep(s, t);
      var f := Lookup(s.scopes, s.stack, t.kind.name);
      r.log == s.log &&
      (f.None? ==> r == s) &&
      (f.Some? ==> r == s.(types := s.types[t.id := TypeOf(s.types, f.value.decl)]))
  {
  }

  /** A visit of the type-checking pass reports at most one diagnostic. */
  lemma CheckStepAtMostOne(s: State, t: Tree)
    requires Good(s) && t.Node?
    ensures |CheckStep(s, t).log| <= |s.log| + 1
  {
    match t.kind
    case CallExp(name) => CallTyping(s, t, name);
    case _ =>
  }
}
