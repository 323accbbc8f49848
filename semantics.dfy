/**
 * What one visit of each pass does to the analyser's state, as functions:
 * `InsertStep` / `AfterInsertStep` are `insertNode` / `afterInsertNode` of the
 * symbol-table construction pass, `BeforeCheckStep` / `CheckStep` are
 * `beforeCheckNode` / `checkNode` of the type-checking pass.  The analyser
 * class runs them in place and is proved against them.
 */
module Semantics {
  import opened Wrappers
  import opened Syntax
  import opened SymbolTable
  import opened Rules

  /** Everything a visit reads or writes: the scope table and stack, the
      global scope, the current function name, the one-shot flag
      `preserveLastScope`, the count of `main` declarations, the type and
      scope fields written into nodes (keyed by node id), the storage-location
      counter and the diagnostics reported so far. */
  datatype State = State(
    scopes: seq<Scope>,
    stack: seq<ScopeId>,
    global: ScopeId,
    funcName: Option<string>,
    preserveLastScope: bool,
    mainCount: nat,
    types: map<NodeId, ExpType>,
    stamps: map<NodeId, ScopeId>,
    location: nat,
    log: seq<Diagnostic>)

  /** Every scope id on the stack or stamped on a node exists. */
  predicate Good(s: State) {
    StackValid(s.scopes, s.stack) && forall id :: id in s.stamps ==> s.stamps[id] < |s.scopes|
  }

  /** `after` extends `before` with diagnostics whose messages are in `msgs`. */
  predicate Appended(before: seq<Diagnostic>, after: seq<Diagnostic>, msgs: set<string>) {
    before <= after && forall i :: |before| <= i < |after| ==> after[i].message in msgs
  }

  lemma AppendedTrans(a: seq<Diagnostic>, b: seq<Diagnostic>, c: seq<Diagnostic>, msgs: set<string>)
    requires Appended(a, b, msgs) && Appended(b, c, msgs)
    ensures Appended(a, c, msgs)
  {
    assert c[..|b|] == b;
    assert c[..|a|] == b[..|a|];
  }

  /** The type field of node `t`: the type the analyser wrote into it, else
      its initial value (`Void` for an expression node, `Unset` for any other
      node).  A missing child reads as an untyped expression. */
  function TypeOf(types: map<NodeId, ExpType>, t: Tree): (r: ExpType)
    ensures t.Node? && t.id in types ==> r == types[t.id]
    ensures (t.Null? || (t.id !in types && IsExpression(t.kind))) ==> r == Void
    ensures t.Node? && t.id !in types && !IsExpression(t.kind) ==> r == Unset
  {
    if t.Null? then Void
    else if t.id in types then types[t.id]
    else if IsExpression(t.kind) then Void
    else Unset
  }

  function Report(s: State, line: int, message: string): (r: State)
    ensures r == s.(log := s.log + [Diagnostic(line, message)])
  {
    s.(log := s.log + [Diagnostic(line, message)])
  }

  function SetType(s: State, t: Tree, ty: ExpType): (r: State)
    requires t.Node?
    ensures r == s.(types := s.types[t.id := ty])
  {
    s.(types := s.types[t.id := ty])
  }

  /** `sc_create` then `sc_push`: a new empty scope on top of the stack. */
  function PushNewScope(s: State, name: Option<string>): (r: State)
    requires Good(s)
    ensures Good(r) && r.stack == s.stack + [|s.scopes|]
    ensures r.scopes == s.scopes + [Scope(name, map[])]
    ensures r == s.(scopes := r.scopes, stack := r.stack)
  {
    s.(scopes := s.scopes + [Scope(name, map[])], stack := s.stack + [|s.scopes|])
  }

  /** `sc_pop`; popping an empty stack (an abort in the symbol table) leaves
      it empty. */
  function PopScope(s: State): (r: State)
    requires Good(s)
    ensures Good(r) && r == s.(stack := r.stack)
    ensures r.stack == if |s.stack| > 0 then s.stack[..|s.stack| - 1] else s.stack
  {
    if |s.stack| > 0 then s.(stack := s.stack[..|s.stack| - 1]) else s
  }

  /** `st_insert(name, t->lineno, addLocation(), t)`: a new symbol in the
      innermost scope, with the next storage location.  With no scope open
      (which `buildSymtab` never lets happen) nothing is inserted. */
  function Declare(s: State, name: string, t: Tree): (r: State)
    requires Good(s) && t.Node?
    ensures Good(r) && r.stack == s.stack && |r.scopes| == |s.scopes|
    ensures r == s.(scopes := r.scopes, location := r.location)
    ensures |s.stack| > 0 ==> r.scopes == Insert(s.scopes, s.stack, name, Symbol(t, t.line, s.location, []))
  {
    if |s.stack| == 0 then s
    else s.(scopes := Insert(s.scopes, s.stack, name, Symbol(t, t.line, s.location, [])),
            location := s.location + 1)
  }

  // ---------------------------------------------------------------------
  // Construction pass: insertNode

  /** A compound statement: the body of a just-declared function reuses the
      parameters' scope (consuming the one-shot flag); any other compound
      statement opens a scope named after the current function.  Either way
      the node is stamped with the innermost scope. */
  function InsertCompound(s: State, t: Tree): (r: State)
    requires Good(s) && t.Node?
    ensures Good(r) && !r.preserveLastScope && |r.scopes| >= |s.scopes| && r.global == s.global
    ensures r.stack == if s.preserveLastScope then s.stack else s.stack + [|s.scopes|]
    ensures r.log == s.log && r.mainCount == s.mainCount && r.types == s.types
    ensures |r.stack| > 0 ==> r.stamps == s.stamps[t.id := r.stack[|r.stack| - 1]]
    ensures |r.stack| == 0 ==> r.stamps == s.stamps
    ensures r.scopes == if s.preserveLastScope then s.scopes else s.scopes + [Scope(s.funcName, map[])]
    ensures r == s.(scopes := r.scopes, stack := r.stack, preserveLastScope := false, stamps := r.stamps)
  {
    var s1 := if s.preserveLastScope then s.(preserveLastScope := false) else PushNewScope(s, s.funcName);
    if |s1.stack| > 0 then s1.(stamps := s1.stamps[t.id := s1.stack[|s1.stack| - 1]]) else s1
  }

  /** A use of an identifier or a call: resolved through the whole stack;
      an undeclared name is reported, a declared one gets the line of the use
      appended to its symbol. */
  function InsertUse(s: State, t: Tree, name: string, undeclared: string): (r: State)
    requires Good(s) && t.Node? && undeclared in ConstructionMessages
    ensures Appended(s.log, r.log, ConstructionMessages)
    ensures Good(r) && r.stack == s.stack && |r.scopes| == |s.scopes|
    ensures r == s.(scopes := r.scopes, log := r.log)
  {
    if Lookup(s.scopes, s.stack, name).None? then Report(s, t.line, undeclared)
    else s.(scopes := AddUse(s.scopes, s.stack, name, t.line))
  }

  /** A function declaration: counted when named `main`; rejected (rule 7)
      when the innermost scope already has the name; otherwise inserted, a
      scope named after it is pushed for its parameters and body, the one-shot
      flag is set, and it is typed `Integer` for an `int` specifier and `Void`
      otherwise. */
  function InsertFunc(s: State, t: Tree, name: string): (r: State)
    requires Good(s) && t.Node?
    ensures Appended(s.log, r.log, ConstructionMessages)
    ensures Good(r) && |r.scopes| >= |s.scopes|
    ensures r.mainCount == s.mainCount + (if name == "main" then 1 else 0) && r.global == s.global
    ensures (r.stack == s.stack && r.preserveLastScope == s.preserveLastScope) ||
            (r.stack == s.stack + [|s.scopes|] && r.preserveLastScope)
    ensures r.stamps == s.stamps
  {
    var s1 := s.(funcName := Some(name), mainCount := s.mainCount + (if name == "main" then 1 else 0));
    if LookupTop(s1.scopes, s1.stack, name).Some? then Report(s1, t.line, MsgFunctionRedeclared)
    else OpenFunc(s1, t, name)
  }

  /** An accepted function declaration: inserted, a scope named after it
      pushed, the flag set and the node typed. */
  function OpenFunc(s: State, t: Tree, name: string): (r: State)
    requires Good(s) && t.Node?
    ensures Good(r) && r.log == s.log && r.stamps == s.stamps && r.global == s.global
    ensures r.mainCount == s.mainCount && r.stack == s.stack + [|s.scopes|] && r.preserveLastScope
  {
    var s2 := Declare(s, name, t);
    var s3 := PushNewScope(s2, Some(name));
    s3.(preserveLastScope := true,
        types := s3.types[t.id := if IsIntSpec(Child(t, 0)) then Integer else Void])
  }

  /** A variable declaration of type `ty` (`Integer` for a scalar,
      `IntegerArray` for an array). */
  function InsertVar(s: State, t: Tree, name: string, ty: ExpType): (r: State)
    requires Good(s) && t.Node?
    ensures Appended(s.log, r.log, ConstructionMessages)
    ensures Good(r) && r.stack == s.stack && |r.scopes| == |s.scopes|
    ensures r == s.(scopes := r.scopes, types := r.types, location := r.location, log := r.log)
  {
    var line := t.line;
    if IsVoidSpec(Child(t, 0)) then Report(s, line, MsgVoidVariable)
    else
      var s1 := s.(types := s.types[t.id := ty]);
      if LookupTop(s1.scopes, s1.stack, name).Some? then Report(s1, line, MsgSymbolRedeclared)
      else if LookupTopFunc(s1.scopes, s1.stack, name).Some? then Report(s1, line, MsgFunctionClash)
      else Declare(s1, name, t)
  }

  /** A parameter (`scalar` false for an array parameter).  A void specifier
      is reported at the specifier's line.  The parameter is inserted only
      when no scope on the stack has its name; a scalar one is then typed
      `Integer`, while an array one is reported as redeclared (rule 4) and
      left untyped. */
  function InsertParam(s: State, t: Tree, name: string, scalar: bool): (r: State)
    requires Good(s) && t.Node?
    ensures Appended(s.log, r.log, ConstructionMessages)
    ensures Good(r) && r.stack == s.stack && |r.scopes| == |s.scopes|
    ensures r == s.(scopes := r.scopes, types := r.types, location := r.location, log := r.log)
  {
    var s1 := if IsVoidSpec(Child(t, 0)) then Report(s, Child(t, 0).line, MsgVoidParameter) else s;
    if Lookup(s1.scopes, s1.stack, name).None? then
      var s2 := Declare(s1, name, t);
      if scalar then SetType(s2, t, Integer) else Report(s2, t.line, MsgParameterRedeclared)
    else s1
  }

  /** `insertNode`: the pre-visit of the construction pass. */
  function InsertStep(s: State, t: Tree): (r: State)
    requires Good(s) && t.Node?
    ensures Good(r) && |r.scopes| >= |s.scopes| && r.global == s.global
    ensures Appended(s.log, r.log, ConstructionMessages)
    ensures r.mainCount == s.mainCount + (if t.kind == FuncDecl("main") then 1 else 0)
    ensures t.kind.CompoundStmt? ==>
      !r.preserveLastScope && r.stack == if s.preserveLastScope then s.stack else s.stack + [|s.scopes|]
    ensures t.kind.FuncDecl? ==>
      (r.stack == s.stack && r.preserveLastScope == s.preserveLastScope) ||
      (r.stack == s.stack + [|s.scopes|] && r.preserveLastScope)
    ensures !t.kind.CompoundStmt? && !t.kind.FuncDecl? ==>
      r.stack == s.stack && r.preserveLastScope == s.preserveLastScope
  {
    match t.kind
    case CompoundStmt => InsertCompound(s, t)
    case IdExp(name) => InsertUse(s, t, name, MsgUndeclaredSymbol)
    case VectorIdExp(name) => InsertUse(s, t, name, MsgUndeclaredSymbol)
    case CallExp(name) => InsertUse(s, t, name, MsgUndeclaredFunction)
    case FuncDecl(name) => InsertFunc(s, t, name)
    case VarDecl(name) => InsertVar(s, t, name, Integer)
    case VectorVarDecl(name, _) => InsertVar(s, t, name, IntegerArray)
    case ScalarParam(name) => InsertParam(s, t, name, true)
    case VectorParam(name) => InsertParam(s, t, name, false)
    case _ => s
  }

  /** `afterInsertNode`: leaving a compound statement pops its scope. */
  function AfterInsertStep(s: State, t: Tree): (r: State)
    requires Good(s) && t.Node?
    ensures Good(r) && r == s.(stack := r.stack)
    ensures r.stack == if t.kind.CompoundStmt? && |s.stack| > 0 then s.stack[..|s.stack| - 1] else s.stack
  {
    if t.kind.CompoundStmt? then PopScope(s) else s
  }

  // ---------------------------------------------------------------------
  // Type-checking pass: beforeCheckNode and checkNode

  /** `beforeCheckNode`: a function declaration becomes the current function;
      a compound statement pushes again the scope stamped on it in the first
      pass (an unstamped one, which the first pass never leaves, pushes a new
      empty scope). */
  function BeforeCheckStep(s: State, t: Tree): (r: State)
    requires Good(s) && t.Node?
    ensures Good(r) && |r.scopes| >= |s.scopes| && r.log == s.log && r.mainCount == s.mainCount
    ensures r.global == s.global
    ensures t.kind.CompoundStmt? ==> |r.stack| == |s.stack| + 1 && r.stack[..|s.stack|] == s.stack
    ensures t.kind.CompoundStmt? && t.id in s.stamps ==> r.stack == s.stack + [s.stamps[t.id]]
    ensures !t.kind.CompoundStmt? ==> r.stack == s.stack
    ensures t.kind.FuncDecl? ==> r.funcName == Some(t.kind.name)
    ensures !t.kind.FuncDecl? ==> r.funcName == s.funcName
    ensures r.scopes == if t.kind.CompoundStmt? && t.id !in s.stamps then s.scopes + [Scope(None, map[])] else s.scopes
    ensures r == s.(scopes := r.scopes, stack := r.stack, funcName := r.funcName)
  {
    match t.kind
    case FuncDecl(name) => s.(funcName := Some(name))
    case CompoundStmt =>
      if t.id in s.stamps then s.(stack := s.stack + [s.stamps[t.id]])
      else PushNewScope(s, None)
    case _ => s
  }

  /** The diagnostics of matching the argument chain `arg` against the
      parameter chain `param` of a call at `callLine`: pairs are compared in
      order, and the first extra argument or refused pair is reported at the
      argument's line and ends the walk; parameters left over once every
      argument matched are reported once, at the call's line. */
  function ArgDiagnostics(types: map<NodeId, ExpType>, arg: Tree, param: Tree, callLine: int): (ds: seq<Diagnostic>)
    ensures forall i :: 0 <= i < |ds| ==> ds[i].message in CheckMessages
    decreases arg
  {
    if arg.Null? then
      (if param.Node? then [Diagnostic(callLine, MsgArity)] else [])
    else if param.Null? then [Diagnostic(arg.line, MsgArity)]
    else match ArgRule(TypeOf(types, arg), TypeOf(types, param))
      case Some(m) => [Diagnostic(arg.line, m)]
      case None => ArgDiagnostics(types, arg.sibling, param.sibling, callLine)
  }

  /** `return`: checked against the type of the symbol the current function's
      name resolves to (nothing is checked when it resolves to nothing). */
  function CheckReturn(s: State, t: Tree): (r: State)
    requires Good(s) && t.Node?
    ensures r == s.(log := r.log) && Appended(s.log, r.log, CheckMessages)
  {
    var f := if s.funcName.Some? then Lookup(s.scopes, s.stack, s.funcName.value) else None;
    if f.None? then s
    else
      var e := Child(t, 0);
      match ReturnRule(TypeOf(s.types, f.value.decl), if e.Null? then None else Some(TypeOf(s.types, e)))
      case None => s
      case Some(m) => Report(s, t.line, m)
  }

  /** An indexed array use `a[i]`: the name must be declared as an array
      variable or an array parameter, and the index must be `Integer`; the use
      is then `Integer`.  An undeclared name (already reported) is skipped. */
  function CheckVectorId(s: State, t: Tree, name: string): (r: State)
    requires Good(s) && t.Node?
    ensures r == s.(log := r.log, types := r.types) && Appended(s.log, r.log, CheckMessages)
  {
    match Lookup(s.scopes, s.stack, name)
    case None => s
    case Some(sym) =>
      if !(sym.decl.Node? && (sym.decl.kind.VectorVarDecl? || sym.decl.kind.VectorParam?)) then
        Report(s, t.line, MsgExpectedArray)
      else if TypeOf(s.types, Child(t, 0)) != Integer then Report(s, t.line, MsgIndexType)
      else SetType(s, t, Integer)
  }

  /** A call: the callee must be declared and be a function; then its
      arguments are matched against its parameters and the call takes the
      function's declared type. */
  function CheckCall(s: State, t: Tree, name: string): (r: State)
    requires Good(s) && t.Node?
    ensures r == s.(log := r.log, types := r.types) && Appended(s.log, r.log, CheckMessages)
  {
    match Lookup(s.scopes, s.stack, name)
    case None => Report(s, t.line, MsgUndeclaredFunction)
    case Some(f) =>
      if !(f.decl.Node? && f.decl.kind.FuncDecl?) then Report(s, t.line, MsgExpectedFunction)
      else
        var s1 := s.(log := s.log + ArgDiagnostics(s.types, Child(t, 0), Child(f.decl, 1), t.line));
        SetType(s1, t, TypeOf(s.types, f.decl))
  }

  /** `checkNode`: the post-visit of the type-checking pass. */
  function CheckStep(s: State, t: Tree): (r: State)
    requires Good(s) && t.Node?
    ensures Good(r) && r.scopes == s.scopes && r.mainCount == s.mainCount && r.global == s.global
    ensures Appended(s.log, r.log, CheckMessages)
    ensures r.stack == if t.kind.CompoundStmt? && |s.stack| > 0 then s.stack[..|s.stack| - 1] else s.stack
  {
    match t.kind
    case CompoundStmt => PopScope(s)
    case WhileStmt =>
      var c := Child(t, 0);
      if TypeOf(s.types, c) == Void then Report(s, LineOr(c, t.line), MsgVoidWhileTest) else s
    case ReturnStmt => CheckReturn(s, t)
    case AssignExp =>
      var left := Child(t, 0);
      (match AssignRule(TypeOf(s.types, left), TypeOf(s.types, Child(t, 1)))
       case Rejected(m) => Report(s, LineOr(left, t.line), m)
       case Typed(ty) => SetType(s, t, ty))
    case OpExp(op) =>
      (match OpRule(op, TypeOf(s.types, Child(t, 0)), TypeOf(s.types, Child(t, 1)))
       case Rejected(m) => Report(s, t.line, m)
       case Typed(ty) => SetType(s, t, ty))
    case ConstExp(_) => SetType(s, t, Integer)
    case IdExp(name) =>
      (match Lookup(s.scopes, s.stack, name)
       case None => s
       case Some(sym) => SetType(s, t, TypeOf(s.types, sym.decl)))
    case VectorIdExp(name) => CheckVectorId(s, t, name)
    case CallExp(name) => CheckCall(s, t, name)
    case _ => s
  }
}
