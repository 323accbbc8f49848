# Semantic analysis of the C-minus compiler, in Dafny

This project models the semantic analyser of a small C-minus compiler
(`analyze.c`). The analyser makes two passes over the syntax tree. Both
passes use one generic walker, `traverse`.

- **Symbol-table construction** (`buildSymtab`, with the visitors
  `insertNode` and `afterInsertNode`).
  - It keeps a stack of scopes.
  - Each compound statement opens a scope. A function body instead reuses
    the scope its function declaration opened for the parameters; the
    one-shot flag `preserveLastScope` arranges this.
  - Each compound statement is stamped with its scope.
  - Declarations are inserted, with the source's checks: a void variable,
    a redeclaration in the current scope, a function redeclared (rule 7),
    a void parameter, an array parameter (rule 4).
  - Each use of an identifier or a call must resolve somewhere on the
    stack, and its line is appended to the symbol's list of uses.
  - Every declaration named `main` is counted.
- **Type checking** (`typeCheck`, with the visitors `beforeCheckNode` and
  `checkNode`).
  - It pushes again the scope stamped on each compound statement.
  - It types expressions bottom-up over `Integer`, `IntegerArray` and
    `Void`.
  - It checks assignments, binary operators, array indexing, `while`
    tests, `return` statements and call arguments. Argument matching stops
    at the first mismatch.
  - Finally it reports a missing `main`.

Layout:

- `syntax.dfy` (module `Syntax`): the syntax tree as a datatype, and the
  order in which `traverse` visits it (`Walk`).
- `symtab.dfy` (module `SymbolTable`): scopes and the lookup, insert and
  add-use primitives, specified abstractly.
- `rules.dfy` (module `Rules`): the diagnostic messages, with the source's
  exact wording. Also the decision tables for assignment, binary operators,
  `return` and argument passing.
- `semantics.dfy` (module `Semantics`): one visit of each visitor as a
  function on an analyser `State`.
- `passes.dfy` (module `Passes`): whole walks. `Run` applies a pass's
  visitors, in order, to a sequence of visits. The two pass drivers are
  functions over `Run` of `Walk`. Lemmas state what a walk does to the scope
  stack and to the count of `main` declarations.
- `analyzer.dfy` (module `Analyze`): the class `Analyzer`. Its fields are
  the analyser's module-level state. The four visitors, the walker and the
  two pass drivers are methods on it. Each visitor method is proved to
  change the state exactly as the matching function of `Semantics` says.
  Each walker method is proved to leave the state that `Run` gives for the
  visits it makes. Each driver method is proved to leave the state of the
  matching driver function of `Passes`.
- `properties.dfy` (module `Properties`): what each kind of node does in
  each pass, stated over those functions.
- `wrappers.dfy`: an `Option` type.

How the model represents the source:

- Diagnostics (`symbolError`, `typeError`) are `(line, message)` pairs
  appended to a log.
- The fields the C code writes into nodes (`t->type`, `t->attr.scope`) are
  maps keyed by node id.
- Scopes live in a table and the stack holds indices into it. This is
  needed because the second pass pushes again the very scope objects the
  first pass filled.

## Model

| member | source | states |
|---|---|---|
| Syntax.Walk | analyze.c:24-35 | The walk of a tree is empty exactly when the tree is null. |
| Syntax.CloseAppend | analyze.c:24-35 | Tracking the open nodes over two stretches of visits, one after the other, is tracking them over both together. |
| Syntax.WalkBalanced | analyze.c:24-35 | From any stack of open nodes, the walk of a tree opens each node with its pre-visit and closes it with its own post-visit, innermost first. The stack ends as it started. |
| Syntax.WalkChildrenBalanced | analyze.c:30-31 | The walks of a node's child slots also end with the stack of open nodes as it started. |
| Syntax.WalkNested | analyze.c:24-35 | In a walk, every post-visit closes the most recently opened node that is still open. The walk closes every node it opens. |
| Syntax.WalkTrace | analyze.c:24-35 | A node's own visits followed by the walk of its sibling make up the walk of the node. |
| Syntax.WalkShape | analyze.c:24-35 | A walk of a node starts with its pre-visit. Next come its child slots in index order, then its post-visit, then the walk of its sibling. |
| SymbolTable.Find | analyze.c:127 | Lookup finds the innermost stack position whose scope holds the name. No scope above it holds the name. When there is none, no scope on the stack holds it. |
| SymbolTable.Lookup | analyze.c:127 | A lookup fails exactly when no scope on the stack holds the name. A result is the name's symbol in some scope on the stack. |
| SymbolTable.LookupTopFunc | analyze.c:192 | The function lookup succeeds exactly when the top scope holds the name as a function declaration. It then returns that symbol. |
| SymbolTable.LookupTop | analyze.c:154 | The innermost-scope lookup succeeds exactly when the top scope holds the name. |
| SymbolTable.Insert | analyze.c:159 | Insertion adds the name to the top scope only. Every other scope, and the top scope's name, stay as they were. |
| SymbolTable.AddUse | analyze.c:133 | Recording a use keeps every scope's set of names and every scope's name. |
| SymbolTable.LookupInnermost | analyze.c:127 | A lookup succeeds exactly when some scope on the stack holds the name. It returns that name's symbol from the innermost such scope. |
| SymbolTable.InsertShadows | analyze.c:195 | After an insertion the name resolves to the new symbol, both in the top scope and on the whole stack. |
| SymbolTable.InsertThenPop | analyze.c:223 | Once the scope that received an insertion is popped, every name resolves as it did before the insertion. |
| SymbolTable.AddUseResolves | analyze.c:133 | After a use is recorded, the name resolves to the same symbol with the use's line appended. Every other name resolves as before. |
| Rules.AssignRule | analyze.c:314-323 | The assignment rule refuses only with messages of the checking pass. |
| Rules.AssignAccepts | analyze.c:314-323 | An assignment is accepted exactly when the left side is not an array and the right side is not void. An accepted assignment gets the left side's type, never `IntegerArray`. An array on the left is "assignment to array variable". |
| Rules.OpRule | analyze.c:324-349 | The operator rule refuses only with messages of the checking pass. |
| Rules.OpAccepts | analyze.c:324-349 | An accepted operation is `Integer`. A void operand is the void-operand error. Two array operands are refused. |
| Rules.OpOnValues | analyze.c:335-347 | Over integer and array operands: `*` and `/` accept only two integers; `-` refuses two arrays and integer minus array; the other operators refuse only two arrays. |
| Rules.ReturnRule | analyze.c:298-305 | The return rule refuses only with messages of the checking pass. |
| Rules.ReturnAccepts | analyze.c:298-305 | In a void function, `return` is accepted exactly when it has no expression or a void one. In an integer function, exactly when it has a non-void expression. In any other case it is accepted. |
| Rules.ArgRule | analyze.c:404-411 | The argument rule refuses only with messages of the checking pass. |
| Rules.ArgAccepts | analyze.c:404-411 | A void argument is always refused. Between integers and arrays, an argument is accepted exactly when its kind matches the parameter's. |
| Rules.ArrayParameterQuirk | analyze.c:207-210 | An array parameter is never typed. So an array argument passed to it is refused as "expected non-array value", and an integer argument is accepted. |
| Semantics.TypeOf | util.c:93 | A node's type is what the analyser wrote into it. Otherwise it is `Void` for an expression node or a missing node, and `Unset` for any other node. |
| Semantics.InsertCompound | analyze.c:109-118 | With the flag set, a compound statement clears the flag and creates no scope. Otherwise it creates one empty scope, named after the current function, and pushes it. Either way it is stamped with the top scope. Nothing else changes: not the log, the main count, the types, the current function or the location counter. |
| Semantics.InsertUse | analyze.c:125-143 | A use changes only scope contents and the log. It reports only construction-pass messages and keeps the stack. |
| Semantics.InsertFunc | analyze.c:150-171 | A function declaration counts `main`. It either leaves the stack and the flag alone, or pushes exactly one scope and sets the flag. |
| Semantics.OpenFunc | analyze.c:159-170 | An accepted function declaration pushes exactly one new scope and sets the flag. It reports nothing and leaves the main count and the stamps alone. |
| Semantics.InsertVar | analyze.c:172-197 | A variable declaration changes only scope contents, types, the location counter and the log. It keeps the stack. |
| Semantics.InsertParam | analyze.c:202-212 | A parameter changes only scope contents, types, the location counter and the log. It keeps the stack. |
| Semantics.InsertStep | analyze.c:105-216 | One pre-visit of construction reports only construction messages. It keeps the global scope and grows the main count only for `main`. Only compound statements and function declarations touch the stack or the flag. |
| Semantics.AfterInsertStep | analyze.c:218-232 | The post-visit of construction pops exactly once after a compound statement and otherwise changes nothing. |
| Semantics.BeforeCheckStep | analyze.c:254-276 | A function declaration becomes the current function; no other node changes it. A compound statement pushes exactly its stamped scope; an unstamped one gets one new empty scope. Every other node leaves the stack and the scopes alone. Nothing else changes: not the log, the main count, the types, the stamps or the location counter. |
| Semantics.ArgDiagnostics | analyze.c:399-424 | Argument matching reports only checking-pass messages. |
| Semantics.CheckReturn | analyze.c:293-307 | A `return` changes nothing but the log, and only with checking-pass messages. |
| Semantics.CheckVectorId | analyze.c:353-375 | An indexed use changes only its own type and the log. |
| Semantics.CheckCall | analyze.c:376-428 | A call changes only types and the log. |
| Semantics.CheckStep | analyze.c:281-436 | A post-visit of checking never changes scopes, the main count or the global scope. It pops exactly once after a compound statement, and reports only checking messages. |
| Analyze.Analyzer.constructor | analyze.c:13-15 | The analyser starts with no scopes, no current function, the flag clear and a zero main count. |
| Analyze.Analyzer.ReportError | analyze.c:96-99 | Reporting appends one diagnostic and changes nothing else. |
| Analyze.Analyzer.OpenScope | analyze.c:114-115 | Opening a scope creates an empty one and pushes it. |
| Analyze.Analyzer.CloseScope | analyze.c:223 | Closing pops the top scope and changes nothing else. |
| Analyze.Analyzer.DeclareSymbol | analyze.c:159 | Declaring inserts into the top scope at the next storage location. |
| Analyze.Analyzer.RecordUse | analyze.c:125-143 | The method updates the state exactly as `InsertUse` does. |
| Analyze.Analyzer.DeclareVariable | analyze.c:172-197 | The method updates the state exactly as `InsertVar` does. The function-clash branch is shown unreachable. |
| Analyze.Analyzer.DeclareParameter | analyze.c:202-212 | The method updates the state exactly as `InsertParam` does. |
| Analyze.Analyzer.DeclareFunction | analyze.c:150-171 | The method updates the state exactly as `InsertFunc` does. |
| Analyze.Analyzer.OpenFunction | analyze.c:159-170 | The method updates the state exactly as `OpenFunc` does. |
| Analyze.Analyzer.InsertNode | analyze.c:105-216 | The method updates the state exactly as `InsertStep` does. |
| Analyze.Analyzer.InsertVariable | analyze.c:172-197 | For a variable declaration the method updates the state exactly as `InsertStep` does. |
| Analyze.Analyzer.InsertParameter | analyze.c:202-212 | For a parameter the method updates the state exactly as `InsertStep` does. |
| Analyze.Analyzer.AfterInsertNode | analyze.c:218-232 | The method updates the state exactly as `AfterInsertStep` does. |
| Analyze.Analyzer.EnterCompound | analyze.c:109-118 | The method updates the state exactly as `InsertCompound` does. |
| Analyze.Analyzer.BeforeCheckNode | analyze.c:254-276 | The method updates the state exactly as `BeforeCheckStep` does. |
| Analyze.Analyzer.MatchArguments | analyze.c:399-424 | The argument loop produces exactly the diagnostics of `ArgDiagnostics`: at most one, and none exactly when the arguments match. |
| Analyze.Analyzer.CheckReturnStmt | analyze.c:293-307 | The method updates the state exactly as `CheckReturn` does. |
| Analyze.Analyzer.CheckVectorIdExp | analyze.c:353-375 | The method updates the state exactly as `CheckVectorId` does. |
| Analyze.Analyzer.CheckCallExp | analyze.c:376-428 | The method updates the state exactly as `CheckCall` does, with the arguments matched by the loop. |
| Analyze.Analyzer.CheckNode | analyze.c:281-436 | The method updates the state exactly as `CheckStep` does. |
| Analyze.Analyzer.Traverse | analyze.c:24-35 | The calls made are `Walk(t)`. The state left is `Run` of the pass from the starting state over `Walk(t)`. |
| Analyze.Analyzer.VisitNode | analyze.c:27-32 | The calls made are the node's pre-visit, the walks of its child slots, then its post-visit. The state left is `Run` over those calls. |
| Analyze.Analyzer.PreVisitNode | analyze.c:28 | The pre-visit is recorded. The state left is `Apply` of the pass to it: `insertNode` or `beforeCheckNode`. |
| Analyze.Analyzer.PostVisitNode | analyze.c:32 | The post-visit is recorded. The state left is `Apply` of the pass to it: `afterInsertNode` or `checkNode`. |
| Analyze.Analyzer.TraverseChildren | analyze.c:30-31 | The calls made are the walks of the child slots in index order. The state left is `Run` over those calls. |
| Analyze.Analyzer.TraverseChild | analyze.c:31 | Walking slot `i` extends the calls made, and the `Run` over them, from slots before `i` to slots up to `i`. |
| Analyze.Analyzer.BuildSymtab | analyze.c:237-247 | The state left is `BuildSymtabRun`: global scope created and pushed, construction walk, pop. Hence the global scope is the new one, every `main` is counted, only construction messages are reported, and with compound function bodies the stack ends as it started with the flag clear. |
| Analyze.Analyzer.TypeCheck | analyze.c:441-447 | The state left is `TypeCheckRun`: global scope pushed, checking walk, pop, then the missing-`main` report. Hence the stack and the main count end as they started, and "main function not declared" is reported exactly when no `main` was counted. |
| Passes.Apply | analyze.c:28-32 | One call of the walker applies the pass's visitor: `insertNode`/`afterInsertNode` for construction, `beforeCheckNode`/`checkNode` for checking. It keeps the state well formed. |
| Passes.Run | analyze.c:24-35 | A sequence of calls applies the visitors one after another, in order, and keeps the state well formed. |
| Passes.ApplyKeeps | analyze.c:28-32 | One call keeps the global scope, never removes a scope and only appends diagnostics of its pass. |
| Passes.RunKeeps | analyze.c:24-35 | So does any sequence of calls. |
| Passes.RunSnoc | analyze.c:24-35 | Running calls and then one more call is running them all. |
| Passes.RunAppend | analyze.c:24-35 | Running two stretches of calls one after the other is running them together. |
| Passes.RunWalk | analyze.c:27-33 | Running the walk of a node is running its own calls, then the walk of its sibling. |
| Passes.RunNode | analyze.c:28-32 | Running a node's own calls is its pre-visit, then the walks of its child slots, then its post-visit. |
| Passes.RunChild | analyze.c:30-31 | Running the walks of the first `n` child slots is running the first `n - 1`, then slot `n - 1`. |
| Passes.WalkMains | analyze.c:24-35 | A construction walk adds to the main count the number of `main` declarations in the tree. A checking walk leaves the count alone. |
| Passes.NodeMains | analyze.c:27-32 | The same for one node's own calls: its own `main` plus those in its child slots. |
| Passes.ChildrenMains | analyze.c:30-31 | The same for the walks of the first `n` child slots. |
| Passes.WalkStack | analyze.c:24-35 | A checking walk leaves the stack as it found it. In construction, a tree without functions and compound statements leaves the stack and the flag alone. A tree whose functions all have compound bodies, walked with the flag clear, leaves the stack alone and the flag clear. A function body walked with the flag set pops the scope its declaration pushed and clears the flag. |
| Passes.NodeStack | analyze.c:27-32 | The same guarantees for one node's own calls. |
| Passes.ChildrenStack | analyze.c:30-31 | The same guarantees for the walks of the first `n` child slots. For a function declaration the first two slots keep the stack and the flag, and the third brings the stack back to where the declaration left it, with the flag clear. |
| Passes.BuildSymtabRun | analyze.c:237-247 | `buildSymtab` creates and pushes a new global scope, walks the tree with the construction visitors and pops. The global scope is the new one, every `main` is counted, only construction messages are reported, and over a tree whose functions all have compound bodies the stack ends as it started with the flag clear. |
| Passes.TypeCheckRun | analyze.c:441-447 | `typeCheck` pushes the global scope, walks the tree with the checking visitors, pops, then reports a missing `main`. The stack, the main count and the global scope end as they started, and diagnostics are only appended. |
| Passes.NoMainReported | analyze.c:445-446 | "main function not declared" is among the new diagnostics exactly when no `main` was counted. |
| Properties.VarDeclOrder | analyze.c:172-196 | A void variable is one error and nothing else. Otherwise the node is typed, and a name already in the top scope is one error. Otherwise it is inserted into the top scope only, with nothing reported. |
| Properties.FunctionClashUnreachable | analyze.c:190-195 | "function already declared with symbol name" is never reported. |
| Properties.FuncDeclEffect | analyze.c:150-171 | Every function declaration sets the current function and counts `main`. A rule-7 redeclaration is one error, with no insertion, no push and the flag untouched. Otherwise the function is inserted, a scope named after it is pushed and the flag is set. It is typed `Integer` exactly for an `int` specifier, else `Void`. |
| Properties.UseRecorded | analyze.c:125-143 | An unresolved use is exactly one diagnostic and nothing else. A resolved use reports nothing and keeps every scope's names, and the name then carries the use's line. |
| Properties.ParamRules | analyze.c:202-212 | A parameter whose name is anywhere on the stack is silently not inserted. A new one is inserted: a scalar one is typed `Integer`, an array one is reported under rule 4 and left untyped. A void specifier is reported first at the specifier's line. |
| Properties.ArgDiagnosticsAtMostOne | analyze.c:399-424 | Argument matching reports at most one diagnostic. |
| Properties.ArgsAccepted | analyze.c:399-424 | Argument matching reports nothing exactly when the counts agree and every argument is accepted for the parameter in its position. |
| Properties.AcceptedPrefix | analyze.c:399-424 | The accepted prefix of the argument and parameter lists is no longer than either list. |
| Properties.AcceptedPrefixStops | analyze.c:399-424 | Every pair before the end `k` of the accepted prefix is accepted. The pair at `k`, when both lists reach it, is refused. |
| Properties.ArgDiagnosticsFirst | analyze.c:399-424 | Matching reports what it finds at position `k`, the end of the accepted prefix. That is the refusal of the pair at `k`, at the argument's line. Or an arity error at the line of the first surplus argument. Or an arity error at the call's line when parameters are left over. Nothing when both lists end at `k`. |
| Properties.CallTyping | analyze.c:376-428 | An undeclared callee is one error and the type is untouched. So is a callee that is not a function. A function callee gives the call its declared type, with at most one diagnostic, none exactly when the arguments match. |
| Properties.ReturnChecked | analyze.c:293-307 | Outside a function, or when the function's name resolves to nothing, a `return` changes nothing. In a void function it is accepted exactly when it has no value or a void one; otherwise it is one diagnostic, "expected no return value". In an integer function it is accepted exactly when it has a non-void value; otherwise it is one diagnostic, "expected return value". Any other symbol type accepts every `return`. |
| Properties.VectorIdTyping | analyze.c:356-371 | `a[i]` with `a` undeclared changes nothing. Otherwise it is typed `Integer` exactly when `a` is an array variable or array parameter and the index is `Integer`. Otherwise it is one diagnostic and keeps its type. |
| Properties.ExpressionTyping | analyze.c:314-352 | An assignment or operation either gets a type and reports nothing, or reports one diagnostic and keeps its type. An accepted assignment has the left operand's non-array type. An accepted operation and every constant are `Integer`. |
| Properties.WhileTest | analyze.c:288-292 | A `while` test is refused, with one diagnostic at the test's line, exactly when it is void. |
| Properties.IdTyping | analyze.c:353-373 | A plain identifier takes the type of the declaration it resolves to and reports nothing. |
| Properties.CheckStepAtMostOne | analyze.c:281-436 | Each post-visit of type checking reports at most one diagnostic. |

## Left out

- Listing output is not modelled. This covers the `fprintf` of diagnostics,
  the `TraceAnalyze` symbol-table dump (analyze.c:243-246), and setting the
  global `Error` flag. Diagnostics are a log instead.
- `insertIOFunc` is not modelled. Its only call is commented out
  (analyze.c:240).
- The node constructors of util.c become datatype constructors. Two facts
  carry over:
  - an expression node starts with type `Void` (util.c:93);
  - a declaration or parameter node's type field is never initialised. The
    model gives such a node a fourth type, `Unset`, until the analyser
    writes it. So an array parameter is never `IntegerArray`.
- Running out of memory is not modelled.
- The symbol table and scope primitives live in symtab.c, which is not part
  of this model. They are specified from how analyze.c uses them:
  - lookup searches from the innermost scope outward;
  - lookup-top searches the innermost scope only;
  - lookup-top-func is taken to find only function symbols in the top scope;
  - insert adds to the top scope.
  Their hash-table storage is not modelled. `-1`/`NULL` results are `None`.
- `st_lookup_top_func`, as specified here, only runs after the top scope is
  known not to hold the name. So the "function already declared with symbol
  name" error can never fire; the method keeps that branch as dead code.
- Storage locations (`addLocation`) are a plain counter.
- `sc_pop` on an empty stack is not defined in analyze.c. The model treats
  it as doing nothing.
- A compound statement the first pass never stamped cannot occur after
  `buildSymtab`. In the second pass the model pushes a fresh empty scope for
  it.
- Node identity is a node id. Two syntax nodes that are one C object are
  not modelled.
- Dereferences of a missing node are modelled as defaults:
  - a missing child reads as a `Void` expression;
  - a missing line reads as the parent's line, or 0 for an empty tree.
  In C these would be NULL dereferences.
- Two checks read the node-kind union under a kind the node may not have:
  - the `VectorIdK` check reads two fields of it at once
    (analyze.c:364-365). It is modelled as its evident intent: "the
    declaration is an array variable or an array parameter";
  - the call check compares `funcDecl->kind.decl` with `FuncK`
    (analyze.c:394) whatever the callee's node kind. It is modelled as "the
    callee's declaration node is a function declaration" (`kind.FuncDecl?`).
  The enum numbering that would give the raw union reads their meaning is
  not part of this model.
- `return` is checked against the innermost symbol named like the current
  function, as `st_bucket` finds it. When the name resolves to nothing, no
  check is made.
- More than one `main` is never reported, exactly as in analyze.c. Only a
  second `main` in the same scope is caught, as a rule-7 redeclaration.
- Passes.WalkStack: stack balance in construction is stated only
  for trees whose every function declaration has exactly three child slots
  and a compound body.
