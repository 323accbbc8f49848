/**
 * The diagnostics the analyser reports and the per-node typing rules of the
 * type-checking pass (assignment, binary operators, `return`, call
 * arguments), as decision tables over the semantic types.
 */
module Rules {
  import opened Wrappers
  import opened Syntax

  /** One reported error: the line it is reported at and its message. */
  datatype Diagnostic = Diagnostic(line: int, message: string)

  // Messages of the symbol-table construction pass
  const MsgUndeclaredSymbol := "rule 1 - undeclared symbol"
  const MsgUndeclaredFunction := "rule 5 - undeclared function"
  const MsgFunctionRedeclared := "rule 7 - function already declared"
  const MsgVoidVariable := "rule 3 - variable should have non-void type"
  const MsgSymbolRedeclared := "symbol already declared for current scope"
  const MsgFunctionClash := "function already declared with symbol name"
  const MsgVoidParameter := "void type parameter is not allowed"
  const MsgParameterRedeclared := "rule 4 - symbol already declared for current scope"

  // Messages of the type-checking pass
  const MsgVoidWhileTest := "while test has void value"
  const MsgNoReturnValue := "expected no return value"
  const MsgReturnValue := "expected return value"
  const MsgAssignArray := "rule 2 - assignment to array variable"
  const MsgAssignVoid := "rule 2 - assignment of void value"
  const MsgVoidOperand := "rule 2 - two operands should have non-void type"
  const MsgBothArrays := "rule 2 - not both of operands can be array"
  const MsgInvalidOperands := "rule 2 - invalid operands to binary expression"
  const MsgExpectedArray := "rule 2 - expected array symbol"
  const MsgIndexType := "rule 2 - index expression should have integer type"
  const MsgExpectedFunction := "expected function symbol"
  const MsgArity := "the number of parameters is wrong"
  const MsgNonArrayArgument := "expected non-array value"
  const MsgArrayArgument := "expected array value"
  const MsgVoidArgument := "void value cannot be passed as an argument"
  const MsgNoMain := "rule 6 - main function not declared"

  /** Messages the construction pass can report. */
  const ConstructionMessages: set<string> := {
    MsgUndeclaredSymbol, MsgUndeclaredFunction, MsgFunctionRedeclared, MsgVoidVariable,
    MsgSymbolRedeclared, MsgFunctionClash, MsgVoidParameter, MsgParameterRedeclared }

  /** Messages a node visit of the type-checking pass can report; the
      missing-`main` message is not among them. */
  const CheckMessages: set<string> := {
    MsgVoidWhileTest, MsgNoReturnValue, MsgReturnValue, MsgAssignArray, MsgAssignVoid,
    MsgVoidOperand, MsgBothArrays, MsgInvalidOperands, MsgExpectedArray, MsgIndexType,
    MsgUndeclaredFunction, MsgExpectedFunction, MsgArity, MsgNonArrayArgument,
    MsgArrayArgument, MsgVoidArgument }

  /** Outcome of a typing rule: the node gets a type, or an error is reported
      and the node keeps the type it had. */
  datatype Verdict = Typed(ty: ExpType) | Rejected(message: string)

  /** The rule for `left = right`. */
  function AssignRule(left: ExpType, right: ExpType): (v: Verdict)
    ensures v.Rejected? ==> v.message in CheckMessages
  {
    if left == IntegerArray then Rejected(MsgAssignArray)
    else if right == Void then Rejected(MsgAssignVoid)
    else Typed(left)
  }

  /** The rule for `left op right`. */
  function OpRule(op: Op, left: ExpType, right: ExpType): (v: Verdict)
    ensures v.Rejected? ==> v.message in CheckMessages
  {
    if left == Void || right == Void then Rejected(MsgVoidOperand)
    else if left == IntegerArray && right == IntegerArray then Rejected(MsgBothArrays)
    else if op == Minus && left == Integer && right == IntegerArray then Rejected(MsgInvalidOperands)
    else if (op == Times || op == Over) && (left == IntegerArray || right == IntegerArray) then Rejected(MsgInvalidOperands)
    else Typed(Integer)
  }

  /** The rule for `return expr;` in a function of type `funcType`; `expr` is
      `None` for a bare `return;`.  `None` as result means no error. */
  function ReturnRule(funcType: ExpType, expr: Option<ExpType>): (r: Option<string>)
    ensures r.Some? ==> r.value in CheckMessages
  {
    if funcType == Void && expr.Some? && expr.value != Void then Some(MsgNoReturnValue)
    else if funcType == Integer && (expr.None? || expr.value == Void) then Some(MsgReturnValue)
    else None
  }

  /** The rule for passing an argument of type `arg` for a parameter whose
      declaration node has type `param`.  `None` means no error. */
  function ArgRule(arg: ExpType, param: ExpType): (r: Option<string>)
    ensures r.Some? ==> r.value in CheckMessages
  {
    if arg == IntegerArray && param != IntegerArray then Some(MsgNonArrayArgument)
    else if arg == Integer && param == IntegerArray then Some(MsgArrayArgument)
    else if arg == Void then Some(MsgVoidArgument)
    else None
  }

  // ---------------------------------------------------------------------
  // What the rules guarantee

  /** An accepted assignment has its left operand's type, which is never a
      whole array; it is accepted exactly when the left operand is not an
      array and the right one has a value. */
  lemma AssignAccepts(left: ExpType, right: ExpType)
    ensures AssignRule(left, right).Typed? <==> left != IntegerArray && right != Void
    ensures AssignRule(left, right).Typed? ==> AssignRule(left, right).ty == left
    ensures AssignRule(left, right) != Typed(IntegerArray)
    ensures left == IntegerArray ==> AssignRule(left, right) == Rejected(MsgAssignArray)
  {
  }

  /** A binary operation is scalar when accepted, and never accepted on a
      void operand or on two arrays. */
  lemma OpAccepts(op: Op, left: ExpType, right: ExpType)
    ensures OpRule(op, left, right).Typed? ==> OpRule(op, left, right).ty == Integer
    ensures left == Void || right == Void ==> OpRule(op, left, right) == Rejected(MsgVoidOperand)
    ensures left == IntegerArray && right == IntegerArray ==> OpRule(op, left, right).Rejected?
  {
  }

  /** Over the two value types: `*` and `/` accept only two scalars; `-`
      accepts everything but `scalar - array` and `array - array`; every
      other operator accepts everything but `array op array`. */
  lemma OpOnValues(op: Op, left: ExpType, right: ExpType)
    requires left in {Integer, IntegerArray} && right in {Integer, IntegerArray}
    ensures op == Times || op == Over ==>
      (OpRule(op, left, right).Typed? <==> left == Integer && right == Integer)
    ensures op == Minus ==>
      (OpRule(op, left, right).Typed? <==> right == Integer)
    ensures op != Times && op != Over && op != Minus ==>
      (OpRule(op, left, right).Typed? <==> !(left == IntegerArray && right == IntegerArray))
  {
  }

  /** In a `void` function a `return` is accepted exactly when it carries no
      value (none, or a void-typed one); in an `int` function exactly when it
      carries one. */
  lemma ReturnAccepts(funcType: ExpType, expr: Option<ExpType>)
    ensures funcType == Void ==> (ReturnRule(funcType, expr).None? <==> expr.None? || expr.value == Void)
    ensures funcType == Integer ==> (ReturnRule(funcType, expr).None? <==> expr.Some? && expr.value != Void)
    ensures funcType != Void && funcType != Integer ==> ReturnRule(funcType, expr).None?
  {
  }

  /** A void argument is always refused; between the two value types an
      argument is accepted exactly when its shape matches the parameter's. */
  lemma ArgAccepts(arg: ExpType, param: ExpType)
    ensures arg == Void ==> ArgRule(arg, param).Some?
    ensures arg in {Integer, IntegerArray} && param in {Integer, IntegerArray} ==>
      (ArgRule(arg, param).None? <==> arg == param)
  {
  }

  /** An array parameter's declaration node is never typed, so an array
      argument passed to it is refused as a non-array value, while a scalar
      argument passed to it is accepted. */
  lemma ArrayParameterQuirk()
    ensures ArgRule(IntegerArray, Unset) == Some(MsgNonArrayArgument)
    ensures ArgRule(Integer, Unset) == None
  {
  }
}
