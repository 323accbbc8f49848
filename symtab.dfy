/**
 * The scope stack and symbol table the analyser works through (`sc_create`,
 * `sc_push`, `sc_pop`, `sc_top`, `st_insert`, `st_lookup`, `st_lookup_top`,
 * `st_lookup_top_func`, `st_bucket`, `st_add_lineno`), specified by how the
 * analyser uses them rather than by their hash-table storage.
 *
 * Scopes are objects: a scope pushed again in the second pass is the same
 * scope, with every symbol the first pass put in it.  So the model keeps a
 * table of every scope created so far, indexed by `ScopeId`, and a stack of
 * scope ids, innermost last.
 */
module SymbolTable {
  import opened Wrappers
  import opened Syntax

  type ScopeId = nat

  /** One declared identifier: its declaring node, the line of the
      declaration, the storage location issued for it, and the lines of its
      uses in the order they were met. */
  datatype Symbol = Symbol(decl: Tree, line: int, location: nat, uses: seq<int>)

  /** A scope: the name of the function it belongs to (none for the global
      scope) and its map from identifier to symbol. */
  datatype Scope = Scope(name: Option<string>, table: map<string, Symbol>)

  /** Every id on the stack names an existing scope. */
  predicate StackValid(scopes: seq<Scope>, stack: seq<ScopeId>) {
    forall i :: 0 <= i < |stack| ==> stack[i] < |scopes|
  }

  /** Position on the stack of the innermost scope declaring `name`, searching
      from the top of the stack outward. */
  function Find(scopes: seq<Scope>, stack: seq<ScopeId>, name: string): (r: Option<nat>)
    requires StackValid(scopes, stack)
    ensures r.Some? ==> r.value < |stack| && name in scopes[stack[r.value]].table
    ensures r.Some? ==> forall j :: r.value < j < |stack| ==> name !in scopes[stack[j]].table
    ensures r.None? ==> forall j :: 0 <= j < |stack| ==> name !in scopes[stack[j]].table
    decreases |stack|
  {
    if |stack| == 0 then None
    else if name in scopes[stack[|stack| - 1]].table then Some(|stack| - 1)
    else Find(scopes, stack[..|stack| - 1], name)
  }

  /** `st_lookup` / `st_bucket`: the innermost symbol named `name` on the
      whole stack (the source's -1 / NULL is `None`). */
  function Lookup(scopes: seq<Scope>, stack: seq<ScopeId>, name: string): (r: Option<Symbol>)
    requires StackValid(scopes, stack)
    ensures r.None? <==> forall j :: 0 <= j < |stack| ==> name !in scopes[stack[j]].table
    ensures r.Some? ==> exists j :: 0 <= j < |stack| && name in scopes[stack[j]].table && r.value == scopes[stack[j]].table[name]
  {
    match Find(scopes, stack, name)
    case None => None
    case Some(k) => Some(scopes[stack[k]].table[name])
  }

  /** `st_lookup_top`: the symbol named `name` in the innermost scope only. */
  function LookupTop(scopes: seq<Scope>, stack: seq<ScopeId>, name: string): (r: Option<Symbol>)
    requires StackValid(scopes, stack)
    ensures r.Some? <==> |stack| > 0 && name in scopes[stack[|stack| - 1]].table
  {
    if |stack| > 0 && name in scopes[stack[|stack| - 1]].table
    then Some(scopes[stack[|stack| - 1]].table[name])
    else None
  }

  /** `st_lookup_top_func`: like `LookupTop`, but only a function symbol. */
  function LookupTopFunc(scopes: seq<Scope>, stack: seq<ScopeId>, name: string): (r: Option<Symbol>)
    requires StackValid(scopes, stack)
    ensures r.Some? <==> LookupTop(scopes, stack, name).Some? && LookupTop(scopes, stack, name).value.decl.Node? &&
                         LookupTop(scopes, stack, name).value.decl.kind.FuncDecl?
    ensures r.Some? ==> r == LookupTop(scopes, stack, name)
  {
    match LookupTop(scopes, stack, name)
    case Some(sym) => if sym.decl.Node? && sym.decl.kind.FuncDecl? then Some(sym) else None
    case None => None
  }

  /** `st_insert`: binds `name` to `sym` in the innermost scope. */
  function Insert(scopes: seq<Scope>, stack: seq<ScopeId>, name: string, sym: Symbol): (r: seq<Scope>)
    requires StackValid(scopes, stack) && |stack| > 0
    ensures |r| == |scopes| && StackValid(r, stack)
    ensures r[stack[|stack| - 1]].table == scopes[stack[|stack| - 1]].table[name := sym]
    ensures r[stack[|stack| - 1]].name == scopes[stack[|stack| - 1]].name
    ensures forall id :: 0 <= id < |scopes| && id != stack[|stack| - 1] ==> r[id] == scopes[id]
  {
    var top := stack[|stack| - 1];
    scopes[top := scopes[top].(table := scopes[top].table[name := sym])]
  }

  /** `st_add_lineno`: appends `line` to the uses of the innermost symbol
      named `name`; nothing changes when there is none. */
  function AddUse(scopes: seq<Scope>, stack: seq<ScopeId>, name: string, line: int): (r: seq<Scope>)
    requires StackValid(scopes, stack)
    ensures |r| == |scopes| && StackValid(r, stack)
    ensures forall id :: 0 <= id < |scopes| ==> r[id].table.Keys == scopes[id].table.Keys
    ensures forall id :: 0 <= id < |scopes| ==> r[id].name == scopes[id].name
  {
    match Find(scopes, stack, name)
    case None => scopes
    case Some(k) =>
      var id := stack[k];
      var sym := scopes[id].table[name];
      scopes[id := scopes[id].(table := scopes[id].table[name := sym.(uses := sym.uses + [line])])]
  }

  // ---------------------------------------------------------------------
  // Properties of the operations

  /** Lookup reads only the scopes on the stack. */
  lemma {:induction false} FindFrame(scopes: seq<Scope>, scopes': seq<Scope>, stack: seq<ScopeId>, name: string)
    requires StackValid(scopes, stack) && StackValid(scopes', stack)
    requires forall j :: 0 <= j < |stack| ==> scopes[stack[j]] == scopes'[stack[j]]
    ensures Find(scopes, stack, name) == Find(scopes', stack, name)
    ensures Lookup(scopes, stack, name) == Lookup(scopes', stack, name)
    decreases |stack|
  {
    if |stack| > 0 {
      var top := stack[|stack| - 1];
      assert scopes[top] == scopes'[top];
      if name !in scopes[top].table {
        FindFrame(scopes, scopes', stack[..|stack| - 1], name);
      }
    }
  }

  /** Stack position `j` holds a scope declaring `name` and no scope above
      it does. */
  ghost predicate InnermostAt(scopes: seq<Scope>, stack: seq<ScopeId>, name: string, j: int)
    requires StackValid(scopes, stack)
  {
    0 <= j < |stack| && name in scopes[stack[j]].table &&
    forall k :: j < k < |stack| ==> name !in scopes[stack[k]].table
  }

  /** A name is found by `Lookup` exactly when some scope on the stack
      declares it, and then it is the declaration of the innermost such
      scope. */
  lemma LookupInnermost(scopes: seq<Scope>, stack: seq<ScopeId>, name: string)
    requires StackValid(scopes, stack)
    ensures Lookup(scopes, stack, name).Some? <==>
      exists j :: 0 <= j < |stack| && name in scopes[stack[j]].table
    ensures forall j :: InnermostAt(scopes, stack, name, j) ==>
      Lookup(scopes, stack, name) == Some(scopes[stack[j]].table[name])
  {
    var r := Find(scopes, stack, name);
    forall j | InnermostAt(scopes, stack, name, j)
      ensures Lookup(scopes, stack, name) == Some(scopes[stack[j]].table[name])
    {
      assert r.Some? && r.value == j;
    }
  }

  /** Shadowing, inner side: a name just inserted in the innermost scope
      resolves to the new symbol, whatever the outer scopes declare. */
  lemma InsertShadows(scopes: seq<Scope>, stack: seq<ScopeId>, name: string, sym: Symbol)
    requires StackValid(scopes, stack) && |stack| > 0
    ensures Lookup(Insert(scopes, stack, name, sym), stack, name) == Some(sym)
    ensures LookupTop(Insert(scopes, stack, name, sym), stack, name) == Some(sym)
  {
  }

  /** Shadowing, outer side: once the innermost scope is popped, every name
      resolves as it did before anything was inserted into that scope, so an
      inner declaration never changes or hides an outer one.  (The inner
      scope must not also sit lower on the stack.) */
  lemma InsertThenPop(scopes: seq<Scope>, outer: seq<ScopeId>, inner: ScopeId, name: string, sym: Symbol, other: string)
    requires StackValid(scopes, outer) && inner < |scopes| && inner !in outer
    ensures Lookup(Insert(scopes, outer + [inner], name, sym), outer, other) == Lookup(scopes, outer, other)
  {
    var stack := outer + [inner];
    var r := Insert(scopes, stack, name, sym);
    assert stack[|stack| - 1] == inner;
    forall j | 0 <= j < |outer| ensures r[outer[j]] == scopes[outer[j]] {
      assert outer[j] != inner;
      assert stack[j] == outer[j];
    }
    FindFrame(r, scopes, outer, other);
  }

  /** Recording a use resolves the name to the same declaration as before,
      now with the use line appended; other names are unaffected. */
  lemma AddUseResolves(scopes: seq<Scope>, stack: seq<ScopeId>, name: string, line: int, other: string)
    requires StackValid(scopes, stack)
    ensures Lookup(AddUse(scopes, stack, name, line), stack, name) ==
      match Lookup(scopes, stack, name)
      case None => None
      case Some(sym) => Some(sym.(uses := sym.uses + [line]))
    ensures other != name ==> Lookup(AddUse(scopes, stack, name, line), stack, other) == Lookup(scopes, stack, other)
  {
    var r := AddUse(scopes, stack, name, line);
    match Find(scopes, stack, name)
    case None =>
    case Some(k) =>
      FindKeys(scopes, r, stack, name);
      assert Find(r, stack, name) == Some(k);
    if other != name {
      FindKeys(scopes, r, stack, other);
      match Find(scopes, stack, other)
      case None =>
      case Some(k) =>
    }
  }

  /** Find depends only on which names each scope declares. */
  lemma {:induction false} FindKeys(scopes: seq<Scope>, scopes': seq<Scope>, stack: seq<ScopeId>, name: string)
    requires StackValid(scopes, stack) && StackValid(scopes', stack)
    requires forall j :: 0 <= j < |stack| ==> scopes[stack[j]].table.Keys == scopes'[stack[j]].table.Keys
    ensures Find(scopes, stack, name) == Find(scopes', stack, name)
    decreases |stack|
  {
    if |stack| > 0 {
      var top := stack[|stack| - 1];
      assert name in scopes[top].table <==> name in scopes'[top].table;
      if name !in scopes[top].table {
        FindKeys(scopes, scopes', stack[..|stack| - 1], name);
      }
    }
  }
}
