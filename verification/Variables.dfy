/** Local variables of accepted functions: wherever the visit of a body stands, every visible variable has cells of
    its own in the function's frame, and assigning one variable leaves the others as they are. */
module Variables {
  import opened Wrappers
  import opened Words
  import opened Types
  import opened Syntax
  import opened Typing
  import opened CodeGen
  import opened Memory
  import opened Semantics
  import opened StackLayout
  import opened FrameSafety
  import opened IrMachine
  import opened Preservation
  import opened Program
  import opened CellKeys

  // ----- the environments inside a body -----

  /** The environment e is in force somewhere inside the statement, visited from env. */
  predicate InStmt(env: Env, s: Stmt, e: Env)
    requires env.scopes != []
    decreases s, 1
  {
    e == env ||
    match s
    case If(_, t, f) => InStmt(env, t, e) || (f.Some? && InStmt(StmtEnv(env, t), f.value, e))
    case Block(items) => InItems(OpenScope(env), items, e)
    case For(d, _, _, _, body) =>
      var env1 := OpenScope(env);
      var env2 := if d.Some? then DeclEnv(env1, d.value) else env1;
      e == env1 || InStmt(env2, body, e)
    case While(_, body) => InStmt(env, body, e)
    case DoWhile(body, _) => InStmt(env, body, e)
    case _ => false
  }

  predicate InItems(env: Env, items: seq<Item>, e: Env)
    requires env.scopes != []
    decreases items, 0
  {
    e == env || (items != [] && (InItem(env, items[0], e) || InItems(ItemEnv(env, items[0]), items[1..], e)))
  }

  predicate InItem(env: Env, i: Item, e: Env)
    requires env.scopes != []
    decreases i, 2
  {
    match i case StmtItem(s) => InStmt(env, s, e) case DeclItem(_) => false
  }

  /** The scope operations up to an environment inside, and those after it. */
  ghost predicate Passes(env: Env, ops: seq<ScopeOp>, e: Env, rest: seq<ScopeOp>, end: Env)
    requires env.scopes != []
  {
    RunOps(env, ops) == Some(e) && e.scopes != [] && AllFit(ops) && RunOps(e, rest) == Some(end)
  }

  /** More operations before and after. */
  lemma Around(start: Env, before: seq<ScopeOp>, env: Env, ops: seq<ScopeOp>, e: Env, rest: seq<ScopeOp>, end: Env,
               after: seq<ScopeOp>, finish: Env)
    requires start.scopes != [] && env.scopes != [] && end.scopes != []
    requires RunOps(start, before) == Some(env) && AllFit(before) && Passes(env, ops, e, rest, end) && RunOps(end, after) == Some(finish)
    ensures Passes(start, before + ops, e, rest + after, finish)
  {
    RunOpsAppend(start, before, ops);
    RunOpsAppend(e, rest, after);
  }

  lemma OpenIs(env: Env)
    requires env.scopes != []
    ensures RunOps(env, [Open]) == Some(OpenScope(env)) && AllFit([Open])
  {
    assert [Open][1..] == [];
    assert RunOps(OpenScope(env), []) == Some(OpenScope(env));
  }

  lemma CloseIs(env: Env)
    requires |env.scopes| >= 2
    ensures RunOps(env, [Close]) == Some(CloseScope(env))
  {
    assert [Close][1..] == [];
    assert RunOps(CloseScope(env), []) == Some(CloseScope(env));
  }

  lemma {:induction false} ThroughStmt(c: Ctx, env: Env, ret: Type, inLoop: bool, s: Stmt, e: Env) returns (ops: seq<ScopeOp>, rest: seq<ScopeOp>)
    requires env.scopes != [] && StmtOk(c, env, ret, inLoop, s) && StmtFits(s) && InStmt(env, s, e)
    ensures Passes(env, ops, e, rest, StmtEnv(env, s))
    decreases s, 1
  {
    hide Apply, TypeOf, IsInt, DeclOk, DeclEnv, RunOps;
    if e == env {
      ops := [];
      NoOps(env);
      rest := StmtOps(c, env, ret, inLoop, s);
    } else {
      match s {
        case If(_, t, f) => ops, rest := ThroughIf(c, env, ret, inLoop, s, e);
        case Block(items) =>
          var o, r := ThroughItems(c, OpenScope(env), ret, inLoop, items, e);
          ops, rest := [Open] + o, r + [Close];
          OpenIs(env);
          TwoScopes(env, ItemsEnv(OpenScope(env), items));
          CloseIs(ItemsEnv(OpenScope(env), items));
          Around(env, [Open], OpenScope(env), o, e, r, ItemsEnv(OpenScope(env), items), [Close], StmtEnv(env, s));
        case For(_, _, _, _, _) => ops, rest := ThroughFor(c, env, ret, inLoop, s, e);
        case While(_, body) => ops, rest := ThroughStmt(c, env, ret, true, body, e);
        case DoWhile(body, _) => ops, rest := ThroughStmt(c, env, ret, true, body, e);
        case _ =>
          ops, rest := [], [];
          NoOps(env);
      }
    }
  }

  lemma NoOps(env: Env)
    requires env.scopes != []
    ensures RunOps(env, []) == Some(env)
  {
  }

  lemma TwoScopes(env: Env, end: Env)
    requires env.scopes != [] && end.scopes != [] && end.scopes[1..] == OpenScope(env).scopes[1..]
    ensures |end.scopes| >= 2
  {
    assert OpenScope(env).scopes[1..] == env.scopes;
    assert |end.scopes| == 1 + |end.scopes[1..]|;
  }

  lemma {:induction false} ThroughIf(c: Ctx, env: Env, ret: Type, inLoop: bool, s: Stmt, e: Env) returns (ops: seq<ScopeOp>, rest: seq<ScopeOp>)
    requires env.scopes != [] && s.If? && StmtOk(c, env, ret, inLoop, s) && StmtFits(s) && InStmt(env, s, e) && e != env
    ensures Passes(env, ops, e, rest, StmtEnv(env, s))
    decreases s, 0
  {
    hide Apply, TypeOf, IsInt, RunOps;
    var t, f := s.thn, s.els;
    NoOps(env);
    if InStmt(env, t, e) {
      ops, rest := ThroughStmt(c, env, ret, inLoop, t, e);
      if f.Some? {
        var more := StmtOps(c, StmtEnv(env, t), ret, inLoop, f.value);
        Around(env, [], env, ops, e, rest, StmtEnv(env, t), more, StmtEnv(env, s));
        ops, rest := [] + ops, rest + more;
      }
    } else {
      var before := StmtOps(c, env, ret, inLoop, t);
      var o, r := ThroughStmt(c, StmtEnv(env, t), ret, inLoop, f.value, e);
      NoOps(StmtEnv(env, s));
      Around(env, before, StmtEnv(env, t), o, e, r, StmtEnv(env, s), [], StmtEnv(env, s));
      ops, rest := before + o, r + [];
    }
  }

  lemma {:induction false} ThroughFor(c: Ctx, env: Env, ret: Type, inLoop: bool, s: Stmt, e: Env) returns (ops: seq<ScopeOp>, rest: seq<ScopeOp>)
    requires env.scopes != [] && s.For? && StmtOk(c, env, ret, inLoop, s) && StmtFits(s) && InStmt(env, s, e) && e != env
    ensures Passes(env, ops, e, rest, StmtEnv(env, s))
    decreases s, 0
  {
    hide Apply, TypeOf, IsInt, DeclOk, DeclEnv, RunOps, DeclFits;
    ForChecks(c, env, ret, inLoop, s);
    var d := s.decl;
    var env1 := OpenScope(env);
    var env2 := if d.Some? then DeclEnv(env1, d.value) else env1;
    var end := StmtEnv(env2, s.body);
    var head := [];
    NoOps(env1);
    if d.Some? { head := DeclOps(c, env1, d.value); }
    ForScopes(env1, d);
    TwoScopes(env, end);
    CloseIs(end);
    OpenIs(env);
    if e == env1 {
      var inner := StmtOps(c, env2, ret, true, s.body);
      RunOpsAppend(env1, head, inner);
      Around(env, [Open], env1, [], e, head + inner, end, [Close], StmtEnv(env, s));
      ops, rest := [Open] + [], (head + inner) + [Close];
    } else {
      var o, r := ThroughStmt(c, env2, ret, true, s.body, e);
      NoOps(end);
      Around(env1, head, env2, o, e, r, end, [], end);
      Around(env, [Open], env1, head + o, e, r + [], end, [Close], StmtEnv(env, s));
      ops, rest := [Open] + (head + o), (r + []) + [Close];
    }
  }

  lemma {:induction false} ThroughItems(c: Ctx, env: Env, ret: Type, inLoop: bool, items: seq<Item>, e: Env) returns (ops: seq<ScopeOp>, rest: seq<ScopeOp>)
    requires env.scopes != [] && ItemsOk(c, env, ret, inLoop, items) && ItemsFit(items) && InItems(env, items, e)
    ensures Passes(env, ops, e, rest, ItemsEnv(env, items))
    decreases items, 0
  {
    hide Apply, StmtOk, StmtEnv, DeclOk, DeclEnv, StmtFits, InStmt, RunOps;
    NoOps(env);
    if e == env {
      ops := [];
      rest := ItemsOps(c, env, ret, inLoop, items);
    } else if InItem(env, items[0], e) {
      var o, r := ThroughItem(c, env, ret, inLoop, items[0], e);
      var more := ItemsOps(c, ItemEnv(env, items[0]), ret, inLoop, items[1..]);
      Around(env, [], env, o, e, r, ItemEnv(env, items[0]), more, ItemsEnv(env, items));
      ops, rest := [] + o, r + more;
    } else {
      var before := ItemOps(c, env, ret, inLoop, items[0]);
      var o, r := ThroughItems(c, ItemEnv(env, items[0]), ret, inLoop, items[1..], e);
      NoOps(ItemsEnv(env, items));
      Around(env, before, ItemEnv(env, items[0]), o, e, r, ItemsEnv(env, items), [], ItemsEnv(env, items));
      ops, rest := before + o, r + [];
    }
  }

  lemma {:induction false} ThroughItem(c: Ctx, env: Env, ret: Type, inLoop: bool, i: Item, e: Env) returns (ops: seq<ScopeOp>, rest: seq<ScopeOp>)
    requires env.scopes != [] && ItemOk(c, env, ret, inLoop, i) && ItemFits(i) && InItem(env, i, e)
    ensures Passes(env, ops, e, rest, ItemEnv(env, i))
    decreases i, 2
  {
    hide Apply, StmtOk, StmtEnv, StmtFits, InStmt, RunOps;
    ops, rest := ThroughStmt(c, env, ret, inLoop, i.stmt, e);
  }

  // ----- cells of the variables of an accepted function -----

  /** The visitor accepted the body and all its arrays fit. */
  predicate Sound(g: FuncInfo) {
    ItemsOk(g.ctx, ParamEnv(g.params), g.ret, false, g.body) && ItemsFit(g.body)
  }

  /** The variable x of scope i. */
  predicate IsVar(e: Env, i: nat, x: string) {
    i < |e.scopes| && x in e.scopes[i]
  }

  /** Word k of the variable x of scope i in the frame at fp. */
  function VarCell(e: Env, fp: int, i: nat, x: string, k: int): int
    requires IsVar(e, i, x)
  {
    CellOf(fp, e.scopes[i][x], k)
  }

  predicate IsWord(e: Env, i: nat, x: string, k: int) {
    IsVar(e, i, x) && 0 <= k < TrueWords(e.scopes[i][x].typ)
  }

  /** At every point of an accepted body, every word of every variable in scope, shadowed ones included, is a cell
      of the frame that the function is given, none is where ra and fp are saved, and words of different
      variables are different cells. */
  lemma CellsInFrame(g: FuncInfo, e: Env, fp: int, mem: Memory, ws: seq<Word>, i: nat, x: string, k: int, j: nat, y: string, l: int)
    requires Sound(g) && InItems(ParamEnv(g.params), g.body, e) && |ws| == |g.params|
    requires IsWord(e, i, x, k) && IsWord(e, j, y, l)
    ensures var a := VarCell(e, fp, i, x, k);
            && InFrame(a, fp, g.Slots(), |g.params|) && a in EnterFrame(mem, fp, g.Slots(), ws) && a != fp - 4 && a != fp - 8
            && (i != j || x != y ==> a != VarCell(e, fp, j, y, l))
  {
    hide ItemsOk, InItems, RunOps, ItemsEnv, TrueWords;
    var ops, rest := ThroughItems(g.ctx, ParamEnv(g.params), g.ret, false, g.body, e);
    if i <= j {
      FrameSafe(g.params, ops, rest, fp, i, x, k, j, y, l);
    } else {
      FrameSafe(g.params, ops, rest, fp, j, y, l, i, x, k);
      FrameSafe(g.params, ops, rest, fp, i, x, k, i, x, k);
    }
    EnteredCell(mem, fp, g.Slots(), ws, VarCell(e, fp, i, x, k));
  }

  lemma EnteredCell(mem: Memory, fp: int, slots: nat, ws: seq<Word>, a: int)
    requires InFrame(a, fp, slots, |ws|)
    ensures a in EnterFrame(mem, fp, slots, ws)
  {
  }

  // ----- assignment -----

  /** The frame is mapped, its cells exist, and nothing that exists lies below the stack pointer. */
  ghost predicate Active(W: World, g: FuncInfo, fp: int, sp: int, mem: Memory) {
    && 0 <= W.lo <= sp <= fp - 8 - 4 * g.Slots() && fp + 4 * |g.params| <= TWO_32
    && KeysClear(mem.Keys, W.lo, sp) && forall a | InFrame(a, fp, g.Slots(), |g.params|) :: a in mem
  }

  /** The innermost variable of the name. */
  predicate Visible(e: Env, i: nat, x: string) {
    IsVar(e, i, x) && forall h | 0 <= h < i :: x !in e.scopes[h]
  }

  lemma {:induction false} VisibleIsLookup(scopes: seq<Scope>, i: nat, x: string)
    requires i < |scopes| && x in scopes[i] && forall h | 0 <= h < i :: x !in scopes[h]
    ensures Lookup(scopes, x) == Some(scopes[i][x])
    decreases i
  {
    if i > 0 { VisibleIsLookup(scopes[1..], i - 1, x); }
  }

  /** Only the cell of x changed. */
  ghost predicate OnlyChanges(e: Env, fp: int, i: nat, x: string, w: Word, m: Memory, m': Memory)
    requires IsVar(e, i, x)
  {
    && m' == m[VarCell(e, fp, i, x, 0) := Some(w)]
    && forall j, y, l | IsWord(e, j, y, l) && (i != j || x != y) ::
         VarCell(e, fp, j, y, l) in m && VarCell(e, fp, j, y, l) in m' && m'[VarCell(e, fp, j, y, l)] == m[VarCell(e, fp, j, y, l)]
  }

  /** Where a scalar variable lies. */
  lemma ScalarAt(W: World, g: FuncInfo, e: Env, fp: int, sp: int, mem: Memory, i: nat, x: string, fuel: nat)
    requires Sound(g) && InItems(ParamEnv(g.params), g.body, e) && Active(W, g, fp, sp, mem)
    requires Visible(e, i, x) && !e.scopes[i][x].typ.ArrayType? && sp - 4 >= W.lo
    ensures var a := VarCell(e, fp, i, x, 0);
            0 <= a < TWO_32 && a in mem && Eval(W, g.ctx, e.scopes, fp, sp, mem, Ident(x), fuel) == Some(Value(a, mem))
  {
    hide ItemsOk, ItemsFit, InItems, ItemsEnv;
    var ws: seq<Word> := seq(|g.params|, _ => 0);
    CellsInFrame(g, e, fp, mem, ws, i, x, 0, i, x, 0);
    VisibleIsLookup(e.scopes, i, x);
    WrapRange(VarCell(e, fp, i, x, 0));
  }

  lemma Written(g: FuncInfo, e: Env, fp: int, sp: int, W: World, i: nat, x: string, w: Word, m: Memory)
    requires Sound(g) && InItems(ParamEnv(g.params), g.body, e) && Active(W, g, fp, sp, m) && IsWord(e, i, x, 0)
    ensures OnlyChanges(e, fp, i, x, w, m, m[VarCell(e, fp, i, x, 0) := Some(w)])
  {
    hide ItemsOk, ItemsFit, InItems, ItemsEnv, CellOf, TrueWords;
    var ws: seq<Word> := seq(|g.params|, _ => 0);
    forall j, y, l | IsWord(e, j, y, l) && (i != j || x != y)
      ensures VarCell(e, fp, j, y, l) in m && VarCell(e, fp, j, y, l) != VarCell(e, fp, i, x, 0)
    {
      CellsInFrame(g, e, fp, m, ws, i, x, 0, j, y, l);
      CellsInFrame(g, e, fp, m, ws, j, y, l, i, x, 0);
    }
  }

  /** Assigning a visible scalar variable, at any point of an accepted body, is defined whenever the right side is
      and there is stack for two words: it stores the value in the variable's cell, changes no cell of any other
      variable, and the variable then has that value. */
  lemma AssignVariable(W: World, g: FuncInfo, e: Env, fp: int, sp: int, mem: Memory, i: nat, x: string, r: Expr, w: Word, m1: Memory, fuel: nat)
    requires Sound(g) && InItems(ParamEnv(g.params), g.body, e) && Active(W, g, fp, sp, mem)
    requires Visible(e, i, x) && TypeOf(g.ctx, e.scopes, Assign(Ident(x), r)).Some? && sp - 8 >= W.lo
    requires Rvalue(W, g.ctx, e.scopes, fp, sp, mem, r, fuel) == Some(Value(w, m1))
    ensures var m2 := m1[VarCell(e, fp, i, x, 0) := Some(w)];
            && Eval(W, g.ctx, e.scopes, fp, sp, mem, Assign(Ident(x), r), fuel) == Some(Value(w, m2))
            && OnlyChanges(e, fp, i, x, w, m1, m2)
            && Rvalue(W, g.ctx, e.scopes, fp, sp, m2, Ident(x), fuel) == Some(Value(w, m2))
  {
    hide ItemsOk, ItemsFit, InItems, ItemsEnv, VarCell, OnlyChanges;
    VisibleIsLookup(e.scopes, i, x);
    ScalarType(g.ctx, e.scopes, x, r);
    RvalueKeys(W, g.ctx, e.scopes, fp, sp, mem, r, fuel);
    StillActive(W, g, fp, sp, mem, m1);
    LowerStack(W, g, fp, sp, m1);
    ScalarAt(W, g, e, fp, sp - 4, m1, i, x, fuel);
    Written(g, e, fp, sp, W, i, x, w, m1);
    var a := VarCell(e, fp, i, x, 0);
    var m2 := m1[a := Some(w)];
    AssignStores(W, g.ctx, e.scopes, fp, sp, mem, x, r, w, m1, a, fuel);
    assert m2.Keys == m1.Keys;
    StillActive(W, g, fp, sp, m1, m2);
    ScalarAt(W, g, e, fp, sp, m2, i, x, fuel);
    ScalarReads(W, g.ctx, e.scopes, fp, sp, m2, x, a, w, fuel);
  }

  lemma StillActive(W: World, g: FuncInfo, fp: int, sp: int, mem: Memory, m: Memory)
    requires Active(W, g, fp, sp, mem) && m.Keys == mem.Keys
    ensures Active(W, g, fp, sp, m)
  {
    assert forall a :: a in m <==> a in m.Keys;
    assert forall a :: a in mem <==> a in mem.Keys;
  }

  lemma LowerStack(W: World, g: FuncInfo, fp: int, sp: int, mem: Memory)
    requires Active(W, g, fp, sp, mem) && sp - 4 >= W.lo
    ensures Active(W, g, fp, sp - 4, mem)
  {
  }

  lemma ScalarType(c: Ctx, sc: seq<Scope>, x: string, r: Expr)
    requires TypeOf(c, sc, Assign(Ident(x), r)).Some? && Lookup(sc, x).Some?
    ensures !Lookup(sc, x).value.typ.ArrayType? && IsLvalue(c, sc, Ident(x))
  {
    assert TypeOf(c, sc, Ident(x)) == Some(Lookup(sc, x).value.typ);
  }

  lemma AssignStores(W: World, c: Ctx, sc: seq<Scope>, fp: int, sp: int, mem: Memory, x: string, r: Expr, w: Word, m1: Memory, a: Word, fuel: nat)
    requires Rvalue(W, c, sc, fp, sp, mem, r, fuel) == Some(Value(w, m1))
    requires Eval(W, c, sc, fp, sp - 4, m1, Ident(x), fuel) == Some(Value(a, m1)) && a in m1
    ensures Eval(W, c, sc, fp, sp, mem, Assign(Ident(x), r), fuel) == Some(Value(w, m1[a := Some(w)]))
  {
    hide Rvalue, TypeOf;
  }

  lemma ScalarReads(W: World, c: Ctx, sc: seq<Scope>, fp: int, sp: int, m: Memory, x: string, a: Word, w: Word, fuel: nat)
    requires Eval(W, c, sc, fp, sp, m, Ident(x), fuel) == Some(Value(a, m)) && IsLvalue(c, sc, Ident(x)) && a in m && m[a] == Some(w)
    ensures Rvalue(W, c, sc, fp, sp, m, Ident(x), fuel) == Some(Value(w, m))
  {
    hide Eval, TypeOf;
  }

  /** So does an initialised declaration; its cell is that of the new variable. */
  lemma DeclareVariable(W: World, g: FuncInfo, env: Env, fp: int, sp: int, mem: Memory, d: Decl, w: Word, m1: Memory, fuel: nat)
    requires env.scopes != [] && d.Var? && d.init.Some? && Sound(g) && InItems(ParamEnv(g.params), g.body, DeclEnv(env, d))
    requires Active(W, g, fp, sp, mem) && sp - 8 >= W.lo
    requires Rvalue(W, g.ctx, DeclEnv(env, d).scopes, fp, sp, mem, d.init.value, fuel) == Some(Value(w, m1))
    ensures var e := DeclEnv(env, d);
            && IsVar(e, 0, d.name)
            && var m2 := m1[VarCell(e, fp, 0, d.name, 0) := Some(w)];
               Semantics.Declare(W, g.ctx, env, fp, sp, mem, d, fuel) == Some(m2) && OnlyChanges(e, fp, 0, d.name, w, m1, m2)
  {
    hide ItemsOk, ItemsFit, InItems, ItemsEnv, OnlyChanges, Rvalue;
    var e := DeclEnv(env, d);
    RvalueKeys(W, g.ctx, e.scopes, fp, sp, mem, d.init.value, fuel);
    StillActive(W, g, fp, sp, mem, m1);
    var ws: seq<Word> := seq(|g.params|, _ => 0);
    CellsInFrame(g, e, fp, m1, ws, 0, d.name, 0, 0, d.name, 0);
    Written(g, e, fp, sp, W, 0, d.name, w, m1);
    WrapRange(VarCell(e, fp, 0, d.name, 0));
  }

  /** A function starts with its frame active and each parameter holding its argument. */
  lemma ParametersHoldArguments(W: World, g: FuncInfo, fp: int, mem: Memory, ws: seq<Word>, k: nat)
    requires |ws| == |g.params| && k < |ws| && DistinctParams(g.params)
    requires 0 <= W.lo <= fp - 8 - 4 * g.Slots() && fp + 4 * |g.params| <= TWO_32 && KeysClear(mem.Keys, W.lo, fp + 4 * |ws|)
    ensures var m, e, x := EnterFrame(mem, fp, g.Slots(), ws), ParamEnv(g.params), g.params[k].name;
            && Active(W, g, fp, fp - 8 - 4 * g.Slots(), m)
            && IsVar(e, 0, x) && VarCell(e, fp, 0, x, 0) in m && m[VarCell(e, fp, 0, x, 0)] == Some(ws[k])
  {
    hide FrameSlots;
    ParamOffset(g.params, k);
    EnterClear(mem, W.lo, fp, g.Slots(), ws);
    Entered(mem, fp, g.Slots(), ws, k);
  }

  lemma Entered(mem: Memory, fp: int, slots: nat, ws: seq<Word>, k: nat)
    requires k < |ws|
    ensures var m := EnterFrame(mem, fp, slots, ws);
            fp + 4 * k in m && m[fp + 4 * k] == Some(ws[k]) && forall a | InFrame(a, fp, slots, |ws|) :: a in m
  {
    assert (fp + 4 * k - fp) / 4 == k;
  }

  lemma {:induction false} ParamOffset(params: seq<Param>, k: nat)
    requires k < |params| && DistinctParams(params)
    ensures params[k].name in ParamScope(params) && ParamScope(params)[params[k].name].offset == -3 - k
    decreases |params|
  {
    var n := |params| - 1;
    if k < n { ParamOffset(params[..n], k); }
  }

  /** Running statements of the body keeps the frame active. */
  lemma StaysActive(W: World, g: FuncInfo, env: Env, fp: int, sp: int, mem: Memory, s: Stmt, fuel: nat)
    requires env.scopes != [] && Active(W, g, fp, sp, mem)
    ensures var r := Exec(W, g.ctx, env, fp, sp, mem, s, fuel); r.Some? ==> Active(W, g, fp, sp, r.value.mem)
  {
    hide Exec, FrameSlots;
    ExecKeys(W, g.ctx, env, fp, sp, mem, s, fuel);
    var r := Exec(W, g.ctx, env, fp, sp, mem, s, fuel);
    if r.Some? { StillActive(W, g, fp, sp, mem, r.value.mem); }
  }

  // ----- accepted programs -----

  predicate ParamsDistinct(u: Unit) {
    forall f | f in u.defined :: DistinctParams(u.defined[f].params)
  }

  lemma {:induction false} VisitKeepsDistinct(u: Unit, ds: seq<TopDecl>)
    requires ParamsDistinct(u) && VisitTops(u, ds).Some?
    ensures ParamsDistinct(VisitTops(u, ds).value)
    decreases ds
  {
    hide ItemsOk, ItemsCode, DeclareFunc, DistinctParams;
    if ds != [] { VisitKeepsDistinct(VisitTop(u, ds[0]).value, ds[1..]); }
  }

  /** Every function of an accepted program is accepted, with parameters of different names; so the laws above
      hold of it as soon as its arrays fit. */
  lemma CompiledIsSound(ds: seq<TopDecl>, f: string)
    requires Compile(ds).Some? && f in Compile(ds).value.defined
    ensures var g := Compile(ds).value.defined[f]; DistinctParams(g.params) && (ItemsFit(g.body) ==> Sound(g))
  {
    hide VisitTops, ItemsOk, ItemsFit, DistinctParams, ItemsCode;
    CompiledIsLinked(ds, 0, map[]);
    VisitKeepsDistinct(EmptyUnit, ds);
    var u := Compile(ds).value;
    LinkedBody(World(u.defined, 0, map[]), Linkable(u, 0, map[]), f);
  }
}
