/** Evaluation neither adds nor removes variables: the cells that exist are the same before and after, as long
    as none lies below the stack pointer. */
module CellKeys {
  import opened Wrappers
  import opened Words
  import opened Types
  import opened Syntax
  import opened Typing
  import opened CodeGen
  import opened Memory
  import opened Semantics
  import opened StackLayout

  predicate SameCells(mem: Memory, v: Option<Value>) {
    v.Some? ==> v.value.mem.Keys == mem.Keys
  }

  predicate SameCellsDone(mem: Memory, r: Option<Done>) {
    r.Some? ==> r.value.mem.Keys == mem.Keys
  }

  // ----- expressions -----

  lemma {:induction false} EvalKeys(W: World, c: Ctx, sc: seq<Scope>, fp: int, sp: int, mem: Memory, e: Expr, fuel: nat)
    requires KeysClear(mem.Keys, W.lo, sp)
    ensures SameCells(mem, Eval(W, c, sc, fp, sp, mem, e, fuel))
    decreases fuel, e, 1
  {
    hide TypeOf, BinaryMeaning, UnaryMeaning, ElementAddress, Wrap, Numeral;
    match e {
      case IntLit(_) =>
      case Ident(_) =>
      case Call(_, _) => CallKeys(W, c, sc, fp, sp, mem, e, fuel);
      case Subscript(b, i) => PairKeys(W, c, sc, fp, sp, mem, e, b, i, fuel);
      case Unary(_, e1) => RvalueKeys(W, c, sc, fp, sp, mem, e1, fuel);
      case Deref(e1) => RvalueKeys(W, c, sc, fp, sp, mem, e1, fuel);
      case AddrOf(e1) => EvalKeys(W, c, sc, fp, sp, mem, e1, fuel);
      case Cast(_, e1) => EvalKeys(W, c, sc, fp, sp, mem, e1, fuel);
      case Binary(_, l, r) => PairKeys(W, c, sc, fp, sp, mem, e, l, r, fuel);
      case Ternary(b, x, y) =>
        RvalueKeys(W, c, sc, fp, sp, mem, b, fuel);
        var t := Rvalue(W, c, sc, fp, sp, mem, b, fuel);
        if t.Some? { RvalueKeys(W, c, sc, fp, sp, t.value.mem, if t.value.w != 0 then x else y, fuel); }
      case Assign(l, r) =>
        RvalueKeys(W, c, sc, fp, sp, mem, r, fuel);
        var v := Rvalue(W, c, sc, fp, sp, mem, r, fuel);
        if v.Some? { EvalKeys(W, c, sc, fp, sp - 4, v.value.mem, l, fuel); }
    }
  }

  lemma {:induction false} PairKeys(W: World, c: Ctx, sc: seq<Scope>, fp: int, sp: int, mem: Memory, e: Expr, x: Expr, y: Expr, fuel: nat)
    requires KeysClear(mem.Keys, W.lo, sp)
    requires e == Subscript(x, y) || (e.Binary? && e == Binary(e.bop, x, y))
    ensures SameCells(mem, Eval(W, c, sc, fp, sp, mem, e, fuel))
    decreases fuel, e, 0
  {
    hide TypeOf, BinaryMeaning, ElementAddress, Wrap, Rvalue;
    RvalueKeys(W, c, sc, fp, sp, mem, x, fuel);
    var v := Rvalue(W, c, sc, fp, sp, mem, x, fuel);
    if v.Some? { RvalueKeys(W, c, sc, fp, sp - 4, v.value.mem, y, fuel); }
  }

  lemma {:induction false} RvalueKeys(W: World, c: Ctx, sc: seq<Scope>, fp: int, sp: int, mem: Memory, e: Expr, fuel: nat)
    requires KeysClear(mem.Keys, W.lo, sp)
    ensures SameCells(mem, Rvalue(W, c, sc, fp, sp, mem, e, fuel))
    decreases fuel, e, 2
  {
    hide TypeOf, Eval;
    EvalKeys(W, c, sc, fp, sp, mem, e, fuel);
  }

  lemma {:induction false} ArgsKeys(W: World, c: Ctx, sc: seq<Scope>, fp: int, sp: int, mem: Memory, args: seq<Expr>, fuel: nat)
    requires KeysClear(mem.Keys, W.lo, sp)
    ensures var r := EvalArgs(W, c, sc, fp, sp, mem, args, fuel); r.Some? ==> r.value.mem.Keys == mem.Keys
    decreases fuel, args, 0
  {
    hide Rvalue;
    if args != [] {
      var last := |args| - 1;
      RvalueKeys(W, c, sc, fp, sp, mem, args[last], fuel);
      var x := Rvalue(W, c, sc, fp, sp, mem, args[last], fuel);
      if x.Some? { ArgsKeys(W, c, sc, fp, sp - 4, x.value.mem, args[..last], fuel); }
    }
  }

  lemma {:induction false} CallKeys(W: World, c: Ctx, sc: seq<Scope>, fp: int, sp: int, mem: Memory, e: Expr, fuel: nat)
    requires KeysClear(mem.Keys, W.lo, sp) && e.Call?
    ensures SameCells(mem, Eval(W, c, sc, fp, sp, mem, e, fuel))
    decreases fuel, e, 0
  {
    hide Invoke, EvalArgs;
    ArgsKeys(W, c, sc, fp, sp, mem, e.args, fuel);
    var a := EvalArgs(W, c, sc, fp, sp, mem, e.args, fuel);
    if a.Some? && fuel > 0 { InvokeKeys(W, e.name, a.value.ws, sp - 4 * |e.args|, a.value.mem, fuel - 1); }
  }

  /** A call's own cells come and go. */
  lemma {:induction false} InvokeKeys(W: World, f: string, ws: seq<Word>, fp: int, mem: Memory, fuel: nat)
    requires KeysClear(mem.Keys, W.lo, fp + 4 * |ws|)
    ensures SameCells(mem, Invoke(W, f, ws, fp, mem, fuel))
    decreases fuel
  {
    hide ExecItems, EnterFrame, LeaveFrame, FrameSlots;
    if f in W.funcs && |ws| == |W.funcs[f].params| {
      var g := W.funcs[f];
      var sp := fp - 8 - 4 * g.Slots();
      if sp >= W.lo {
        var mem1 := EnterFrame(mem, fp, g.Slots(), ws);
        EnterClear(mem, W.lo, fp, g.Slots(), ws);
        ItemsKeys(W, g.ctx, ParamEnv(g.params), fp, sp, mem1, g.body, fuel);
        var r := ExecItems(W, g.ctx, ParamEnv(g.params), fp, sp, mem1, g.body, fuel);
        if r.Some? { LeaveKeys(mem, r.value.mem, fp, g.Slots(), ws); }
      }
    }
  }

  lemma EnterClear(mem: Memory, lo: int, fp: int, slots: nat, ws: seq<Word>)
    requires KeysClear(mem.Keys, lo, fp + 4 * |ws|) && fp - 8 - 4 * slots >= lo
    ensures KeysClear(EnterFrame(mem, fp, slots, ws).Keys, lo, fp - 8 - 4 * slots)
    ensures forall a | a in mem :: !InFrame(a, fp, slots, |ws|)
  {
  }

  lemma LeaveKeys(mem: Memory, m: Memory, fp: int, slots: nat, ws: seq<Word>)
    requires (forall a | a in mem :: !InFrame(a, fp, slots, |ws|)) && m.Keys == EnterFrame(mem, fp, slots, ws).Keys
    ensures LeaveFrame(m, fp, slots, |ws|).Keys == mem.Keys
  {
  }

  // ----- statements -----

  lemma {:induction false} EffectKeys(W: World, c: Ctx, sc: seq<Scope>, fp: int, sp: int, mem: Memory, e: Option<Expr>, fuel: nat)
    requires KeysClear(mem.Keys, W.lo, sp)
    ensures var m := Effect(W, c, sc, fp, sp, mem, e, fuel); m.Some? ==> m.value.Keys == mem.Keys
    decreases fuel, e, 1
  {
    hide Eval;
    if e.Some? { EvalKeys(W, c, sc, fp, sp, mem, e.value, fuel); }
  }

  lemma {:induction false} TestKeys(W: World, c: Ctx, sc: seq<Scope>, fp: int, sp: int, mem: Memory, e: Option<Expr>, fuel: nat)
    requires KeysClear(mem.Keys, W.lo, sp)
    ensures SameCells(mem, Test(W, c, sc, fp, sp, mem, e, fuel))
    decreases fuel, e, 2
  {
    hide Rvalue;
    if e.Some? { RvalueKeys(W, c, sc, fp, sp, mem, e.value, fuel); }
  }

  lemma {:induction false} DeclareKeys(W: World, c: Ctx, env: Env, fp: int, sp: int, mem: Memory, d: Decl, fuel: nat)
    requires env.scopes != [] && KeysClear(mem.Keys, W.lo, sp)
    ensures var m := Declare(W, c, env, fp, sp, mem, d, fuel); m.Some? ==> m.value.Keys == mem.Keys
    decreases fuel, d, 1
  {
    hide Rvalue, DeclEnv, Wrap;
    if d.Var? && d.init.Some? { RvalueKeys(W, c, DeclEnv(env, d).scopes, fp, sp, mem, d.init.value, fuel); }
  }

  lemma {:induction false} ExecKeys(W: World, c: Ctx, env: Env, fp: int, sp: int, mem: Memory, s: Stmt, fuel: nat)
    requires env.scopes != [] && KeysClear(mem.Keys, W.lo, sp)
    ensures SameCellsDone(mem, Exec(W, c, env, fp, sp, mem, s, fuel))
    decreases fuel, s, 1
  {
    hide Rvalue, Effect, Declare, DeclEnv, StmtEnv, Loop, DoLoop, ExecItems;
    match s {
      case Return(e) => RvalueKeys(W, c, env.scopes, fp, sp, mem, e, fuel);
      case ExprStmt(e) => EffectKeys(W, c, env.scopes, fp, sp, mem, e, fuel);
      case If(b, t, f) =>
        RvalueKeys(W, c, env.scopes, fp, sp, mem, b, fuel);
        var v := Rvalue(W, c, env.scopes, fp, sp, mem, b, fuel);
        if v.Some? {
          ExecKeys(W, c, env, fp, sp, v.value.mem, t, fuel);
          if f.Some? { ExecKeys(W, c, StmtEnv(env, t), fp, sp, v.value.mem, f.value, fuel); }
        }
      case Block(items) => ItemsKeys(W, c, OpenScope(env), fp, sp, mem, items, fuel);
      case For(_, _, _, _, _) => ForKeys(W, c, env, fp, sp, mem, s, fuel);
      case While(b, body) => if fuel > 0 { LoopKeys(W, c, env, fp, sp, mem, Some(b), body, None, fuel - 1); }
      case DoWhile(body, b) => if fuel > 0 { DoLoopKeys(W, c, env, fp, sp, mem, body, b, fuel - 1); }
      case Break =>
      case Continue =>
    }
  }

  lemma {:induction false} ForKeys(W: World, c: Ctx, env: Env, fp: int, sp: int, mem: Memory, s: Stmt, fuel: nat)
    requires env.scopes != [] && KeysClear(mem.Keys, W.lo, sp) && s.For?
    ensures SameCellsDone(mem, Exec(W, c, env, fp, sp, mem, s, fuel))
    decreases fuel, s, 0
  {
    hide Effect, Declare, DeclEnv, Loop;
    var env1 := OpenScope(env);
    var env2 := if s.decl.Some? then DeclEnv(env1, s.decl.value) else env1;
    var m := if s.decl.Some? then Declare(W, c, env1, fp, sp, mem, s.decl.value, fuel) else Some(mem);
    if s.decl.Some? { DeclareKeys(W, c, env1, fp, sp, mem, s.decl.value, fuel); }
    if m.Some? {
      EffectKeys(W, c, env2.scopes, fp, sp, m.value, s.pre, fuel);
      var m' := Effect(W, c, env2.scopes, fp, sp, m.value, s.pre, fuel);
      if m'.Some? && fuel > 0 { LoopKeys(W, c, env2, fp, sp, m'.value, s.test, s.body, s.post, fuel - 1); }
    }
  }

  lemma {:induction false} LoopKeys(W: World, c: Ctx, env: Env, fp: int, sp: int, mem: Memory,
                                    test: Option<Expr>, body: Stmt, post: Option<Expr>, fuel: nat)
    requires env.scopes != [] && KeysClear(mem.Keys, W.lo, sp)
    ensures SameCellsDone(mem, Loop(W, c, env, fp, sp, mem, test, body, post, fuel))
    decreases fuel
  {
    hide Test, Exec, Effect;
    TestKeys(W, c, env.scopes, fp, sp, mem, test, fuel);
    var v := Test(W, c, env.scopes, fp, sp, mem, test, fuel);
    if v.Some? {
      ExecKeys(W, c, env, fp, sp, v.value.mem, body, fuel);
      var r := Exec(W, c, env, fp, sp, v.value.mem, body, fuel);
      if r.Some? {
        EffectKeys(W, c, env.scopes, fp, sp, r.value.mem, post, fuel);
        var m := Effect(W, c, env.scopes, fp, sp, r.value.mem, post, fuel);
        if m.Some? && fuel > 0 { LoopKeys(W, c, env, fp, sp, m.value, test, body, post, fuel - 1); }
      }
    }
  }

  lemma {:induction false} DoLoopKeys(W: World, c: Ctx, env: Env, fp: int, sp: int, mem: Memory, body: Stmt, b: Expr, fuel: nat)
    requires env.scopes != [] && KeysClear(mem.Keys, W.lo, sp)
    ensures SameCellsDone(mem, DoLoop(W, c, env, fp, sp, mem, body, b, fuel))
    decreases fuel
  {
    hide Rvalue, Exec;
    ExecKeys(W, c, env, fp, sp, mem, body, fuel);
    var r := Exec(W, c, env, fp, sp, mem, body, fuel);
    if r.Some? {
      RvalueKeys(W, c, env.scopes, fp, sp, r.value.mem, b, fuel);
      var v := Rvalue(W, c, env.scopes, fp, sp, r.value.mem, b, fuel);
      if v.Some? && fuel > 0 { DoLoopKeys(W, c, env, fp, sp, v.value.mem, body, b, fuel - 1); }
    }
  }

  lemma {:induction false} ItemKeys(W: World, c: Ctx, env: Env, fp: int, sp: int, mem: Memory, i: Item, fuel: nat)
    requires env.scopes != [] && KeysClear(mem.Keys, W.lo, sp)
    ensures SameCellsDone(mem, ExecItem(W, c, env, fp, sp, mem, i, fuel))
    decreases fuel, i, 2
  {
    hide Exec, Declare;
    match i {
      case StmtItem(s) => ExecKeys(W, c, env, fp, sp, mem, s, fuel);
      case DeclItem(d) => DeclareKeys(W, c, env, fp, sp, mem, d, fuel);
    }
  }

  lemma {:induction false} ItemsKeys(W: World, c: Ctx, env: Env, fp: int, sp: int, mem: Memory, items: seq<Item>, fuel: nat)
    requires env.scopes != [] && KeysClear(mem.Keys, W.lo, sp)
    ensures SameCellsDone(mem, ExecItems(W, c, env, fp, sp, mem, items, fuel))
    decreases fuel, items, 0
  {
    hide ExecItem, ItemEnv;
    if items != [] {
      ItemKeys(W, c, env, fp, sp, mem, items[0], fuel);
      var r := ExecItem(W, c, env, fp, sp, mem, items[0], fuel);
      if r.Some? { ItemsKeys(W, c, ItemEnv(env, items[0]), fp, sp, r.value.mem, items[1..], fuel); }
    }
  }
}
