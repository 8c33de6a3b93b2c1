/** The names that accepted code refers to are declared: calls name functions, address instructions globals. */
module References {
  import opened Wrappers
  import opened Types
  import opened Syntax
  import opened Ir
  import opened Typing
  import opened CodeGen
  import opened Program

  predicate RefOk(c: Ctx, i: Instr) {
    (i.CallF? ==> i.name in c.funcs && i.argc == |c.funcs[i.name].paramTypes|) && (i.GlobalAddr? ==> i.name in c.globals)
  }

  predicate RefsOk(c: Ctx, code: seq<Instr>) {
    forall i | i in code :: RefOk(c, i)
  }

  // ----- expressions -----

  lemma {:induction false} ExprRefs(c: Ctx, sc: seq<Scope>, e: Expr, n: nat)
    requires TypeOf(c, sc, e).Some?
    ensures RefsOk(c, ExprCode(c, sc, e, n).instrs)
    decreases e, 0
  {
    hide Numeral, Compare;
    match e {
      case IntLit(_) =>
      case Ident(_) =>
      case Call(f, args) => ArgsRefs(c, sc, args, c.funcs[f].paramTypes, n);
      case Subscript(b, i) => RvalueRefs(c, sc, b, n); RvalueRefs(c, sc, i, RvalueCode(c, sc, b, n).next);
      case Unary(_, e1) => RvalueRefs(c, sc, e1, n);
      case Deref(e1) => RvalueRefs(c, sc, e1, n);
      case AddrOf(e1) => ExprRefs(c, sc, e1, n);
      case Cast(_, e1) => ExprRefs(c, sc, e1, n);
      case Binary(_, l, r) => RvalueRefs(c, sc, l, n); RvalueRefs(c, sc, r, RvalueCode(c, sc, l, n).next);
      case Ternary(b, x, y) =>
        var t := RvalueCode(c, sc, b, n + 1);
        RvalueRefs(c, sc, b, n + 1);
        RvalueRefs(c, sc, x, t.next);
        RvalueRefs(c, sc, y, RvalueCode(c, sc, x, t.next).next);
      case Assign(l, r) => RvalueRefs(c, sc, r, n); ExprRefs(c, sc, l, RvalueCode(c, sc, r, n).next);
    }
  }

  lemma {:induction false} RvalueRefs(c: Ctx, sc: seq<Scope>, e: Expr, n: nat)
    requires TypeOf(c, sc, e).Some?
    ensures RefsOk(c, RvalueCode(c, sc, e, n).instrs)
    decreases e, 1
  {
    hide TypeOf, ExprCode;
    ExprRefs(c, sc, e, n);
  }

  lemma {:induction false} ArgsRefs(c: Ctx, sc: seq<Scope>, args: seq<Expr>, types: seq<Type>, n: nat)
    requires |args| == |types| && ArgsOk(c, sc, args, types)
    ensures RefsOk(c, ArgsCode(c, sc, args, n).instrs)
    decreases args, 0
  {
    hide TypeOf, RvalueCode;
    if args != [] {
      var last := |args| - 1;
      RvalueRefs(c, sc, args[last], n);
      ArgsRefs(c, sc, args[..last], types[..last], RvalueCode(c, sc, args[last], n).next);
    }
  }

  // ----- statements -----

  lemma EffectRefs(c: Ctx, sc: seq<Scope>, e: Option<Expr>, n: nat)
    requires e.Some? ==> TypeOf(c, sc, e.value).Some?
    ensures RefsOk(c, EffectCode(c, sc, e, n).instrs)
  {
    hide TypeOf, ExprCode;
    if e.Some? { ExprRefs(c, sc, e.value, n); }
  }

  lemma TestRefs(c: Ctx, sc: seq<Scope>, e: Option<Expr>, exit: Label, n: nat)
    requires e.Some? ==> IsInt(c, sc, e.value)
    ensures RefsOk(c, TestCode(c, sc, e, exit, n).instrs)
  {
    hide TypeOf, RvalueCode;
    if e.Some? { RvalueRefs(c, sc, e.value, n); }
  }

  lemma DeclRefs(c: Ctx, env: Env, d: Decl, n: nat)
    requires env.scopes != [] && DeclOk(c, env, d)
    ensures RefsOk(c, DeclCode(c, env, d, n).instrs)
  {
    hide TypeOf, RvalueCode, DeclEnv;
    if d.Var? && d.init.Some? { RvalueRefs(c, DeclEnv(env, d).scopes, d.init.value, n); }
  }

  lemma {:induction false} StmtRefs(c: Ctx, env: Env, ret: Type, inLoop: bool, loop: Option<nat>, s: Stmt, k: Counters)
    requires env.scopes != [] && StmtOk(c, env, ret, inLoop, s)
    ensures RefsOk(c, CodeOf(c, env, loop, s, k).instrs)
    decreases s, 1
  {
    hide TypeOf, RvalueCode, EffectCode, DeclCode, DeclEnv, DeclOk, LoopCode;
    match s {
      case Return(e) => RvalueRefs(c, env.scopes, e, k.labels);
      case ExprStmt(e) => EffectRefs(c, env.scopes, e, k.labels);
      case If(_, _, _) => IfRefs(c, env, ret, inLoop, loop, s, k);
      case Block(items) => ItemsRefs(c, OpenScope(env), ret, inLoop, loop, items, k);
      case For(_, _, _, _, _) => ForRefs(c, env, ret, inLoop, loop, s, k);
      case While(b, body) => LoopRefs(c, env, ret, Some(b), body, None, k.loops, k.labels);
      case DoWhile(body, b) =>
        var x := CodeOf(c, env, Some(k.loops), body, k.(loops := k.loops + 1));
        StmtRefs(c, env, ret, true, Some(k.loops), body, k.(loops := k.loops + 1));
        RvalueRefs(c, env.scopes, b, x.next.labels);
      case Break =>
      case Continue =>
    }
  }

  lemma {:induction false} IfRefs(c: Ctx, env: Env, ret: Type, inLoop: bool, loop: Option<nat>, s: Stmt, k: Counters)
    requires env.scopes != [] && s.If? && StmtOk(c, env, ret, inLoop, s)
    ensures RefsOk(c, CodeOf(c, env, loop, s, k).instrs)
    decreases s, 0
  {
    hide TypeOf, RvalueCode, CodeOf, StmtOk;
    IfChecks(c, env, ret, inLoop, s);
    IfUnfolds(c, env, loop, s, k);
    var t := RvalueCode(c, env.scopes, s.cond, k.labels + 1);
    RvalueRefs(c, env.scopes, s.cond, k.labels + 1);
    StmtRefs(c, env, ret, inLoop, loop, s.thn, k.(labels := t.next));
    if s.els.Some? {
      StmtRefs(c, StmtEnv(env, s.thn), ret, inLoop, loop, s.els.value, CodeOf(c, env, loop, s.thn, k.(labels := t.next)).next);
    }
  }

  lemma {:induction false} ForRefs(c: Ctx, env: Env, ret: Type, inLoop: bool, loop: Option<nat>, s: Stmt, k: Counters)
    requires env.scopes != [] && s.For? && StmtOk(c, env, ret, inLoop, s)
    ensures RefsOk(c, CodeOf(c, env, loop, s, k).instrs)
    decreases s, 0
  {
    hide TypeOf, IsInt, EffectCode, DeclCode, DeclEnv, DeclOk, LoopCode, CodeOf, StmtOk;
    ForChecks(c, env, ret, inLoop, s);
    ForUnfolds(c, env, loop, s, k);
    var env1 := OpenScope(env);
    var env2 := if s.decl.Some? then DeclEnv(env1, s.decl.value) else env1;
    var i := if s.decl.Some? then DeclCode(c, env1, s.decl.value, k.labels) else Code([], k.labels);
    if s.decl.Some? { DeclRefs(c, env1, s.decl.value, k.labels); }
    EffectRefs(c, env2.scopes, s.pre, i.next);
    LoopRefs(c, env2, ret, s.test, s.body, s.post, k.loops, EffectCode(c, env2.scopes, s.pre, i.next).next);
  }

  lemma {:induction false} LoopRefs(c: Ctx, env: Env, ret: Type, test: Option<Expr>, body: Stmt, post: Option<Expr>, m: nat, n: nat)
    requires env.scopes != [] && StmtOk(c, env, ret, true, body)
    requires (test.Some? ==> IsInt(c, env.scopes, test.value)) && (post.Some? ==> TypeOf(c, env.scopes, post.value).Some?)
    ensures RefsOk(c, LoopCode(c, env, test, body, post, m, n).instrs)
    decreases body, 3
  {
    hide TypeOf, IsInt, EffectCode, TestCode, CodeOf, StmtOk;
    var t := TestCode(c, env.scopes, test, BreakLoop(m), n);
    var x := CodeOf(c, env, Some(m), body, Counters(t.next, m + 1));
    TestRefs(c, env.scopes, test, BreakLoop(m), n);
    StmtRefs(c, env, ret, true, Some(m), body, Counters(t.next, m + 1));
    EffectRefs(c, env.scopes, post, x.next.labels);
  }

  lemma {:induction false} ItemsRefs(c: Ctx, env: Env, ret: Type, inLoop: bool, loop: Option<nat>, items: seq<Item>, k: Counters)
    requires env.scopes != [] && ItemsOk(c, env, ret, inLoop, items)
    ensures RefsOk(c, ItemsCode(c, env, loop, items, k).instrs)
    decreases items, 0
  {
    hide StmtOk, StmtEnv, DeclOk, DeclEnv, CodeOf, DeclCode, ItemCode, ItemEnv;
    if items != [] {
      ItemRefs(c, env, ret, inLoop, loop, items[0], k);
      ItemsRefs(c, ItemEnv(env, items[0]), ret, inLoop, loop, items[1..], ItemCode(c, env, loop, items[0], k).next);
    }
  }

  lemma {:induction false} ItemRefs(c: Ctx, env: Env, ret: Type, inLoop: bool, loop: Option<nat>, i: Item, k: Counters)
    requires env.scopes != [] && ItemOk(c, env, ret, inLoop, i)
    ensures RefsOk(c, ItemCode(c, env, loop, i, k).instrs)
    decreases i, 2
  {
    hide StmtOk, DeclOk, CodeOf, DeclCode;
    match i {
      case StmtItem(s) => StmtRefs(c, env, ret, inLoop, loop, s, k);
      case DeclItem(d) => DeclRefs(c, env, d, k.labels);
    }
  }

  // ----- programs -----

  lemma MoreDeclared(c: Ctx, c': Ctx, code: seq<Instr>)
    requires RefsOk(c, code) && c.globals.Keys <= c'.globals.Keys
    requires forall f | f in c.funcs :: f in c'.funcs && |c'.funcs[f].paramTypes| == |c.funcs[f].paramTypes|
    ensures RefsOk(c', code)
  {
    forall i | i in code ensures RefOk(c', i) { assert RefOk(c, i); }
  }

  lemma DefineRefs(u: Unit, stars: nat, f: string, params: seq<Param>, body: seq<Item>)
    requires RefsOk(u.ctx, u.code) && DefineFunc(u, stars, f, params, body).Some?
    ensures var u1 := DefineFunc(u, stars, f, params, body).value; RefsOk(u1.ctx, u1.code)
  {
    hide ItemsOk, ItemsCode;
    var c := DeclareFunc(u, f, SignatureOf(stars, params)).value;
    MoreDeclared(u.ctx, c, u.code);
    ItemsRefs(c, ParamEnv(params), Declared(stars), false, None, body, u.counters);
  }

  lemma {:induction false} VisitRefs(u: Unit, ds: seq<TopDecl>)
    requires RefsOk(u.ctx, u.code) && VisitTops(u, ds).Some?
    ensures RefsOk(VisitTops(u, ds).value.ctx, VisitTops(u, ds).value.code)
    decreases ds
  {
    hide DefineFunc, RefsOk;
    if ds != [] {
      var u1 := VisitTop(u, ds[0]).value;
      match ds[0] {
        case FuncDef(stars, f, params, body) => DefineRefs(u, stars, f, params, body);
        case _ => MoreDeclared(u.ctx, u1.ctx, u.code);
      }
      VisitRefs(u1, ds[1..]);
    }
  }

  /** In an accepted program every call names a declared function, with its number of arguments, and every global address a declared global. */
  lemma CompiledRefs(ds: seq<TopDecl>)
    requires Compile(ds).Some?
    ensures RefsOk(Compile(ds).value.ctx, Compile(ds).value.code)
  {
    hide VisitTops;
    VisitRefs(EmptyUnit, ds);
  }
}
