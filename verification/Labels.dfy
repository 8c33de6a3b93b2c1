/** Label closure: emitted code defines each label at most once, all from its own counter range, and
    branches only to labels it defines or to those of the enclosing loop. */
module Labels {
  import opened Wrappers
  import opened Types
  import opened Syntax
  import opened Ir
  import opened Typing
  import opened CodeGen

  /** How often the label is defined. */
  function Marks(code: seq<Instr>, l: Label): nat {
    if code == [] then 0 else Marks(code[..|code| - 1], l) + if code[|code| - 1] == Mark(l) then 1 else 0
  }

  predicate IsUse(i: Instr, l: Label) {
    (i.Br? || i.Beqz? || i.Bnez?) && i.target == l
  }

  predicate Uses(code: seq<Instr>, l: Label) {
    exists i | 0 <= i < |code| :: IsUse(code[i], l)
  }

  lemma {:induction false} MarksAppend(a: seq<Instr>, b: seq<Instr>, l: Label)
    ensures Marks(a + b, l) == Marks(a, l) + Marks(b, l)
    decreases |b|
  {
    if b == [] {
      assert a + b == a;
    } else {
      assert (a + b)[..|a + b| - 1] == a + b[..|b| - 1];
      MarksAppend(a, b[..|b| - 1], l);
    }
  }

  lemma MarksOne(i: Instr, l: Label)
    ensures Marks([i], l) == if i == Mark(l) then 1 else 0
  {
    assert Marks([i][..0], l) == 0;
  }

  lemma {:induction false} MarksNone(code: seq<Instr>, l: Label)
    requires Mark(l) !in code
    ensures Marks(code, l) == 0
    decreases |code|
  {
    if code != [] { MarksNone(code[..|code| - 1], l); }
  }

  /** A label defined at most once stands at one place. */
  lemma {:induction false} MarksAt(code: seq<Instr>, l: Label, i: nat)
    requires i < |code| && code[i] == Mark(l)
    ensures Marks(code, l) >= 1
    ensures Marks(code, l) <= 1 ==> forall j | 0 <= j < |code| && code[j] == Mark(l) :: j == i
    decreases |code|
  {
    var a, b := code[..i], code[i + 1..];
    assert code == a + ([Mark(l)] + b);
    MarksAppend(a, [Mark(l)] + b, l);
    MarksAppend([Mark(l)], b, l);
    MarksOne(Mark(l), l);
    if Marks(code, l) <= 1 {
      forall j | 0 <= j < |code| && code[j] == Mark(l) ensures j == i {
        if j < i { MarksAt(a, l, j); }
        if j > i { MarksAt(b, l, j - i - 1); }
      }
    }
  }

  lemma {:induction false} MarksIn(code: seq<Instr>, l: Label) returns (i: nat)
    requires Marks(code, l) >= 1
    ensures i < |code| && code[i] == Mark(l)
    decreases |code|
  {
    if code[|code| - 1] == Mark(l) {
      i := |code| - 1;
    } else {
      i := MarksIn(code[..|code| - 1], l);
    }
  }

  predicate NoFuncs(code: seq<Instr>) {
    forall i | i in code :: !i.Func? && !i.EndFunc?
  }

  // ----- ranges -----

  /** 1 for a ternary label numbered in (n, n'], else 0. */
  function TernaryRange(l: Label, n: nat, n': nat): nat {
    if (l.EndTer? || l.ElseTer?) && n < l.n <= n' then 1 else 0
  }

  /** 1 for a label whose number a visit from counters k to k' may use, else 0. */
  function Range(l: Label, k: Counters, k': Counters): nat {
    if l.BeginLoop? || l.ContinueLoop? || l.BreakLoop? then (if k.loops <= l.n < k'.loops then 1 else 0)
    else if k.labels < l.n <= k'.labels then 1
    else 0
  }

  /** What holds of emitted code for label l: at most m definitions, uses only if defined or external. */
  predicate Tidy(code: seq<Instr>, l: Label, m: nat, external: bool) {
    Marks(code, l) <= m && NoFuncs(code) && (Uses(code, l) ==> Marks(code, l) >= 1 || external)
  }

  lemma TidyAppend(a: seq<Instr>, b: seq<Instr>, l: Label, m: nat, m': nat, x: bool, y: bool)
    requires Tidy(a, l, m, x) && Tidy(b, l, m', y)
    ensures Tidy(a + b, l, m + m', x || y)
    ensures Marks(a + b, l) == Marks(a, l) + Marks(b, l)
  {
    MarksAppend(a, b, l);
    if Uses(a + b, l) {
      var i :| 0 <= i < |a + b| && IsUse((a + b)[i], l);
      if i < |a| { assert IsUse(a[i], l); } else { assert IsUse(b[i - |a|], l); }
    }
  }

  predicate PlainInstr(i: Instr) {
    !i.Func? && !i.EndFunc? && !i.Mark? && !i.Br? && !i.Beqz? && !i.Bnez?
  }

  lemma TidyPlain(code: seq<Instr>, l: Label)
    requires forall i | i in code :: PlainInstr(i)
    ensures Tidy(code, l, 0, false)
  {
    MarksNone(code, l);
    forall i | 0 <= i < |code| ensures !IsUse(code[i], l) {
      assert code[i] in code;
    }
  }

  /** One branch or mark. */
  lemma TidyOne(i: Instr, l: Label)
    requires !i.Func? && !i.EndFunc?
    ensures Tidy([i], l, if i == Mark(l) then 1 else 0, IsUse(i, l))
  {
    MarksOne(i, l);
  }

  /** One plain instruction more changes nothing. */
  lemma TidyThen(a: seq<Instr>, i: Instr, l: Label, m: nat)
    requires Tidy(a, l, m, false) && PlainInstr(i)
    ensures Tidy(a + [i], l, m, false)
  {
    hide Marks, Uses, NoFuncs;
    TidyPlain([i], l);
    TidyAppend(a, [i], l, m, 0, false, false);
  }

  // ----- expressions -----

  lemma {:induction false} ExprTidy(c: Ctx, sc: seq<Scope>, e: Expr, n: nat, l: Label)
    ensures Tidy(ExprCode(c, sc, e, n).instrs, l, TernaryRange(l, n, ExprCode(c, sc, e, n).next), false)
    decreases e, 0
  {
    hide Tidy, TypeOf;
    match e {
      case IntLit(_) => TidyPlain(ExprCode(c, sc, e, n).instrs, l);
      case Ident(_) => TidyPlain(ExprCode(c, sc, e, n).instrs, l);
      case Call(f, args) =>
        var a := ArgsCode(c, sc, args, n);
        ArgsTidy(c, sc, args, n, l);
        TidyThen(a.instrs, CallF(f, if f in c.funcs then |c.funcs[f].paramTypes| else 0), l, TernaryRange(l, n, a.next));
      case Subscript(b, i) => PairTidy(c, sc, e, b, i, SubscriptInstrs(c, sc, b), n, l);
      case Unary(op, e1) =>
        var a := RvalueCode(c, sc, e1, n);
        RvalueTidy(c, sc, e1, n, l);
        TidyThen(a.instrs, UnaryInstr(op), l, TernaryRange(l, n, a.next));
      case Deref(e1) => RvalueTidy(c, sc, e1, n, l);
      case AddrOf(e1) => ExprTidy(c, sc, e1, n, l);
      case Cast(_, e1) => ExprTidy(c, sc, e1, n, l);
      case Binary(op, x, y) => PairTidy(c, sc, e, x, y, BinaryInstr(c, sc, op, x, y), n, l);
      case Ternary(_, _, _) => TernaryTidy(c, sc, e, n, l);
      case Assign(_, _) => AssignTidy(c, sc, e, n, l);
    }
  }

  lemma {:induction false} AssignTidy(c: Ctx, sc: seq<Scope>, e: Expr, n: nat, l: Label)
    requires e.Assign?
    ensures Tidy(ExprCode(c, sc, e, n).instrs, l, TernaryRange(l, n, ExprCode(c, sc, e, n).next), false)
    decreases e, 0, 0
  {
    hide Marks, Uses, NoFuncs, TypeOf, RvalueCode;
    var a := RvalueCode(c, sc, e.rhs, n);
    var b := ExprCode(c, sc, e.lhs, a.next);
    RvalueTidy(c, sc, e.rhs, n, l);
    ExprTidy(c, sc, e.lhs, a.next, l);
    TidyThen(b.instrs, Store, l, TernaryRange(l, a.next, b.next));
    TidyAppend(a.instrs, b.instrs + [Store], l, TernaryRange(l, n, a.next), TernaryRange(l, a.next, b.next), false, false);
  }

  lemma PairTidy(c: Ctx, sc: seq<Scope>, e: Expr, x: Expr, y: Expr, tail: seq<Instr>, n: nat, l: Label)
    requires x < e && y < e && forall i | i in tail :: PlainInstr(i)
    ensures var a := RvalueCode(c, sc, x, n);
            var b := RvalueCode(c, sc, y, a.next);
            Tidy(a.instrs + (b.instrs + tail), l, TernaryRange(l, n, b.next), false)
    decreases e, 0, 0
  {
    hide Marks, Uses, NoFuncs, TypeOf, ExprCode;
    var a := RvalueCode(c, sc, x, n);
    var b := RvalueCode(c, sc, y, a.next);
    RvalueTidy(c, sc, x, n, l);
    RvalueTidy(c, sc, y, a.next, l);
    TidyPlain(tail, l);
    TidyAppend(b.instrs, tail, l, TernaryRange(l, a.next, b.next), 0, false, false);
    TidyAppend(a.instrs, b.instrs + tail, l, TernaryRange(l, n, a.next), TernaryRange(l, a.next, b.next), false, false);
  }

  lemma {:induction false} TernaryTidy(c: Ctx, sc: seq<Scope>, e: Expr, n: nat, l: Label)
    requires e.Ternary?
    ensures Tidy(ExprCode(c, sc, e, n).instrs, l, TernaryRange(l, n, ExprCode(c, sc, e, n).next), false)
    decreases e, 0, 0
  {
    hide Marks, Uses, NoFuncs, TypeOf, RvalueCode;
    var m := n + 1;
    var t := RvalueCode(c, sc, e.cond, m);
    var x := RvalueCode(c, sc, e.thn, t.next);
    var y := RvalueCode(c, sc, e.els, x.next);
    RvalueTidy(c, sc, e.cond, m, l);
    RvalueTidy(c, sc, e.thn, t.next, l);
    RvalueTidy(c, sc, e.els, x.next, l);
    BranchesTidy(Beqz(ElseTer(m)), Br(EndTer(m)), ElseTer(m), EndTer(m), t.instrs, x.instrs, y.instrs, l,
                 TernaryRange(l, m, t.next), TernaryRange(l, t.next, x.next), TernaryRange(l, x.next, y.next), false, false);
  }

  /** Two-way control flow: condition, branch to else, then part, jump to end, else, end. */
  lemma BranchesTidy(i: Instr, j: Instr, els: Label, end: Label, t: seq<Instr>, x: seq<Instr>, y: seq<Instr>, l: Label,
                     mt: nat, mx: nat, my: nat, ex: bool, ey: bool)
    requires i == Beqz(els) && j == Br(end) && els != end
    requires Tidy(t, l, mt, false) && Tidy(x, l, mx, ex) && Tidy(y, l, my, ey)
    ensures var code := t + ([i] + (x + ([j, Mark(els)] + (y + [Mark(end)]))));
            Tidy(code, l, mt + mx + my + if l == els || l == end then 1 else 0, ex || ey)
  {
    hide Marks, Uses, NoFuncs;
    var e1, e2 := if l == els then 1 else 0, if l == end then 1 else 0;
    TidyOne(i, l);
    TidyOne(j, l);
    TidyOne(Mark(els), l);
    TidyOne(Mark(end), l);
    assert [j, Mark(els)] == [j] + [Mark(els)];
    TidyAppend([j], [Mark(els)], l, 0, e1, l == end, false);
    TidyAppend(y, [Mark(end)], l, my, e2, ey, false);
    TidyAppend([j, Mark(els)], y + [Mark(end)], l, e1, my + e2, l == end, ey);
    TidyAppend(x, [j, Mark(els)] + (y + [Mark(end)]), l, mx, e1 + my + e2, ex, l == end || ey);
    var rest := x + ([j, Mark(els)] + (y + [Mark(end)]));
    TidyAppend([i], rest, l, 0, mx + e1 + my + e2, l == els, ex || l == end || ey);
    TidyAppend(t, [i] + rest, l, mt, mx + e1 + my + e2, false, l == els || ex || l == end || ey);
    MarksOne(Mark(els), l);
    MarksOne(Mark(end), l);
  }

  lemma {:induction false} RvalueTidy(c: Ctx, sc: seq<Scope>, e: Expr, n: nat, l: Label)
    ensures Tidy(RvalueCode(c, sc, e, n).instrs, l, TernaryRange(l, n, RvalueCode(c, sc, e, n).next), false)
    decreases e, 1
  {
    hide Marks, Uses, NoFuncs, TypeOf, ExprCode, IsLvalue;
    var a, b := ExprCode(c, sc, e, n), LoadIf(c, sc, e);
    ExprTidy(c, sc, e, n, l);
    TidyPlain(b, l);
    TidyAppend(a.instrs, b, l, TernaryRange(l, n, a.next), 0, false, false);
  }

  lemma {:induction false} ArgsTidy(c: Ctx, sc: seq<Scope>, args: seq<Expr>, n: nat, l: Label)
    ensures Tidy(ArgsCode(c, sc, args, n).instrs, l, TernaryRange(l, n, ArgsCode(c, sc, args, n).next), false)
    decreases args, 0
  {
    hide Marks, Uses, NoFuncs, TypeOf, RvalueCode;
    if args == [] {
      TidyPlain([], l);
    } else {
      var last := |args| - 1;
      var a := RvalueCode(c, sc, args[last], n);
      var b := ArgsCode(c, sc, args[..last], a.next);
      RvalueTidy(c, sc, args[last], n, l);
      ArgsTidy(c, sc, args[..last], a.next, l);
      TidyAppend(a.instrs, b.instrs, l, TernaryRange(l, n, a.next), TernaryRange(l, a.next, b.next), false, false);
    }
  }

  // ----- statements -----

  lemma EffectTidy(c: Ctx, sc: seq<Scope>, e: Option<Expr>, n: nat, l: Label)
    ensures Tidy(EffectCode(c, sc, e, n).instrs, l, TernaryRange(l, n, EffectCode(c, sc, e, n).next), false)
  {
    hide Marks, Uses, NoFuncs, ExprCode;
    if e.None? {
      TidyPlain([], l);
    } else {
      var a := ExprCode(c, sc, e.value, n);
      ExprTidy(c, sc, e.value, n, l);
      TidyPlain([Pop], l);
      TidyAppend(a.instrs, [Pop], l, TernaryRange(l, n, a.next), 0, false, false);
    }
  }

  lemma TestTidy(c: Ctx, sc: seq<Scope>, e: Option<Expr>, exit: Label, n: nat, l: Label)
    ensures Tidy(TestCode(c, sc, e, exit, n).instrs, l, TernaryRange(l, n, TestCode(c, sc, e, exit, n).next), l == exit)
  {
    hide Marks, Uses, NoFuncs, RvalueCode;
    if e.None? {
      TidyPlain([], l);
    } else {
      var a := RvalueCode(c, sc, e.value, n);
      RvalueTidy(c, sc, e.value, n, l);
      TidyOne(Beqz(exit), l);
      TidyAppend(a.instrs, [Beqz(exit)], l, TernaryRange(l, n, a.next), 0, false, l == exit);
    }
  }

  lemma DeclTidy(c: Ctx, env: Env, d: Decl, n: nat, l: Label)
    requires env.scopes != []
    ensures Tidy(DeclCode(c, env, d, n).instrs, l, TernaryRange(l, n, DeclCode(c, env, d, n).next), false)
  {
    hide Marks, Uses, NoFuncs, RvalueCode;
    if d.Var? && d.init.Some? {
      var env' := DeclEnv(env, d);
      var a := RvalueCode(c, env'.scopes, d.init.value, n);
      var b := [FrameAddr(env'.localCntr - 1), Store, Pop];
      RvalueTidy(c, env'.scopes, d.init.value, n, l);
      TidyPlain(b, l);
      TidyAppend(a.instrs, b, l, TernaryRange(l, n, a.next), 0, false, false);
    } else {
      TidyPlain([], l);
    }
  }

  /** A break or continue label of the enclosing loop. */
  predicate OfLoop(loop: Option<nat>, l: Label) {
    loop.Some? && (l == BreakLoop(loop.value) || l == ContinueLoop(loop.value))
  }

  lemma LoopTidy(m: nat, t: seq<Instr>, x: seq<Instr>, q: seq<Instr>, l: Label, mt: nat, mx: nat, mq: nat)
    requires Tidy(t, l, mt, l == BreakLoop(m)) && Tidy(x, l, mx, OfLoop(Some(m), l)) && Tidy(q, l, mq, false)
    ensures Tidy(LoopInstrs(m, t, x, q), l,
                 mt + mx + mq + if l == BeginLoop(m) || OfLoop(Some(m), l) then 1 else 0, false)
  {
    hide Marks, Uses, NoFuncs;
    var eb, ec, ek := if l == BeginLoop(m) then 1 else 0, if l == ContinueLoop(m) then 1 else 0, if l == BreakLoop(m) then 1 else 0;
    TidyOne(Mark(BeginLoop(m)), l);
    TidyOne(Mark(ContinueLoop(m)), l);
    TidyOne(Mark(BreakLoop(m)), l);
    TidyOne(Br(BeginLoop(m)), l);
    var fin := [Br(BeginLoop(m)), Mark(BreakLoop(m))];
    assert fin == [Br(BeginLoop(m))] + [Mark(BreakLoop(m))];
    TidyAppend([Br(BeginLoop(m))], [Mark(BreakLoop(m))], l, 0, ek, l == BeginLoop(m), false);
    TidyAppend(q, fin, l, mq, ek, false, l == BeginLoop(m));
    TidyAppend([Mark(ContinueLoop(m))], q + fin, l, ec, mq + ek, false, l == BeginLoop(m));
    var b := [Mark(ContinueLoop(m))] + (q + fin);
    TidyAppend(x, b, l, mx, ec + mq + ek, OfLoop(Some(m), l), l == BeginLoop(m));
    var ext := l == BeginLoop(m) || OfLoop(Some(m), l);
    TidyAppend(t, x + b, l, mt, mx + ec + mq + ek, l == BreakLoop(m), ext);
    TidyAppend([Mark(BeginLoop(m))], t + (x + b), l, eb, mt + mx + ec + mq + ek, false, ext);
    MarksOne(Mark(BeginLoop(m)), l);
    MarksOne(Mark(ContinueLoop(m)), l);
    MarksOne(Mark(BreakLoop(m)), l);
  }

  lemma DoTidy(m: nat, x: seq<Instr>, t: seq<Instr>, l: Label, mx: nat, mt: nat)
    requires Tidy(x, l, mx, OfLoop(Some(m), l)) && Tidy(t, l, mt, false)
    ensures Tidy(DoInstrs(m, x, t), l, mx + mt + if l == BeginLoop(m) || OfLoop(Some(m), l) then 1 else 0, false)
  {
    hide Marks, Uses, NoFuncs;
    var eb, ec, ek := if l == BeginLoop(m) then 1 else 0, if l == ContinueLoop(m) then 1 else 0, if l == BreakLoop(m) then 1 else 0;
    TidyOne(Mark(BeginLoop(m)), l);
    TidyOne(Mark(ContinueLoop(m)), l);
    TidyOne(Mark(BreakLoop(m)), l);
    TidyOne(Bnez(BeginLoop(m)), l);
    var fin := [Bnez(BeginLoop(m)), Mark(BreakLoop(m))];
    assert fin == [Bnez(BeginLoop(m))] + [Mark(BreakLoop(m))];
    TidyAppend([Bnez(BeginLoop(m))], [Mark(BreakLoop(m))], l, 0, ek, l == BeginLoop(m), false);
    TidyAppend(t, fin, l, mt, ek, false, l == BeginLoop(m));
    TidyAppend([Mark(ContinueLoop(m))], t + fin, l, ec, mt + ek, false, l == BeginLoop(m));
    var b := [Mark(ContinueLoop(m))] + (t + fin);
    TidyAppend(x, b, l, mx, ec + mt + ek, OfLoop(Some(m), l), l == BeginLoop(m));
    TidyAppend([Mark(BeginLoop(m))], x + b, l, eb, mx + ec + mt + ek, false, l == BeginLoop(m) || OfLoop(Some(m), l));
    MarksOne(Mark(BeginLoop(m)), l);
    MarksOne(Mark(ContinueLoop(m)), l);
    MarksOne(Mark(BreakLoop(m)), l);
  }

  lemma {:induction false} StmtTidy(c: Ctx, env: Env, loop: Option<nat>, s: Stmt, k: Counters, l: Label)
    requires env.scopes != []
    ensures Tidy(CodeOf(c, env, loop, s, k).instrs, l, Range(l, k, CodeOf(c, env, loop, s, k).next), OfLoop(loop, l))
    decreases s, 1
  {
    hide Marks, Uses, NoFuncs, EffectCode, TestCode, RvalueCode, LoopInstrs, DoInstrs, LoopCode, DeclCode, DeclEnv;
    match s {
      case Return(e) =>
        var a := RvalueCode(c, env.scopes, e, k.labels);
        RvalueTidy(c, env.scopes, e, k.labels, l);
        TidyThen(a.instrs, Ret, l, TernaryRange(l, k.labels, a.next));
      case ExprStmt(e) => EffectTidy(c, env.scopes, e, k.labels, l);
      case If(_, _, _) => IfTidy(c, env, loop, s, k, l);
      case Block(items) => ItemsTidy(c, OpenScope(env), loop, items, k, l);
      case For(d, pre, test, post, body) =>
        var env1 := OpenScope(env);
        var env2 := if d.Some? then DeclEnv(env1, d.value) else env1;
        var i := if d.Some? then DeclCode(c, env1, d.value, k.labels) else Code([], k.labels);
        if d.Some? { DeclTidy(c, env1, d.value, k.labels, l); } else { TidyPlain([], l); }
        ForTidy(c, env2, pre, test, post, body, i, k, l);
      case While(b, body) => LoopCodeTidy(c, env, Some(b), body, None, k.loops, k.labels, l);
      case DoWhile(body, b) =>
        var m := k.loops;
        var x := CodeOf(c, env, Some(m), body, k.(loops := m + 1));
        var t := RvalueCode(c, env.scopes, b, x.next.labels);
        StmtTidy(c, env, Some(m), body, k.(loops := m + 1), l);
        RvalueTidy(c, env.scopes, b, x.next.labels, l);
        DoTidy(m, x.instrs, t.instrs, l, Range(l, k.(loops := m + 1), x.next), TernaryRange(l, x.next.labels, t.next));
      case Break =>
        if loop.Some? { JumpTidy(loop, BreakLoop(loop.value), l); } else { TidyPlain([], l); }
      case Continue =>
        if loop.Some? { JumpTidy(loop, ContinueLoop(loop.value), l); } else { TidyPlain([], l); }
    }
  }

  lemma JumpTidy(loop: Option<nat>, target: Label, l: Label)
    requires loop.Some? && (target == BreakLoop(loop.value) || target == ContinueLoop(loop.value))
    ensures Tidy([Br(target)], l, 0, OfLoop(loop, l))
  {
    hide Marks, Uses, NoFuncs;
    TidyOne(Br(target), l);
  }

  /** One-way control flow. */
  lemma BranchTidy(m: nat, t: seq<Instr>, x: seq<Instr>, l: Label, mt: nat, mx: nat, ext: bool)
    requires Tidy(t, l, mt, false) && Tidy(x, l, mx, ext)
    ensures Tidy(IfInstrs(m, t, x), l, mt + mx + if l == EndIf(m) then 1 else 0, ext)
  {
    hide Marks, Uses, NoFuncs;
    var e := if l == EndIf(m) then 1 else 0;
    TidyOne(Beqz(EndIf(m)), l);
    TidyOne(Mark(EndIf(m)), l);
    TidyAppend(x, [Mark(EndIf(m))], l, mx, e, ext, false);
    TidyAppend([Beqz(EndIf(m))], x + [Mark(EndIf(m))], l, 0, mx + e, l == EndIf(m), ext);
    TidyAppend(t, [Beqz(EndIf(m))] + (x + [Mark(EndIf(m))]), l, mt, mx + e, false, l == EndIf(m) || ext);
    MarksOne(Mark(EndIf(m)), l);
  }

  lemma IfElseTidy(m: nat, t: seq<Instr>, x: seq<Instr>, y: seq<Instr>, l: Label, mt: nat, mx: nat, my: nat, ext: bool)
    requires Tidy(t, l, mt, false) && Tidy(x, l, mx, ext) && Tidy(y, l, my, ext)
    ensures Tidy(IfElseInstrs(m, t, x, y), l, mt + mx + my + if l == ElseIf(m) || l == EndIf(m) then 1 else 0, ext)
  {
    hide Tidy;
    BranchesTidy(Beqz(ElseIf(m)), Br(EndIf(m)), ElseIf(m), EndIf(m), t, x, y, l, mt, mx, my, ext, ext);
  }

  lemma {:induction false} IfTidy(c: Ctx, env: Env, loop: Option<nat>, s: Stmt, k: Counters, l: Label)
    requires env.scopes != [] && s.If?
    ensures Tidy(CodeOf(c, env, loop, s, k).instrs, l, Range(l, k, CodeOf(c, env, loop, s, k).next), OfLoop(loop, l))
    decreases s, 0
  {
    hide Marks, Uses, NoFuncs, RvalueCode, IfInstrs, IfElseInstrs, CodeOf, StmtEnv;
    IfUnfolds(c, env, loop, s, k);
    var t := RvalueCode(c, env.scopes, s.cond, k.labels + 1);
    var m := t.next;
    var x := CodeOf(c, env, loop, s.thn, k.(labels := m));
    RvalueTidy(c, env.scopes, s.cond, k.labels + 1, l);
    StmtTidy(c, env, loop, s.thn, k.(labels := m), l);
    var mt, mx := TernaryRange(l, k.labels + 1, m), Range(l, k.(labels := m), x.next);
    var ext := OfLoop(loop, l);
    if s.els.Some? {
      var y := CodeOf(c, StmtEnv(env, s.thn), loop, s.els.value, x.next);
      StmtTidy(c, StmtEnv(env, s.thn), loop, s.els.value, x.next, l);
      IfElseTidy(m, t.instrs, x.instrs, y.instrs, l, mt, mx, Range(l, x.next, y.next), ext);
    } else {
      BranchTidy(m, t.instrs, x.instrs, l, mt, mx, ext);
    }
  }

  lemma {:induction false} LoopCodeTidy(c: Ctx, env: Env, test: Option<Expr>, body: Stmt, post: Option<Expr>, m: nat, n: nat, l: Label)
    requires env.scopes != []
    ensures Tidy(LoopCode(c, env, test, body, post, m, n).instrs, l,
                 Range(l, Counters(n, m), LoopCode(c, env, test, body, post, m, n).next), false)
    decreases body, 3
  {
    hide Marks, Uses, NoFuncs, EffectCode, TestCode, LoopInstrs, CodeOf;
    var t := TestCode(c, env.scopes, test, BreakLoop(m), n);
    var x := CodeOf(c, env, Some(m), body, Counters(t.next, m + 1));
    var q := EffectCode(c, env.scopes, post, x.next.labels);
    TestTidy(c, env.scopes, test, BreakLoop(m), n, l);
    StmtTidy(c, env, Some(m), body, Counters(t.next, m + 1), l);
    EffectTidy(c, env.scopes, post, x.next.labels, l);
    LoopTidy(m, t.instrs, x.instrs, q.instrs, l, TernaryRange(l, n, t.next),
             Range(l, Counters(t.next, m + 1), x.next), TernaryRange(l, x.next.labels, q.next));
  }

  lemma {:induction false} ForTidy(c: Ctx, env: Env, pre: Option<Expr>, test: Option<Expr>, post: Option<Expr>, body: Stmt,
                                   i: Code, k: Counters, l: Label)
    requires env.scopes != [] && k.labels <= i.next && Tidy(i.instrs, l, TernaryRange(l, k.labels, i.next), false)
    ensures var p := EffectCode(c, env.scopes, pre, i.next);
            var x := LoopCode(c, env, test, body, post, k.loops, p.next);
            Tidy(i.instrs + (p.instrs + x.instrs), l, Range(l, k, x.next), false)
    decreases body, 4
  {
    hide Marks, Uses, NoFuncs, EffectCode, LoopCode;
    var p := EffectCode(c, env.scopes, pre, i.next);
    var x := LoopCode(c, env, test, body, post, k.loops, p.next);
    EffectTidy(c, env.scopes, pre, i.next, l);
    LoopCodeTidy(c, env, test, body, post, k.loops, p.next, l);
    var mp, mx := TernaryRange(l, i.next, p.next), Range(l, Counters(p.next, k.loops), x.next);
    TidyAppend(p.instrs, x.instrs, l, mp, mx, false, false);
    TidyAppend(i.instrs, p.instrs + x.instrs, l, TernaryRange(l, k.labels, i.next), mp + mx, false, false);
  }

  lemma {:induction false} ItemTidy(c: Ctx, env: Env, loop: Option<nat>, i: Item, k: Counters, l: Label)
    requires env.scopes != []
    ensures Tidy(ItemCode(c, env, loop, i, k).instrs, l, Range(l, k, ItemCode(c, env, loop, i, k).next), OfLoop(loop, l))
    decreases i, 2
  {
    hide Marks, Uses, NoFuncs, CodeOf, DeclCode;
    match i {
      case StmtItem(s) => StmtTidy(c, env, loop, s, k, l);
      case DeclItem(d) => DeclTidy(c, env, d, k.labels, l);
    }
  }

  lemma {:induction false} ItemsTidy(c: Ctx, env: Env, loop: Option<nat>, items: seq<Item>, k: Counters, l: Label)
    requires env.scopes != []
    ensures Tidy(ItemsCode(c, env, loop, items, k).instrs, l, Range(l, k, ItemsCode(c, env, loop, items, k).next), OfLoop(loop, l))
    decreases items, 0
  {
    hide Marks, Uses, NoFuncs, ItemCode, ItemEnv;
    if items == [] {
      TidyPlain([], l);
    } else {
      var a := ItemCode(c, env, loop, items[0], k);
      var b := ItemsCode(c, ItemEnv(env, items[0]), loop, items[1..], a.next);
      ItemTidy(c, env, loop, items[0], k, l);
      ItemsTidy(c, ItemEnv(env, items[0]), loop, items[1..], a.next, l);
      TidyAppend(a.instrs, b.instrs, l, Range(l, k, a.next), Range(l, a.next, b.next), OfLoop(loop, l), OfLoop(loop, l));
    }
  }
}
