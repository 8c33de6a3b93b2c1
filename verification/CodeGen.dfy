/** The IR that MainVisitor emits, as a function of the tree, its tables and its label counters. */
module CodeGen {
  import opened Wrappers
  import opened Types
  import opened Syntax
  import opened Ir
  import opened Typing

  /** Emitted instructions and the label counter afterwards. */
  datatype Code = Code(instrs: seq<Instr>, next: nat)

  function LoadIf(c: Ctx, sc: seq<Scope>, e: Expr): seq<Instr> {
    if IsLvalue(c, sc, e) then [Load] else []
  }

  function UnaryInstr(op: UnOp): Instr {
    match op
    case Not => Un(NotL)
    case BitNot => Un(NotB)
    case Minus => Un(Neg)
  }

  function BinaryInstr(c: Ctx, sc: seq<Scope>, op: BinOp, l: Expr, r: Expr): seq<Instr> {
    var tl, tr := TypeOf(c, sc, l), TypeOf(c, sc, r);
    if tl.None? || tr.None? then []
    else
      var sel := Select(op, tl.value.AsRvalue(), tr.value.AsRvalue());
      if sel.None? then [] else [Bin(sel.value.0)]
  }

  function SubscriptInstrs(c: Ctx, sc: seq<Scope>, b: Expr): seq<Instr> {
    var t := TypeOf(c, sc, b);
    if t.Some? && t.value.ArrayType? then [Push(ElemWords(t.value.baseType)), Bin(MulI), Bin(AddPI)]
    else [Bin(AddPI)]
  }

  function IdentInstrs(sc: seq<Scope>, x: string): seq<Instr> {
    var s := Lookup(sc, x);
    if s.Some? then [FrameAddr(s.value.offset)] else [GlobalAddr(x)]
  }

  function ExprCode(c: Ctx, sc: seq<Scope>, e: Expr, n: nat): (code: Code)
    ensures n <= code.next
    decreases e, 0
  {
    match e
    case IntLit(text) => Code([Push(Numeral(text))], n)
    case Ident(x) => Code(IdentInstrs(sc, x), n)
    case Call(f, args) =>
      var a := ArgsCode(c, sc, args, n);
      Code(a.instrs + [CallF(f, if f in c.funcs then |c.funcs[f].paramTypes| else 0)], a.next)
    case Subscript(b, i) =>
      var x := RvalueCode(c, sc, b, n);
      var y := RvalueCode(c, sc, i, x.next);
      Code(x.instrs + (y.instrs + SubscriptInstrs(c, sc, b)), y.next)
    case Unary(op, e1) =>
      var x := RvalueCode(c, sc, e1, n);
      Code(x.instrs + [UnaryInstr(op)], x.next)
    case Deref(e1) => RvalueCode(c, sc, e1, n)
    case AddrOf(e1) => ExprCode(c, sc, e1, n)
    case Cast(_, e1) => ExprCode(c, sc, e1, n)
    case Binary(op, l, r) =>
      var x := RvalueCode(c, sc, l, n);
      var y := RvalueCode(c, sc, r, x.next);
      Code(x.instrs + (y.instrs + BinaryInstr(c, sc, op, l, r)), y.next)
    case Ternary(b, e1, e2) =>
      var m := n + 1;
      var t := RvalueCode(c, sc, b, m);
      var x := RvalueCode(c, sc, e1, t.next);
      var y := RvalueCode(c, sc, e2, x.next);
      Code(TernaryInstrs(m, t.instrs, x.instrs, y.instrs), y.next)
    case Assign(l, r) =>
      var x := RvalueCode(c, sc, r, n);
      var y := ExprCode(c, sc, l, x.next);
      Code(x.instrs + (y.instrs + [Store]), y.next)
  }

  function TernaryInstrs(m: nat, t: seq<Instr>, x: seq<Instr>, y: seq<Instr>): seq<Instr> {
    t + ([Beqz(ElseTer(m))] + (x + ([Br(EndTer(m)), Mark(ElseTer(m))] + (y + [Mark(EndTer(m))]))))
  }

  /** An expression whose value is needed: an l-value is followed by a load. */
  function RvalueCode(c: Ctx, sc: seq<Scope>, e: Expr, n: nat): (code: Code)
    ensures n <= code.next
    decreases e, 1
  {
    var x := ExprCode(c, sc, e, n);
    Code(x.instrs + LoadIf(c, sc, e), x.next)
  }

  /** Arguments are evaluated from the last to the first. */
  function ArgsCode(c: Ctx, sc: seq<Scope>, args: seq<Expr>, n: nat): (code: Code)
    ensures n <= code.next
    decreases args, 0
  {
    if args == [] then Code([], n)
    else
      var last := |args| - 1;
      var x := RvalueCode(c, sc, args[last], n);
      var y := ArgsCode(c, sc, args[..last], x.next);
      Code(x.instrs + y.instrs, y.next)
  }

  // ----- statements -----

  /** labelCntr and loopCntr. */
  datatype Counters = Counters(labels: nat, loops: nat)

  datatype StmtCode = StmtCode(instrs: seq<Instr>, next: Counters)

  /** An expression used for its effect: its word is popped without a load. */
  function EffectCode(c: Ctx, sc: seq<Scope>, e: Option<Expr>, n: nat): (code: Code)
    ensures n <= code.next
  {
    if e.None? then Code([], n)
    else
      var x := ExprCode(c, sc, e.value, n);
      Code(x.instrs + [Pop], x.next)
  }

  function TestCode(c: Ctx, sc: seq<Scope>, e: Option<Expr>, exit: Label, n: nat): (code: Code)
    ensures n <= code.next
  {
    if e.None? then Code([], n)
    else
      var x := RvalueCode(c, sc, e.value, n);
      Code(x.instrs + [Beqz(exit)], x.next)
  }

  function DeclCode(c: Ctx, env: Env, d: Decl, n: nat): (code: Code)
    requires env.scopes != []
    ensures n <= code.next
  {
    match d
    case Arr(_, _, _) => Code([], n)
    case Var(_, _, None) => Code([], n)
    case Var(_, _, Some(e)) =>
      var env' := DeclEnv(env, d);
      var x := RvalueCode(c, env'.scopes, e, n);
      Code(x.instrs + [FrameAddr(env'.localCntr - 1), Store, Pop], x.next)
  }

  function IfInstrs(m: nat, t: seq<Instr>, x: seq<Instr>): seq<Instr> {
    t + ([Beqz(EndIf(m))] + (x + [Mark(EndIf(m))]))
  }

  function IfElseInstrs(m: nat, t: seq<Instr>, x: seq<Instr>, y: seq<Instr>): seq<Instr> {
    t + ([Beqz(ElseIf(m))] + (x + ([Br(EndIf(m)), Mark(ElseIf(m))] + (y + [Mark(EndIf(m))]))))
  }

  /** for and while: test at the top, post after the continue label. */
  function LoopInstrs(m: nat, t: seq<Instr>, x: seq<Instr>, p: seq<Instr>): seq<Instr> {
    [Mark(BeginLoop(m))] + (t + (x + ([Mark(ContinueLoop(m))] + (p + [Br(BeginLoop(m)), Mark(BreakLoop(m))]))))
  }

  function DoInstrs(m: nat, x: seq<Instr>, t: seq<Instr>): seq<Instr> {
    [Mark(BeginLoop(m))] + (x + ([Mark(ContinueLoop(m))] + (t + [Bnez(BeginLoop(m)), Mark(BreakLoop(m))])))
  }

  /** The code of a statement; loop is the number on top of loopStack. */
  function CodeOf(c: Ctx, env: Env, loop: Option<nat>, s: Stmt, k: Counters): (code: StmtCode)
    requires env.scopes != []
    ensures k.labels <= code.next.labels && k.loops <= code.next.loops
    decreases s, 1
  {
    match s
    case Return(e) =>
      var x := RvalueCode(c, env.scopes, e, k.labels);
      StmtCode(x.instrs + [Ret], k.(labels := x.next))
    case ExprStmt(e) =>
      var x := EffectCode(c, env.scopes, e, k.labels);
      StmtCode(x.instrs, k.(labels := x.next))
    case If(b, t, f) =>
      var x := RvalueCode(c, env.scopes, b, k.labels + 1);
      var y := CodeOf(c, env, loop, t, k.(labels := x.next));
      if f.None? then StmtCode(IfInstrs(x.next, x.instrs, y.instrs), y.next)
      else
        var z := CodeOf(c, StmtEnv(env, t), loop, f.value, y.next);
        StmtCode(IfElseInstrs(x.next, x.instrs, y.instrs, z.instrs), z.next)
    case Block(items) => ItemsCode(c, OpenScope(env), loop, items, k)
    case For(d, pre, test, post, body) =>
      var m := k.loops;
      var env1 := OpenScope(env);
      var env2 := if d.Some? then DeclEnv(env1, d.value) else env1;
      var i := if d.Some? then DeclCode(c, env1, d.value, k.labels) else Code([], k.labels);
      var p := EffectCode(c, env2.scopes, pre, i.next);
      var x := LoopCode(c, env2, test, body, post, m, p.next);
      StmtCode(i.instrs + (p.instrs + x.instrs), x.next)
    case While(b, body) => LoopCode(c, env, Some(b), body, None, k.loops, k.labels)
    case DoWhile(body, b) =>
      var m := k.loops;
      var x := CodeOf(c, env, Some(m), body, k.(loops := m + 1));
      var t := RvalueCode(c, env.scopes, b, x.next.labels);
      StmtCode(DoInstrs(m, x.instrs, t.instrs), x.next.(labels := t.next))
    case Break => StmtCode(if loop.None? then [] else [Br(BreakLoop(loop.value))], k)
    case Continue => StmtCode(if loop.None? then [] else [Br(ContinueLoop(loop.value))], k)
  }

  /** Loop number m with an optional test and step: while is a for with neither step nor scope. */
  function LoopCode(c: Ctx, env: Env, test: Option<Expr>, body: Stmt, post: Option<Expr>, m: nat, n: nat): (code: StmtCode)
    requires env.scopes != []
    ensures n <= code.next.labels && m < code.next.loops
    decreases body, 3
  {
    var t := TestCode(c, env.scopes, test, BreakLoop(m), n);
    var x := CodeOf(c, env, Some(m), body, Counters(t.next, m + 1));
    var q := EffectCode(c, env.scopes, post, x.next.labels);
    StmtCode(LoopInstrs(m, t.instrs, x.instrs, q.instrs), x.next.(labels := q.next))
  }

  function ItemCode(c: Ctx, env: Env, loop: Option<nat>, i: Item, k: Counters): (code: StmtCode)
    requires env.scopes != []
    ensures k.labels <= code.next.labels && k.loops <= code.next.loops
    decreases i, 2
  {
    match i
    case StmtItem(s) => CodeOf(c, env, loop, s, k)
    case DeclItem(d) =>
      var x := DeclCode(c, env, d, k.labels);
      StmtCode(x.instrs, k.(labels := x.next))
  }

  function ItemsCode(c: Ctx, env: Env, loop: Option<nat>, items: seq<Item>, k: Counters): (code: StmtCode)
    requires env.scopes != []
    ensures k.labels <= code.next.labels && k.loops <= code.next.loops
    decreases items, 0
  {
    if items == [] then StmtCode([], k)
    else
      var x := ItemCode(c, env, loop, items[0], k);
      var y := ItemsCode(c, ItemEnv(env, items[0]), loop, items[1..], x.next);
      StmtCode(x.instrs + y.instrs, y.next)
  }

  lemma TernaryUnfolds(c: Ctx, sc: seq<Scope>, e: Expr, n: nat)
    requires e.Ternary?
    ensures var t := RvalueCode(c, sc, e.cond, n + 1);
            var x := RvalueCode(c, sc, e.thn, t.next);
            var y := RvalueCode(c, sc, e.els, x.next);
            ExprCode(c, sc, e, n) == Code(TernaryInstrs(n + 1, t.instrs, x.instrs, y.instrs), y.next)
    ensures var tb, tx, ty := TypeOf(c, sc, e.cond), TypeOf(c, sc, e.thn), TypeOf(c, sc, e.els);
            TypeOf(c, sc, e)
            == if tb.Some? && tb.value.IntType? && tx.Some? && ty.Some? && tx.value.AsRvalue().Equals(ty.value.AsRvalue())
               then Some(tx.value.AsRvalue()) else None
  {
    hide RvalueCode, TernaryInstrs;
  }

  lemma IfUnfolds(c: Ctx, env: Env, loop: Option<nat>, s: Stmt, k: Counters)
    requires env.scopes != [] && s.If?
    ensures var t := RvalueCode(c, env.scopes, s.cond, k.labels + 1);
            var x := CodeOf(c, env, loop, s.thn, k.(labels := t.next));
            CodeOf(c, env, loop, s, k) ==
              if s.els.None? then StmtCode(IfInstrs(t.next, t.instrs, x.instrs), x.next)
              else
                var y := CodeOf(c, StmtEnv(env, s.thn), loop, s.els.value, x.next);
                StmtCode(IfElseInstrs(t.next, t.instrs, x.instrs, y.instrs), y.next)
  {
    hide RvalueCode, IfInstrs, IfElseInstrs, StmtEnv;
  }

  lemma ForUnfolds(c: Ctx, env: Env, loop: Option<nat>, s: Stmt, k: Counters)
    requires env.scopes != [] && s.For?
    ensures var env1 := OpenScope(env);
            var env2 := if s.decl.Some? then DeclEnv(env1, s.decl.value) else env1;
            var i := if s.decl.Some? then DeclCode(c, env1, s.decl.value, k.labels) else Code([], k.labels);
            var p := EffectCode(c, env2.scopes, s.pre, i.next);
            var x := LoopCode(c, env2, s.test, s.body, s.post, k.loops, p.next);
            CodeOf(c, env, loop, s, k) == StmtCode(i.instrs + (p.instrs + x.instrs), x.next)
  {
    hide EffectCode, LoopCode, DeclCode, DeclEnv;
  }

  lemma DoUnfolds(c: Ctx, env: Env, loop: Option<nat>, s: Stmt, k: Counters)
    requires env.scopes != [] && s.DoWhile?
    ensures var m := k.loops;
            var x := CodeOf(c, env, Some(m), s.body, k.(loops := m + 1));
            var t := RvalueCode(c, env.scopes, s.cond, x.next.labels);
            CodeOf(c, env, loop, s, k) == StmtCode(DoInstrs(m, x.instrs, t.instrs), x.next.(labels := t.next))
  {
    hide RvalueCode, DoInstrs;
  }

  // ----- the same code as a buffer receives it, piece by piece -----

  lemma InThree(b: seq<Instr>, x: seq<Instr>, y: seq<Instr>, z: seq<Instr>)
    ensures b + (x + (y + z)) == b + x + y + z
  {
  }

  lemma TernaryInOrder(b: seq<Instr>, m: nat, t: seq<Instr>, x: seq<Instr>, y: seq<Instr>)
    ensures b + TernaryInstrs(m, t, x, y)
            == b + t + [Beqz(ElseTer(m))] + x + [Br(EndTer(m)), Mark(ElseTer(m))] + y + [Mark(EndTer(m))]
  {
  }

  lemma IfInOrder(b: seq<Instr>, m: nat, t: seq<Instr>, x: seq<Instr>)
    ensures b + IfInstrs(m, t, x) == b + t + [Beqz(EndIf(m))] + x + [Mark(EndIf(m))]
  {
  }

  lemma IfElseInOrder(b: seq<Instr>, m: nat, t: seq<Instr>, x: seq<Instr>, y: seq<Instr>)
    ensures b + IfElseInstrs(m, t, x, y)
            == b + t + [Beqz(ElseIf(m))] + x + [Br(EndIf(m)), Mark(ElseIf(m))] + y + [Mark(EndIf(m))]
  {
  }

  lemma LoopInOrder(b: seq<Instr>, m: nat, t: seq<Instr>, x: seq<Instr>, p: seq<Instr>)
    ensures b + LoopInstrs(m, t, x, p)
            == b + [Mark(BeginLoop(m))] + t + x + [Mark(ContinueLoop(m))] + p + [Br(BeginLoop(m)), Mark(BreakLoop(m))]
  {
  }

  lemma DoInOrder(b: seq<Instr>, m: nat, x: seq<Instr>, t: seq<Instr>)
    ensures b + DoInstrs(m, x, t)
            == b + [Mark(BeginLoop(m))] + x + [Mark(ContinueLoop(m))] + t + [Bnez(BeginLoop(m)), Mark(BreakLoop(m))]
  {
  }
}
