/** What MiniDecaf programs mean: fuel-indexed evaluation of the parse tree over word memory.

    The value of an l-value expression is the address of its object, that of any other expression its
    word.  Addresses are visible to programs (& and casts), so activations are placed on a descending
    stack: fp is the current frame, sp the lowest address in use.  None means that the fuel ran out or
    that the behaviour is undefined: a division by zero, an access outside the variables of live
    activations and globals, a read of a cell never written, or an exhausted stack. */
module Semantics {
  import opened Wrappers
  import opened Words
  import opened Types
  import opened Syntax
  import opened Typing
  import opened CodeGen
  import opened Memory

  /** A defined function with the file-level declarations and counters in force at its definition. */
  datatype FuncInfo = FuncInfo(ctx: Ctx, ret: Type, params: seq<Param>, body: seq<Item>, counters: Counters) {
    function Slots(): nat {
      FrameSlots(params, body)
    }
  }

  datatype World = World(funcs: map<string, FuncInfo>, lo: int, gaddr: map<string, int>)

  datatype Value = Value(w: Word, mem: Memory)
  datatype Values = Values(ws: seq<Word>, mem: Memory)

  datatype Outcome = Normal | Broke | Continued | Returned(w: Word)
  datatype Done = Done(out: Outcome, mem: Memory)

  function UnaryMeaning(op: UnOp, x: Word): Word {
    match op
    case Not => Bool(x == 0)
    case BitNot => TWO_32 - 1 - x
    case Minus => Wrap(0 - Signed(x))
  }

  /** Both operands are always evaluated, && and || included. */
  function BinaryMeaning(op: BinOp, l: Type, r: Type, x: Word, y: Word): Option<Word> {
    match op
    case Or => Some(Bool(!(x == 0 && y == 0)))
    case And => Some(Bool(!(x == 0 || y == 0)))
    case Eq => Some(Bool(Signed(x) == Signed(y)))
    case Ne => Some(Bool(Signed(x) != Signed(y)))
    case Lt => Some(Bool(Signed(x) < Signed(y)))
    case Gt => Some(Bool(Signed(y) < Signed(x)))
    case Le => Some(Bool(!(Signed(y) < Signed(x))))
    case Ge => Some(Bool(!(Signed(x) < Signed(y))))
    case Plus =>
      Some(if l.PointerType? then Wrap(x + 4 * Signed(y))
           else if r.PointerType? then Wrap(y + 4 * Signed(x))
           else Wrap(Signed(x) + Signed(y)))
    case Sub =>
      Some(if r.PointerType? then Wrap(Signed(Wrap(x - y)) / 4)
           else if l.PointerType? then Wrap(x - 4 * Signed(y))
           else Wrap(Signed(x) - Signed(y)))
    case Times => Some(Wrap(Signed(x) * Signed(y)))
    case Div => if y == 0 then None else Some(Wrap(TruncDiv(Signed(x), Signed(y))))
    case Rem => if y == 0 then None else Some(Wrap(Signed(x) - Signed(y) * TruncDiv(Signed(x), Signed(y))))
  }

  /** Quotient and remainder of two ints: they make up the dividend, and the remainder is smaller than the divisor with
      the sign of the dividend; only the least int divided by -1 overflows, to itself without remainder. */
  lemma QuotientAndRemainder(l: Type, r: Type, x: Word, y: Word)
    requires y != 0
    ensures BinaryMeaning(Div, l, r, x, y).Some? && BinaryMeaning(Rem, l, r, x, y).Some?
    ensures var q, m := BinaryMeaning(Div, l, r, x, y).value, BinaryMeaning(Rem, l, r, x, y).value;
            var (a, b) := (Signed(x), Signed(y));
            if a == -TWO_31 && b == -1 then q == x && m == 0
            else a == b * Signed(q) + Signed(m) && Magnitude(Signed(m)) < Magnitude(b)
                 && (Signed(m) == 0 || (Signed(m) > 0 <==> a > 0))
  {
    hide TruncDiv;
    var a, b := Signed(x), Signed(y);
    var q := TruncDiv(a, b);
    TruncatesTowardZero(a, b);
    if a == -TWO_31 && b == -1 {
      assert q == TWO_31;
    } else {
      QuotientInRange(a, b);
      SignedWrap(q);
      SignedWrap(a - b * q);
    }
  }

  lemma QuotientInRange(a: int, b: int)
    requires b != 0 && -TWO_31 <= a < TWO_31 && -TWO_31 <= b < TWO_31 && !(a == -TWO_31 && b == -1)
    ensures -TWO_31 <= TruncDiv(a, b) < TWO_31
    ensures -TWO_31 < a - b * TruncDiv(a, b) < TWO_31
  {
    hide TruncDiv;
    TruncatesTowardZero(a, b);
    if b == 1 { assert b * TruncDiv(a, b) == TruncDiv(a, b); }
  }

  /** The address of element i: an array element has its own size, a pointer steps over words. */
  function ElementAddress(t: Type, base: Word, i: Word): Word {
    match t
    case ArrayType(elem, _) => Wrap(base + Signed(i) * elem.GetSize())
    case _ => Wrap(base + 4 * Signed(i))
  }

  function ReadCell(mem: Memory, a: Word): Option<Value> {
    if a in mem && mem[a].Some? then Some(Value(mem[a].value, mem)) else None
  }

  function Eval(W: World, c: Ctx, sc: seq<Scope>, fp: int, sp: int, mem: Memory, e: Expr, fuel: nat): Option<Value>
    decreases fuel, e, 0
  {
    match e
    case IntLit(text) => if sp - 4 < W.lo then None else Some(Value(Wrap(Numeral(text)), mem))
    case Ident(x) =>
      if sp - 4 < W.lo then None
      else
        var s := Lookup(sc, x);
        if s.Some? then Some(Value(Wrap(fp - 12 - 4 * s.value.offset), mem))
        else if x in W.gaddr then Some(Value(Wrap(W.gaddr[x]), mem))
        else None
    case Call(f, args) =>
      var a := EvalArgs(W, c, sc, fp, sp, mem, args, fuel);
      if a.None? || fuel == 0 then None
      else Invoke(W, f, a.value.ws, sp - 4 * |args|, a.value.mem, fuel - 1)
    case Subscript(b, i) =>
      var t := TypeOf(c, sc, b);
      var x := Rvalue(W, c, sc, fp, sp, mem, b, fuel);
      if x.None? || t.None? then None
      else
        var y := Rvalue(W, c, sc, fp, sp - 4, x.value.mem, i, fuel);
        if y.None? || (t.value.ArrayType? && sp - 12 < W.lo) then None
        else Some(Value(ElementAddress(t.value, x.value.w, y.value.w), y.value.mem))
    case Unary(op, e1) =>
      var x := Rvalue(W, c, sc, fp, sp, mem, e1, fuel);
      if x.None? then None else Some(Value(UnaryMeaning(op, x.value.w), x.value.mem))
    case Deref(e1) => Rvalue(W, c, sc, fp, sp, mem, e1, fuel)
    case AddrOf(e1) => Eval(W, c, sc, fp, sp, mem, e1, fuel)
    case Cast(_, e1) => Eval(W, c, sc, fp, sp, mem, e1, fuel)
    case Binary(op, l, r) =>
      var tl, tr := TypeOf(c, sc, l), TypeOf(c, sc, r);
      var x := Rvalue(W, c, sc, fp, sp, mem, l, fuel);
      if x.None? || tl.None? || tr.None? then None
      else
        var y := Rvalue(W, c, sc, fp, sp - 4, x.value.mem, r, fuel);
        if y.None? then None
        else
          var w := BinaryMeaning(op, tl.value, tr.value, x.value.w, y.value.w);
          if w.None? then None else Some(Value(w.value, y.value.mem))
    case Ternary(b, e1, e2) =>
      var t := Rvalue(W, c, sc, fp, sp, mem, b, fuel);
      if t.None? then None
      else Rvalue(W, c, sc, fp, sp, t.value.mem, if t.value.w != 0 then e1 else e2, fuel)
    case Assign(l, r) =>
      var v := Rvalue(W, c, sc, fp, sp, mem, r, fuel);
      if v.None? then None
      else
        var a := Eval(W, c, sc, fp, sp - 4, v.value.mem, l, fuel);
        if a.None? || a.value.w !in a.value.mem then None
        else Some(Value(v.value.w, a.value.mem[a.value.w := Some(v.value.w)]))
  }

  /** The value of an expression: an l-value is read. */
  function Rvalue(W: World, c: Ctx, sc: seq<Scope>, fp: int, sp: int, mem: Memory, e: Expr, fuel: nat): Option<Value>
    decreases fuel, e, 1
  {
    var x := Eval(W, c, sc, fp, sp, mem, e, fuel);
    if x.None? then None
    else if IsLvalue(c, sc, e) then ReadCell(x.value.mem, x.value.w)
    else x
  }

  /** Arguments from the last to the first; the result is in parameter order. */
  function EvalArgs(W: World, c: Ctx, sc: seq<Scope>, fp: int, sp: int, mem: Memory, args: seq<Expr>, fuel: nat)
    : (r: Option<Values>)
    ensures r.Some? ==> |r.value.ws| == |args|
    decreases fuel, args, 0
  {
    if args == [] then Some(Values([], mem))
    else
      var last := |args| - 1;
      var x := Rvalue(W, c, sc, fp, sp, mem, args[last], fuel);
      if x.None? then None
      else
        var y := EvalArgs(W, c, sc, fp, sp - 4, x.value.mem, args[..last], fuel);
        if y.None? then None else Some(Values(y.value.ws + [x.value.w], y.value.mem))
  }

  /** A call with its arguments at fp, fp + 4, ...: a fresh frame lives until the body is left. */
  function Invoke(W: World, f: string, ws: seq<Word>, fp: int, mem: Memory, fuel: nat): Option<Value>
    decreases fuel
  {
    if f !in W.funcs || |ws| != |W.funcs[f].params| then None
    else
      var g := W.funcs[f];
      var sp := fp - 8 - 4 * g.Slots();
      if sp < W.lo then None
      else
        var r := ExecItems(W, g.ctx, ParamEnv(g.params), fp, sp, EnterFrame(mem, fp, g.Slots(), ws), g.body, fuel);
        if r.None? then None
        else
          var mem' := LeaveFrame(r.value.mem, fp, g.Slots(), |ws|);
          match r.value.out
          case Returned(w) => Some(Value(w, mem'))
          case Normal => if sp - 4 < W.lo then None else Some(Value(0, mem'))
          case _ => None
  }

  // ----- statements -----

  function Effect(W: World, c: Ctx, sc: seq<Scope>, fp: int, sp: int, mem: Memory, e: Option<Expr>, fuel: nat)
    : Option<Memory>
    decreases fuel, e, 1
  {
    if e.None? then Some(mem)
    else
      var x := Eval(W, c, sc, fp, sp, mem, e.value, fuel);
      if x.None? then None else Some(x.value.mem)
  }

  /** A loop test; an absent one holds. */
  function Test(W: World, c: Ctx, sc: seq<Scope>, fp: int, sp: int, mem: Memory, e: Option<Expr>, fuel: nat)
    : Option<Value>
    decreases fuel, e, 2
  {
    if e.None? then Some(Value(1, mem)) else Rvalue(W, c, sc, fp, sp, mem, e.value, fuel)
  }

  /** A declared variable keeps what its slot holds until it is initialised. */
  function Declare(W: World, c: Ctx, env: Env, fp: int, sp: int, mem: Memory, d: Decl, fuel: nat): Option<Memory>
    requires env.scopes != []
    decreases fuel, d, 1
  {
    match d
    case Arr(_, _, _) => Some(mem)
    case Var(_, _, None) => Some(mem)
    case Var(_, x, Some(e)) =>
      var v := Rvalue(W, c, DeclEnv(env, d).scopes, fp, sp, mem, e, fuel);
      if v.None? || sp - 8 < W.lo then None
      else
        var a := Wrap(fp - 12 - 4 * env.localCntr);
        if a in v.value.mem then Some(v.value.mem[a := Some(v.value.w)]) else None
  }

  function Exec(W: World, c: Ctx, env: Env, fp: int, sp: int, mem: Memory, s: Stmt, fuel: nat): Option<Done>
    requires env.scopes != []
    decreases fuel, s, 1
  {
    match s
    case Return(e) =>
      var v := Rvalue(W, c, env.scopes, fp, sp, mem, e, fuel);
      if v.None? then None else Some(Done(Returned(v.value.w), v.value.mem))
    case ExprStmt(e) =>
      var m := Effect(W, c, env.scopes, fp, sp, mem, e, fuel);
      if m.None? then None else Some(Done(Normal, m.value))
    case If(b, t, f) =>
      var v := Rvalue(W, c, env.scopes, fp, sp, mem, b, fuel);
      if v.None? then None
      else if v.value.w != 0 then Exec(W, c, env, fp, sp, v.value.mem, t, fuel)
      else if f.Some? then Exec(W, c, StmtEnv(env, t), fp, sp, v.value.mem, f.value, fuel)
      else Some(Done(Normal, v.value.mem))
    case Block(items) => ExecItems(W, c, OpenScope(env), fp, sp, mem, items, fuel)
    case For(d, pre, test, post, body) =>
      var env1 := OpenScope(env);
      var env2 := if d.Some? then DeclEnv(env1, d.value) else env1;
      var m := if d.Some? then Declare(W, c, env1, fp, sp, mem, d.value, fuel) else Some(mem);
      if m.None? then None
      else
        var m' := Effect(W, c, env2.scopes, fp, sp, m.value, pre, fuel);
        if m'.None? || fuel == 0 then None
        else Loop(W, c, env2, fp, sp, m'.value, test, body, post, fuel - 1)
    case While(b, body) =>
      if fuel == 0 then None else Loop(W, c, env, fp, sp, mem, Some(b), body, None, fuel - 1)
    case DoWhile(body, b) =>
      if fuel == 0 then None else DoLoop(W, c, env, fp, sp, mem, body, b, fuel - 1)
    case Break => Some(Done(Broke, mem))
    case Continue => Some(Done(Continued, mem))
  }

  function Loop(W: World, c: Ctx, env: Env, fp: int, sp: int, mem: Memory,
                test: Option<Expr>, body: Stmt, post: Option<Expr>, fuel: nat): Option<Done>
    requires env.scopes != []
    decreases fuel
  {
    var v := Test(W, c, env.scopes, fp, sp, mem, test, fuel);
    if v.None? then None
    else if v.value.w == 0 then Some(Done(Normal, v.value.mem))
    else
      var r := Exec(W, c, env, fp, sp, v.value.mem, body, fuel);
      if r.None? then None
      else match r.value.out
        case Returned(_) => r
        case Broke => Some(Done(Normal, r.value.mem))
        case _ =>
          var m := Effect(W, c, env.scopes, fp, sp, r.value.mem, post, fuel);
          if m.None? || fuel == 0 then None else Loop(W, c, env, fp, sp, m.value, test, body, post, fuel - 1)
  }

  function DoLoop(W: World, c: Ctx, env: Env, fp: int, sp: int, mem: Memory, body: Stmt, b: Expr, fuel: nat)
    : Option<Done>
    requires env.scopes != []
    decreases fuel
  {
    var r := Exec(W, c, env, fp, sp, mem, body, fuel);
    if r.None? then None
    else match r.value.out
      case Returned(_) => r
      case Broke => Some(Done(Normal, r.value.mem))
      case _ =>
        var v := Rvalue(W, c, env.scopes, fp, sp, r.value.mem, b, fuel);
        if v.None? then None
        else if v.value.w == 0 then Some(Done(Normal, v.value.mem))
        else if fuel == 0 then None
        else DoLoop(W, c, env, fp, sp, v.value.mem, body, b, fuel - 1)
  }

  function ExecItem(W: World, c: Ctx, env: Env, fp: int, sp: int, mem: Memory, i: Item, fuel: nat): Option<Done>
    requires env.scopes != []
    decreases fuel, i, 2
  {
    match i
    case StmtItem(s) => Exec(W, c, env, fp, sp, mem, s, fuel)
    case DeclItem(d) =>
      var m := Declare(W, c, env, fp, sp, mem, d, fuel);
      if m.None? then None else Some(Done(Normal, m.value))
  }

  function ExecItems(W: World, c: Ctx, env: Env, fp: int, sp: int, mem: Memory, items: seq<Item>, fuel: nat)
    : Option<Done>
    requires env.scopes != []
    decreases fuel, items, 0
  {
    if items == [] then Some(Done(Normal, mem))
    else
      var r := ExecItem(W, c, env, fp, sp, mem, items[0], fuel);
      if r.None? || !r.value.out.Normal? then r
      else ExecItems(W, c, ItemEnv(env, items[0]), fp, sp, r.value.mem, items[1..], fuel)
  }
}
