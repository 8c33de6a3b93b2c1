/** A worked program: int sum(int n) { return n ? n + sum(n - 1) : 0; } is accepted, its calls have a meaning
    for every n the stack has room for, and so its assembly computes n (n + 1) / 2 modulo 2^32. */
module RecursiveSum {
  import opened Wrappers
  import opened Words
  import opened Types
  import opened Syntax
  import opened Ir
  import opened Typing
  import opened CodeGen
  import opened Memory
  import opened Semantics
  import opened IrMachine
  import opened Lowering
  import opened Program
  import opened SmallPrograms
  import R = RiscV

  const N: Expr := Ident("n")
  const Less: Expr := Binary(BinOp.Sub, N, IntLit("1"))
  const Again: Expr := Call("sum", [Less])
  const Body: Expr := Ternary(N, Binary(Plus, N, Again), IntLit("0"))
  const Params: seq<Param> := [Param(0, "n")]
  const Items: seq<Item> := [StmtItem(Return(Body))]
  const MainItems: seq<Item> := [StmtItem(Return(Call("sum", [IntLit("10")])))]
  const Source: seq<TopDecl> := [FuncDef(0, "sum", Params, Items), FuncDef(0, "main", [], MainItems)]

  const Sig: Signature := Signature(IntType(RVALUE), [IntType(RVALUE)])
  const Decls: Ctx := Ctx(map[], map["sum" := Sig])
  const Scopes: seq<Scope> := [map["n" := Symbol(-3, IntType(LVALUE))]]
  const Info: FuncInfo := FuncInfo(Decls, IntType(RVALUE), Params, Items, Counters(0, 0))

  // ----- it is accepted -----

  lemma Literals()
    ensures !TooLarge("0") && !TooLarge("1") && !TooLarge("10") && Numeral("0") == 0 && Numeral("1") == 1
  {
    assert "0"[..0] == [] && "1"[..0] == [];
  }

  lemma LessType(funcs: map<string, Signature>)
    ensures TypeOf(Ctx(map[], funcs), Scopes, N) == Some(IntType(LVALUE))
    ensures TypeOf(Ctx(map[], funcs), Scopes, Less) == Some(IntType(RVALUE))
  {
    Literals();
    assert TypeOf(Ctx(map[], funcs), Scopes, IntLit("1")) == Some(IntType(RVALUE));
  }

  lemma CallType(funcs: map<string, Signature>, sc: seq<Scope>, e: Expr)
    requires "sum" in funcs && funcs["sum"] == Sig && TypeOf(Ctx(map[], funcs), sc, e) == Some(IntType(RVALUE))
    ensures TypeOf(Ctx(map[], funcs), sc, Call("sum", [e])) == Some(IntType(RVALUE))
  {
    var c := Ctx(map[], funcs);
    assert [e][..0] == [] && Sig.paramTypes[..0] == [];
    assert ArgsOk(c, sc, [], []);
    assert ArgsOk(c, sc, [e], Sig.paramTypes);
  }

  lemma BodyType()
    ensures TypeOf(Decls, Scopes, Again) == Some(IntType(RVALUE)) && TypeOf(Decls, Scopes, Body) == Some(IntType(RVALUE))
  {
    LessType(Decls.funcs);
    CallType(Decls.funcs, Scopes, Less);
    Literals();
    var sum := Binary(Plus, N, Again);
    assert TypeOf(Decls, Scopes, sum) == Some(IntType(RVALUE));
    assert TypeOf(Decls, Scopes, IntLit("0")) == Some(IntType(RVALUE));
  }

  lemma SumEnv()
    ensures ParamEnv(Params) == Env(Scopes, 0, 0)
  {
    assert Params[..0] == [];
    assert ParamScope(Params[..0]) == map[];
  }

  lemma Accepted()
    ensures Compile(Source).Some?
    ensures var u := Compile(Source).value; "sum" in u.defined && u.defined["sum"] == Info && Info.Slots() == 0
  {
    hide TypeOf, ItemsCode, ItemsOk, Compare, ItemsEnv;
    BodyType();
    SumEnv();
    ReturnOk(Decls, Env(Scopes, 0, 0), Body);
    assert SignatureOf(0, Params) == Sig;
    var u1 := DefineFunc(EmptyUnit, 0, "sum", Params, Items);
    assert u1.Some? && u1.value.ctx == Decls && u1.value.defined == map["sum" := Info];
    MainAccepted(u1.value);
    assert Source[1..] == [Source[1]] && Source[1..][1..] == [];
    VisitTwo(EmptyUnit, Source[0], Source[1]);
  }

  lemma MainAccepted(u: Unit)
    requires u.ctx == Decls && u.defined.Keys == {"sum"}
    ensures DefineFunc(u, 0, "main", [], MainItems).Some?
    ensures var u1 := DefineFunc(u, 0, "main", [], MainItems).value;
            u1.containsMain && "sum" in u1.defined && u1.defined["sum"] == u.defined["sum"]
  {
    hide TypeOf, ItemsCode, ItemsOk, Compare;
    var sig := SignatureOf(0, []);
    var c := DeclareFunc(u, "main", sig).value;
    var env := ParamEnv([]);
    Literals();
    LiteralType(c, env.scopes, "10");
    CallType(c.funcs, env.scopes, IntLit("10"));
    ReturnOk(c, env, Call("sum", [IntLit("10")]));
  }

  // ----- its meaning -----

  function SumTo(n: nat): nat {
    if n == 0 then 0 else n + SumTo(n - 1)
  }

  lemma {:induction false} SumFormula(n: nat)
    ensures SumTo(n) == n * (n + 1) / 2
  {
    if n > 0 {
      SumFormula(n - 1);
      assert (n - 1) * n % 2 == 0 by { EvenProduct(n - 1); }
      assert n * (n + 1) == (n - 1) * n + 2 * n;
    }
  }

  lemma {:induction false} EvenProduct(n: nat)
    ensures n * (n + 1) % 2 == 0
  {
    if n > 0 {
      EvenProduct(n - 1);
      assert n * (n + 1) == (n - 1) * n + 2 * n;
    }
  }

  ghost predicate Knows(W: World) {
    "sum" in W.funcs && W.funcs["sum"] == Info
  }

  /** n is in the cell of the parameter. */
  predicate Holds(mem: Memory, fp: int, n: Word) {
    0 <= fp < TWO_32 && fp in mem && mem[fp] == Some(n)
  }

  lemma ReadN(W: World, fp: int, sp: int, mem: Memory, n: Word, fuel: nat)
    requires Holds(mem, fp, n) && sp - 4 >= W.lo
    ensures Rvalue(W, Decls, Scopes, fp, sp, mem, N, fuel) == Some(Value(n, mem))
  {
    LessType(Decls.funcs);
    assert Eval(W, Decls, Scopes, fp, sp, mem, N, fuel) == Some(Value(Wrap(fp), mem));
  }

  lemma ReadLess(W: World, fp: int, sp: int, mem: Memory, n: Word, fuel: nat)
    requires Holds(mem, fp, n) && sp - 8 >= W.lo && n >= 1
    ensures Rvalue(W, Decls, Scopes, fp, sp, mem, Less, fuel) == Some(Value(n - 1, mem))
  {
    hide TypeOf;
    LessType(Decls.funcs);
    Literals();
    ReadN(W, fp, sp, mem, n, fuel);
    assert TypeOf(Decls, Scopes, IntLit("1")) == Some(IntType(RVALUE)) by { LiteralType(Decls, Scopes, "1"); }
    LiteralValue(W, fp, sp - 4, mem, "1", fuel);
    assert BinaryMeaning(BinOp.Sub, IntType(LVALUE), IntType(RVALUE), n, 1) == Some(n - 1);
    assert Eval(W, Decls, Scopes, fp, sp, mem, Less, fuel) == Some(Value(n - 1, mem));
  }

  lemma LiteralValue(W: World, fp: int, sp: int, mem: Memory, text: string, fuel: nat)
    requires sp - 4 >= W.lo && !TooLarge(text)
    ensures Rvalue(W, Decls, Scopes, fp, sp, mem, IntLit(text), fuel) == Some(Value(Wrap(Numeral(text)), mem))
  {
    hide Compare, Numeral;
    assert !IsLvalue(Decls, Scopes, IntLit(text));
  }

  /** The recursive call, from what it returns. */
  lemma CallAgain(W: World, fp: int, sp: int, mem: Memory, n: Word, fuel: nat, r: Word)
    requires Knows(W) && Holds(mem, fp, n) && sp - 8 >= W.lo && n >= 1 && fuel >= 1
    requires Invoke(W, "sum", [n - 1], sp - 4, mem, fuel - 1) == Some(Value(r, mem))
    ensures Rvalue(W, Decls, Scopes, fp, sp, mem, Again, fuel) == Some(Value(r, mem))
  {
    hide TypeOf, Invoke;
    ReadLess(W, fp, sp, mem, n, fuel);
    BodyType();
    assert [Less][..0] == [];
    assert EvalArgs(W, Decls, Scopes, fp, sp - 4, mem, [], fuel) == Some(Values([], mem));
    assert EvalArgs(W, Decls, Scopes, fp, sp, mem, [Less], fuel) == Some(Values([n - 1], mem)) by {
      assert [] + [n - 1] == [n - 1];
    }
    assert Eval(W, Decls, Scopes, fp, sp, mem, Again, fuel) == Some(Value(r, mem));
  }

  /** The returned expression, from what the recursive call returns. */
  lemma BodyValue(W: World, fp: int, sp: int, mem: Memory, n: Word, fuel: nat, r: Word)
    requires Knows(W) && Holds(mem, fp, n) && sp - 12 >= W.lo
    requires n >= 1 ==> fuel >= 1 && Invoke(W, "sum", [n - 1], sp - 8, mem, fuel - 1) == Some(Value(r, mem))
    ensures Rvalue(W, Decls, Scopes, fp, sp, mem, Body, fuel) == Some(Value(if n == 0 then 0 else Wrap(n + r), mem))
  {
    hide TypeOf, Invoke;
    ReadN(W, fp, sp, mem, n, fuel);
    BodyType();
    if n == 0 {
      Literals();
      LiteralValue(W, fp, sp, mem, "0", fuel);
    } else {
      CallAgain(W, fp, sp - 4, mem, n, fuel, r);
      PlusValue(W, fp, sp, mem, n, fuel, r);
    }
    assert Eval(W, Decls, Scopes, fp, sp, mem, Body, fuel) == Some(Value(if n == 0 then 0 else Wrap(n + r), mem));
  }

  lemma PlusValue(W: World, fp: int, sp: int, mem: Memory, n: Word, fuel: nat, r: Word)
    requires Rvalue(W, Decls, Scopes, fp, sp, mem, N, fuel) == Some(Value(n, mem))
    requires Rvalue(W, Decls, Scopes, fp, sp - 4, mem, Again, fuel) == Some(Value(r, mem))
    ensures Rvalue(W, Decls, Scopes, fp, sp, mem, Binary(Plus, N, Again), fuel) == Some(Value(Wrap(n + r), mem))
  {
    LessType(Decls.funcs);
    BodyType();
    SignedSum(n, r);
    hide TypeOf;
    var e := Binary(Plus, N, Again);
    assert BinaryMeaning(Plus, IntType(LVALUE), IntType(RVALUE), n, r) == Some(Wrap(n + r));
    assert TypeOf(Decls, Scopes, e) == Some(IntType(RVALUE)) by { PlusType(); }
    assert Eval(W, Decls, Scopes, fp, sp, mem, e, fuel) == Some(Value(Wrap(n + r), mem));
  }

  lemma PlusType()
    ensures TypeOf(Decls, Scopes, Binary(Plus, N, Again)) == Some(IntType(RVALUE))
  {
    LessType(Decls.funcs);
    BodyType();
  }

  lemma SignedSum(x: Word, y: Word)
    ensures Wrap(Signed(x) + Signed(y)) == Wrap(x + y)
  {
  }

  /** Every call that the stack has room for returns the sum and leaves the variables alone. */
  lemma {:induction false} SumReturns(W: World, fp: int, mem: Memory, n: Word)
    requires Knows(W) && 0 <= W.lo && fp - 20 - 16 * n >= W.lo && fp < TWO_32
    requires forall a | a in mem :: !(W.lo <= a < fp + 4)
    ensures Invoke(W, "sum", [n], fp, mem, n) == Some(Value(Wrap(SumTo(n)), mem))
    decreases n
  {
    hide Rvalue, TypeOf, EnterFrame, LeaveFrame, ExecItems, Compile, Holds;
    Accepted();
    SumEnv();
    var mem1 := EnterFrame(mem, fp, 0, [n]);
    OneParameter(mem, fp, n, W.lo);
    if n > 0 {
      SumReturns(W, fp - 16, mem1, n - 1);
      WrapAdd(SumTo(n - 1), n);
    }
    BodyValue(W, fp, fp - 8, mem1, n, n, if n == 0 then 0 else Wrap(SumTo(n - 1)));
    ReturnRuns(W, fp, fp - 8, mem1, n, Wrap(SumTo(n)));
  }

  lemma OneParameter(mem: Memory, fp: int, n: Word, lo: int)
    requires forall a | a in mem :: !(lo <= a < fp + 4)
    requires 0 <= lo <= fp < TWO_32
    ensures var mem1 := EnterFrame(mem, fp, 0, [n]);
            Holds(mem1, fp, n) && LeaveFrame(mem1, fp, 0, 1) == mem && forall a | a in mem1 :: !(lo <= a < fp)
  {
  }

  lemma ReturnRuns(W: World, fp: int, sp: int, mem: Memory, n: Word, w: Word)
    requires Rvalue(W, Decls, Scopes, fp, sp, mem, Body, n) == Some(Value(w, mem))
    ensures ExecItems(W, Decls, Env(Scopes, 0, 0), fp, sp, mem, Items, n) == Some(Done(Returned(w), mem))
  {
    hide Rvalue, TypeOf;
    var env := Env(Scopes, 0, 0);
    assert Exec(W, Decls, env, fp, sp, mem, Return(Body), n) == Some(Done(Returned(w), mem));
    assert ExecItem(W, Decls, env, fp, sp, mem, Items[0], n) == Some(Done(Returned(w), mem));
  }

  // ----- its assembly -----

  /** The assembly of sum, called with any n that the stack has room for, returns n (n + 1) / 2 modulo 2^32
      in a0 with the registers it must keep. */
  lemma CompiledSum(lo: int, gaddr: map<string, int>, n: Word, mem: Memory, hi: int, v: R.Rv)
    requires Compile(Source).Some? && |Asm(Linkable(Compile(Source).value, lo, gaddr))| < TWO_32
    requires CalledWith(Linkable(Compile(Source).value, lo, gaddr), "sum", [n], mem, hi, v)
    requires v.regs.sp - 20 - 16 * n >= lo
    ensures exists v' :: R.Reaches(Asm(Linkable(Compile(Source).value, lo, gaddr)), gaddr, v, v')
                         && ReturnedWith(v, v', Value(Wrap(n * (n + 1) / 2), mem))
  {
    hide Compile, Asm, R.Reaches, Invoke, ReturnedWith;
    Accepted();
    var u := Compile(Source).value;
    SumFormula(n);
    Placed(Linkable(u, lo, gaddr), n, mem, hi, v);
    SumReturns(World(u.defined, lo, gaddr), v.regs.sp, mem, n);
    CompilerCorrect(Source, lo, gaddr, "sum", [n], mem, hi, n, v);
  }

  lemma Placed(p: IrProgram, n: Word, mem: Memory, hi: int, v: R.Rv)
    requires CalledWith(p, "sum", [n], mem, hi, v)
    ensures 0 <= p.lo && v.regs.sp < TWO_32 && forall a | a in mem :: !(p.lo <= a < v.regs.sp + 4)
  {
    hide Asm;
  }
}
