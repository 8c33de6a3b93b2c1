/** Stage one: the emitted IR computes what the source means, for expressions, statements and calls. */
module Preservation {
  import opened Wrappers
  import opened Words
  import opened Types
  import opened Syntax
  import opened Ir
  import opened Typing
  import opened CodeGen
  import opened Memory
  import opened Semantics
  import opened IrMachine
  import opened ControlFlow

  /** The program contains the code of every function of the world, and each body was accepted. */
  ghost predicate Linked(W: World, p: IrProgram) {
    && p.lo == W.lo && p.gaddr == W.gaddr
    && UniqueMarks(p.code)
    && forall f | f in W.funcs :: LinkedFunc(W.funcs[f], f, p)
  }

  ghost predicate LinkedFunc(g: FuncInfo, f: string, p: IrProgram) {
    && f in p.sizes && p.sizes[f] == g.Slots()
    && Func(f) in p.code
    && ItemsOk(g.ctx, ParamEnv(g.params), g.ret, false, g.body)
    && At(p, p.Entry(f), ItemsCode(g.ctx, ParamEnv(g.params), None, g.body, g.counters).instrs + [EndFunc(f)])
  }

  lemma LinkedMarks(W: World, p: IrProgram)
    requires Linked(W, p)
    ensures UniqueMarks(p.code)
  {
  }

  lemma LinkedFacts(W: World, p: IrProgram, f: string)
    requires Linked(W, p) && f in W.funcs
    ensures f in p.sizes && p.Size(f) == W.funcs[f].Slots() && Func(f) in p.code && p.lo == W.lo
  {
    assert LinkedFunc(W.funcs[f], f, p);
  }

  lemma LinkedBody(W: World, p: IrProgram, f: string)
    requires Linked(W, p) && f in W.funcs
    ensures var g := W.funcs[f];
            var code := ItemsCode(g.ctx, ParamEnv(g.params), None, g.body, g.counters).instrs;
            && ItemsOk(g.ctx, ParamEnv(g.params), g.ret, false, g.body)
            && At(p, p.Entry(f), code) && InstrIs(p, p.Entry(f) + |code|, EndFunc(f))
  {
    hide ItemsCode, ItemsOk, FrameSlots, At;
    var g := W.funcs[f];
    assert LinkedFunc(g, f, p);
    SplitLast(p, p.Entry(f), ItemsCode(g.ctx, ParamEnv(g.params), None, g.body, g.counters).instrs, EndFunc(f));
  }

  // ----- operators -----

  lemma SignedProduct(x: Word, y: Word)
    ensures Wrap(Signed(x) * Signed(y)) == Wrap(x * y)
  {
    assert Wrap(Signed(x)) == x && Wrap(Signed(y)) == y;
    WrapMul(Signed(x), Signed(y));
    assert x * Signed(y) == Signed(y) * x && x * y == y * x;
    WrapMul(Signed(y), x);
  }

  lemma UnaryAgrees(op: UnOp, x: Word)
    ensures UnaryInstr(op).Un? && UnaryResult(UnaryInstr(op).uop, x) == UnaryMeaning(op, x)
  {
  }

  lemma ScaledSum(x: int, i: Word)
    ensures Wrap(x + 4 * Signed(i)) == Wrap(x + 4 * i)
    ensures Wrap(x - 4 * Signed(i)) == Wrap(x - 4 * i)
  {
    if i >= TWO_31 {
    }
  }

  lemma SumsAgree(x: Word, y: Word)
    ensures Wrap(Signed(x) + Signed(y)) == Wrap(x + y)
    ensures Wrap(Signed(x) - Signed(y)) == Wrap(x - y)
  {
  }

  lemma BinaryAgrees(op: BinOp, l: Type, r: Type, x: Word, y: Word)
    requires Select(op, l.AsRvalue(), r.AsRvalue()).Some?
    ensures BinaryResult(Select(op, l.AsRvalue(), r.AsRvalue()).value.0, x, y) == BinaryMeaning(op, l, r, x, y)
  {
    match op {
      case Plus => PlusAgrees(l, r, x, y);
      case Sub => SubAgrees(l, r, x, y);
      case Times =>
        hide Wrap, Signed;
        SignedProduct(x, y);
      case _ => ComparisonAgrees(op, l, r, x, y);
    }
  }

  lemma PlusAgrees(l: Type, r: Type, x: Word, y: Word)
    requires Select(Plus, l.AsRvalue(), r.AsRvalue()).Some?
    ensures BinaryResult(Select(Plus, l.AsRvalue(), r.AsRvalue()).value.0, x, y) == BinaryMeaning(Plus, l, r, x, y)
  {
    hide Wrap, Signed;
    SumsAgree(x, y);
    ScaledSum(x, y);
    ScaledSum(y, x);
  }

  lemma SubAgrees(l: Type, r: Type, x: Word, y: Word)
    requires Select(BinOp.Sub, l.AsRvalue(), r.AsRvalue()).Some?
    ensures BinaryResult(Select(BinOp.Sub, l.AsRvalue(), r.AsRvalue()).value.0, x, y) == BinaryMeaning(BinOp.Sub, l, r, x, y)
  {
    hide Wrap, Signed;
    SumsAgree(x, y);
    ScaledSum(x, y);
  }

  /** Logic, comparison and division, where the IR computes as the source says. */
  lemma ComparisonAgrees(op: BinOp, l: Type, r: Type, x: Word, y: Word)
    requires op != Plus && op != BinOp.Sub && op != Times && Select(op, l.AsRvalue(), r.AsRvalue()).Some?
    ensures BinaryResult(Select(op, l.AsRvalue(), r.AsRvalue()).value.0, x, y) == BinaryMeaning(op, l, r, x, y)
  {
    hide Wrap, TruncDiv;
  }

  lemma UnaryStep(p: IrProgram, fr: Frame, pc: nat, ost: seq<Word>, op: IrUnary, x: Word, mem: Memory)
    requires InstrIs(p, pc, Un(op))
    ensures Step(p, Running(fr, pc, ost + [x], mem)) == Some(Running(fr, pc + 1, ost + [UnaryResult(op, x)], mem))
  {
    hide UnaryResult;
    assert (ost + [x])[..|ost|] == ost;
  }

  lemma BinaryStep(p: IrProgram, fr: Frame, pc: nat, ost: seq<Word>, op: IrBinary, x: Word, y: Word, mem: Memory)
    requires InstrIs(p, pc, Bin(op)) && BinaryResult(op, x, y).Some?
    ensures Step(p, Running(fr, pc, ost + [x, y], mem)) == Some(Running(fr, pc + 1, ost + [BinaryResult(op, x, y).value], mem))
  {
    hide BinaryResult;
    assert (ost + [x, y])[..|ost|] == ost;
  }

  lemma WordProduct(k: int, i: Word)
    ensures Wrap(i * Wrap(k)) == Wrap(Signed(i) * k)
  {
    WrapMul(k, i);
    assert Wrap(k) * i == i * Wrap(k) && k * i == i * k;
    WrapMul(Signed(i), k);
  }

  lemma ScaledWord(base: int, z: int)
    ensures Wrap(base + 4 * Wrap(z)) == Wrap(base + 4 * z)
  {
  }

  /** push words; mul; addpi computes the address of an array element whatever its size wrapped to. */
  lemma ElementAgrees(t: Type, base: Word, i: Word)
    requires t.ArrayType?
    ensures Wrap(base + 4 * Wrap(i * Wrap(ElemWords(t.baseType)))) == ElementAddress(t, base, i)
  {
    hide Wrap, Signed;
    var k := ElemWords(t.baseType);
    WordProduct(k, i);
    ScaledWord(base, Signed(i) * k);
    assert t.baseType.GetSize() == 4 * k;
    FourTimes(Signed(i), k);
  }

  lemma FourTimes(z: int, k: int)
    ensures 4 * (z * k) == z * (4 * k)
  {
  }

  // ----- expressions -----

  /** If v is defined, running the code from pc pushes its word, leaves the stack below and its memory. */
  ghost predicate Yields(p: IrProgram, fr: Frame, pc: nat, ost: seq<Word>, mem: Memory, code: seq<Instr>, v: Option<Value>) {
    v.Some? ==> Reaches(p, Running(fr, pc, ost, mem), Running(fr, pc + |code|, ost + [v.value.w], v.value.mem))
  }

  lemma RvalueSim(W: World, p: IrProgram, fr: Frame, c: Ctx, sc: seq<Scope>, mem: Memory, e: Expr, n: nat,
                  pc: nat, ost: seq<Word>, fuel: nat)
    requires Linked(W, p) && TypeOf(c, sc, e).Some? && At(p, pc, RvalueCode(c, sc, e, n).instrs)
    ensures Yields(p, fr, pc, ost, mem, RvalueCode(c, sc, e, n).instrs,
                   Rvalue(W, c, sc, fr.fp, Sp(p, fr, ost), mem, e, fuel))
    decreases fuel, e, 3
  {
    hide Linked, At, InstrIs, ExprCode, Eval, TypeOf, Reaches, Step, ReadCell;
    var a, b := ExprCode(c, sc, e, n).instrs, LoadIf(c, sc, e);
    Split(p, pc, a, b);
    EvalSim(W, p, fr, c, sc, mem, e, n, pc, ost, fuel);
    var x := Eval(W, c, sc, fr.fp, Sp(p, fr, ost), mem, e, fuel);
    var v := Rvalue(W, c, sc, fr.fp, Sp(p, fr, ost), mem, e, fuel);
    if !IsLvalue(c, sc, e) {
      assert a + b == a;
    } else if v.Some? {
      InstrAt(p, pc + |a|, b, 0);
      var mid := Running(fr, pc + |a|, ost + [x.value.w], x.value.mem);
      LoadStep(p, fr, pc + |a|, ost, x.value.w, x.value.mem);
      Then(p, Running(fr, pc, ost, mem), mid, Running(fr, pc + |a| + 1, ost + [v.value.w], v.value.mem));
    }
  }

  lemma LoadStep(p: IrProgram, fr: Frame, pc: nat, ost: seq<Word>, a: Word, mem: Memory)
    requires InstrIs(p, pc, Load)
    ensures var v := ReadCell(mem, a);
            v.Some? ==> v.value.mem == mem && Step(p, Running(fr, pc, ost + [a], mem)) == Some(Running(fr, pc + 1, ost + [v.value.w], mem))
  {
    assert (ost + [a])[..|ost|] == ost;
  }

  lemma EvalSim(W: World, p: IrProgram, fr: Frame, c: Ctx, sc: seq<Scope>, mem: Memory, e: Expr, n: nat,
                pc: nat, ost: seq<Word>, fuel: nat)
    requires Linked(W, p) && TypeOf(c, sc, e).Some? && At(p, pc, ExprCode(c, sc, e, n).instrs)
    ensures Yields(p, fr, pc, ost, mem, ExprCode(c, sc, e, n).instrs,
                   Eval(W, c, sc, fr.fp, Sp(p, fr, ost), mem, e, fuel))
    decreases fuel, e, 2
  {
    hide Linked, At, Yields;
    match e {
      case IntLit(_) => LeafSim(W, p, fr, c, sc, mem, e, n, pc, ost, fuel);
      case Ident(_) => LeafSim(W, p, fr, c, sc, mem, e, n, pc, ost, fuel);
      case Call(_, _) => CallSim(W, p, fr, c, sc, mem, e, n, pc, ost, fuel);
      case Subscript(_, _) => SubscriptSim(W, p, fr, c, sc, mem, e, n, pc, ost, fuel);
      case Unary(_, _) => UnarySim(W, p, fr, c, sc, mem, e, n, pc, ost, fuel);
      case Deref(e1) => RvalueSim(W, p, fr, c, sc, mem, e1, n, pc, ost, fuel);
      case AddrOf(e1) => EvalSim(W, p, fr, c, sc, mem, e1, n, pc, ost, fuel);
      case Cast(_, e1) => EvalSim(W, p, fr, c, sc, mem, e1, n, pc, ost, fuel);
      case Binary(_, _, _) => BinarySim(W, p, fr, c, sc, mem, e, n, pc, ost, fuel);
      case Ternary(_, _, _) => TernarySim(W, p, fr, c, sc, mem, e, n, pc, ost, fuel);
      case Assign(_, _) => AssignSim(W, p, fr, c, sc, mem, e, n, pc, ost, fuel);
    }
  }

  lemma LeafSim(W: World, p: IrProgram, fr: Frame, c: Ctx, sc: seq<Scope>, mem: Memory, e: Expr, n: nat,
                pc: nat, ost: seq<Word>, fuel: nat)
    requires Linked(W, p) && (e.IntLit? || e.Ident?) && TypeOf(c, sc, e).Some? && At(p, pc, ExprCode(c, sc, e, n).instrs)
    ensures Yields(p, fr, pc, ost, mem, ExprCode(c, sc, e, n).instrs,
                   Eval(W, c, sc, fr.fp, Sp(p, fr, ost), mem, e, fuel))
    decreases fuel, e, 1
  {
    var v := Eval(W, c, sc, fr.fp, Sp(p, fr, ost), mem, e, fuel);
    InstrAt(p, pc, ExprCode(c, sc, e, n).instrs, 0);
    if v.Some? {
      One(p, Running(fr, pc, ost, mem), Running(fr, pc + 1, ost + [v.value.w], mem));
    }
  }

  lemma UnarySim(W: World, p: IrProgram, fr: Frame, c: Ctx, sc: seq<Scope>, mem: Memory, e: Expr, n: nat,
                 pc: nat, ost: seq<Word>, fuel: nat)
    requires Linked(W, p) && e.Unary? && TypeOf(c, sc, e).Some? && At(p, pc, ExprCode(c, sc, e, n).instrs)
    ensures Yields(p, fr, pc, ost, mem, ExprCode(c, sc, e, n).instrs,
                   Eval(W, c, sc, fr.fp, Sp(p, fr, ost), mem, e, fuel))
    decreases fuel, e, 1
  {
    hide Linked, At, InstrIs, Reaches, Step, Rvalue, RvalueCode, UnaryMeaning;
    var a := RvalueCode(c, sc, e.operand, n).instrs;
    SplitLast(p, pc, a, UnaryInstr(e.uop));
    RvalueSim(W, p, fr, c, sc, mem, e.operand, n, pc, ost, fuel);
    var x := Rvalue(W, c, sc, fr.fp, Sp(p, fr, ost), mem, e.operand, fuel);
    if x.Some? {
      UnaryAgrees(e.uop, x.value.w);
      var mid := Running(fr, pc + |a|, ost + [x.value.w], x.value.mem);
      UnaryStep(p, fr, pc + |a|, ost, UnaryInstr(e.uop).uop, x.value.w, x.value.mem);
      Then(p, Running(fr, pc, ost, mem), mid,
           Running(fr, pc + |a| + 1, ost + [UnaryMeaning(e.uop, x.value.w)], x.value.mem));
    }
  }

  /** Two operands in turn leave both words on the stack. */
  lemma PairSim(W: World, p: IrProgram, fr: Frame, c: Ctx, sc: seq<Scope>, mem: Memory, e: Expr, l: Expr, r: Expr,
                n: nat, pc: nat, ost: seq<Word>, fuel: nat, tail: seq<Instr>)
    requires Linked(W, p) && TypeOf(c, sc, l).Some? && TypeOf(c, sc, r).Some? && l < e && r < e
    requires At(p, pc, RvalueCode(c, sc, l, n).instrs
                       + (RvalueCode(c, sc, r, RvalueCode(c, sc, l, n).next).instrs + tail))
    ensures var a := RvalueCode(c, sc, l, n);
            var b := RvalueCode(c, sc, r, a.next);
            var x := Rvalue(W, c, sc, fr.fp, Sp(p, fr, ost), mem, l, fuel);
            At(p, pc + |a.instrs| + |b.instrs|, tail) &&
            (x.Some? ==>
              var y := Rvalue(W, c, sc, fr.fp, Sp(p, fr, ost) - 4, x.value.mem, r, fuel);
              y.Some? ==>
                Reaches(p, Running(fr, pc, ost, mem),
                        Running(fr, pc + |a.instrs| + |b.instrs|, ost + [x.value.w, y.value.w], y.value.mem)))
    decreases fuel, e, 0
  {
    hide Eval, ExprCode, TypeOf, Step, Linked, At, Run, Rvalue;
    var a := RvalueCode(c, sc, l, n);
    var b := RvalueCode(c, sc, r, a.next);
    Split(p, pc, a.instrs, b.instrs + tail);
    Split(p, pc + |a.instrs|, b.instrs, tail);
    RvalueSim(W, p, fr, c, sc, mem, l, n, pc, ost, fuel);
    var x := Rvalue(W, c, sc, fr.fp, Sp(p, fr, ost), mem, l, fuel);
    if x.Some? {
      var pc1, ost1 := pc + |a.instrs|, ost + [x.value.w];
      RvalueSim(W, p, fr, c, sc, x.value.mem, r, a.next, pc1, ost1, fuel);
      var y := Rvalue(W, c, sc, fr.fp, Sp(p, fr, ost) - 4, x.value.mem, r, fuel);
      if y.Some? {
        assert ost1 + [y.value.w] == ost + [x.value.w, y.value.w];
        Trans(p, Running(fr, pc, ost, mem), Running(fr, pc1, ost1, x.value.mem),
              Running(fr, pc1 + |b.instrs|, ost + [x.value.w, y.value.w], y.value.mem));
      }
    }
  }

  lemma BinarySim(W: World, p: IrProgram, fr: Frame, c: Ctx, sc: seq<Scope>, mem: Memory, e: Expr, n: nat,
                  pc: nat, ost: seq<Word>, fuel: nat)
    requires Linked(W, p) && e.Binary? && TypeOf(c, sc, e).Some? && At(p, pc, ExprCode(c, sc, e, n).instrs)
    ensures Yields(p, fr, pc, ost, mem, ExprCode(c, sc, e, n).instrs,
                   Eval(W, c, sc, fr.fp, Sp(p, fr, ost), mem, e, fuel))
    decreases fuel, e, 1
  {
    hide Linked, At, InstrIs, Reaches, Step, Rvalue, RvalueCode, Select, BinaryMeaning, BinaryResult;
    var a := RvalueCode(c, sc, e.left, n);
    var b := RvalueCode(c, sc, e.right, a.next);
    var tail := BinaryInstr(c, sc, e.bop, e.left, e.right);
    PairSim(W, p, fr, c, sc, mem, e, e.left, e.right, n, pc, ost, fuel, tail);
    var v := Eval(W, c, sc, fr.fp, Sp(p, fr, ost), mem, e, fuel);
    if v.Some? {
      var x := Rvalue(W, c, sc, fr.fp, Sp(p, fr, ost), mem, e.left, fuel).value;
      var y := Rvalue(W, c, sc, fr.fp, Sp(p, fr, ost) - 4, x.mem, e.right, fuel).value;
      BinaryAgrees(e.bop, TypeOf(c, sc, e.left).value, TypeOf(c, sc, e.right).value, x.w, y.w);
      var pc1 := pc + |a.instrs| + |b.instrs|;
      InstrAt(p, pc1, tail, 0);
      var mid := Running(fr, pc1, ost + [x.w, y.w], y.mem);
      BinaryStep(p, fr, pc1, ost, tail[0].bop, x.w, y.w, y.mem);
      Then(p, Running(fr, pc, ost, mem), mid, Running(fr, pc1 + 1, ost + [v.value.w], y.mem));
    }
  }

  lemma PointerElement(t: Type, base: Word, i: Word)
    requires !t.ArrayType?
    ensures ElementAddress(t, base, i) == Wrap(base + 4 * Signed(i))
  {
  }

  /** addpi, or push; mul; addpi for an array, from base and index to the element's address. */
  lemma SubscriptTail(W: World, p: IrProgram, fr: Frame, c: Ctx, sc: seq<Scope>, b: Expr, t: Type, x: Word, y: Word,
                      mem: Memory, pc: nat, ost: seq<Word>)
    requires Linked(W, p) && TypeOf(c, sc, b) == Some(t) && !t.IntType?
    requires t.ArrayType? ==> Sp(p, fr, ost) - 12 >= p.lo
    requires At(p, pc, SubscriptInstrs(c, sc, b))
    ensures Reaches(p, Running(fr, pc, ost + [x, y], mem),
                    Running(fr, pc + |SubscriptInstrs(c, sc, b)|, ost + [ElementAddress(t, x, y)], mem))
  {
    hide Linked, Run, TypeOf, ElementAddress;
    var tail := SubscriptInstrs(c, sc, b);
    var s0 := Running(fr, pc, ost + [x, y], mem);
    assert (ost + [x, y])[..|ost|] == ost;
    InstrAt(p, pc, tail, 0);
    if t.ArrayType? {
      InstrAt(p, pc, tail, 1);
      InstrAt(p, pc, tail, 2);
      var k := Wrap(ElemWords(t.baseType));
      var s1 := Running(fr, pc + 1, ost + [x, y] + [k], mem);
      One(p, s0, s1);
      assert s1.ost[..|ost| + 1] == ost + [x];
      var s2 := Running(fr, pc + 2, ost + [x] + [Wrap(y * k)], mem);
      Then(p, s0, s1, s2);
      assert s2.ost[..|ost|] == ost;
      ElementAgrees(t, x, y);
      Then(p, s0, s2, Running(fr, pc + 3, ost + [ElementAddress(t, x, y)], mem));
    } else {
      ScaledSum(x, y);
      assert ElementAddress(t, x, y) == Wrap(x + 4 * Signed(y)) by { PointerElement(t, x, y); }
      One(p, s0, Running(fr, pc + 1, ost + [ElementAddress(t, x, y)], mem));
    }
  }

  lemma SubscriptSim(W: World, p: IrProgram, fr: Frame, c: Ctx, sc: seq<Scope>, mem: Memory, e: Expr, n: nat,
                     pc: nat, ost: seq<Word>, fuel: nat)
    requires Linked(W, p) && e.Subscript? && TypeOf(c, sc, e).Some? && At(p, pc, ExprCode(c, sc, e, n).instrs)
    ensures Yields(p, fr, pc, ost, mem, ExprCode(c, sc, e, n).instrs,
                   Eval(W, c, sc, fr.fp, Sp(p, fr, ost), mem, e, fuel))
    decreases fuel, e, 1
  {
    hide Run, Rvalue, RvalueCode, Step, ElementAddress, At;
    var a := RvalueCode(c, sc, e.base, n);
    var b := RvalueCode(c, sc, e.index, a.next);
    var tail := SubscriptInstrs(c, sc, e.base);
    PairSim(W, p, fr, c, sc, mem, e, e.base, e.index, n, pc, ost, fuel, tail);
    var v := Eval(W, c, sc, fr.fp, Sp(p, fr, ost), mem, e, fuel);
    if v.Some? {
      var t := TypeOf(c, sc, e.base).value;
      var x := Rvalue(W, c, sc, fr.fp, Sp(p, fr, ost), mem, e.base, fuel).value;
      var y := Rvalue(W, c, sc, fr.fp, Sp(p, fr, ost) - 4, x.mem, e.index, fuel).value;
      var pc1 := pc + |a.instrs| + |b.instrs|;
      SubscriptTail(W, p, fr, c, sc, e.base, t, x.w, y.w, y.mem, pc1, ost);
      Trans(p, Running(fr, pc, ost, mem), Running(fr, pc1, ost + [x.w, y.w], y.mem),
            Running(fr, pc1 + |tail|, ost + [v.value.w], y.mem));
    }
  }

  lemma AssignSim(W: World, p: IrProgram, fr: Frame, c: Ctx, sc: seq<Scope>, mem: Memory, e: Expr, n: nat,
                  pc: nat, ost: seq<Word>, fuel: nat)
    requires Linked(W, p) && e.Assign? && TypeOf(c, sc, e).Some? && At(p, pc, ExprCode(c, sc, e, n).instrs)
    ensures Yields(p, fr, pc, ost, mem, ExprCode(c, sc, e, n).instrs,
                   Eval(W, c, sc, fr.fp, Sp(p, fr, ost), mem, e, fuel))
    decreases fuel, e, 1
  {
    hide Linked, At, InstrIs, Reaches, Step, TypeOf, Rvalue, RvalueCode, Eval, ExprCode;
    AssignTypes(c, sc, e);
    AssignRuns(W, c, sc, fr.fp, Sp(p, fr, ost), mem, e, fuel, n);
    var a := RvalueCode(c, sc, e.rhs, n);
    var b := ExprCode(c, sc, e.lhs, a.next);
    Split(p, pc, a.instrs, b.instrs + [Store]);
    SplitLast(p, pc + |a.instrs|, b.instrs, Store);
    RvalueSim(W, p, fr, c, sc, mem, e.rhs, n, pc, ost, fuel);
    var x := Rvalue(W, c, sc, fr.fp, Sp(p, fr, ost), mem, e.rhs, fuel);
    if x.Some? {
      var s, pc1, ost1 := Running(fr, pc, ost, mem), pc + |a.instrs|, ost + [x.value.w];
      EvalSim(W, p, fr, c, sc, x.value.mem, e.lhs, a.next, pc1, ost1, fuel);
      var y := Eval(W, c, sc, fr.fp, Sp(p, fr, ost) - 4, x.value.mem, e.lhs, fuel);
      if y.Some? && y.value.w in y.value.mem {
        var mid := Running(fr, pc1 + |b.instrs|, ost1 + [y.value.w], y.value.mem);
        Trans(p, s, Running(fr, pc1, ost1, x.value.mem), mid);
        StoreStep(p, fr, pc1 + |b.instrs|, ost1, y.value.w, y.value.mem);
        Then(p, s, mid, Running(fr, pc1 + |b.instrs| + 1, ost1, y.value.mem[y.value.w := Some(x.value.w)]));
      }
    }
  }

  lemma AssignRuns(W: World, c: Ctx, sc: seq<Scope>, fp: int, sp: int, mem: Memory, e: Expr, fuel: nat, n: nat)
    requires e.Assign?
    ensures var v := Rvalue(W, c, sc, fp, sp, mem, e.rhs, fuel);
            Eval(W, c, sc, fp, sp, mem, e, fuel)
            == if v.None? then None
               else
                 var a := Eval(W, c, sc, fp, sp - 4, v.value.mem, e.lhs, fuel);
                 if a.None? || a.value.w !in a.value.mem then None
                 else Some(Value(v.value.w, a.value.mem[a.value.w := Some(v.value.w)]))
    ensures var x := RvalueCode(c, sc, e.rhs, n);
            var y := ExprCode(c, sc, e.lhs, x.next);
            ExprCode(c, sc, e, n) == Code(x.instrs + (y.instrs + [Store]), y.next)
  {
    hide Rvalue, RvalueCode;
  }

  lemma AssignTypes(c: Ctx, sc: seq<Scope>, e: Expr)
    requires e.Assign? && TypeOf(c, sc, e).Some?
    ensures TypeOf(c, sc, e.lhs).Some? && TypeOf(c, sc, e.rhs).Some?
  {
  }

  lemma StoreStep(p: IrProgram, fr: Frame, pc: nat, ost: seq<Word>, a: Word, mem: Memory)
    requires InstrIs(p, pc, Store) && ost != [] && a in mem
    ensures Step(p, Running(fr, pc, ost + [a], mem)) == Some(Running(fr, pc + 1, ost, mem[a := Some(ost[|ost| - 1])]))
  {
    assert (ost + [a])[..|ost|] == ost;
  }

  lemma TernarySim(W: World, p: IrProgram, fr: Frame, c: Ctx, sc: seq<Scope>, mem: Memory, e: Expr, n: nat,
                   pc: nat, ost: seq<Word>, fuel: nat)
    requires Linked(W, p) && e.Ternary? && TypeOf(c, sc, e).Some? && At(p, pc, ExprCode(c, sc, e, n).instrs)
    ensures Yields(p, fr, pc, ost, mem, ExprCode(c, sc, e, n).instrs,
                   Eval(W, c, sc, fr.fp, Sp(p, fr, ost), mem, e, fuel))
    decreases fuel, e, 1
  {
    hide At, InstrIs, UniqueMarks, Linked, Reaches, Rvalue, RvalueCode, TernaryInstrs, TypeOf;
    TernaryUnfolds(c, sc, e, n);
    var m := n + 1;
    var t := RvalueCode(c, sc, e.cond, m);
    var a := RvalueCode(c, sc, e.thn, t.next);
    var b := RvalueCode(c, sc, e.els, a.next);
    LinkedMarks(W, p);
    TernaryParts(p, pc, m, t.instrs, a.instrs, b.instrs);
    var pc1 := pc + |t.instrs|;
    var pc2 := pc1 + 1 + |a.instrs|;
    var pc3 := pc2 + 2 + |b.instrs|;
    RvalueSim(W, p, fr, c, sc, mem, e.cond, m, pc, ost, fuel);
    var v := Eval(W, c, sc, fr.fp, Sp(p, fr, ost), mem, e, fuel);
    if v.Some? {
      var x := Rvalue(W, c, sc, fr.fp, Sp(p, fr, ost), mem, e.cond, fuel).value;
      var s := Running(fr, pc, ost, mem);
      var top := ost + [v.value.w];
      BranchStep(p, s, fr, pc1, ost, x.w, x.mem, ElseTer(m), true, pc2 + 1);
      if x.w != 0 {
        RvalueSim(W, p, fr, c, sc, x.mem, e.thn, t.next, pc1 + 1, ost, fuel);
        Trans(p, s, Running(fr, pc1 + 1, ost, x.mem), Running(fr, pc2, top, v.value.mem));
        JumpStep(p, s, fr, pc2, top, v.value.mem, EndTer(m), pc3);
      } else {
        MarkStep(p, s, fr, pc2 + 1, ost, x.mem, ElseTer(m));
        RvalueSim(W, p, fr, c, sc, x.mem, e.els, a.next, pc2 + 2, ost, fuel);
        Trans(p, s, Running(fr, pc2 + 2, ost, x.mem), Running(fr, pc3, top, v.value.mem));
      }
      MarkStep(p, s, fr, pc3, top, v.value.mem, EndTer(m));
    }
  }

  // ----- calls -----

  function Reverse(ws: seq<Word>): seq<Word> {
    seq(|ws|, i requires 0 <= i < |ws| => ws[|ws| - 1 - i])
  }

  lemma ReverseNone(ost: seq<Word>)
    ensures ost + Reverse([]) == ost
  {
  }

  lemma ReverseLast(ost: seq<Word>, w: Word, ws: seq<Word>)
    ensures (ost + [w]) + Reverse(ws) == ost + Reverse(ws + [w])
  {
  }

  lemma ArgsSim(W: World, p: IrProgram, fr: Frame, c: Ctx, sc: seq<Scope>, mem: Memory, args: seq<Expr>, types: seq<Type>,
                n: nat, pc: nat, ost: seq<Word>, fuel: nat)
    requires Linked(W, p) && |args| == |types| && ArgsOk(c, sc, args, types)
    requires At(p, pc, ArgsCode(c, sc, args, n).instrs)
    ensures var r := EvalArgs(W, c, sc, fr.fp, Sp(p, fr, ost), mem, args, fuel);
            r.Some? ==> Reaches(p, Running(fr, pc, ost, mem),
                                Running(fr, pc + |ArgsCode(c, sc, args, n).instrs|, ost + Reverse(r.value.ws), r.value.mem))
    decreases fuel, args, 0
  {
    hide Linked, At, Reaches, Rvalue, RvalueCode, TypeOf, Reverse;
    ReverseNone(ost);
    var r := EvalArgs(W, c, sc, fr.fp, Sp(p, fr, ost), mem, args, fuel);
    if args == [] {
      Here(p, Running(fr, pc, ost, mem));
    } else if r.Some? {
      var last := |args| - 1;
      var a := RvalueCode(c, sc, args[last], n);
      var b := ArgsCode(c, sc, args[..last], a.next);
      Split(p, pc, a.instrs, b.instrs);
      RvalueSim(W, p, fr, c, sc, mem, args[last], n, pc, ost, fuel);
      var x := Rvalue(W, c, sc, fr.fp, Sp(p, fr, ost), mem, args[last], fuel).value;
      var pc1, ost1 := pc + |a.instrs|, ost + [x.w];
      ArgsSim(W, p, fr, c, sc, x.mem, args[..last], types[..last], a.next, pc1, ost1, fuel);
      var y := EvalArgs(W, c, sc, fr.fp, Sp(p, fr, ost) - 4, x.mem, args[..last], fuel).value;
      ReverseLast(ost, x.w, y.ws);
      Trans(p, Running(fr, pc, ost, mem), Running(fr, pc1, ost1, x.mem),
            Running(fr, pc1 + |b.instrs|, ost + Reverse(r.value.ws), r.value.mem));
    }
  }

  lemma CallSim(W: World, p: IrProgram, fr: Frame, c: Ctx, sc: seq<Scope>, mem: Memory, e: Expr, n: nat,
                pc: nat, ost: seq<Word>, fuel: nat)
    requires Linked(W, p) && e.Call? && TypeOf(c, sc, e).Some? && At(p, pc, ExprCode(c, sc, e, n).instrs)
    ensures Yields(p, fr, pc, ost, mem, ExprCode(c, sc, e, n).instrs,
                   Eval(W, c, sc, fr.fp, Sp(p, fr, ost), mem, e, fuel))
    decreases fuel, e, 1
  {
    hide At, Linked, Run, Step, Invoke, EntryState, Reverse, Reaches;
    var a := ArgsCode(c, sc, e.args, n);
    var argc := |e.args|;
    SplitLast(p, pc, a.instrs, CallF(e.name, argc));
    ArgsSim(W, p, fr, c, sc, mem, e.args, c.funcs[e.name].paramTypes, n, pc, ost, fuel);
    var v := Eval(W, c, sc, fr.fp, Sp(p, fr, ost), mem, e, fuel);
    if v.Some? {
      var pc1 := pc + |a.instrs|;
      var x := EvalArgs(W, c, sc, fr.fp, Sp(p, fr, ost), mem, e.args, fuel).value;
      var s := Running(fr, pc, ost, mem);
      var fp := Sp(p, fr, ost) - 4 * argc;
      var fr1 := Frame(e.name, fp, argc, Back(pc1 + 1, ost, fr));
      EnterSim(W, p, fr, pc1, ost, e.name, x.ws, x.mem, fuel - 1);
      Trans(p, s, Running(fr, pc1, ost + Reverse(x.ws), x.mem), EntryState(W, p, fr1, e.name, x.ws, x.mem));
      BodySim(W, p, fr1, e.name, x.ws, x.mem, fuel - 1);
      Trans(p, s, EntryState(W, p, fr1, e.name, x.ws, x.mem), Running(fr, pc1 + 1, ost + [v.value.w], v.value.mem));
    }
  }

  /** At the first instruction of f's body, its parameters and slots just added to memory. */
  function EntryState(W: World, p: IrProgram, fr: Frame, f: string, ws: seq<Word>, mem: Memory): State
    requires f in W.funcs
  {
    Running(fr, p.Entry(f), [], EnterFrame(mem, fr.fp, W.funcs[f].Slots(), ws))
  }

  /** The call instruction enters a defined invocation. */
  lemma EnterSim(W: World, p: IrProgram, fr: Frame, pc: nat, ost: seq<Word>, f: string, ws: seq<Word>, mem: Memory, fuel: nat)
    requires Linked(W, p) && InstrIs(p, pc, CallF(f, |ws|))
    requires Invoke(W, f, ws, Sp(p, fr, ost) - 4 * |ws|, mem, fuel).Some?
    ensures f in W.funcs
    ensures Reaches(p, Running(fr, pc, ost + Reverse(ws), mem),
                    EntryState(W, p, Frame(f, Sp(p, fr, ost) - 4 * |ws|, |ws|, Back(pc + 1, ost, fr)), f, ws, mem))
  {
    hide At, Linked, ExecItems, Run, FrameSlots, EnterFrame;
    var full := ost + Reverse(ws);
    LinkedFacts(W, p, f);
    assert PopArgs(full, |ws|) == ws;
    assert full[..|full| - |ws|] == ost;
    One(p, Running(fr, pc, full, mem),
        EntryState(W, p, Frame(f, Sp(p, fr, full), |ws|, Back(pc + 1, ost, fr)), f, ws, mem));
  }

  /** What is left of an activation once its frame is gone: the caller resumes, or the run halts. */
  function AfterReturn(fr: Frame, v: Value): State {
    match fr.link
    case Exit => Halted(v.w, v.mem)
    case Back(pc, saved, caller) => Running(caller, pc, saved + [v.w], v.mem)
  }

  /** From its first instruction, the body of a defined invocation runs until its frame is left. */
  lemma BodySim(W: World, p: IrProgram, fr: Frame, f: string, ws: seq<Word>, mem: Memory, fuel: nat)
    requires Linked(W, p) && fr.func == f && fr.argc == |ws|
    ensures var v := Invoke(W, f, ws, fr.fp, mem, fuel);
            v.Some? ==> Reaches(p, EntryState(W, p, fr, f, ws, mem), AfterReturn(fr, v.value))
    decreases fuel
  {
    hide At, Linked, Run, ItemsCode, ExecItems, ItemsOk, FrameSlots, EnterFrame, LeaveFrame, Reaches;
    var v := Invoke(W, f, ws, fr.fp, mem, fuel);
    if v.Some? {
      var g := W.funcs[f];
      LinkedFacts(W, p, f);
      LinkedBody(W, p, f);
      var code := ItemsCode(g.ctx, ParamEnv(g.params), None, g.body, g.counters).instrs;
      var s := EntryState(W, p, fr, f, ws, mem);
      var sp := Sp(p, fr, []);
      ItemsSim(W, p, fr, g.ctx, ParamEnv(g.params), g.ret, None, s.mem, g.body, g.counters, p.Entry(f), fuel);
      var r := ExecItems(W, g.ctx, ParamEnv(g.params), fr.fp, sp, s.mem, g.body, fuel).value;
      if r.out.Normal? {
        Then(p, s, Running(fr, p.Entry(f) + |code|, [], r.mem), AfterReturn(fr, v.value));
      } else {
        var q: nat :| InstrIs(p, q, Ret) && Reaches(p, s, Running(fr, q, [v.value.w], r.mem));
        Then(p, s, Running(fr, q, [v.value.w], r.mem), AfterReturn(fr, v.value));
      }
    }
  }

  // ----- statements -----

  /** The loop whose number is on top of loopStack has its labels in the program. */
  predicate LoopMarks(p: IrProgram, loop: Option<nat>) {
    loop.Some? ==> p.Target(BreakLoop(loop.value)) < |p.code| && p.Target(ContinueLoop(loop.value)) < |p.code|
  }

  /** Where a defined statement leads: past its code, to a label of the enclosing loop, or to a ret
      with exactly its result on the operand stack.  Otherwise the stack is empty. */
  ghost predicate Ends(p: IrProgram, s: State, fr: Frame, end: nat, loop: Option<nat>, r: Option<Done>) {
    r.Some? ==>
      match r.value.out
      case Normal => Reaches(p, s, Running(fr, end, [], r.value.mem))
      case Broke => loop.Some? && Reaches(p, s, Running(fr, p.Target(BreakLoop(loop.value)), [], r.value.mem))
      case Continued => loop.Some? && Reaches(p, s, Running(fr, p.Target(ContinueLoop(loop.value)), [], r.value.mem))
      case Returned(w) => exists q: nat :: InstrIs(p, q, Ret) && Reaches(p, s, Running(fr, q, [w], r.value.mem))
  }

  /** Reaching a state from which the statement ends well is enough. */
  lemma EndsFrom(p: IrProgram, s: State, t: State, fr: Frame, end: nat, loop: Option<nat>, r: Option<Done>)
    requires Reaches(p, s, t) && Ends(p, t, fr, end, loop, r)
    ensures Ends(p, s, fr, end, loop, r)
  {
    hide Reaches;
    if r.Some? {
      match r.value.out {
        case Normal => Trans(p, s, t, Running(fr, end, [], r.value.mem));
        case Broke => Trans(p, s, t, Running(fr, p.Target(BreakLoop(loop.value)), [], r.value.mem));
        case Continued => Trans(p, s, t, Running(fr, p.Target(ContinueLoop(loop.value)), [], r.value.mem));
        case Returned(w) =>
          var q: nat :| InstrIs(p, q, Ret) && Reaches(p, t, Running(fr, q, [w], r.value.mem));
          Trans(p, s, t, Running(fr, q, [w], r.value.mem));
      }
    }
  }

  lemma EffectSim(W: World, p: IrProgram, fr: Frame, c: Ctx, sc: seq<Scope>, mem: Memory, e: Option<Expr>, n: nat,
                  pc: nat, fuel: nat)
    requires Linked(W, p) && (e.Some? ==> TypeOf(c, sc, e.value).Some?) && At(p, pc, EffectCode(c, sc, e, n).instrs)
    ensures var m := Effect(W, c, sc, fr.fp, Sp(p, fr, []), mem, e, fuel);
            m.Some? ==> Reaches(p, Running(fr, pc, [], mem), Running(fr, pc + |EffectCode(c, sc, e, n).instrs|, [], m.value))
    decreases fuel, e, 1
  {
    hide Linked, At, Run, Eval, ExprCode, TypeOf;
    if e.None? {
      Here(p, Running(fr, pc, [], mem));
    } else {
      var a := ExprCode(c, sc, e.value, n).instrs;
      SplitLast(p, pc, a, Pop);
      EvalSim(W, p, fr, c, sc, mem, e.value, n, pc, [], fuel);
      var x := Eval(W, c, sc, fr.fp, Sp(p, fr, []), mem, e.value, fuel);
      if x.Some? {
        Then(p, Running(fr, pc, [], mem), Running(fr, pc + |a|, [] + [x.value.w], x.value.mem),
             Running(fr, pc + |a| + 1, [], x.value.mem));
      }
    }
  }

  /** The initialiser's word goes to the slot and off the stack. */
  lemma InitTail(p: IrProgram, fr: Frame, offset: int, w: Word, mem: Memory, pc: nat)
    requires At(p, pc, [FrameAddr(offset), Store, Pop]) && Sp(p, fr, []) - 8 >= p.lo
    requires Wrap(fr.fp - 12 - 4 * offset) in mem
    ensures Reaches(p, Running(fr, pc, [w], mem),
                    Running(fr, pc + 3, [], mem[Wrap(fr.fp - 12 - 4 * offset) := Some(w)]))
  {
    hide Run, Reaches, At;
    var tail := [FrameAddr(offset), Store, Pop];
    var a := Wrap(fr.fp - 12 - 4 * offset);
    InstrAt(p, pc, tail, 0);
    InstrAt(p, pc, tail, 1);
    InstrAt(p, pc, tail, 2);
    var s := Running(fr, pc, [w], mem);
    One(p, s, Running(fr, pc + 1, [w] + [a], mem));
    Then(p, s, Running(fr, pc + 1, [w] + [a], mem), Running(fr, pc + 2, [w], mem[a := Some(w)]));
    Then(p, s, Running(fr, pc + 2, [w], mem[a := Some(w)]), Running(fr, pc + 3, [], mem[a := Some(w)]));
  }

  lemma DeclSim(W: World, p: IrProgram, fr: Frame, c: Ctx, env: Env, mem: Memory, d: Decl, n: nat, pc: nat, fuel: nat)
    requires Linked(W, p) && env.scopes != [] && DeclOk(c, env, d) && At(p, pc, DeclCode(c, env, d, n).instrs)
    ensures var m := Declare(W, c, env, fr.fp, Sp(p, fr, []), mem, d, fuel);
            m.Some? ==> Reaches(p, Running(fr, pc, [], mem), Running(fr, pc + |DeclCode(c, env, d, n).instrs|, [], m.value))
    decreases fuel, d, 1
  {
    hide At, Run, Step, Rvalue, RvalueCode, TypeOf, Reaches;
    var s := Running(fr, pc, [], mem);
    if d.Var? && d.init.Some? {
      var sc := DeclEnv(env, d).scopes;
      var e := d.init.value;
      var a := RvalueCode(c, sc, e, n).instrs;
      var tail := [FrameAddr(env.localCntr), Store, Pop];
      Split(p, pc, a, tail);
      RvalueSim(W, p, fr, c, sc, mem, e, n, pc, [], fuel);
      var m := Declare(W, c, env, fr.fp, Sp(p, fr, []), mem, d, fuel);
      if m.Some? {
        var x := Rvalue(W, c, sc, fr.fp, Sp(p, fr, []), mem, e, fuel).value;
        assert [] + [x.w] == [x.w];
        InitTail(p, fr, env.localCntr, x.w, x.mem, pc + |a|);
        Trans(p, s, Running(fr, pc + |a|, [x.w], x.mem), Running(fr, pc + |a| + 3, [], m.value));
      }
    } else {
      Here(p, s);
    }
  }

  lemma ExecSim(W: World, p: IrProgram, fr: Frame, c: Ctx, env: Env, ret: Type, loop: Option<nat>, mem: Memory,
                s: Stmt, k: Counters, pc: nat, fuel: nat)
    requires Linked(W, p) && env.scopes != [] && LoopMarks(p, loop)
    requires StmtOk(c, env, ret, loop.Some?, s) && At(p, pc, CodeOf(c, env, loop, s, k).instrs)
    ensures Ends(p, Running(fr, pc, [], mem), fr, pc + |CodeOf(c, env, loop, s, k).instrs|, loop,
                 Exec(W, c, env, fr.fp, Sp(p, fr, []), mem, s, fuel))
    decreases fuel, s, 1
  {
    hide Linked, At, Reaches, LoopMarks, TypeOf, IsInt, EffectCode, Effect, ItemsOk, ItemsCode, ExecItems;
    match s {
      case Return(_) => ReturnSim(W, p, fr, c, env, ret, loop, mem, s, k, pc, fuel);
      case Break => JumpSim(p, fr, W, c, env, loop, mem, s, k, pc, fuel);
      case Continue => JumpSim(p, fr, W, c, env, loop, mem, s, k, pc, fuel);
      case ExprStmt(e) => EffectSim(W, p, fr, c, env.scopes, mem, e, k.labels, pc, fuel);
      case If(_, _, _) => IfSim(W, p, fr, c, env, ret, loop, mem, s, k, pc, fuel);
      case Block(items) => ItemsSim(W, p, fr, c, OpenScope(env), ret, loop, mem, items, k, pc, fuel);
      case For(_, _, _, _, _) => ForSim(W, p, fr, c, env, ret, loop, mem, s, k, pc, fuel);
      case While(_, _) => WhileSim(W, p, fr, c, env, ret, loop, mem, s, k, pc, fuel);
      case DoWhile(_, _) => WhileSim(W, p, fr, c, env, ret, loop, mem, s, k, pc, fuel);
    }
  }

  lemma ReturnSim(W: World, p: IrProgram, fr: Frame, c: Ctx, env: Env, ret: Type, loop: Option<nat>, mem: Memory,
                  s: Stmt, k: Counters, pc: nat, fuel: nat)
    requires Linked(W, p) && env.scopes != []
    requires s.Return? && StmtOk(c, env, ret, loop.Some?, s) && At(p, pc, CodeOf(c, env, loop, s, k).instrs)
    ensures Ends(p, Running(fr, pc, [], mem), fr, pc + |CodeOf(c, env, loop, s, k).instrs|, loop,
                 Exec(W, c, env, fr.fp, Sp(p, fr, []), mem, s, fuel))
    decreases fuel, s, 0
  {
    hide Linked, At, InstrIs, Rvalue, RvalueCode, TypeOf, Reaches;
    var a := RvalueCode(c, env.scopes, s.result, k.labels).instrs;
    SplitLast(p, pc, a, Ret);
    RvalueSim(W, p, fr, c, env.scopes, mem, s.result, k.labels, pc, [], fuel);
    var v := Rvalue(W, c, env.scopes, fr.fp, Sp(p, fr, []), mem, s.result, fuel);
    assert v.Some? ==> [] + [v.value.w] == [v.value.w];
  }

  lemma JumpSim(p: IrProgram, fr: Frame, W: World, c: Ctx, env: Env, loop: Option<nat>, mem: Memory, s: Stmt, k: Counters, pc: nat, fuel: nat)
    requires env.scopes != [] && LoopMarks(p, loop)
    requires (s.Break? || s.Continue?) && loop.Some? && At(p, pc, CodeOf(c, env, loop, s, k).instrs)
    ensures Ends(p, Running(fr, pc, [], mem), fr, pc + |CodeOf(c, env, loop, s, k).instrs|, loop,
                 Exec(W, c, env, fr.fp, Sp(p, fr, []), mem, s, fuel))
  {
    hide At, InstrIs, Reaches;
    var l := if s.Break? then BreakLoop(loop.value) else ContinueLoop(loop.value);
    InstrAt(p, pc, [Br(l)], 0);
    GoStep(p, fr, pc, mem, l);
  }

  lemma GoStep(p: IrProgram, fr: Frame, pc: nat, mem: Memory, l: Label)
    requires InstrIs(p, pc, Br(l)) && p.Target(l) < |p.code|
    ensures Reaches(p, Running(fr, pc, [], mem), Running(fr, p.Target(l), [], mem))
  {
    hide Run, Reaches;
    One(p, Running(fr, pc, [], mem), Running(fr, p.Target(l), [], mem));
  }

  /** A statement that ends just before a label also ends just after it. */
  lemma FinishAtMark(p: IrProgram, s: State, fr: Frame, pc: nat, loop: Option<nat>, r: Option<Done>, l: Label)
    requires Ends(p, s, fr, pc, loop, r) && InstrIs(p, pc, Mark(l))
    ensures Ends(p, s, fr, pc + 1, loop, r)
  {
    hide Reaches;
    if r.Some? && r.value.out.Normal? {
      MarkStep(p, s, fr, pc, [], r.value.mem, l);
    }
  }

  lemma IfSim(W: World, p: IrProgram, fr: Frame, c: Ctx, env: Env, ret: Type, loop: Option<nat>, mem: Memory,
              s: Stmt, k: Counters, pc: nat, fuel: nat)
    requires Linked(W, p) && env.scopes != [] && LoopMarks(p, loop)
    requires s.If? && StmtOk(c, env, ret, loop.Some?, s) && At(p, pc, CodeOf(c, env, loop, s, k).instrs)
    ensures Ends(p, Running(fr, pc, [], mem), fr, pc + |CodeOf(c, env, loop, s, k).instrs|, loop,
                 Exec(W, c, env, fr.fp, Sp(p, fr, []), mem, s, fuel))
    decreases fuel, s, 0
  {
    hide At, InstrIs, UniqueMarks, Linked, Rvalue, RvalueCode, IfInstrs, IfElseInstrs, TypeOf, CodeOf, StmtEnv, Reaches, Exec, StmtOk;
    IfUnfolds(c, env, loop, s, k);
    IfChecks(c, env, ret, loop.Some?, s);
    IfRuns(W, c, env, fr.fp, Sp(p, fr, []), mem, s, fuel);
    LinkedMarks(W, p);
    var x := RvalueCode(c, env.scopes, s.cond, k.labels + 1);
    var m := x.next;
    var y := CodeOf(c, env, loop, s.thn, k.(labels := m));
    var z := if s.els.None? then StmtCode([], y.next) else CodeOf(c, StmtEnv(env, s.thn), loop, s.els.value, y.next);
    var pc1 := pc + |x.instrs|;
    var pc2 := pc1 + 1 + |y.instrs|;
    var end := if s.els.None? then pc2 else pc2 + 2 + |z.instrs|;
    if s.els.None? {
      IfParts(p, pc, m, x.instrs, y.instrs);
    } else {
      IfElseParts(p, pc, m, x.instrs, y.instrs, z.instrs);
    }
    RvalueSim(W, p, fr, c, env.scopes, mem, s.cond, k.labels + 1, pc, [], fuel);
    var v := Rvalue(W, c, env.scopes, fr.fp, Sp(p, fr, []), mem, s.cond, fuel);
    if v.Some? {
      var st := Running(fr, pc, [], mem);
      BranchStep(p, st, fr, pc1, [], v.value.w, v.value.mem, if s.els.None? then EndIf(m) else ElseIf(m), true,
                 if s.els.None? then pc2 else pc2 + 1);
      if v.value.w != 0 {
        ExecSim(W, p, fr, c, env, ret, loop, v.value.mem, s.thn, k.(labels := m), pc1 + 1, fuel);
        var r := Exec(W, c, env, fr.fp, Sp(p, fr, []), v.value.mem, s.thn, fuel);
        EndsFrom(p, st, Running(fr, pc1 + 1, [], v.value.mem), fr, pc2, loop, r);
        if s.els.Some? && r.Some? && r.value.out.Normal? {
          JumpStep(p, st, fr, pc2, [], r.value.mem, EndIf(m), end);
        }
        assert Ends(p, st, fr, end, loop, r);
        FinishAtMark(p, st, fr, end, loop, r, EndIf(m));
      } else if s.els.Some? {
        MarkStep(p, st, fr, pc2 + 1, [], v.value.mem, ElseIf(m));
        ExecSim(W, p, fr, c, StmtEnv(env, s.thn), ret, loop, v.value.mem, s.els.value, y.next, pc2 + 2, fuel);
        var r := Exec(W, c, StmtEnv(env, s.thn), fr.fp, Sp(p, fr, []), v.value.mem, s.els.value, fuel);
        EndsFrom(p, st, Running(fr, pc2 + 2, [], v.value.mem), fr, end, loop, r);
        FinishAtMark(p, st, fr, end, loop, r, EndIf(m));
      } else {
        MarkStep(p, st, fr, pc2, [], v.value.mem, EndIf(m));
      }
    }
  }

  lemma IfRuns(W: World, c: Ctx, env: Env, fp: int, sp: int, mem: Memory, s: Stmt, fuel: nat)
    requires env.scopes != [] && s.If?
    ensures var v := Rvalue(W, c, env.scopes, fp, sp, mem, s.cond, fuel);
            Exec(W, c, env, fp, sp, mem, s, fuel)
            == if v.None? then None
               else if v.value.w != 0 then Exec(W, c, env, fp, sp, v.value.mem, s.thn, fuel)
               else if s.els.Some? then Exec(W, c, StmtEnv(env, s.thn), fp, sp, v.value.mem, s.els.value, fuel)
               else Some(Done(Normal, v.value.mem))
  {
    hide Rvalue, StmtEnv;
  }

  /** The rest of a round after the body and its continue label: step, jump back, next round. */
  function NextRound(W: World, c: Ctx, env: Env, fp: int, sp: int, mem: Memory,
                     test: Option<Expr>, body: Stmt, post: Option<Expr>, fuel: nat): Option<Done>
    requires env.scopes != []
  {
    var m := Effect(W, c, env.scopes, fp, sp, mem, post, fuel);
    if m.None? || fuel == 0 then None else Loop(W, c, env, fp, sp, m.value, test, body, post, fuel - 1)
  }

  /** What a loop makes of the outcome of its body. */
  function AfterBody(W: World, c: Ctx, env: Env, fp: int, sp: int, r: Option<Done>,
                     test: Option<Expr>, body: Stmt, post: Option<Expr>, fuel: nat): Option<Done>
    requires env.scopes != []
  {
    if r.None? then None
    else match r.value.out
      case Returned(_) => r
      case Broke => Some(Done(Normal, r.value.mem))
      case _ => NextRound(W, c, env, fp, sp, r.value.mem, test, body, post, fuel)
  }

  lemma LoopUnfolds(W: World, c: Ctx, env: Env, fp: int, sp: int, mem: Memory,
                    test: Option<Expr>, body: Stmt, post: Option<Expr>, fuel: nat)
    requires env.scopes != []
    ensures var v := Test(W, c, env.scopes, fp, sp, mem, test, fuel);
            Loop(W, c, env, fp, sp, mem, test, body, post, fuel)
            == if v.None? then None
               else if v.value.w == 0 then Some(Done(Normal, v.value.mem))
               else AfterBody(W, c, env, fp, sp, Exec(W, c, env, fp, sp, v.value.mem, body, fuel), test, body, post, fuel)
  {
    hide Test, Exec, Effect;
  }

  /** Where the parts of loop m lie: body up to pc2, step up to pc3. */
  ghost predicate LoopLies(p: IrProgram, c: Ctx, env: Env, test: Option<Expr>, body: Stmt, post: Option<Expr>, m: nat, k: nat,
                           pc: nat, pc2: nat, pc3: nat)
    requires env.scopes != []
  {
    var t := TestCode(c, env.scopes, test, BreakLoop(m), k);
    var x := CodeOf(c, env, Some(m), body, Counters(t.next, m + 1));
    var q := EffectCode(c, env.scopes, post, x.next.labels);
    && At(p, pc, LoopCode(c, env, test, body, post, m, k).instrs)
    && pc2 == pc + 1 + |t.instrs| + |x.instrs| && pc3 == pc2 + 1 + |q.instrs|
    && pc3 + 2 == pc + |LoopCode(c, env, test, body, post, m, k).instrs|
    && InstrIs(p, pc, Mark(BeginLoop(m))) && At(p, pc + 1, t.instrs) && At(p, pc + 1 + |t.instrs|, x.instrs)
    && InstrIs(p, pc2, Mark(ContinueLoop(m))) && At(p, pc2 + 1, q.instrs)
    && InstrIs(p, pc3, Br(BeginLoop(m))) && InstrIs(p, pc3 + 1, Mark(BreakLoop(m)))
  }

  lemma LoopLiesAt(p: IrProgram, c: Ctx, env: Env, test: Option<Expr>, body: Stmt, post: Option<Expr>, m: nat, k: nat, pc: nat)
    returns (pc2: nat, pc3: nat)
    requires env.scopes != [] && At(p, pc, LoopCode(c, env, test, body, post, m, k).instrs)
    ensures LoopLies(p, c, env, test, body, post, m, k, pc, pc2, pc3)
  {
    hide At, InstrIs, TestCode, CodeOf, EffectCode;
    var t := TestCode(c, env.scopes, test, BreakLoop(m), k);
    var x := CodeOf(c, env, Some(m), body, Counters(t.next, m + 1));
    var q := EffectCode(c, env.scopes, post, x.next.labels);
    LoopParts(p, pc, m, t.instrs, x.instrs, q.instrs);
    pc2 := pc + 1 + |t.instrs| + |x.instrs|;
    pc3 := pc2 + 1 + |q.instrs|;
  }

  /** The back edge: from the continue label of loop m. */
  lemma BackEdgeSim(W: World, p: IrProgram, fr: Frame, c: Ctx, env: Env, ret: Type, loop: Option<nat>, st: State, mem: Memory,
                    test: Option<Expr>, body: Stmt, post: Option<Expr>, m: nat, k: nat, fuel: nat, pc: nat, pc2: nat, pc3: nat)
    requires Linked(W, p) && env.scopes != [] && StmtOk(c, env, ret, true, body)
    requires (test.Some? ==> IsInt(c, env.scopes, test.value)) && (post.Some? ==> TypeOf(c, env.scopes, post.value).Some?)
    requires LoopLies(p, c, env, test, body, post, m, k, pc, pc2, pc3) && Reaches(p, st, Running(fr, pc2, [], mem))
    ensures Ends(p, st, fr, pc3 + 2, loop, NextRound(W, c, env, fr.fp, Sp(p, fr, []), mem, test, body, post, fuel))
    decreases fuel, post, 2
  {
    hide At, InstrIs, UniqueMarks, Linked, Reaches, TypeOf, IsInt, Effect, EffectCode, TestCode, CodeOf, LoopCode, StmtOk, Loop, Ends;
    LinkedMarks(W, p);
    MarkStep(p, st, fr, pc2, [], mem, ContinueLoop(m));
    var t := TestCode(c, env.scopes, test, BreakLoop(m), k);
    var n := CodeOf(c, env, Some(m), body, Counters(t.next, m + 1)).next.labels;
    EffectSim(W, p, fr, c, env.scopes, mem, post, n, pc2 + 1, fuel);
    var e := Effect(W, c, env.scopes, fr.fp, Sp(p, fr, []), mem, post, fuel);
    if e.Some? && fuel > 0 {
      Trans(p, st, Running(fr, pc2 + 1, [], mem), Running(fr, pc3, [], e.value));
      JumpStep(p, st, fr, pc3, [], e.value, BeginLoop(m), pc);
      LoopSim(W, p, fr, c, env, ret, loop, e.value, test, body, post, m, k, fuel - 1, pc);
      EndsFrom(p, st, Running(fr, pc, [], e.value), fr, pc3 + 2, loop,
               Loop(W, c, env, fr.fp, Sp(p, fr, []), e.value, test, body, post, fuel - 1));
    } else {
      NothingEnds(p, st, fr, pc3 + 2, loop);
    }
  }

  lemma NothingEnds(p: IrProgram, s: State, fr: Frame, end: nat, loop: Option<nat>)
    ensures Ends(p, s, fr, end, loop, None)
  {
  }

  /** The outcome of the body: break leaves the loop, return leaves the function, else another round. */
  lemma BodyOutcomeSim(W: World, p: IrProgram, fr: Frame, c: Ctx, env: Env, ret: Type, loop: Option<nat>, st: State, r: Option<Done>,
                       test: Option<Expr>, body: Stmt, post: Option<Expr>, m: nat, k: nat, fuel: nat, pc: nat, pc2: nat, pc3: nat)
    requires Linked(W, p) && env.scopes != [] && StmtOk(c, env, ret, true, body)
    requires (test.Some? ==> IsInt(c, env.scopes, test.value)) && (post.Some? ==> TypeOf(c, env.scopes, post.value).Some?)
    requires LoopLies(p, c, env, test, body, post, m, k, pc, pc2, pc3) && Ends(p, st, fr, pc2, Some(m), r)
    ensures Ends(p, st, fr, pc3 + 2, loop, AfterBody(W, c, env, fr.fp, Sp(p, fr, []), r, test, body, post, fuel))
    decreases fuel, post, 3
  {
    hide At, InstrIs, UniqueMarks, Linked, Reaches, TypeOf, IsInt, EffectCode, TestCode, CodeOf, LoopCode, StmtOk, NextRound;
    if r.Some? {
      LinkedMarks(W, p);
      TargetIs(p, BreakLoop(m), pc3 + 1);
      TargetIs(p, ContinueLoop(m), pc2);
      if r.value.out.Broke? {
        MarkStep(p, st, fr, pc3 + 1, [], r.value.mem, BreakLoop(m));
      } else if !r.value.out.Returned? {
        BackEdgeSim(W, p, fr, c, env, ret, loop, st, r.value.mem, test, body, post, m, k, fuel, pc, pc2, pc3);
      }
    }
  }

  /** for and while, from the begin label of loop m past its break label. */
  lemma LoopSim(W: World, p: IrProgram, fr: Frame, c: Ctx, env: Env, ret: Type, loop: Option<nat>, mem: Memory,
                test: Option<Expr>, body: Stmt, post: Option<Expr>, m: nat, k: nat, fuel: nat, pc: nat)
    requires Linked(W, p) && env.scopes != [] && StmtOk(c, env, ret, true, body)
    requires (test.Some? ==> IsInt(c, env.scopes, test.value)) && (post.Some? ==> TypeOf(c, env.scopes, post.value).Some?)
    requires At(p, pc, LoopCode(c, env, test, body, post, m, k).instrs)
    ensures Ends(p, Running(fr, pc, [], mem), fr, pc + |LoopCode(c, env, test, body, post, m, k).instrs|, loop,
                 Loop(W, c, env, fr.fp, Sp(p, fr, []), mem, test, body, post, fuel))
    decreases fuel
  {
    hide At, InstrIs, UniqueMarks, Linked, Reaches, TypeOf, IsInt, EffectCode, TestCode, CodeOf, LoopCode, StmtOk, Loop, Exec, Test, AfterBody, Ends;
    var pc2, pc3 := LoopLiesAt(p, c, env, test, body, post, m, k, pc);
    var t := TestCode(c, env.scopes, test, BreakLoop(m), k);
    var st := Running(fr, pc, [], mem);
    var sp := Sp(p, fr, []);
    LinkedMarks(W, p);
    LoopUnfolds(W, c, env, fr.fp, sp, mem, test, body, post, fuel);
    Here(p, st);
    MarkStep(p, st, fr, pc, [], mem, BeginLoop(m));
    var v := Test(W, c, env.scopes, fr.fp, sp, mem, test, fuel);
    if v.None? {
      NothingEnds(p, st, fr, pc3 + 2, loop);
    } else {
      var pc1 := pc + 1 + |t.instrs|;
      TestSim(W, p, fr, c, env.scopes, mem, test, BreakLoop(m), k, pc + 1, fuel, pc3 + 1);
      Trans(p, st, Running(fr, pc + 1, [], mem), Running(fr, if v.value.w == 0 then pc3 + 1 else pc1, [], v.value.mem));
      if v.value.w == 0 {
        MarkStep(p, st, fr, pc3 + 1, [], v.value.mem, BreakLoop(m));
        EndsNormally(p, st, fr, pc3 + 2, loop, v.value.mem);
      } else {
        LoopMarksAre(p, m, pc2, pc3 + 1);
        ExecSim(W, p, fr, c, env, ret, Some(m), v.value.mem, body, Counters(t.next, m + 1), pc1, fuel);
        var r := Exec(W, c, env, fr.fp, sp, v.value.mem, body, fuel);
        EndsFrom(p, st, Running(fr, pc1, [], v.value.mem), fr, pc2, Some(m), r);
        BodyOutcomeSim(W, p, fr, c, env, ret, loop, st, r, test, body, post, m, k, fuel, pc, pc2, pc3);
      }
    }
  }

  lemma EndsNormally(p: IrProgram, s: State, fr: Frame, end: nat, loop: Option<nat>, mem: Memory)
    requires Reaches(p, s, Running(fr, end, [], mem))
    ensures Ends(p, s, fr, end, loop, Some(Done(Normal, mem)))
  {
  }

  lemma LoopMarksAre(p: IrProgram, m: nat, i: nat, j: nat)
    requires UniqueMarks(p.code) && InstrIs(p, i, Mark(ContinueLoop(m))) && InstrIs(p, j, Mark(BreakLoop(m)))
    ensures LoopMarks(p, Some(m))
  {
    hide InstrIs, UniqueMarks;
    TargetIs(p, BreakLoop(m), j);
    TargetIs(p, ContinueLoop(m), i);
    MarkInRange(p, BreakLoop(m), j);
    MarkInRange(p, ContinueLoop(m), i);
  }

  lemma MarkInRange(p: IrProgram, l: Label, i: nat)
    requires InstrIs(p, i, Mark(l))
    ensures i < |p.code|
  {
  }

  /** A test falls through when it holds and branches to the exit label when it does not. */
  lemma TestSim(W: World, p: IrProgram, fr: Frame, c: Ctx, sc: seq<Scope>, mem: Memory, e: Option<Expr>, exit: Label,
                n: nat, pc: nat, fuel: nat, i: nat)
    requires Linked(W, p) && (e.Some? ==> IsInt(c, sc, e.value)) && InstrIs(p, i, Mark(exit))
    requires At(p, pc, TestCode(c, sc, e, exit, n).instrs)
    ensures var v := Test(W, c, sc, fr.fp, Sp(p, fr, []), mem, e, fuel);
            v.Some? ==> Reaches(p, Running(fr, pc, [], mem),
                                Running(fr, if v.value.w == 0 then i else pc + |TestCode(c, sc, e, exit, n).instrs|, [], v.value.mem))
    decreases fuel, e, 1
  {
    hide At, InstrIs, UniqueMarks, Linked, Run, Step, Rvalue, RvalueCode, TypeOf;
    if e.None? {
      Here(p, Running(fr, pc, [], mem));
    } else {
      LinkedMarks(W, p);
      var a := RvalueCode(c, sc, e.value, n).instrs;
      SplitLast(p, pc, a, Beqz(exit));
      RvalueSim(W, p, fr, c, sc, mem, e.value, n, pc, [], fuel);
      var v := Rvalue(W, c, sc, fr.fp, Sp(p, fr, []), mem, e.value, fuel);
      if v.Some? {
        BranchStep(p, Running(fr, pc, [], mem), fr, pc + |a|, [], v.value.w, v.value.mem, exit, true, i);
      }
    }
  }

  lemma DoSim(W: World, p: IrProgram, fr: Frame, c: Ctx, env: Env, ret: Type, loop: Option<nat>, mem: Memory,
              body: Stmt, b: Expr, k: Counters, fuel: nat, pc: nat)
    requires Linked(W, p) && env.scopes != [] && StmtOk(c, env, ret, true, body) && IsInt(c, env.scopes, b)
    requires At(p, pc, CodeOf(c, env, loop, DoWhile(body, b), k).instrs)
    ensures Ends(p, Running(fr, pc, [], mem), fr, pc + |CodeOf(c, env, loop, DoWhile(body, b), k).instrs|, loop,
                 DoLoop(W, c, env, fr.fp, Sp(p, fr, []), mem, body, b, fuel))
    decreases fuel
  {
    hide At, InstrIs, UniqueMarks, Linked, Reaches, TypeOf, IsInt, Rvalue, RvalueCode, Exec, DoInstrs, StmtOk, CodeOf, DoLoop, Ends, AfterDoBody;
    DoUnfolds(c, env, loop, DoWhile(body, b), k);
    DoRuns(W, c, env, fr.fp, Sp(p, fr, []), mem, body, b, fuel);
    var m := k.loops;
    var x := CodeOf(c, env, Some(m), body, k.(loops := m + 1));
    var t := RvalueCode(c, env.scopes, b, x.next.labels);
    LinkedMarks(W, p);
    DoParts(p, pc, m, x.instrs, t.instrs);
    var pc2 := pc + 1 + |x.instrs|;
    var pc3 := pc2 + 1 + |t.instrs|;
    var st := Running(fr, pc, [], mem);
    Here(p, st);
    MarkStep(p, st, fr, pc, [], mem, BeginLoop(m));
    LoopMarksAre(p, m, pc2, pc3 + 1);
    ExecSim(W, p, fr, c, env, ret, Some(m), mem, body, k.(loops := m + 1), pc + 1, fuel);
    var r := Exec(W, c, env, fr.fp, Sp(p, fr, []), mem, body, fuel);
    EndsFrom(p, st, Running(fr, pc + 1, [], mem), fr, pc2, Some(m), r);
    DoOutcomeSim(W, p, fr, c, env, ret, loop, st, r, body, b, k, fuel, pc, pc2, pc3);
  }

  /** What a do loop makes of the outcome of its body. */
  function AfterDoBody(W: World, c: Ctx, env: Env, fp: int, sp: int, r: Option<Done>, body: Stmt, b: Expr, fuel: nat): Option<Done>
    requires env.scopes != []
  {
    if r.None? then None
    else match r.value.out
      case Returned(_) => r
      case Broke => Some(Done(Normal, r.value.mem))
      case _ =>
        var v := Rvalue(W, c, env.scopes, fp, sp, r.value.mem, b, fuel);
        if v.None? then None
        else if v.value.w == 0 then Some(Done(Normal, v.value.mem))
        else if fuel == 0 then None
        else DoLoop(W, c, env, fp, sp, v.value.mem, body, b, fuel - 1)
  }

  lemma DoRuns(W: World, c: Ctx, env: Env, fp: int, sp: int, mem: Memory, body: Stmt, b: Expr, fuel: nat)
    requires env.scopes != []
    ensures DoLoop(W, c, env, fp, sp, mem, body, b, fuel)
            == AfterDoBody(W, c, env, fp, sp, Exec(W, c, env, fp, sp, mem, body, fuel), body, b, fuel)
  {
    hide Rvalue, Exec;
  }

  /** From the outcome of the body of a do loop on. */
  lemma DoOutcomeSim(W: World, p: IrProgram, fr: Frame, c: Ctx, env: Env, ret: Type, loop: Option<nat>, st: State, r: Option<Done>,
                     body: Stmt, b: Expr, k: Counters, fuel: nat, pc: nat, pc2: nat, pc3: nat)
    requires Linked(W, p) && env.scopes != [] && StmtOk(c, env, ret, true, body) && IsInt(c, env.scopes, b)
    requires At(p, pc, CodeOf(c, env, loop, DoWhile(body, b), k).instrs) && Ends(p, st, fr, pc2, Some(k.loops), r)
    requires var x := CodeOf(c, env, Some(k.loops), body, k.(loops := k.loops + 1));
             var t := RvalueCode(c, env.scopes, b, x.next.labels);
             && pc3 == pc2 + 1 + |t.instrs| && pc3 + 2 == pc + |CodeOf(c, env, loop, DoWhile(body, b), k).instrs|
             && At(p, pc2 + 1, t.instrs)
    requires InstrIs(p, pc, Mark(BeginLoop(k.loops))) && InstrIs(p, pc2, Mark(ContinueLoop(k.loops)))
    requires InstrIs(p, pc3, Bnez(BeginLoop(k.loops))) && InstrIs(p, pc3 + 1, Mark(BreakLoop(k.loops)))
    ensures Ends(p, st, fr, pc3 + 2, loop, AfterDoBody(W, c, env, fr.fp, Sp(p, fr, []), r, body, b, fuel))
    decreases fuel, b, 9
  {
    hide At, InstrIs, UniqueMarks, Linked, Reaches, TypeOf, Rvalue, RvalueCode, CodeOf, StmtOk, DoLoop, DoInstrs;
    if r.Some? {
      var m, mem := k.loops, r.value.mem;
      LinkedMarks(W, p);
      TargetIs(p, BreakLoop(m), pc3 + 1);
      TargetIs(p, ContinueLoop(m), pc2);
      if r.value.out.Broke? {
        MarkStep(p, st, fr, pc3 + 1, [], mem, BreakLoop(m));
      } else if !r.value.out.Returned? {
        MarkStep(p, st, fr, pc2, [], mem, ContinueLoop(m));
        var n := CodeOf(c, env, Some(m), body, k.(loops := m + 1)).next.labels;
        RvalueSim(W, p, fr, c, env.scopes, mem, b, n, pc2 + 1, [], fuel);
        var v := Rvalue(W, c, env.scopes, fr.fp, Sp(p, fr, []), mem, b, fuel);
        if v.Some? {
          Trans(p, st, Running(fr, pc2 + 1, [], mem), Running(fr, pc3, [] + [v.value.w], v.value.mem));
          BranchStep(p, st, fr, pc3, [], v.value.w, v.value.mem, BeginLoop(m), false, pc);
          if v.value.w == 0 {
            MarkStep(p, st, fr, pc3 + 1, [], v.value.mem, BreakLoop(m));
          } else if fuel > 0 {
            DoSim(W, p, fr, c, env, ret, loop, v.value.mem, body, b, k, fuel - 1, pc);
            EndsFrom(p, st, Running(fr, pc, [], v.value.mem), fr, pc3 + 2, loop,
                     DoLoop(W, c, env, fr.fp, Sp(p, fr, []), v.value.mem, body, b, fuel - 1));
          }
        }
      }
    }
  }

  lemma WhileSim(W: World, p: IrProgram, fr: Frame, c: Ctx, env: Env, ret: Type, loop: Option<nat>, mem: Memory,
                 s: Stmt, k: Counters, pc: nat, fuel: nat)
    requires Linked(W, p) && env.scopes != [] && LoopMarks(p, loop)
    requires (s.While? || s.DoWhile?) && StmtOk(c, env, ret, loop.Some?, s) && At(p, pc, CodeOf(c, env, loop, s, k).instrs)
    ensures Ends(p, Running(fr, pc, [], mem), fr, pc + |CodeOf(c, env, loop, s, k).instrs|, loop,
                 Exec(W, c, env, fr.fp, Sp(p, fr, []), mem, s, fuel))
    decreases fuel, s, 0
  {
    hide At, Linked, Reaches, IsInt, LoopInstrs, DoInstrs, LoopMarks;
    if fuel > 0 {
      match s {
        case While(b, body) =>
          LoopSim(W, p, fr, c, env, ret, loop, mem, Some(b), body, None, k.loops, k.labels, fuel - 1, pc);
        case DoWhile(body, b) =>
          DoSim(W, p, fr, c, env, ret, loop, mem, body, b, k, fuel - 1, pc);
      }
    }
  }

  lemma ForSim(W: World, p: IrProgram, fr: Frame, c: Ctx, env: Env, ret: Type, loop: Option<nat>, mem: Memory,
               s: Stmt, k: Counters, pc: nat, fuel: nat)
    requires Linked(W, p) && env.scopes != [] && LoopMarks(p, loop)
    requires s.For? && StmtOk(c, env, ret, loop.Some?, s) && At(p, pc, CodeOf(c, env, loop, s, k).instrs)
    ensures Ends(p, Running(fr, pc, [], mem), fr, pc + |CodeOf(c, env, loop, s, k).instrs|, loop,
                 Exec(W, c, env, fr.fp, Sp(p, fr, []), mem, s, fuel))
    decreases fuel, s, 0
  {
    hide At, Linked, Reaches, TypeOf, IsInt, LoopCode, LoopMarks, EffectCode, Effect, Declare, DeclCode, DeclEnv, DeclOk, Loop, Ends, CodeOf, StmtOk, Exec;
    ForChecks(c, env, ret, loop.Some?, s);
    ForUnfolds(c, env, loop, s, k);
    var m, st, sp := k.loops, Running(fr, pc, [], mem), Sp(p, fr, []);
    ForRuns(W, c, env, fr.fp, sp, mem, s, fuel);
    var env1 := OpenScope(env);
    var env2 := if s.decl.Some? then DeclEnv(env1, s.decl.value) else env1;
    var i := if s.decl.Some? then DeclCode(c, env1, s.decl.value, k.labels) else Code([], k.labels);
    var q := EffectCode(c, env2.scopes, s.pre, i.next);
    var body := LoopCode(c, env2, s.test, s.body, s.post, m, q.next);
    Split(p, pc, i.instrs, q.instrs + body.instrs);
    Split(p, pc + |i.instrs|, q.instrs, body.instrs);
    if s.decl.Some? {
      DeclSim(W, p, fr, c, env1, mem, s.decl.value, k.labels, pc, fuel);
    } else {
      Here(p, st);
    }
    var e := if s.decl.Some? then Declare(W, c, env1, fr.fp, sp, mem, s.decl.value, fuel) else Some(mem);
    var pc1 := pc + |i.instrs|;
    if e.Some? {
      ForTail(W, p, fr, c, env2, ret, loop, st, e.value, s.pre, s.test, s.body, s.post, m, i.next, pc1, fuel);
    } else {
      NothingEnds(p, st, fr, pc1 + |q.instrs| + |body.instrs|, loop);
    }
  }

  /** From the first expression of a for on. */
  lemma ForTail(W: World, p: IrProgram, fr: Frame, c: Ctx, env: Env, ret: Type, loop: Option<nat>, st: State, mem: Memory,
                pre: Option<Expr>, test: Option<Expr>, body: Stmt, post: Option<Expr>, m: nat, n: nat, pc: nat, fuel: nat)
    requires Linked(W, p) && env.scopes != [] && StmtOk(c, env, ret, true, body) && Reaches(p, st, Running(fr, pc, [], mem))
    requires pre.Some? ==> TypeOf(c, env.scopes, pre.value).Some?
    requires (test.Some? ==> IsInt(c, env.scopes, test.value)) && (post.Some? ==> TypeOf(c, env.scopes, post.value).Some?)
    requires var q := EffectCode(c, env.scopes, pre, n);
             At(p, pc, q.instrs) && At(p, pc + |q.instrs|, LoopCode(c, env, test, body, post, m, q.next).instrs)
    ensures var q := EffectCode(c, env.scopes, pre, n);
            var e := Effect(W, c, env.scopes, fr.fp, Sp(p, fr, []), mem, pre, fuel);
            Ends(p, st, fr, pc + |q.instrs| + |LoopCode(c, env, test, body, post, m, q.next).instrs|, loop,
                 if e.None? || fuel == 0 then None else Loop(W, c, env, fr.fp, Sp(p, fr, []), e.value, test, body, post, fuel - 1))
    decreases fuel, pre, 9
  {
    hide At, Linked, Reaches, TypeOf, IsInt, LoopCode, EffectCode, Effect, Loop, Ends, StmtOk;
    var q := EffectCode(c, env.scopes, pre, n);
    var pc2 := pc + |q.instrs|;
    var end := pc2 + |LoopCode(c, env, test, body, post, m, q.next).instrs|;
    EffectSim(W, p, fr, c, env.scopes, mem, pre, n, pc, fuel);
    var e := Effect(W, c, env.scopes, fr.fp, Sp(p, fr, []), mem, pre, fuel);
    if e.Some? && fuel > 0 {
      Trans(p, st, Running(fr, pc, [], mem), Running(fr, pc2, [], e.value));
      LoopSim(W, p, fr, c, env, ret, loop, e.value, test, body, post, m, q.next, fuel - 1, pc2);
      EndsFrom(p, st, Running(fr, pc2, [], e.value), fr, end, loop,
               Loop(W, c, env, fr.fp, Sp(p, fr, []), e.value, test, body, post, fuel - 1));
    } else {
      NothingEnds(p, st, fr, end, loop);
    }
  }

  lemma ForRuns(W: World, c: Ctx, env: Env, fp: int, sp: int, mem: Memory, s: Stmt, fuel: nat)
    requires env.scopes != [] && s.For?
    ensures var env1 := OpenScope(env);
            var env2 := if s.decl.Some? then DeclEnv(env1, s.decl.value) else env1;
            var e := if s.decl.Some? then Declare(W, c, env1, fp, sp, mem, s.decl.value, fuel) else Some(mem);
            Exec(W, c, env, fp, sp, mem, s, fuel)
            == if e.None? then None
               else
                 var e' := Effect(W, c, env2.scopes, fp, sp, e.value, s.pre, fuel);
                 if e'.None? || fuel == 0 then None else Loop(W, c, env2, fp, sp, e'.value, s.test, s.body, s.post, fuel - 1)
  {
    hide Declare, DeclEnv, Effect, Loop;
  }

  lemma ItemSim(W: World, p: IrProgram, fr: Frame, c: Ctx, env: Env, ret: Type, loop: Option<nat>, mem: Memory,
                i: Item, k: Counters, pc: nat, fuel: nat)
    requires Linked(W, p) && env.scopes != [] && LoopMarks(p, loop)
    requires ItemOk(c, env, ret, loop.Some?, i) && At(p, pc, ItemCode(c, env, loop, i, k).instrs)
    ensures Ends(p, Running(fr, pc, [], mem), fr, pc + |ItemCode(c, env, loop, i, k).instrs|, loop,
                 ExecItem(W, c, env, fr.fp, Sp(p, fr, []), mem, i, fuel))
    decreases fuel, i, 2
  {
    hide At, Linked, Reaches, Exec, StmtOk, CodeOf, DeclOk, DeclCode, Declare, LoopMarks;
    match i {
      case StmtItem(s) => ExecSim(W, p, fr, c, env, ret, loop, mem, s, k, pc, fuel);
      case DeclItem(d) => DeclSim(W, p, fr, c, env, mem, d, k.labels, pc, fuel);
    }
  }

  lemma ItemsSim(W: World, p: IrProgram, fr: Frame, c: Ctx, env: Env, ret: Type, loop: Option<nat>, mem: Memory,
                 items: seq<Item>, k: Counters, pc: nat, fuel: nat)
    requires Linked(W, p) && env.scopes != [] && LoopMarks(p, loop)
    requires ItemsOk(c, env, ret, loop.Some?, items) && At(p, pc, ItemsCode(c, env, loop, items, k).instrs)
    ensures Ends(p, Running(fr, pc, [], mem), fr, pc + |ItemsCode(c, env, loop, items, k).instrs|, loop,
                 ExecItems(W, c, env, fr.fp, Sp(p, fr, []), mem, items, fuel))
    decreases fuel, items, 0
  {
    hide At, Linked, Run, Step, ExecItem, ItemOk, ItemCode, LoopMarks, ItemEnv, Reaches;
    var st := Running(fr, pc, [], mem);
    if items == [] {
      Here(p, st);
    } else {
      var x := ItemCode(c, env, loop, items[0], k);
      var env' := ItemEnv(env, items[0]);
      var y := ItemsCode(c, env', loop, items[1..], x.next);
      Split(p, pc, x.instrs, y.instrs);
      ItemSim(W, p, fr, c, env, ret, loop, mem, items[0], k, pc, fuel);
      var r := ExecItem(W, c, env, fr.fp, Sp(p, fr, []), mem, items[0], fuel);
      if r.Some? && r.value.out.Normal? {
        var pc1 := pc + |x.instrs|;
        ItemsSim(W, p, fr, c, env', ret, loop, r.value.mem, items[1..], x.next, pc1, fuel);
        EndsFrom(p, st, Running(fr, pc1, [], r.value.mem), fr, pc1 + |y.instrs|, loop,
                 ExecItems(W, c, env', fr.fp, Sp(p, fr, []), r.value.mem, items[1..], fuel));
      }
    }
  }
}
