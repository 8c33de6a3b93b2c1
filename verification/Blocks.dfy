/** What each run of emitted instructions does to registers and memory. */
module Blocks {
  import opened Wrappers
  import opened Words
  import opened Ir
  import opened RiscV
  import opened Bits
  import opened AsmGen
  import M = IrMachine

  lemma RunThree(g: map<string, int>, i: Asm, j: Asm, k: Asm, v: Rv)
    requires Plain(g, i, v).Some? && Plain(g, j, Plain(g, i, v).value).Some?
    ensures RunBlock(g, [i, j, k], v) == Plain(g, k, Plain(g, j, Plain(g, i, v).value).value)
  {
    hide Plain;
    assert [i, j, k][1..] == [j, k];
    RunBlockTwo(g, j, k, Plain(g, i, v).value);
  }

  lemma PushBlock(g: map<string, int>, r: Reg, v: Rv)
    requires (r == T1 || r == A0) && v.regs.sp >= 4 && v.regs.sp - 4 in v.mem
    ensures RunBlock(g, [Addi(Sp, Sp, -4), Sw(r, 0, Sp)], v)
            == Some(v.(pc := v.pc + 2, regs := v.regs.(sp := v.regs.sp - 4), mem := v.mem[v.regs.sp - 4 := v.regs.Get(r)]))
  {
    RunBlockTwo(g, Addi(Sp, Sp, -4), Sw(r, 0, Sp), v);
  }

  lemma PopBlock(g: map<string, int>, r: Reg, v: Rv)
    requires (r == T1 || r == A0) && v.regs.sp + 4 < TWO_32 && v.regs.sp in v.mem
    ensures RunBlock(g, [Lw(r, 0, Sp), Addi(Sp, Sp, 4)], v)
            == Some(v.(pc := v.pc + 2, regs := v.regs.Set(r, v.mem[v.regs.sp]).(sp := v.regs.sp + 4)))
  {
    RunBlockTwo(g, Lw(r, 0, Sp), Addi(Sp, Sp, 4), v);
  }

  lemma PairBlock(g: map<string, int>, v: Rv)
    requires v.regs.sp + 4 < TWO_32 && v.regs.sp in v.mem && v.regs.sp + 4 in v.mem
    ensures RunBlock(g, LoadPair, v)
            == Some(v.(pc := v.pc + 2, regs := v.regs.(t1 := v.mem[v.regs.sp + 4], t2 := v.mem[v.regs.sp])))
  {
    RunBlockTwo(g, Lw(T1, 4, Sp), Lw(T2, 0, Sp), v);
  }

  lemma ResultBlock(g: map<string, int>, v: Rv)
    requires v.regs.sp + 4 < TWO_32 && v.regs.sp + 4 in v.mem
    ensures RunBlock(g, StoreResult, v)
            == Some(v.(pc := v.pc + 2, regs := v.regs.(sp := v.regs.sp + 4), mem := v.mem[v.regs.sp + 4 := v.regs.t1]))
  {
    RunBlockTwo(g, Addi(Sp, Sp, 4), Sw(T1, 0, Sp), v);
  }

  /** The state after a register computation of n instructions that leaves w in t1. */
  predicate Computes(v: Rv, r: Option<Rv>, n: nat, w: Word) {
    r.Some? && r.value.pc == v.pc + n && r.value.mem == v.mem
    && r.value.regs == v.regs.(t1 := w, t2 := r.value.regs.t2)
  }

  lemma UnaryBlock(g: map<string, int>, op: IrUnary, v: Rv)
    ensures RunBlock(g, [UnaryCode(op)], v)
            == Some(v.(pc := v.pc + 1, regs := v.regs.(t1 := M.UnaryResult(op, v.regs.t1))))
  {
    RunBlockOne(g, UnaryCode(op), v);
    hide RunBlock;
  }

  lemma LogicBlock(g: map<string, int>, op: IrBinary, v: Rv)
    requires op.OrL? || op.AndL?
    ensures Computes(v, RunBlock(g, BinaryCode(op), v), |BinaryCode(op)|, M.BinaryResult(op, v.regs.t1, v.regs.t2).value)
  {
    hide RunBlock, BitsOf, Wrap;
    var x, y := v.regs.t1, v.regs.t2;
    if op.OrL? {
      OrWords(x, y);
      RunBlockTwo(g, R2(Or, T1, T1, T2), R1(Snez, T1, T1), v);
    } else {
      FlagBits(AndBit, Bool(x != 0), Bool(y != 0));
      RunThree(g, R1(Snez, T1, T1), R1(Snez, T2, T2), R2(And, T1, T1, T2), v);
    }
  }

  lemma EqualityBlock(g: map<string, int>, op: IrBinary, v: Rv)
    requires op.EqI? || op.NeqI?
    ensures Computes(v, RunBlock(g, BinaryCode(op), v), |BinaryCode(op)|, M.BinaryResult(op, v.regs.t1, v.regs.t2).value)
  {
    hide RunBlock, BitsOf;
    RunBlockTwo(g, R2(Sub, T1, T1, T2), if op.EqI? then R1(Seqz, T1, T1) else R1(Snez, T1, T1), v);
  }

  lemma StrictBlock(g: map<string, int>, op: IrBinary, v: Rv)
    requires op.LtI? || op.GtI?
    ensures Computes(v, RunBlock(g, BinaryCode(op), v), |BinaryCode(op)|, M.BinaryResult(op, v.regs.t1, v.regs.t2).value)
  {
    hide RunBlock, BitsOf;
    RunBlockOne(g, if op.LtI? then R2(Slt, T1, T1, T2) else R2(Slt, T1, T2, T1), v);
  }

  lemma WeakBlock(g: map<string, int>, op: IrBinary, v: Rv)
    requires op.LeI? || op.GeI?
    ensures Computes(v, RunBlock(g, BinaryCode(op), v), |BinaryCode(op)|, M.BinaryResult(op, v.regs.t1, v.regs.t2).value)
  {
    hide RunBlock, BitsOf;
    var x, y := Signed(v.regs.t1), Signed(v.regs.t2);
    FlagBits(XorBit, Bool(if op.LeI? then y < x else x < y), 1);
    RunBlockTwo(g, if op.LeI? then R2(Slt, T1, T2, T1) else R2(Slt, T1, T1, T2), Xori(T1, T1, 1), v);
  }

  lemma CompareBlock(g: map<string, int>, op: IrBinary, v: Rv)
    requires op.EqI? || op.NeqI? || op.LtI? || op.GtI? || op.LeI? || op.GeI?
    ensures Computes(v, RunBlock(g, BinaryCode(op), v), |BinaryCode(op)|, M.BinaryResult(op, v.regs.t1, v.regs.t2).value)
  {
    hide RunBlock, BinaryCode, Computes;
    if op.EqI? || op.NeqI? {
      EqualityBlock(g, op, v);
    } else if op.LtI? || op.GtI? {
      StrictBlock(g, op, v);
    } else {
      WeakBlock(g, op, v);
    }
  }

  /** Scaling by four before or after the 32-bit reduction. */
  lemma ScaleWraps(x: Word, y: int)
    ensures Pow2(2) == 4
    ensures Wrap(Wrap(x * 4) + y) == Wrap(4 * x + y)
    ensures Wrap(y + Wrap(x * 4)) == Wrap(y + 4 * x)
    ensures Wrap(y - Wrap(x * 4)) == Wrap(y - 4 * x)
  {
    assert Pow2(1) == 2;
    WrapAdd(x * 4, y);
  }

  lemma PointerBlock(g: map<string, int>, op: IrBinary, v: Rv)
    requires op.AddIP? || op.AddPI? || op.SubPI? || op.SubPP?
    ensures Computes(v, RunBlock(g, BinaryCode(op), v), |BinaryCode(op)|, M.BinaryResult(op, v.regs.t1, v.regs.t2).value)
  {
    hide Pow2, RunBlock, Wrap, Signed;
    var x, y := v.regs.t1, v.regs.t2;
    ScaleWraps(x, y);
    ScaleWraps(y, x);
    match op {
      case AddIP => RunBlockTwo(g, Slli(T1, T1, 2), R2(Add, T1, T1, T2), v);
      case AddPI => RunBlockTwo(g, Slli(T2, T2, 2), R2(Add, T1, T1, T2), v);
      case SubPI => RunBlockTwo(g, Slli(T2, T2, 2), R2(Sub, T1, T1, T2), v);
      case SubPP => RunBlockTwo(g, R2(Sub, T1, T1, T2), Srai(T1, T1, 2), v);
    }
  }

  /** The overflow cases of the M extension are what wrapping the exact quotient gives. */
  lemma DivisionAgrees(x: Word, y: Word)
    requires y != 0
    ensures Apply2(Div, x, y) == Wrap(TruncDiv(Signed(x), Signed(y)))
    ensures Apply2(Rem, x, y) == Wrap(Signed(x) - Signed(y) * TruncDiv(Signed(x), Signed(y)))
  {
    if x == TWO_31 && y == TWO_32 - 1 {
      assert Signed(x) == -TWO_31 && Signed(y) == -1;
      assert TruncDiv(-TWO_31, -1) == TWO_31;
    }
  }

  lemma ArithBlock(g: map<string, int>, op: IrBinary, v: Rv)
    requires op.AddI? || op.SubI? || op.MulI? || op.DivI? || op.RemI?
    requires M.BinaryResult(op, v.regs.t1, v.regs.t2).Some?
    ensures Computes(v, RunBlock(g, BinaryCode(op), v), |BinaryCode(op)|, M.BinaryResult(op, v.regs.t1, v.regs.t2).value)
  {
    hide TruncDiv, Wrap, Signed;
    RunBlockOne(g, BinaryCode(op)[0], v);
    if op.DivI? || op.RemI? { DivisionAgrees(v.regs.t1, v.regs.t2); }
  }

  lemma BinaryBlock(g: map<string, int>, op: IrBinary, v: Rv)
    requires M.BinaryResult(op, v.regs.t1, v.regs.t2).Some?
    ensures Computes(v, RunBlock(g, BinaryCode(op), v), |BinaryCode(op)|, M.BinaryResult(op, v.regs.t1, v.regs.t2).value)
  {
    hide BinaryCode, RunBlock, Computes, M.BinaryResult;
    match op {
      case OrL => LogicBlock(g, op, v);
      case AndL => LogicBlock(g, op, v);
      case AddI => ArithBlock(g, op, v);
      case SubI => ArithBlock(g, op, v);
      case MulI => ArithBlock(g, op, v);
      case DivI => ArithBlock(g, op, v);
      case RemI => ArithBlock(g, op, v);
      case AddIP => PointerBlock(g, op, v);
      case AddPI => PointerBlock(g, op, v);
      case SubPI => PointerBlock(g, op, v);
      case SubPP => PointerBlock(g, op, v);
      case _ => CompareBlock(g, op, v);
    }
  }
}
