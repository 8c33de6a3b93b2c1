/** The RV32IM instructions that AsmGen emits, over word memory; labels take up a place and do nothing. */
module RiscV {
  import opened Wrappers
  import opened Words
  import opened Bits
  import opened Ir

  datatype Reg = Ra | Sp | Fp | T1 | T2 | A0

  datatype Regs = Regs(ra: Word, sp: Word, fp: Word, t1: Word, t2: Word, a0: Word) {
    function Get(r: Reg): Word {
      match r case Ra => ra case Sp => sp case Fp => fp case T1 => t1 case T2 => t2 case A0 => a0
    }

    function Set(r: Reg, w: Word): Regs {
      match r
      case Ra => this.(ra := w) case Sp => this.(sp := w) case Fp => this.(fp := w)
      case T1 => this.(t1 := w) case T2 => this.(t2 := w) case A0 => this.(a0 := w)
    }
  }

  datatype AsmLabel = Global(name: string) | Epilogue(name: string) | Local(mark: Label)

  datatype UnOp = Seqz | Snez | Not | NegR
  datatype BinOp = Or | And | Add | Sub | Mul | Div | Rem | Slt

  datatype Asm =
    | Def(l: AsmLabel)
    | Li(rd: Reg, imm: int)
    | La(rd: Reg, symbol: string)
    | Lw(rd: Reg, imm: int, base: Reg)
    | Sw(rs: Reg, imm: int, base: Reg)
    | Addi(rd: Reg, rs: Reg, imm: int)
    | Xori(rd: Reg, rs: Reg, imm: int)
    | Slli(rd: Reg, rs: Reg, imm: int)
    | Srai(rd: Reg, rs: Reg, imm: int)
    | R1(uop: UnOp, rd: Reg, rs: Reg)
    | R2(bop: BinOp, rd: Reg, rs1: Reg, rs2: Reg)
    | J(l: AsmLabel)
    | Jal(l: AsmLabel)
    | Jr(rs: Reg)
    | BranchZero(rs: Reg, l: AsmLabel)
    | BranchNonzero(rs: Reg, l: AsmLabel)

  // ----- the machine -----

  function Apply1(op: UnOp, x: Word): Word {
    match op
    case Seqz => Bool(x == 0)
    case Snez => Bool(x != 0)
    case Not => TWO_32 - 1 - x
    case NegR => Wrap(0 - x)
  }

  /** Division follows the RISC-V M extension: no traps, fixed results for zero and overflow. */
  function Apply2(op: BinOp, x: Word, y: Word): Word {
    match op
    case Or => BitsOf(OrBit, x, y)
    case And => BitsOf(AndBit, x, y)
    case Add => Wrap(x + y)
    case Sub => Wrap(x - y)
    case Mul => Wrap(x * y)
    case Slt => Bool(Signed(x) < Signed(y))
    case Div =>
      if y == 0 then TWO_32 - 1
      else if x == TWO_31 && y == TWO_32 - 1 then TWO_31
      else Wrap(TruncDiv(Signed(x), Signed(y)))
    case Rem =>
      if y == 0 then x
      else if x == TWO_31 && y == TWO_32 - 1 then 0
      else Wrap(Signed(x) - Signed(y) * TruncDiv(Signed(x), Signed(y)))
  }

  datatype Rv = Rv(pc: nat, regs: Regs, mem: map<int, Word>)

  function Next(v: Rv, rd: Reg, w: Word): Option<Rv> {
    Some(v.(pc := v.pc + 1, regs := v.regs.Set(rd, w)))
  }

  /** Instructions without control transfer; None is an access outside memory or an unknown symbol. */
  function Plain(gaddr: map<string, int>, i: Asm, v: Rv): Option<Rv> {
    match i
    case Def(_) => Some(v.(pc := v.pc + 1))
    case Li(rd, imm) => Next(v, rd, Wrap(imm))
    case La(rd, x) => if x in gaddr then Next(v, rd, Wrap(gaddr[x])) else None
    case Lw(rd, imm, b) =>
      var a := Wrap(v.regs.Get(b) + imm);
      if a in v.mem then Next(v, rd, v.mem[a]) else None
    case Sw(rs, imm, b) =>
      var a := Wrap(v.regs.Get(b) + imm);
      if a in v.mem then Some(v.(pc := v.pc + 1, mem := v.mem[a := v.regs.Get(rs)])) else None
    case Addi(rd, rs, imm) => Next(v, rd, Wrap(v.regs.Get(rs) + imm))
    case Xori(rd, rs, imm) => Next(v, rd, BitsOf(XorBit, v.regs.Get(rs), Wrap(imm)))
    case Slli(rd, rs, imm) => if imm < 0 then None else Next(v, rd, Wrap(v.regs.Get(rs) * Pow2(imm)))
    case Srai(rd, rs, imm) => if imm < 0 then None else Next(v, rd, Wrap(Signed(v.regs.Get(rs)) / Pow2(imm)))
    case R1(op, rd, rs) => Next(v, rd, Apply1(op, v.regs.Get(rs)))
    case R2(op, rd, r1, r2) => Next(v, rd, Apply2(op, v.regs.Get(r1), v.regs.Get(r2)))
    case _ => None
  }

  function Goto(asm: seq<Asm>, v: Rv, l: AsmLabel): Option<Rv> {
    var i := Find(asm, Def(l));
    if i < |asm| then Some(v.(pc := i)) else None
  }

  function Step(asm: seq<Asm>, gaddr: map<string, int>, v: Rv): Option<Rv> {
    if v.pc >= |asm| then None
    else match asm[v.pc]
      case J(l) => Goto(asm, v, l)
      case Jal(l) =>
        if v.pc + 1 >= TWO_32 then None else Goto(asm, v.(regs := v.regs.(ra := v.pc + 1)), l)
      case Jr(r) => Some(v.(pc := v.regs.Get(r)))
      case BranchZero(r, l) => if v.regs.Get(r) == 0 then Goto(asm, v, l) else Some(v.(pc := v.pc + 1))
      case BranchNonzero(r, l) => if v.regs.Get(r) != 0 then Goto(asm, v, l) else Some(v.(pc := v.pc + 1))
      case i => Plain(gaddr, i, v)
  }

  function Run(asm: seq<Asm>, gaddr: map<string, int>, v: Rv, n: nat): Option<Rv>
    decreases n
  {
    if n == 0 then Some(v)
    else
      var w := Step(asm, gaddr, v);
      if w.None? then None else Run(asm, gaddr, w.value, n - 1)
  }

  ghost predicate Reaches(asm: seq<Asm>, gaddr: map<string, int>, v: Rv, w: Rv) {
    exists n: nat :: Run(asm, gaddr, v, n) == Some(w)
  }

  lemma {:induction false} RunAppend(asm: seq<Asm>, gaddr: map<string, int>, v: Rv, n: nat, w: Rv, m: nat)
    requires Run(asm, gaddr, v, n) == Some(w)
    ensures Run(asm, gaddr, v, n + m) == Run(asm, gaddr, w, m)
    decreases n
  {
    hide Step;
    if n > 0 { RunAppend(asm, gaddr, Step(asm, gaddr, v).value, n - 1, w, m); }
  }

  lemma Trans(asm: seq<Asm>, gaddr: map<string, int>, u: Rv, v: Rv, w: Rv)
    requires Reaches(asm, gaddr, u, v) && Reaches(asm, gaddr, v, w)
    ensures Reaches(asm, gaddr, u, w)
  {
    var n: nat :| Run(asm, gaddr, u, n) == Some(v);
    var m: nat :| Run(asm, gaddr, v, m) == Some(w);
    RunAppend(asm, gaddr, u, n, v, m);
    assert Run(asm, gaddr, u, n + m) == Some(w);
  }

  lemma Here(asm: seq<Asm>, gaddr: map<string, int>, v: Rv)
    ensures Reaches(asm, gaddr, v, v)
  {
    assert Run(asm, gaddr, v, 0) == Some(v);
  }

  lemma Then(asm: seq<Asm>, gaddr: map<string, int>, u: Rv, v: Rv, w: Rv)
    requires Reaches(asm, gaddr, u, v) && Step(asm, gaddr, v) == Some(w)
    ensures Reaches(asm, gaddr, u, w)
  {
    assert Run(asm, gaddr, w, 0) == Some(w);
    assert Run(asm, gaddr, v, 1) == Some(w);
    Trans(asm, gaddr, u, v, w);
  }

  // ----- straight-line blocks -----

  predicate BlockAt(asm: seq<Asm>, pc: nat, b: seq<Asm>) {
    pc + |b| <= |asm| && asm[pc..pc + |b|] == b
  }

  function RunBlock(gaddr: map<string, int>, b: seq<Asm>, v: Rv): Option<Rv>
    decreases |b|
  {
    if b == [] then Some(v)
    else
      var w := Plain(gaddr, b[0], v);
      if w.None? then None else RunBlock(gaddr, b[1..], w.value)
  }

  lemma BlockSplit(asm: seq<Asm>, pc: nat, a: seq<Asm>, b: seq<Asm>)
    requires BlockAt(asm, pc, a + b)
    ensures BlockAt(asm, pc, a) && BlockAt(asm, pc + |a|, b)
  {
    var w := asm[pc..pc + |a| + |b|];
    assert w[..|a|] == a && w[|a|..] == b;
    assert asm[pc..pc + |a|] == w[..|a|];
    assert asm[pc + |a|..pc + |a| + |b|] == w[|a|..];
  }

  lemma BlockHead(asm: seq<Asm>, pc: nat, b: seq<Asm>)
    requires BlockAt(asm, pc, b) && b != []
    ensures pc < |asm| && asm[pc] == b[0] && BlockAt(asm, pc + 1, b[1..])
  {
    assert asm[pc..pc + |b|][0] == b[0];
    assert [b[0]] + b[1..] == b;
    BlockSplit(asm, pc, [b[0]], b[1..]);
  }

  lemma {:induction false} RunsBlock(asm: seq<Asm>, gaddr: map<string, int>, b: seq<Asm>, v: Rv)
    requires BlockAt(asm, v.pc, b)
    ensures RunBlock(gaddr, b, v).Some? ==>
              Reaches(asm, gaddr, v, RunBlock(gaddr, b, v).value) && RunBlock(gaddr, b, v).value.pc == v.pc + |b|
    decreases |b|
  {
    hide Plain, Run;
    Here(asm, gaddr, v);
    if b != [] {
      BlockHead(asm, v.pc, b);
      var w := Plain(gaddr, b[0], v);
      if w.Some? {
        PlainIsStep(asm, gaddr, v);
        Then(asm, gaddr, v, v, w.value);
        RunsBlock(asm, gaddr, b[1..], w.value);
        if RunBlock(gaddr, b, v).Some? {
          Trans(asm, gaddr, v, w.value, RunBlock(gaddr, b, v).value);
        }
      }
    }
  }

  lemma PlainIsStep(asm: seq<Asm>, gaddr: map<string, int>, v: Rv)
    requires v.pc < |asm| && Plain(gaddr, asm[v.pc], v).Some?
    ensures Step(asm, gaddr, v) == Plain(gaddr, asm[v.pc], v)
    ensures Step(asm, gaddr, v).value.pc == v.pc + 1
  {
  }

  lemma {:induction false} RunBlockAppend(gaddr: map<string, int>, a: seq<Asm>, b: seq<Asm>, v: Rv)
    ensures RunBlock(gaddr, a + b, v)
            == if RunBlock(gaddr, a, v).None? then None else RunBlock(gaddr, b, RunBlock(gaddr, a, v).value)
    decreases |a|
  {
    hide Plain;
    if a == [] {
      assert a + b == b;
    } else {
      assert (a + b)[1..] == a[1..] + b;
      var w := Plain(gaddr, a[0], v);
      if w.Some? { RunBlockAppend(gaddr, a[1..], b, w.value); }
    }
  }

  lemma RunBlockOne(gaddr: map<string, int>, i: Asm, v: Rv)
    ensures RunBlock(gaddr, [i], v) == Plain(gaddr, i, v)
  {
    hide Plain;
  }

  lemma RunBlockTwo(gaddr: map<string, int>, i: Asm, j: Asm, v: Rv)
    requires Plain(gaddr, i, v).Some?
    ensures RunBlock(gaddr, [i, j], v) == Plain(gaddr, j, Plain(gaddr, i, v).value)
  {
    hide Plain;
    assert [i, j][1..] == [j];
    RunBlockOne(gaddr, j, Plain(gaddr, i, v).value);
  }
}
