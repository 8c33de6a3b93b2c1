/** Stage two: every run of the IR machine is a run of the RISC-V code that AsmGen produces. */
module Lowering {
  import opened Wrappers
  import opened Words
  import opened Ir
  import opened Memory
  import opened IrMachine
  import opened ControlFlow
  import opened StackLayout
  import opened AsmGen
  import opened Blocks
  import R = RiscV

  // ----- well-formed IR programs -----

  predicate IsBranch(i: Instr) {
    i.Br? || i.Beqz? || i.Bnez?
  }

  predicate UniqueNames(code: seq<Instr>) {
    forall i, j | 0 <= i < |code| && 0 <= j < |code| && (code[i].Func? || code[i].EndFunc?) && code[i] == code[j] :: i == j
  }

  /** Line i belongs to a function that is closed by its endfunc, flow does not fall into the next
      function, and branches stay inside. */
  predicate LineOk(code: seq<Instr>, i: nat)
    requires i < |code|
  {
    var f := CurFunc(code, i);
    && (!code[i].Func? ==> EndFunc(f) in code)
    && (code[i].EndFunc? ==> code[i].name == f)
    && (!code[i].EndFunc? ==> i + 1 < |code| && !code[i + 1].Func?)
    && (IsBranch(code[i]) ==>
          var t := Find(code, Mark(code[i].target));
          t < |code| && CurFunc(code, t) == f)
  }

  predicate WellFormed(code: seq<Instr>) {
    UniqueMarks(code) && UniqueNames(code) && forall i | 0 <= i < |code| :: LineOk(code, i)
  }

  function Asm(p: IrProgram): seq<R.Asm> {
    Assemble(p.sizes, p.code)
  }

  function Line(p: IrProgram, i: nat): seq<R.Asm>
    requires i < |p.code|
  {
    Expand(p.sizes, CurFunc(p.code, i), p.code[i])
  }

  // ----- positions -----

  lemma {:induction false} LinesPrefix(sizes: map<string, nat>, code: seq<Instr>, n: nat, m: nat)
    requires n <= m <= |code|
    ensures Lines(sizes, code, n) <= Lines(sizes, code, m)
    decreases m - n
  {
    hide Expand;
    if n < m { LinesPrefix(sizes, code, n, m - 1); }
  }

  lemma LineAt(p: IrProgram, i: nat)
    requires i < |p.code|
    ensures R.BlockAt(Asm(p), Off(p, i), Line(p, i))
    ensures Off(p, i + 1) == Off(p, i) + |Line(p, i)| <= |Asm(p)|
  {
    hide Expand;
    LinesPrefix(p.sizes, p.code, i + 1, |p.code|);
    var all := Asm(p);
    var upto := Lines(p.sizes, p.code, i + 1);
    assert upto == Lines(p.sizes, p.code, i) + Line(p, i);
    assert all[..|upto|] == upto;
    assert all[Off(p, i)..Off(p, i) + |Line(p, i)|] == upto[Off(p, i)..];
  }

  lemma {:induction false} Locate(p: IrProgram, n: nat, j: nat) returns (i: nat)
    requires n <= |p.code| && j < Off(p, n)
    ensures i < n && Off(p, i) <= j < Off(p, i + 1)
  {
    hide Expand;
    if j < Off(p, n - 1) {
      i := Locate(p, n - 1, j);
    } else {
      i := n - 1;
    }
  }

  /** The IR line that defines an assembly label, and the place of the label in its expansion. */
  function DefLine(l: R.AsmLabel): Instr {
    match l
    case Global(f) => Func(f)
    case Epilogue(f) => EndFunc(f)
    case Local(m) => Mark(m)
  }

  function DefIndex(l: R.AsmLabel): nat {
    if l.Epilogue? then 3 else 0
  }

  lemma OnlyDef(sizes: map<string, nat>, cur: string, i: Instr, k: nat, l: R.AsmLabel)
    requires k < |Expand(sizes, cur, i)| && Expand(sizes, cur, i)[k] == R.Def(l)
    ensures i == DefLine(l) && k == DefIndex(l)
  {
    if !i.Func? && !i.EndFunc? && !i.Mark? {
      assert false;
    } else {
    }
  }

  lemma DefInLine(sizes: map<string, nat>, cur: string, l: R.AsmLabel)
    ensures var b := Expand(sizes, cur, DefLine(l)); DefIndex(l) < |b| && b[DefIndex(l)] == R.Def(l)
  {
  }

  /** Every label is found where its line puts it. */
  lemma LabelPosition(p: IrProgram, l: R.AsmLabel, i: nat)
    requires WellFormed(p.code) && i < |p.code| && p.code[i] == DefLine(l)
    ensures Find(Asm(p), R.Def(l)) == Off(p, i) + DefIndex(l) < |Asm(p)|
  {
    hide Expand, LineOk;
    var asm := Asm(p);
    LineAt(p, i);
    DefInLine(p.sizes, CurFunc(p.code, i), l);
    var k := Off(p, i) + DefIndex(l);
    assert asm[Off(p, i)..Off(p, i) + |Line(p, i)|][DefIndex(l)] == asm[k];
    assert asm[k] in asm;
    var j := Find(asm, R.Def(l));
    var i' := Locate(p, |p.code|, j);
    LineAt(p, i');
    assert asm[Off(p, i')..Off(p, i') + |Line(p, i')|][j - Off(p, i')] == asm[j];
    OnlyDef(p.sizes, CurFunc(p.code, i'), p.code[i'], j - Off(p, i'), l);
  }

  // ----- simulation -----

  predicate InBody(p: IrProgram, fr: Frame, pc: nat) {
    pc < |p.code| && !p.code[pc].Func? && CurFunc(p.code, pc) == fr.func
  }

  /** The machine state that represents an IR state. */
  ghost predicate Match(p: IrProgram, boot: Boot, s: State, v: R.Rv) {
    match s
    case Halted(w, mem) =>
      v.pc == boot.ra && v.regs.a0 == w && v.regs.sp == boot.sp && v.regs.fp == boot.fp && v.regs.ra == boot.ra
      && VarsAgree(mem, v.mem)
    case Running(fr, pc, ost, mem) =>
      InBody(p, fr, pc) && v.pc == Off(p, pc) && Holds(p, boot, fr, ost, mem, v.regs.fp, v.regs.sp, v.mem)
  }

  ghost predicate Matched(p: IrProgram, boot: Boot, v: R.Rv, s: State) {
    exists v' :: R.Reaches(Asm(p), p.gaddr, v, v') && Match(p, boot, s, v')
  }

  lemma MatchedBy(p: IrProgram, boot: Boot, v: R.Rv, v': R.Rv, s: State)
    requires R.Reaches(Asm(p), p.gaddr, v, v') && Match(p, boot, s, v')
    ensures Matched(p, boot, v, s)
  {
  }

  lemma NextInBody(p: IrProgram, fr: Frame, pc: nat)
    requires WellFormed(p.code) && InBody(p, fr, pc) && !p.code[pc].EndFunc?
    ensures InBody(p, fr, pc + 1)
  {
    assert LineOk(p.code, pc);
  }

  /** A line without control transfer runs as a block and ends at the next line. */
  lemma PlainLine(p: IrProgram, boot: Boot, fr: Frame, pc: nat, v: R.Rv, w: R.Rv, ost: seq<Word>, mem: Memory)
    requires WellFormed(p.code) && InBody(p, fr, pc) && !p.code[pc].EndFunc? && v.pc == Off(p, pc)
    requires R.RunBlock(p.gaddr, Line(p, pc), v) == Some(w)
    requires Holds(p, boot, fr, ost, mem, w.regs.fp, w.regs.sp, w.mem)
    ensures Matched(p, boot, v, Running(fr, pc + 1, ost, mem))
  {
    hide Line, R.RunBlock, R.Reaches, Holds, WellFormed, R.BlockAt;
    LineAt(p, pc);
    R.RunsBlock(Asm(p), p.gaddr, Line(p, pc), v);
    NextInBody(p, fr, pc);
    MatchedBy(p, boot, v, w, Running(fr, pc + 1, ost, mem));
  }

  /** Compute a word into t1 and push it. */
  lemma PushLine(p: IrProgram, boot: Boot, fr: Frame, pc: nat, ost: seq<Word>, mem: Memory, v: R.Rv, i: R.Asm, w: Word)
    requires WellFormed(p.code) && Match(p, boot, Running(fr, pc, ost, mem), v) && !p.code[pc].EndFunc?
    requires Line(p, pc) == [i] + PushT1 && Sp(p, fr, ost) - 4 >= p.lo
    requires R.Plain(p.gaddr, i, v) == Some(v.(pc := v.pc + 1, regs := v.regs.(t1 := w)))
    ensures Matched(p, boot, v, Running(fr, pc + 1, ost + [w], mem))
  {
    hide R.RunBlock, R.Plain, WellFormed, Line, FrameOk, Ram, StackHolds, VarsAgree;
    var v1 := v.(pc := v.pc + 1, regs := v.regs.(t1 := w));
    R.RunBlockOne(p.gaddr, i, v);
    R.RunBlockAppend(p.gaddr, [i], PushT1, v);
    PushHolds(p, boot, fr, ost, mem, v.regs.fp, v.regs.sp, v.mem, w);
    PushBlock(p.gaddr, R.T1, v1);
    var v2 := R.RunBlock(p.gaddr, Line(p, pc), v).value;
    PlainLine(p, boot, fr, pc, v, v2, ost + [w], mem);
  }

  lemma SimPush(p: IrProgram, boot: Boot, s: State, v: R.Rv)
    requires WellFormed(p.code) && s.Running? && Match(p, boot, s, v) && IrMachine.Step(p, s).Some?
    requires p.code[s.pc].Push? || p.code[s.pc].GlobalAddr?
    ensures Matched(p, boot, v, IrMachine.Step(p, s).value)
  {
    hide WellFormed, FrameOk, Ram, StackHolds, VarsAgree, Matched, Wrap;
    match p.code[s.pc] {
      case Push(n) => PushLine(p, boot, s.fr, s.pc, s.ost, s.mem, v, R.Li(R.T1, n), Wrap(n));
      case GlobalAddr(x) => PushLine(p, boot, s.fr, s.pc, s.ost, s.mem, v, R.La(R.T1, x), Wrap(p.gaddr[x]));
    }
  }

  lemma SimFrameAddr(p: IrProgram, boot: Boot, s: State, v: R.Rv)
    requires WellFormed(p.code) && s.Running? && Match(p, boot, s, v) && IrMachine.Step(p, s).Some?
    requires p.code[s.pc].FrameAddr?
    ensures Matched(p, boot, v, IrMachine.Step(p, s).value)
  {
    hide WellFormed, FrameOk, Ram, StackHolds, VarsAgree, Matched, Wrap;
    var k := p.code[s.pc].offset;
    assert v.regs.Get(R.Fp) + (-12 - 4 * k) == s.fr.fp - 12 - 4 * k;
    PushLine(p, boot, s.fr, s.pc, s.ost, s.mem, v, R.Addi(R.T1, R.Fp, -12 - 4 * k), Wrap(s.fr.fp - 12 - 4 * k));
  }

  lemma SimUnary(p: IrProgram, boot: Boot, s: State, v: R.Rv)
    requires WellFormed(p.code) && s.Running? && Match(p, boot, s, v) && IrMachine.Step(p, s).Some?
    requires p.code[s.pc].Un?
    ensures Matched(p, boot, v, IrMachine.Step(p, s).value)
  {
    hide R.RunBlock, R.Plain, WellFormed, FrameOk, Ram, StackHolds, VarsAgree, UnaryResult, UnaryCode;
    var op := p.code[s.pc].uop;
    var g, n := p.gaddr, |s.ost|;
    var w := UnaryResult(op, s.ost[n - 1]);
    R.RunBlockAppend(g, PopT1, [UnaryCode(op)] + PushT1, v);
    PopHolds(p, boot, s.fr, s.ost, s.mem, v.regs.fp, v.regs.sp, v.mem);
    PopBlock(g, R.T1, v);
    var v1 := R.RunBlock(g, PopT1, v).value;
    R.RunBlockAppend(g, [UnaryCode(op)], PushT1, v1);
    UnaryBlock(g, op, v1);
    var v2 := R.RunBlock(g, [UnaryCode(op)], v1).value;
    PushHolds(p, boot, s.fr, s.ost[..n - 1], s.mem, v2.regs.fp, v2.regs.sp, v2.mem, w);
    PushBlock(g, R.T1, v2);
    PlainLine(p, boot, s.fr, s.pc, v, R.RunBlock(g, Line(p, s.pc), v).value, s.ost[..n - 1] + [w], s.mem);
  }

  /** The two words on top. */
  lemma TopPair(p: IrProgram, boot: Boot, fr: Frame, ost: seq<Word>, mem: Memory, fp: Word, sp: Word, m: map<int, Word>)
    requires Holds(p, boot, fr, ost, mem, fp, sp, m) && |ost| >= 2
    ensures sp + 8 < TWO_32 && sp in m && m[sp] == ost[|ost| - 1] && sp + 4 in m && m[sp + 4] == ost[|ost| - 2]
    ensures Holds(p, boot, fr, ost[..|ost| - 1], mem, fp, sp + 4, m)
    ensures Holds(p, boot, fr, ost[..|ost| - 2], mem, fp, sp + 8, m)
  {
    hide Holds;
    PopHolds(p, boot, fr, ost, mem, fp, sp, m);
    PopHolds(p, boot, fr, ost[..|ost| - 1], mem, fp, sp + 4, m);
    assert ost[..|ost| - 1][..|ost| - 2] == ost[..|ost| - 2];
  }

  lemma SimBinary(p: IrProgram, boot: Boot, s: State, v: R.Rv)
    requires WellFormed(p.code) && s.Running? && Match(p, boot, s, v) && IrMachine.Step(p, s).Some?
    requires p.code[s.pc].Bin?
    ensures Matched(p, boot, v, IrMachine.Step(p, s).value)
  {
    hide R.RunBlock, R.Plain, WellFormed, FrameOk, Ram, StackHolds, VarsAgree, BinaryResult, BinaryCode;
    var op := p.code[s.pc].bop;
    var g, n := p.gaddr, |s.ost|;
    TopPair(p, boot, s.fr, s.ost, s.mem, v.regs.fp, v.regs.sp, v.mem);
    var w := BinaryResult(op, s.ost[n - 2], s.ost[n - 1]).value;
    R.RunBlockAppend(g, LoadPair, BinaryCode(op) + StoreResult, v);
    PairBlock(g, v);
    var v1 := R.RunBlock(g, LoadPair, v).value;
    R.RunBlockAppend(g, BinaryCode(op), StoreResult, v1);
    BinaryBlock(g, op, v1);
    var v2 := R.RunBlock(g, BinaryCode(op), v1).value;
    ResultBlock(g, v2);
    PushHolds(p, boot, s.fr, s.ost[..n - 2], s.mem, v.regs.fp, v.regs.sp + 8, v.mem, w);
    PlainLine(p, boot, s.fr, s.pc, v, R.RunBlock(g, Line(p, s.pc), v).value, s.ost[..n - 2] + [w], s.mem);
  }

  lemma LoadBlock(g: map<string, int>, v: R.Rv)
    requires v.regs.sp in v.mem && v.mem[v.regs.sp] in v.mem
    ensures var w := v.mem[v.mem[v.regs.sp]];
            R.RunBlock(g, [R.Lw(R.T1, 0, R.Sp), R.Lw(R.T1, 0, R.T1), R.Sw(R.T1, 0, R.Sp)], v)
            == Some(v.(pc := v.pc + 3, regs := v.regs.(t1 := w), mem := v.mem[v.regs.sp := w]))
  {
    RunThree(g, R.Lw(R.T1, 0, R.Sp), R.Lw(R.T1, 0, R.T1), R.Sw(R.T1, 0, R.Sp), v);
  }

  /** A variable read through the address on top of the stack. */
  lemma TopReads(p: IrProgram, boot: Boot, fr: Frame, ost: seq<Word>, mem: Memory, v: R.Rv)
    requires Holds(p, boot, fr, ost, mem, v.regs.fp, v.regs.sp, v.mem) && ost != []
    requires var a := ost[|ost| - 1]; a in mem && mem[a].Some?
    ensures v.regs.sp >= p.lo
    ensures var a := ost[|ost| - 1]; a in v.mem && v.mem[a] == mem[a].value
  {
    hide FrameOk, Ram, StackHolds;
  }

  lemma StepLoads(p: IrProgram, s: State)
    requires s.Running? && IrMachine.Step(p, s).Some? && s.pc < |p.code| && p.code[s.pc].Load?
    ensures s.ost != []
    ensures var n := |s.ost|;
            var a := s.ost[n - 1];
            a in s.mem && s.mem[a].Some?
            && IrMachine.Step(p, s) == Some(Running(s.fr, s.pc + 1, s.ost[..n - 1] + [s.mem[a].value], s.mem))
  {
  }

  lemma SimLoad(p: IrProgram, boot: Boot, s: State, v: R.Rv)
    requires WellFormed(p.code) && s.Running? && Match(p, boot, s, v) && IrMachine.Step(p, s).Some?
    requires p.code[s.pc].Load?
    ensures Matched(p, boot, v, IrMachine.Step(p, s).value)
  {
    hide R.RunBlock, R.Plain, WellFormed, Holds, IrMachine.Step, Matched;
    StepLoads(p, s);
    var n := |s.ost|;
    var w := s.mem[s.ost[n - 1]].value;
    TopReads(p, boot, s.fr, s.ost, s.mem, v);
    PopHolds(p, boot, s.fr, s.ost, s.mem, v.regs.fp, v.regs.sp, v.mem);
    LoadBlock(p.gaddr, v);
    PushHolds(p, boot, s.fr, s.ost[..n - 1], s.mem, v.regs.fp, v.regs.sp + 4, v.mem, w);
    PlainLine(p, boot, s.fr, s.pc, v, R.RunBlock(p.gaddr, Line(p, s.pc), v).value, s.ost[..n - 1] + [w], s.mem);
  }

  lemma StoreTail(g: map<string, int>, v: R.Rv)
    requires v.regs.sp + 4 < TWO_32 && v.regs.t2 in v.mem
    ensures R.RunBlock(g, [R.Addi(R.Sp, R.Sp, 4), R.Sw(R.T1, 0, R.T2)], v)
            == Some(v.(pc := v.pc + 2, regs := v.regs.(sp := v.regs.sp + 4), mem := v.mem[v.regs.t2 := v.regs.t1]))
  {
    R.RunBlockTwo(g, R.Addi(R.Sp, R.Sp, 4), R.Sw(R.T1, 0, R.T2), v);
  }

  lemma SimStore(p: IrProgram, boot: Boot, s: State, v: R.Rv)
    requires WellFormed(p.code) && s.Running? && Match(p, boot, s, v) && IrMachine.Step(p, s).Some?
    requires p.code[s.pc].Store?
    ensures Matched(p, boot, v, IrMachine.Step(p, s).value)
  {
    hide R.RunBlock, R.Plain, WellFormed, FrameOk, Ram, StackHolds, VarsAgree;
    var g, n := p.gaddr, |s.ost|;
    TopPair(p, boot, s.fr, s.ost, s.mem, v.regs.fp, v.regs.sp, v.mem);
    StoreHolds(p, boot, s.fr, s.ost[..n - 1], s.mem, v.regs.fp, v.regs.sp + 4, v.mem, s.ost[n - 1], s.ost[n - 2]);
    R.RunBlockAppend(g, LoadPair, [R.Addi(R.Sp, R.Sp, 4), R.Sw(R.T1, 0, R.T2)], v);
    PairBlock(g, v);
    StoreTail(g, R.RunBlock(g, LoadPair, v).value);
    PlainLine(p, boot, s.fr, s.pc, v, R.RunBlock(g, Line(p, s.pc), v).value, s.ost[..n - 1],
              s.mem[s.ost[n - 1] := Some(s.ost[n - 2])]);
  }

  lemma SimPop(p: IrProgram, boot: Boot, s: State, v: R.Rv)
    requires WellFormed(p.code) && s.Running? && Match(p, boot, s, v) && IrMachine.Step(p, s).Some?
    requires p.code[s.pc].Pop? || p.code[s.pc].Mark?
    ensures Matched(p, boot, v, IrMachine.Step(p, s).value)
  {
    hide R.RunBlock, WellFormed, FrameOk, Ram, StackHolds, VarsAgree;
    var i := Line(p, s.pc)[0];
    assert Line(p, s.pc) == [i];
    R.RunBlockOne(p.gaddr, i, v);
    if p.code[s.pc].Pop? {
      PopHolds(p, boot, s.fr, s.ost, s.mem, v.regs.fp, v.regs.sp, v.mem);
      PlainLine(p, boot, s.fr, s.pc, v, v.(pc := v.pc + 1, regs := v.regs.(sp := v.regs.sp + 4)), s.ost[..|s.ost| - 1], s.mem);
    } else {
      PlainLine(p, boot, s.fr, s.pc, v, v.(pc := v.pc + 1), s.ost, s.mem);
    }
  }

  /** A local label leads to the line that marks it, in the same function. */
  lemma LocalTarget(p: IrProgram, fr: Frame, pc: nat, l: Label)
    requires WellFormed(p.code) && InBody(p, fr, pc) && IsBranch(p.code[pc]) && p.code[pc].target == l
    ensures InBody(p, fr, p.Target(l))
    ensures Find(Asm(p), R.Def(R.Local(l))) == Off(p, p.Target(l)) < |Asm(p)|
  {
    hide UniqueNames, UniqueMarks;
    assert LineOk(p.code, pc);
    LabelPosition(p, R.Local(l), p.Target(l)) by {
      assert WellFormed(p.code);
    }
  }

  lemma GotoStep(asm: seq<R.Asm>, g: map<string, int>, v: R.Rv, l: R.AsmLabel)
    requires v.pc < |asm| && asm[v.pc] == R.J(l) && Find(asm, R.Def(l)) < |asm|
    ensures R.Step(asm, g, v) == Some(v.(pc := Find(asm, R.Def(l))))
  {
  }

  lemma BranchGoto(asm: seq<R.Asm>, g: map<string, int>, v: R.Rv, l: R.AsmLabel, onZero: bool)
    requires v.pc < |asm| && Find(asm, R.Def(l)) < |asm|
    requires asm[v.pc] == if onZero then R.BranchZero(R.T1, l) else R.BranchNonzero(R.T1, l)
    ensures R.Step(asm, g, v) == Some(v.(pc := if (v.regs.t1 == 0) == onZero then Find(asm, R.Def(l)) else v.pc + 1))
  {
  }

  lemma SimJump(p: IrProgram, boot: Boot, s: State, v: R.Rv)
    requires WellFormed(p.code) && s.Running? && Match(p, boot, s, v) && IrMachine.Step(p, s).Some?
    requires p.code[s.pc].Br?
    ensures Matched(p, boot, v, IrMachine.Step(p, s).value)
  {
    hide WellFormed, Holds, R.Reaches, R.RunBlock, R.Step, R.BlockAt, Find, Lines;
    var l := p.code[s.pc].target;
    LocalTarget(p, s.fr, s.pc, l);
    LineAt(p, s.pc);
    R.BlockHead(Asm(p), v.pc, Line(p, s.pc));
    var v1 := v.(pc := Off(p, p.Target(l)));
    GotoStep(Asm(p), p.gaddr, v, R.Local(l));
    R.Here(Asm(p), p.gaddr, v);
    R.Then(Asm(p), p.gaddr, v, v, v1);
    MatchedBy(p, boot, v, v1, Running(s.fr, p.Target(l), s.ost, s.mem));
  }

  lemma SimBranch(p: IrProgram, boot: Boot, s: State, v: R.Rv)
    requires WellFormed(p.code) && s.Running? && Match(p, boot, s, v) && IrMachine.Step(p, s).Some?
    requires p.code[s.pc].Beqz? || p.code[s.pc].Bnez?
    ensures Matched(p, boot, v, IrMachine.Step(p, s).value)
  {
    hide WellFormed, FrameOk, Ram, StackHolds, VarsAgree, R.Reaches, R.RunBlock, R.Plain, R.Step, R.BlockAt, Find, Lines;
    var l := p.code[s.pc].target;
    var n := |s.ost|;
    var asm := Asm(p);
    LocalTarget(p, s.fr, s.pc, l);
    NextInBody(p, s.fr, s.pc);
    LineAt(p, s.pc);
    var b := if p.code[s.pc].Beqz? then R.BranchZero(R.T1, R.Local(l)) else R.BranchNonzero(R.T1, R.Local(l));
    R.BlockSplit(asm, v.pc, PopT1, [b]);
    PopHolds(p, boot, s.fr, s.ost, s.mem, v.regs.fp, v.regs.sp, v.mem);
    PopBlock(p.gaddr, R.T1, v);
    R.RunsBlock(asm, p.gaddr, PopT1, v);
    var v1 := R.RunBlock(p.gaddr, PopT1, v).value;
    R.BlockHead(asm, v1.pc, [b]);
    BranchGoto(asm, p.gaddr, v1, R.Local(l), p.code[s.pc].Beqz?);
    var t := IrMachine.Step(p, s).value;
    var v2 := v1.(pc := Off(p, t.pc));
    R.Then(asm, p.gaddr, v, v1, v2);
    MatchedBy(p, boot, v, v2, t);
  }

  // ----- calls and returns -----

  lemma PrologueBlock(g: map<string, int>, f: string, slots: nat, v: R.Rv)
    requires v.regs.sp >= 8 + 4 * slots && v.regs.sp - 4 in v.mem && v.regs.sp - 8 in v.mem
    ensures R.RunBlock(g, Prologue(f, slots), v)
            == Some(v.(pc := v.pc + 5, regs := v.regs.(sp := v.regs.sp - 8 - 4 * slots, fp := v.regs.sp),
                       mem := v.mem[v.regs.sp - 4 := v.regs.ra][v.regs.sp - 8 := v.regs.fp]))
  {
    hide R.RunBlock;
    var n := FrameBytes(slots);
    var a := [R.Def(R.Global(f)), R.Addi(R.Sp, R.Sp, 0 - n)];
    var b := [R.Sw(R.Ra, n - 4, R.Sp), R.Sw(R.Fp, n - 8, R.Sp), R.Addi(R.Fp, R.Sp, n)];
    assert Prologue(f, slots) == a + b;
    R.RunBlockAppend(g, a, b, v);
    R.RunBlockTwo(g, a[0], a[1], v);
    SaveBlock(g, n, v.(pc := v.pc + 2, regs := v.regs.(sp := v.regs.sp - n)));
  }

  /** Return address and frame pointer go to the top of the new frame. */
  lemma SaveBlock(g: map<string, int>, n: int, v: R.Rv)
    requires v.regs.sp >= 0 && n >= 8 && v.regs.sp + n < TWO_32 && v.regs.sp + n - 4 in v.mem && v.regs.sp + n - 8 in v.mem
    ensures R.RunBlock(g, [R.Sw(R.Ra, n - 4, R.Sp), R.Sw(R.Fp, n - 8, R.Sp), R.Addi(R.Fp, R.Sp, n)], v)
            == Some(v.(pc := v.pc + 3, regs := v.regs.(fp := v.regs.sp + n),
                       mem := v.mem[v.regs.sp + n - 4 := v.regs.ra][v.regs.sp + n - 8 := v.regs.fp]))
  {
    hide R.RunBlock;
    RunThree(g, R.Sw(R.Ra, n - 4, R.Sp), R.Sw(R.Fp, n - 8, R.Sp), R.Addi(R.Fp, R.Sp, n), v);
  }

  lemma JalStep(asm: seq<R.Asm>, g: map<string, int>, v: R.Rv, l: R.AsmLabel)
    requires v.pc < |asm| < TWO_32 && asm[v.pc] == R.Jal(l) && Find(asm, R.Def(l)) < |asm| && v.pc + 1 < TWO_32
    ensures R.Step(asm, g, v) == Some(v.(pc := Find(asm, R.Def(l)), regs := v.regs.(ra := v.pc + 1)))
  {
  }

  lemma EntryInBody(p: IrProgram, fr: Frame)
    requires WellFormed(p.code) && Func(fr.func) in p.code
    ensures InBody(p, fr, p.Entry(fr.func)) && InstrIs(p, p.Entry(fr.func) - 1, Func(fr.func))
  {
    hide UniqueMarks, UniqueNames;
    assert LineOk(p.code, p.Entry(fr.func) - 1);
  }

  /** From the label of f, the prologue leads to its first line. */
  lemma PrologueRun(p: IrProgram, f: string, v: R.Rv)
    requires WellFormed(p.code) && Func(f) in p.code && v.pc == Off(p, p.Entry(f) - 1)
    requires v.regs.sp >= 8 + 4 * p.Size(f) && v.regs.sp - 4 in v.mem && v.regs.sp - 8 in v.mem
    ensures p.Entry(f) <= |p.code|
    ensures R.Reaches(Asm(p), p.gaddr, v,
              R.Rv(Off(p, p.Entry(f)), v.regs.(sp := v.regs.sp - 8 - 4 * p.Size(f), fp := v.regs.sp),
                   v.mem[v.regs.sp - 4 := v.regs.ra][v.regs.sp - 8 := v.regs.fp]))
  {
    hide WellFormed, R.Reaches, R.RunBlock, R.BlockAt, Lines, Prologue;
    var i := p.Entry(f) - 1;
    LineAt(p, i);
    PrologueBlock(p.gaddr, f, p.Size(f), v);
    R.RunsBlock(Asm(p), p.gaddr, Line(p, i), v);
  }

  lemma SimCall(p: IrProgram, boot: Boot, s: State, v: R.Rv)
    requires WellFormed(p.code) && |Asm(p)| < TWO_32
    requires s.Running? && Match(p, boot, s, v) && IrMachine.Step(p, s).Some? && p.code[s.pc].CallF?
    ensures Matched(p, boot, v, IrMachine.Step(p, s).value)
  {
    hide WellFormed, FrameOk, Ram, StackHolds, VarsAgree, R.Reaches, R.RunBlock, R.BlockAt, R.Step, Lines, EnterFrame, Prologue, Find;
    var f, n := p.code[s.pc].name, p.code[s.pc].argc;
    var asm := Asm(p);
    var ra := v.pc + 1;
    NextInBody(p, s.fr, s.pc);
    LineAt(p, s.pc);
    R.BlockHead(asm, v.pc, Line(p, s.pc));
    var t := IrMachine.Step(p, s).value;
    EntryInBody(p, t.fr);
    LabelPosition(p, R.Global(f), p.Entry(f) - 1);
    JalStep(asm, p.gaddr, v, R.Global(f));
    var v1 := v.(pc := Off(p, p.Entry(f) - 1), regs := v.regs.(ra := ra));
    EnterHolds(p, boot, s.fr, s.ost, s.mem, v.regs.fp, v.regs.sp, v.mem, f, n, s.pc + 1, ra);
    PrologueRun(p, f, v1);
    var v2 := R.Rv(Off(p, p.Entry(f)), v1.regs.(sp := v1.regs.sp - 8 - 4 * p.Size(f), fp := v1.regs.sp),
                   v1.mem[v1.regs.sp - 4 := v1.regs.ra][v1.regs.sp - 8 := v1.regs.fp]);
    R.Here(asm, p.gaddr, v);
    R.Then(asm, p.gaddr, v, v, v1);
    R.Trans(asm, p.gaddr, v, v1, v2);
    MatchedBy(p, boot, v, v2, t);
  }

  /** The epilogue up to its jump: result to a0, fp, ra and sp restored. */
  function Restored(v: R.Rv, slots: nat): R.Regs
    requires 0 <= v.regs.sp + 4 + FrameBytes(slots) < TWO_32
    requires v.regs.sp in v.mem && v.regs.sp + 4 + FrameBytes(slots) - 8 in v.mem && v.regs.sp + 4 + FrameBytes(slots) - 4 in v.mem
  {
    var top := v.regs.sp + 4 + FrameBytes(slots);
    v.regs.(a0 := v.mem[v.regs.sp], fp := v.mem[top - 8], ra := v.mem[top - 4], sp := top)
  }

  lemma RestoreBlock(g: map<string, int>, l: R.AsmLabel, slots: nat, v: R.Rv)
    requires 0 <= v.regs.sp + 4 + FrameBytes(slots) < TWO_32
    requires v.regs.sp in v.mem && v.regs.sp + 4 + FrameBytes(slots) - 8 in v.mem && v.regs.sp + 4 + FrameBytes(slots) - 4 in v.mem
    ensures var n := FrameBytes(slots);
            R.RunBlock(g, ([R.Def(l)] + PopA0) + [R.Lw(R.Fp, n - 8, R.Sp), R.Lw(R.Ra, n - 4, R.Sp), R.Addi(R.Sp, R.Sp, n)], v)
            == Some(v.(pc := v.pc + 6, regs := Restored(v, slots)))
  {
    hide R.RunBlock;
    var n := FrameBytes(slots);
    var a := [R.Def(l)] + PopA0;
    var b := [R.Lw(R.Fp, n - 8, R.Sp), R.Lw(R.Ra, n - 4, R.Sp), R.Addi(R.Sp, R.Sp, n)];
    R.RunBlockAppend(g, a, b, v);
    R.RunBlockAppend(g, [R.Def(l)], PopA0, v);
    R.RunBlockOne(g, R.Def(l), v);
    PopBlock(g, R.A0, v.(pc := v.pc + 1));
    var v1 := R.RunBlock(g, a, v).value;
    RunThree(g, b[0], b[1], b[2], v1);
  }

  /** From the epilogue label of fr's function, with its result on the operand stack, to the return address. */
  lemma EpilogueRun(p: IrProgram, boot: Boot, fr: Frame, i: nat, w: Word, mem: Memory, v: R.Rv)
    requires WellFormed(p.code) && i < |p.code| && p.code[i] == EndFunc(fr.func)
    requires v.pc == Off(p, i) + 3 && Holds(p, boot, fr, [w], mem, v.regs.fp, v.regs.sp, v.mem)
    ensures 0 <= fr.fp < TWO_32 && 0 <= ReturnAddress(p, boot, fr) < TWO_32 && 0 <= CallerFp(boot, fr) < TWO_32
    ensures R.Reaches(Asm(p), p.gaddr, v,
              R.Rv(ReturnAddress(p, boot, fr),
                   v.regs.(a0 := w, fp := CallerFp(boot, fr), ra := ReturnAddress(p, boot, fr), sp := fr.fp), v.mem))
  {
    hide WellFormed, Ram, VarsAgree, R.Reaches, R.RunBlock, R.BlockAt, Lines, ReturnAddress, CallerFp, ReturnsTo;
    var asm := Asm(p);
    var slots := p.Size(fr.func);
    var n := FrameBytes(slots);
    LineAt(p, i);
    var a := [R.Li(R.T1, 0)] + PushT1;
    var b := ([R.Def(R.Epilogue(fr.func))] + PopA0) + [R.Lw(R.Fp, n - 8, R.Sp), R.Lw(R.Ra, n - 4, R.Sp), R.Addi(R.Sp, R.Sp, n)];
    assert Line(p, i) == a + (b + [R.Jr(R.Ra)]);
    R.BlockSplit(asm, Off(p, i), a, b + [R.Jr(R.Ra)]);
    R.BlockSplit(asm, v.pc, b, [R.Jr(R.Ra)]);
    assert SlotAt(Base(p, fr), 0) in v.mem && v.mem[SlotAt(Base(p, fr), 0)] == w;
    RestoreBlock(p.gaddr, R.Epilogue(fr.func), slots, v);
    R.RunsBlock(asm, p.gaddr, b, v);
    var v1 := R.RunBlock(p.gaddr, b, v).value;
    R.BlockHead(asm, v1.pc, [R.Jr(R.Ra)]);
    R.Then(asm, p.gaddr, v, v1, v1.(pc := v1.regs.ra));
  }

  /** Back in the caller: the arguments go, the result is pushed. */
  lemma AfterCall(p: IrProgram, boot: Boot, fr: Frame, w: Word, mem: Memory, fp: Word, sp: Word, v: R.Rv)
    requires WellFormed(p.code) && fr.link.Back? && Holds(p, boot, fr, [w], mem, fp, sp, v.mem)
    requires v.pc == ReturnAddress(p, boot, fr) && v.regs.a0 == w && v.regs.fp == fr.link.caller.fp && v.regs.sp == fr.fp
    ensures Matched(p, boot, v, Leave(p, fr, w, mem))
  {
    hide WellFormed, Ram, VarsAgree, StackHolds, R.Reaches, R.RunBlock, R.BlockAt, Lines, LeaveFrame, Matched;
    var asm, n, caller, saved := Asm(p), fr.argc, fr.link.caller, fr.link.saved;
    var pc := fr.link.pc - 1;
    LeaveHolds(p, boot, fr, [w], mem, fp, sp, v.mem);
    var mem1 := LeaveFrame(mem, fr.fp, p.Size(fr.func), n);
    LineAt(p, pc);
    var a, b := [R.Jal(R.Global(fr.func))], [R.Addi(R.Sp, R.Sp, 4 * n)];
    assert Line(p, pc) == a + (b + PushA0);
    R.BlockSplit(asm, Off(p, pc), a, b + PushA0);
    PushHolds(p, boot, caller, saved, mem1, caller.fp, fr.fp + 4 * n, v.mem, w);
    R.RunBlockAppend(p.gaddr, b, PushA0, v);
    R.RunBlockOne(p.gaddr, b[0], v);
    var v1 := v.(pc := v.pc + 1, regs := v.regs.(sp := fr.fp + 4 * n));
    PushBlock(p.gaddr, R.A0, v1);
    R.RunsBlock(asm, p.gaddr, b + PushA0, v);
    MatchedBy(p, boot, v, R.RunBlock(p.gaddr, b + PushA0, v).value, Leave(p, fr, w, mem));
  }

  /** Any way of leaving a function, from its epilogue label on. */
  lemma LeaveRun(p: IrProgram, boot: Boot, fr: Frame, i: nat, w: Word, mem: Memory, v: R.Rv)
    requires WellFormed(p.code) && i < |p.code| && p.code[i] == EndFunc(fr.func)
    requires v.pc == Off(p, i) + 3 && Holds(p, boot, fr, [w], mem, v.regs.fp, v.regs.sp, v.mem)
    ensures Matched(p, boot, v, Leave(p, fr, w, mem))
  {
    hide WellFormed, Holds, R.Reaches, Lines;
    EpilogueRun(p, boot, fr, i, w, mem, v);
    var v1 := R.Rv(ReturnAddress(p, boot, fr),
                   v.regs.(a0 := w, fp := CallerFp(boot, fr), ra := ReturnAddress(p, boot, fr), sp := fr.fp), v.mem);
    match fr.link {
      case Exit =>
        assert VarsAgree(LeaveFrame(mem, fr.fp, p.Size(fr.func), fr.argc), v.mem) && fr.fp == boot.sp by {
          ExitFacts(p, boot, fr, [w], mem, v.regs.fp, v.regs.sp, v.mem);
        }
        MatchedBy(p, boot, v, v1, Leave(p, fr, w, mem));
      case Back(_, _, _) =>
        AfterCall(p, boot, fr, w, mem, v.regs.fp, v.regs.sp, v1);
        MatchedVia(p, boot, v, v1, Leave(p, fr, w, mem));
    }
  }

  lemma ExitFacts(p: IrProgram, boot: Boot, fr: Frame, ost: seq<Word>, mem: Memory, fp: Word, sp: Word, m: map<int, Word>)
    requires Holds(p, boot, fr, ost, mem, fp, sp, m) && fr.link.Exit?
    ensures fr.fp == boot.sp && VarsAgree(LeaveFrame(mem, fr.fp, p.Size(fr.func), fr.argc), m)
  {
  }

  lemma MatchedVia(p: IrProgram, boot: Boot, v: R.Rv, v1: R.Rv, s: State)
    requires R.Reaches(Asm(p), p.gaddr, v, v1) && Matched(p, boot, v1, s)
    ensures Matched(p, boot, v, s)
  {
    hide R.Reaches, Match;
    var v2 :| R.Reaches(Asm(p), p.gaddr, v1, v2) && Match(p, boot, s, v2);
    R.Trans(Asm(p), p.gaddr, v, v1, v2);
  }

  lemma SimReturn(p: IrProgram, boot: Boot, s: State, v: R.Rv)
    requires WellFormed(p.code) && s.Running? && Match(p, boot, s, v) && IrMachine.Step(p, s).Some?
    requires p.code[s.pc].Ret?
    ensures Matched(p, boot, v, IrMachine.Step(p, s).value)
  {
    hide Holds, R.Reaches, R.BlockAt, R.Step, Lines, LeaveFrame, UniqueMarks, UniqueNames, Find, Matched;
    var f := s.fr.func;
    var asm := Asm(p);
    assert LineOk(p.code, s.pc);
    var i := Find(p.code, EndFunc(f));
    LabelPosition(p, R.Epilogue(f), i);
    LineAt(p, s.pc);
    R.BlockHead(asm, v.pc, Line(p, s.pc));
    GotoStep(asm, p.gaddr, v, R.Epilogue(f));
    var v1 := v.(pc := Off(p, i) + 3);
    R.Here(asm, p.gaddr, v);
    R.Then(asm, p.gaddr, v, v, v1);
    assert s.ost == [s.ost[0]];
    LeaveRun(p, boot, s.fr, i, s.ost[0], s.mem, v1);
    MatchedVia(p, boot, v, v1, Leave(p, s.fr, s.ost[0], s.mem));
  }

  /** Falling off the end of a body pushes 0 and runs into the epilogue. */
  lemma SimEnd(p: IrProgram, boot: Boot, s: State, v: R.Rv)
    requires WellFormed(p.code) && s.Running? && Match(p, boot, s, v) && IrMachine.Step(p, s).Some?
    requires p.code[s.pc].EndFunc?
    ensures Matched(p, boot, v, IrMachine.Step(p, s).value)
  {
    hide FrameOk, Ram, StackHolds, VarsAgree, R.Reaches, R.RunBlock, R.BlockAt, R.Step, Lines, LeaveFrame, UniqueMarks, UniqueNames, Find, Matched;
    var f, g := s.fr.func, p.gaddr;
    var asm := Asm(p);
    assert LineOk(p.code, s.pc);
    LineAt(p, s.pc);
    var a := [R.Li(R.T1, 0)] + PushT1;
    var b := [R.Def(R.Epilogue(f))] + EpilogueTail(p.Size(f));
    assert Line(p, s.pc) == a + b;
    R.BlockSplit(asm, v.pc, a, b);
    assert s.ost == [];
    R.RunBlockAppend(g, [R.Li(R.T1, 0)], PushT1, v);
    R.RunBlockOne(g, R.Li(R.T1, 0), v);
    PushHolds(p, boot, s.fr, [], s.mem, v.regs.fp, v.regs.sp, v.mem, 0);
    PushBlock(g, R.T1, v.(pc := v.pc + 1, regs := v.regs.(t1 := 0)));
    R.RunsBlock(asm, g, a, v);
    var v1 := R.RunBlock(g, a, v).value;
    assert [] + [0] == [0];
    LeaveRun(p, boot, s.fr, s.pc, 0, s.mem, v1);
    MatchedVia(p, boot, v, v1, Leave(p, s.fr, 0, s.mem));
  }

  // ----- whole runs -----

  /** One IR step is a run of the machine. */
  lemma SimStep(p: IrProgram, boot: Boot, s: State, v: R.Rv)
    requires WellFormed(p.code) && |Asm(p)| < TWO_32 && Match(p, boot, s, v) && IrMachine.Step(p, s).Some?
    ensures Matched(p, boot, v, IrMachine.Step(p, s).value)
  {
    hide WellFormed, Match, Matched, Asm, PushWord, Jump, Branch, CallStep, Leave, InBody;
    match p.code[s.pc] {
      case EndFunc(_) => SimEnd(p, boot, s, v);
      case Mark(_) => SimPop(p, boot, s, v);
      case CallF(_, _) => SimCall(p, boot, s, v);
      case Ret => SimReturn(p, boot, s, v);
      case Push(_) => SimPush(p, boot, s, v);
      case Un(_) => SimUnary(p, boot, s, v);
      case Bin(_) => SimBinary(p, boot, s, v);
      case FrameAddr(_) => SimFrameAddr(p, boot, s, v);
      case GlobalAddr(_) => SimPush(p, boot, s, v);
      case Load => SimLoad(p, boot, s, v);
      case Store => SimStore(p, boot, s, v);
      case Pop => SimPop(p, boot, s, v);
      case Br(_) => SimJump(p, boot, s, v);
      case Beqz(_) => SimBranch(p, boot, s, v);
      case Bnez(_) => SimBranch(p, boot, s, v);
    }
  }

  lemma {:induction false} SimRun(p: IrProgram, boot: Boot, s: State, v: R.Rv, n: nat)
    requires WellFormed(p.code) && |Asm(p)| < TWO_32 && Match(p, boot, s, v) && IrMachine.Run(p, s, n).Some?
    ensures Matched(p, boot, v, IrMachine.Run(p, s, n).value)
    decreases n
  {
    hide WellFormed, Match, Asm, R.Reaches, IrMachine.Step;
    if n == 0 {
      R.Here(Asm(p), p.gaddr, v);
    } else {
      var t := IrMachine.Step(p, s).value;
      SimStep(p, boot, s, v);
      var v1 :| R.Reaches(Asm(p), p.gaddr, v, v1) && Match(p, boot, t, v1);
      SimRun(p, boot, t, v1, n - 1);
      MatchedVia(p, boot, v, v1, IrMachine.Run(p, s, n).value);
    }
  }

  /** Every run of the IR machine is matched by the generated code. */
  lemma SimReaches(p: IrProgram, boot: Boot, s: State, t: State, v: R.Rv)
    requires WellFormed(p.code) && |Asm(p)| < TWO_32 && Match(p, boot, s, v) && IrMachine.Reaches(p, s, t)
    ensures Matched(p, boot, v, t)
  {
    hide WellFormed, Match, Matched, Asm, IrMachine.Run;
    var n: nat :| IrMachine.Run(p, s, n) == Some(t);
    SimRun(p, boot, s, v, n);
  }
}
