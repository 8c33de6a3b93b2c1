/** Where the pieces of emitted control flow lie, and the steps its labels and branches take. */
module ControlFlow {
  import opened Wrappers
  import opened Words
  import opened Ir
  import opened CodeGen
  import opened Memory
  import opened IrMachine

  /** The code c lies at position pc of the program. */
  predicate At(p: IrProgram, pc: nat, c: seq<Instr>) {
    pc + |c| <= |p.code| && p.code[pc..pc + |c|] == c
  }

  predicate InstrIs(p: IrProgram, pc: nat, i: Instr) {
    pc < |p.code| && p.code[pc] == i
  }

  predicate UniqueMarks(code: seq<Instr>) {
    forall i, j | 0 <= i < |code| && 0 <= j < |code| && code[i].Mark? && code[i] == code[j] :: i == j
  }

  lemma Split(p: IrProgram, pc: nat, a: seq<Instr>, b: seq<Instr>)
    requires At(p, pc, a + b)
    ensures At(p, pc, a) && At(p, pc + |a|, b)
  {
    var w := p.code[pc..pc + |a| + |b|];
    assert w[..|a|] == a && w[|a|..] == b;
    assert p.code[pc..pc + |a|] == w[..|a|];
    assert p.code[pc + |a|..pc + |a| + |b|] == w[|a|..];
  }

  lemma InstrAt(p: IrProgram, pc: nat, c: seq<Instr>, i: nat)
    requires At(p, pc, c) && i < |c|
    ensures InstrIs(p, pc + i, c[i])
  {
    assert p.code[pc..pc + |c|][i] == c[i];
  }

  /** Split off a code and the single instruction after it. */
  lemma SplitOne(p: IrProgram, pc: nat, a: seq<Instr>, i: Instr, b: seq<Instr>)
    requires At(p, pc, a + ([i] + b))
    ensures At(p, pc, a) && InstrIs(p, pc + |a|, i) && At(p, pc + |a| + 1, b)
  {
    Split(p, pc, a, [i] + b);
    Split(p, pc + |a|, [i], b);
    InstrAt(p, pc + |a|, [i], 0);
  }

  lemma SplitTwo(p: IrProgram, pc: nat, a: seq<Instr>, i: Instr, j: Instr, b: seq<Instr>)
    requires At(p, pc, a + ([i, j] + b))
    ensures At(p, pc, a) && InstrIs(p, pc + |a|, i) && InstrIs(p, pc + |a| + 1, j) && At(p, pc + |a| + 2, b)
  {
    Split(p, pc, a, [i, j] + b);
    Split(p, pc + |a|, [i, j], b);
    InstrAt(p, pc + |a|, [i, j], 0);
    InstrAt(p, pc + |a|, [i, j], 1);
  }

  lemma SplitLast(p: IrProgram, pc: nat, a: seq<Instr>, i: Instr)
    requires At(p, pc, a + [i])
    ensures At(p, pc, a) && InstrIs(p, pc + |a|, i)
  {
    Split(p, pc, a, [i]);
    InstrAt(p, pc + |a|, [i], 0);
  }

  lemma SplitPair(p: IrProgram, pc: nat, a: seq<Instr>, i: Instr, j: Instr)
    requires At(p, pc, a + [i, j])
    ensures At(p, pc, a) && InstrIs(p, pc + |a|, i) && InstrIs(p, pc + |a| + 1, j)
  {
    Split(p, pc, a, [i, j]);
    InstrAt(p, pc + |a|, [i, j], 0);
    InstrAt(p, pc + |a|, [i, j], 1);
  }

  lemma SplitFirst(p: IrProgram, pc: nat, i: Instr, b: seq<Instr>)
    requires At(p, pc, [i] + b)
    ensures InstrIs(p, pc, i) && At(p, pc + 1, b)
  {
    Split(p, pc, [i], b);
    InstrAt(p, pc, [i], 0);
  }

  // ----- steps -----

  lemma TargetIs(p: IrProgram, l: Label, i: nat)
    requires UniqueMarks(p.code) && InstrIs(p, i, Mark(l))
    ensures p.Target(l) == i
  {
    assert p.code[i] in p.code;
  }

  lemma MarkStep(p: IrProgram, s: State, fr: Frame, pc: nat, ost: seq<Word>, mem: Memory, l: Label)
    requires InstrIs(p, pc, Mark(l))
    requires Reaches(p, s, Running(fr, pc, ost, mem))
    ensures Reaches(p, s, Running(fr, pc + 1, ost, mem))
  {
    Then(p, s, Running(fr, pc, ost, mem), Running(fr, pc + 1, ost, mem));
  }

  lemma JumpStep(p: IrProgram, s: State, fr: Frame, pc: nat, ost: seq<Word>, mem: Memory, l: Label, i: nat)
    requires UniqueMarks(p.code) && InstrIs(p, i, Mark(l)) && InstrIs(p, pc, Br(l))
    requires Reaches(p, s, Running(fr, pc, ost, mem))
    ensures Reaches(p, s, Running(fr, i, ost, mem))
  {
    TargetIs(p, l, i);
    Then(p, s, Running(fr, pc, ost, mem), Running(fr, i, ost, mem));
  }

  /** A conditional branch on the word on top, taken or not. */
  lemma BranchStep(p: IrProgram, s: State, fr: Frame, pc: nat, ost: seq<Word>, w: Word, mem: Memory,
                   l: Label, onZero: bool, i: nat)
    requires UniqueMarks(p.code) && InstrIs(p, i, Mark(l)) && InstrIs(p, pc, if onZero then Beqz(l) else Bnez(l))
    requires Reaches(p, s, Running(fr, pc, ost + [w], mem))
    ensures Reaches(p, s, Running(fr, if (w == 0) == onZero then i else pc + 1, ost, mem))
  {
    TargetIs(p, l, i);
    assert (ost + [w])[..|ost|] == ost;
    Then(p, s, Running(fr, pc, ost + [w], mem), Running(fr, if (w == 0) == onZero then i else pc + 1, ost, mem));
  }

  // ----- pieces -----

  lemma TernaryParts(p: IrProgram, pc: nat, m: nat, t: seq<Instr>, x: seq<Instr>, y: seq<Instr>)
    requires At(p, pc, TernaryInstrs(m, t, x, y))
    ensures var a := pc + |t|; var b := a + 1 + |x|; var z := b + 2 + |y|;
            && At(p, pc, t) && InstrIs(p, a, Beqz(ElseTer(m))) && At(p, a + 1, x)
            && InstrIs(p, b, Br(EndTer(m))) && InstrIs(p, b + 1, Mark(ElseTer(m))) && At(p, b + 2, y)
            && InstrIs(p, z, Mark(EndTer(m))) && |TernaryInstrs(m, t, x, y)| == z + 1 - pc
  {
    hide At, InstrIs;
    var fin := y + [Mark(EndTer(m))];
    SplitOne(p, pc, t, Beqz(ElseTer(m)), x + ([Br(EndTer(m)), Mark(ElseTer(m))] + fin));
    SplitTwo(p, pc + |t| + 1, x, Br(EndTer(m)), Mark(ElseTer(m)), fin);
    SplitLast(p, pc + |t| + 1 + |x| + 2, y, Mark(EndTer(m)));
  }

  lemma IfParts(p: IrProgram, pc: nat, m: nat, t: seq<Instr>, x: seq<Instr>)
    requires At(p, pc, IfInstrs(m, t, x))
    ensures var a := pc + |t|; var z := a + 1 + |x|;
            && At(p, pc, t) && InstrIs(p, a, Beqz(EndIf(m))) && At(p, a + 1, x)
            && InstrIs(p, z, Mark(EndIf(m))) && |IfInstrs(m, t, x)| == z + 1 - pc
  {
    hide At, InstrIs;
    SplitOne(p, pc, t, Beqz(EndIf(m)), x + [Mark(EndIf(m))]);
    SplitLast(p, pc + |t| + 1, x, Mark(EndIf(m)));
  }

  lemma IfElseParts(p: IrProgram, pc: nat, m: nat, t: seq<Instr>, x: seq<Instr>, y: seq<Instr>)
    requires At(p, pc, IfElseInstrs(m, t, x, y))
    ensures var a := pc + |t|; var b := a + 1 + |x|; var z := b + 2 + |y|;
            && At(p, pc, t) && InstrIs(p, a, Beqz(ElseIf(m))) && At(p, a + 1, x)
            && InstrIs(p, b, Br(EndIf(m))) && InstrIs(p, b + 1, Mark(ElseIf(m))) && At(p, b + 2, y)
            && InstrIs(p, z, Mark(EndIf(m))) && |IfElseInstrs(m, t, x, y)| == z + 1 - pc
  {
    hide At, InstrIs;
    var fin := y + [Mark(EndIf(m))];
    SplitOne(p, pc, t, Beqz(ElseIf(m)), x + ([Br(EndIf(m)), Mark(ElseIf(m))] + fin));
    SplitTwo(p, pc + |t| + 1, x, Br(EndIf(m)), Mark(ElseIf(m)), fin);
    SplitLast(p, pc + |t| + 1 + |x| + 2, y, Mark(EndIf(m)));
  }

  lemma LoopParts(p: IrProgram, pc: nat, m: nat, t: seq<Instr>, x: seq<Instr>, q: seq<Instr>)
    requires At(p, pc, LoopInstrs(m, t, x, q))
    ensures var a := pc + 1 + |t|; var b := a + |x|; var d := b + 1 + |q|;
            && InstrIs(p, pc, Mark(BeginLoop(m))) && At(p, pc + 1, t) && At(p, a, x)
            && InstrIs(p, b, Mark(ContinueLoop(m))) && At(p, b + 1, q)
            && InstrIs(p, d, Br(BeginLoop(m))) && InstrIs(p, d + 1, Mark(BreakLoop(m)))
            && |LoopInstrs(m, t, x, q)| == d + 2 - pc
  {
    hide At, InstrIs;
    var fin := q + [Br(BeginLoop(m)), Mark(BreakLoop(m))];
    var rest := x + ([Mark(ContinueLoop(m))] + fin);
    SplitFirst(p, pc, Mark(BeginLoop(m)), t + rest);
    Split(p, pc + 1, t, rest);
    SplitOne(p, pc + 1 + |t|, x, Mark(ContinueLoop(m)), fin);
    SplitPair(p, pc + 1 + |t| + |x| + 1, q, Br(BeginLoop(m)), Mark(BreakLoop(m)));
  }

  lemma DoParts(p: IrProgram, pc: nat, m: nat, x: seq<Instr>, t: seq<Instr>)
    requires At(p, pc, DoInstrs(m, x, t))
    ensures var a := pc + 1; var b := a + |x|; var d := b + 1 + |t|;
            && InstrIs(p, pc, Mark(BeginLoop(m))) && At(p, a, x)
            && InstrIs(p, b, Mark(ContinueLoop(m))) && At(p, b + 1, t)
            && InstrIs(p, d, Bnez(BeginLoop(m))) && InstrIs(p, d + 1, Mark(BreakLoop(m)))
            && |DoInstrs(m, x, t)| == d + 2 - pc
  {
    hide At, InstrIs;
    var fin := t + [Bnez(BeginLoop(m)), Mark(BreakLoop(m))];
    SplitFirst(p, pc, Mark(BeginLoop(m)), x + ([Mark(ContinueLoop(m))] + fin));
    SplitOne(p, pc + 1, x, Mark(ContinueLoop(m)), fin);
    SplitPair(p, pc + 1 + |x| + 1, t, Bnez(BeginLoop(m)), Mark(BreakLoop(m)));
  }
}
