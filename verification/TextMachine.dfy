/** The assembly as the assembler reads it: labels are text, and a reference goes to the first definition of its
    text.  Without a name clash this is the machine of the compiler's theorem; with one it is not. */
module TextMachine {
  import opened Wrappers
  import opened Words
  import opened Syntax
  import opened Ir
  import opened Typing
  import opened CodeGen
  import opened Memory
  import opened Semantics
  import opened IrMachine
  import opened StackLayout
  import opened Preservation
  import opened Lowering
  import opened Program
  import opened References
  import opened LabelText
  import AsmGen
  import R = RiscV

  // ----- the machine -----

  /** The position of the first label with the text, or the length when there is none. */
  function TextFind(asm: seq<R.Asm>, text: string): (i: nat)
    ensures i <= |asm|
    ensures i < |asm| ==> asm[i].Def? && Text(asm[i].l) == text
    ensures forall j | 0 <= j < i :: !(asm[j].Def? && Text(asm[j].l) == text)
  {
    if asm == [] then 0
    else if asm[0].Def? && Text(asm[0].l) == text then 0
    else 1 + TextFind(asm[1..], text)
  }

  function TextGoto(asm: seq<R.Asm>, v: R.Rv, text: string): Option<R.Rv> {
    var i := TextFind(asm, text);
    if i < |asm| then Some(v.(pc := i)) else None
  }

  /** As RiscV.Step, but every symbol is looked up by its text, la included. */
  function TextStep(asm: seq<R.Asm>, gaddr: map<string, int>, v: R.Rv): Option<R.Rv> {
    if v.pc >= |asm| then None
    else match asm[v.pc]
      case J(l) => TextGoto(asm, v, Text(l))
      case Jal(l) =>
        if v.pc + 1 >= TWO_32 then None else TextGoto(asm, v.(regs := v.regs.(ra := v.pc + 1)), Text(l))
      case Jr(r) => Some(v.(pc := v.regs.Get(r)))
      case BranchZero(r, l) => if v.regs.Get(r) == 0 then TextGoto(asm, v, Text(l)) else Some(v.(pc := v.pc + 1))
      case BranchNonzero(r, l) => if v.regs.Get(r) != 0 then TextGoto(asm, v, Text(l)) else Some(v.(pc := v.pc + 1))
      case La(rd, x) =>
        var i := TextFind(asm, x);
        if i < |asm| then R.Next(v, rd, Wrap(i)) else R.Plain(gaddr, asm[v.pc], v)
      case i => R.Plain(gaddr, i, v)
  }

  function TextRun(asm: seq<R.Asm>, gaddr: map<string, int>, v: R.Rv, n: nat): Option<R.Rv>
    decreases n
  {
    if n == 0 then Some(v)
    else
      var w := TextStep(asm, gaddr, v);
      if w.None? then None else TextRun(asm, gaddr, w.value, n - 1)
  }

  ghost predicate TextReaches(asm: seq<R.Asm>, gaddr: map<string, int>, v: R.Rv, w: R.Rv) {
    exists n: nat :: TextRun(asm, gaddr, v, n) == Some(w)
  }

  // ----- what symbols resolve to -----

  /** The first label with the text of l is l, or there is neither. */
  predicate ResolvesTo(asm: seq<R.Asm>, l: R.AsmLabel) {
    TextFind(asm, Text(l)) == Find(asm, R.Def(l))
  }

  /** Every name of the program and every label means what it is meant to: function names their functions, or
      nothing when only declared, epilogue labels theirs, local labels theirs, and globals no label at all. */
  ghost predicate SymbolsResolve(u: Unit, asm: seq<R.Asm>) {
    && (forall f | f in u.ctx.funcs :: ResolvesTo(asm, R.Global(f)))
    && (forall f | f in u.defined :: ResolvesTo(asm, R.Epilogue(f)))
    && (forall l: Label :: ResolvesTo(asm, R.Local(l)))
    && forall x | x in u.ctx.globals :: TextFind(asm, x) == |asm|
  }

  /** A label resolves when no other one has its text. */
  lemma {:induction false} Resolves(asm: seq<R.Asm>, l: R.AsmLabel)
    requires forall i | 0 <= i < |asm| && asm[i].Def? && Text(asm[i].l) == Text(l) :: asm[i].l == l
    ensures ResolvesTo(asm, l)
    decreases |asm|
  {
    hide Text;
    if asm != [] && asm[0] != R.Def(l) { Resolves(asm[1..], l); }
  }

  lemma DefNamed(u: Unit, i: nat)
    requires UnitOk(u) && i < |Asm(Linkable(u, 0, map[]))|
    ensures var asm := Asm(Linkable(u, 0, map[])); asm[i].Def? ==> Named(u, asm[i].l)
  {
    hide UnitOk, Asm, Named;
    if Asm(Linkable(u, 0, map[]))[i].Def? { LabelsAreNamed(u, i); }
  }

  /** Text determines the label, also for a label that is only declared. */
  lemma TextIsLabel(u: Unit, l: R.AsmLabel, m: R.AsmLabel)
    requires NamesOk(u) && Apart(u) && !Clash(u) && Named(u, l) && Text(l) == Text(m)
    requires Named(u, m) || (m.Global? && m.name in u.ctx.funcs)
    ensures l == m
  {
    hide NamesOk, Apart, Clash;
    if Named(u, m) { TextInjective(u, l, m); } else { LabelIsNoOther(u, l); }
  }

  lemma NoClashResolves(u: Unit)
    requires UnitOk(u) && Apart(u) && NamesOk(u) && !Clash(u)
    ensures SymbolsResolve(u, Asm(Linkable(u, 0, map[])))
  {
    hide UnitOk, Asm, Text, Clash, NamesOk, Apart, ResolvesTo;
    var asm := Asm(Linkable(u, 0, map[]));
    forall m: R.AsmLabel | Named(u, m) || (m.Global? && m.name in u.ctx.funcs) ensures ResolvesTo(asm, m) {
      forall i | 0 <= i < |asm| && asm[i].Def? && Text(asm[i].l) == Text(m) ensures asm[i].l == m {
        DefNamed(u, i);
        TextIsLabel(u, asm[i].l, m);
      }
      Resolves(asm, m);
    }
    forall x | x in u.ctx.globals ensures TextFind(asm, x) == |asm| {
      var i := TextFind(asm, x);
      if i < |asm| {
        DefNamed(u, i);
        LabelIsNoOther(u, asm[i].l);
      }
    }
  }

  lemma ClashMisleads(u: Unit)
    requires UnitOk(u) && Clash(u)
    ensures !SymbolsResolve(u, Asm(Linkable(u, 0, map[])))
  {
    hide UnitOk, Asm;
    var asm := Asm(Linkable(u, 0, map[]));
    var f :| f in u.defined && (f + "_epilogue" in u.ctx.funcs || f + "_epilogue" in u.ctx.globals);
    var g := f + "_epilogue";
    var i, j := LabelsOfDefined(u, f);
    assert Text(R.Epilogue(f)) == g && Text(R.Global(g)) == g;
    assert R.Def(R.Epilogue(f)) in asm;
    var epilogue, global := ResolvesTo(asm, R.Epilogue(f)), ResolvesTo(asm, R.Global(g));
    assert !(epilogue && global);
    assert epilogue ==> TextFind(asm, g) < |asm|;
  }

  /** In an accepted program every symbol resolves, by its text alone, to what it is meant for, if and only if no
      declared function or global is named like a defined function followed by _epilogue. */
  lemma ResolvesUnlessClash(ds: seq<TopDecl>)
    requires Compile(ds).Some? && NamesOk(Compile(ds).value)
    ensures SymbolsResolve(Compile(ds).value, Asm(Linkable(Compile(ds).value, 0, map[]))) <==> !Clash(Compile(ds).value)
  {
    hide UnitOk, Compile, Asm, Apart, NamesOk, Clash, SymbolsResolve;
    var u := Compile(ds).value;
    UnitOfCompile(ds);
    if Clash(u) { ClashMisleads(u); } else { NoClashResolves(u); }
  }

  // ----- what instructions refer to -----

  /** The symbol of an instruction is one that the program declares. */
  predicate SymbolOk(u: Unit, i: R.Asm) {
    match i
    case J(l) => TargetOk(u, l)
    case Jal(l) => TargetOk(u, l)
    case BranchZero(_, l) => TargetOk(u, l)
    case BranchNonzero(_, l) => TargetOk(u, l)
    case La(_, x) => x in u.ctx.globals
    case _ => true
  }

  predicate TargetOk(u: Unit, l: R.AsmLabel) {
    match l
    case Global(f) => f in u.ctx.funcs
    case Epilogue(f) => f in u.defined
    case Local(_) => true
  }

  predicate BlockOk(u: Unit, b: seq<R.Asm>) {
    forall k | 0 <= k < |b| :: SymbolOk(u, b[k])
  }

  lemma ExpandSymbols(u: Unit, cur: string, i: Instr)
    requires RefOk(u.ctx, i) && (i.Ret? ==> cur in u.defined)
    ensures BlockOk(u, AsmGen.Expand(u.sizes, cur, i))
  {
    match i {
      case Func(_) =>
      case EndFunc(_) =>
      case Bin(op) => BinarySymbols(u, op);
      case _ =>
    }
  }

  lemma BinarySymbols(u: Unit, op: IrBinary)
    ensures BlockOk(u, AsmGen.LoadPair + (AsmGen.BinaryCode(op) + AsmGen.StoreResult))
  {
    assert BlockOk(u, AsmGen.BinaryCode(op));
  }

  lemma CurrentIsDefined(u: Unit, i: nat)
    requires UnitOk(u) && i < |u.code| && !u.code[i].Func?
    ensures AsmGen.CurFunc(u.code, i) in u.defined
  {
    hide LinkedFunc, AsmGen.CurFunc, UniqueNames;
    assert LineOk(u.code, i);
    assert EndFunc(AsmGen.CurFunc(u.code, i)) in u.code;
  }

  lemma AsmSymbols(u: Unit, j: nat)
    requires UnitOk(u) && RefsOk(u.ctx, u.code) && j < |Asm(Linkable(u, 0, map[]))|
    ensures SymbolOk(u, Asm(Linkable(u, 0, map[]))[j])
  {
    hide UnitOk, SymbolOk, RefOk, AsmGen.Expand, AsmGen.CurFunc, AsmGen.Lines;
    var p := Linkable(u, 0, map[]);
    var i := Locate(p, |p.code|, j);
    LineAt(p, i);
    assert Asm(p)[Off(p, i)..Off(p, i) + |Line(p, i)|][j - Off(p, i)] == Asm(p)[j];
    assert p.code[i] in u.code;
    if !u.code[i].Func? { CurrentIsDefined(u, i); }
    ExpandSymbols(u, AsmGen.CurFunc(p.code, i), p.code[i]);
  }

  // ----- the two machines agree -----

  lemma TargetResolves(u: Unit, asm: seq<R.Asm>, l: R.AsmLabel)
    requires SymbolsResolve(u, asm) && TargetOk(u, l)
    ensures ResolvesTo(asm, l)
  {
    hide ResolvesTo;
  }

  lemma StepAgrees(u: Unit, asm: seq<R.Asm>, gaddr: map<string, int>, v: R.Rv)
    requires SymbolsResolve(u, asm) && BlockOk(u, asm)
    ensures TextStep(asm, gaddr, v) == R.Step(asm, gaddr, v)
  {
    hide Text, Find, TextFind, R.Plain, TargetOk;
    if v.pc < |asm| {
      assert SymbolOk(u, asm[v.pc]);
      match asm[v.pc] {
        case J(l) => TargetResolves(u, asm, l);
        case Jal(l) => TargetResolves(u, asm, l);
        case BranchZero(_, l) => TargetResolves(u, asm, l);
        case BranchNonzero(_, l) => TargetResolves(u, asm, l);
        case _ =>
      }
    }
  }

  lemma {:induction false} RunAgrees(u: Unit, asm: seq<R.Asm>, gaddr: map<string, int>, v: R.Rv, n: nat)
    requires SymbolsResolve(u, asm) && BlockOk(u, asm)
    ensures TextRun(asm, gaddr, v, n) == R.Run(asm, gaddr, v, n)
    decreases n
  {
    hide TextStep, R.Step, SymbolsResolve, BlockOk;
    if n > 0 {
      StepAgrees(u, asm, gaddr, v);
      var w := R.Step(asm, gaddr, v);
      if w.Some? { RunAgrees(u, asm, gaddr, w.value, n - 1); }
    }
  }

  /** Without a clash the assembly of an accepted program runs, as text, step by step as with structured labels,
      from every machine state; so a call to a function that is only declared goes nowhere. */
  lemma TextStepAgrees(ds: seq<TopDecl>, gaddr: map<string, int>, v: R.Rv)
    requires Compile(ds).Some? && NamesOk(Compile(ds).value) && !Clash(Compile(ds).value)
    ensures var asm := Asm(Linkable(Compile(ds).value, 0, map[]));
            TextStep(asm, gaddr, v) == R.Step(asm, gaddr, v)
  {
    hide Compile, Asm, TextStep, R.Step, NamesOk, Clash, SymbolsResolve, BlockOk;
    ProgramResolves(ds);
    StepAgrees(Compile(ds).value, Asm(Linkable(Compile(ds).value, 0, map[])), gaddr, v);
  }

  lemma ProgramResolves(ds: seq<TopDecl>)
    requires Compile(ds).Some? && NamesOk(Compile(ds).value) && !Clash(Compile(ds).value)
    ensures var u := Compile(ds).value; SymbolsResolve(u, Asm(Linkable(u, 0, map[]))) && BlockOk(u, Asm(Linkable(u, 0, map[])))
  {
    hide Compile, Asm, NamesOk, Clash, SymbolsResolve, UnitOk, Apart, RefsOk, SymbolOk;
    var u := Compile(ds).value;
    UnitOfCompile(ds);
    CompiledRefs(ds);
    NoClashResolves(u);
    var asm := Asm(Linkable(u, 0, map[]));
    forall k | 0 <= k < |asm| ensures SymbolOk(u, asm[k]) { AsmSymbols(u, k); }
  }

  /** The compiler is correct for the assembly as text: as Program.CompilerCorrect, when no name clashes. */
  lemma CompilerCorrectAsText(ds: seq<TopDecl>, lo: int, gaddr: map<string, int>, f: string, ws: seq<Word>, mem: Memory,
                              hi: int, fuel: nat, v: R.Rv)
    requires Compile(ds).Some? && NamesOk(Compile(ds).value) && !Clash(Compile(ds).value) && f in Compile(ds).value.defined
    requires var p := Linkable(Compile(ds).value, lo, gaddr);
             |Asm(p)| < TWO_32 && CalledWith(p, f, ws, mem, hi, v)
    requires Invoke(World(Compile(ds).value.defined, lo, gaddr), f, ws, v.regs.sp, mem, fuel).Some?
    ensures var u := Compile(ds).value;
            exists v' :: TextReaches(Asm(Linkable(u, lo, gaddr)), gaddr, v, v')
                         && ReturnedWith(v, v', Invoke(World(u.defined, lo, gaddr), f, ws, v.regs.sp, mem, fuel).value)
    ensures v.pc == TextFind(Asm(Linkable(Compile(ds).value, lo, gaddr)), f)
  {
    hide Compile, NamesOk, Clash, SymbolsResolve, Invoke, R.Run, TextRun, ReturnedWith, BlockOk, AsmGen.Lines, TextFind, Find;
    var u := Compile(ds).value;
    var asm := Asm(Linkable(u, lo, gaddr));
    assert asm == Asm(Linkable(u, 0, map[]));
    ProgramResolves(ds);
    CompilerCorrect(ds, lo, gaddr, f, ws, mem, hi, fuel, v);
    var v' :| R.Reaches(asm, gaddr, v, v') && ReturnedWith(v, v', Invoke(World(u.defined, lo, gaddr), f, ws, v.regs.sp, mem, fuel).value);
    var n: nat :| R.Run(asm, gaddr, v, n) == Some(v');
    RunAgrees(u, asm, gaddr, v, n);
    assert TextReaches(asm, gaddr, v, v');
    EntryResolves(ds, f);
  }

  lemma EntryResolves(ds: seq<TopDecl>, f: string)
    requires Compile(ds).Some? && f in Compile(ds).value.defined
    requires SymbolsResolve(Compile(ds).value, Asm(Linkable(Compile(ds).value, 0, map[])))
    ensures var asm := Asm(Linkable(Compile(ds).value, 0, map[])); TextFind(asm, f) == Find(asm, R.Def(R.Global(f)))
  {
    hide Compile, Asm, UnitOk, TextFind, Find;
    UnitOfCompile(ds);
    assert ResolvesTo(Asm(Linkable(Compile(ds).value, 0, map[])), R.Global(f));
  }
}
