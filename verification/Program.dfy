/** Whole programs: what the visitor accepts at file level, and the correctness of the compiler. */
module Program {
  import opened Wrappers
  import opened Words
  import opened Types
  import opened Syntax
  import opened Ir
  import opened Typing
  import opened CodeGen
  import opened Memory
  import opened Semantics
  import opened IrMachine
  import opened ControlFlow
  import opened Preservation
  import opened Labels
  import opened StackLayout
  import opened Lowering
  import AsmGen
  import R = RiscV

  /** The visitor's state between file-level declarations. */
  datatype Unit = Unit(ctx: Ctx, defined: map<string, FuncInfo>, code: seq<Instr>, sizes: map<string, nat>,
                       counters: Counters, containsMain: bool)

  const EmptyUnit: Unit := Unit(Ctx(map[], map[]), map[], [], map[], Counters(0, 0), false)

  /** A global declared again must have an equal type. */
  function DeclareGlobal(u: Unit, x: string, t: Type): Option<Unit> {
    if x in u.ctx.funcs || (x in u.ctx.globals && !u.ctx.globals[x].Equals(t)) then None
    else Some(u.(ctx := u.ctx.(globals := u.ctx.globals[x := t])))
  }

  function DeclareFunc(u: Unit, f: string, sig: Signature): Option<Ctx> {
    if f in u.ctx.globals || (f in u.ctx.funcs && !u.ctx.funcs[f].Equals(sig)) then None
    else Some(u.ctx.(funcs := u.ctx.funcs[f := sig]))
  }

  function FuncCode(f: string, g: FuncInfo): seq<Instr> {
    [Func(f)] + (ItemsCode(g.ctx, ParamEnv(g.params), None, g.body, g.counters).instrs + [EndFunc(f)])
  }

  function DefineFunc(u: Unit, stars: nat, f: string, params: seq<Param>, body: seq<Item>): Option<Unit> {
    var c := DeclareFunc(u, f, SignatureOf(stars, params));
    if f in u.defined || c.None? || !DistinctParams(params)
       || !ItemsOk(c.value, ParamEnv(params), Declared(stars), false, body) then None
    else
      var g := FuncInfo(c.value, Declared(stars), params, body, u.counters);
      Some(Unit(c.value, u.defined[f := g], u.code + FuncCode(f, g), u.sizes[f := g.Slots()],
                ItemsCode(g.ctx, ParamEnv(params), None, body, u.counters).next, u.containsMain || f == "main"))
  }

  function VisitTop(u: Unit, d: TopDecl): Option<Unit> {
    match d
    case GlobalVar(stars, x) => DeclareGlobal(u, x, LvalueOf(stars))
    case GlobalArr(stars, x, dims) => if DimsOk(dims) then DeclareGlobal(u, x, ArrayOf(LvalueOf(stars), dims)) else None
    case FuncDecl(stars, f, params) =>
      var c := DeclareFunc(u, f, SignatureOf(stars, params));
      if c.None? then None else Some(u.(ctx := c.value))
    case FuncDef(stars, f, params, body) => DefineFunc(u, stars, f, params, body)
  }

  function VisitTops(u: Unit, ds: seq<TopDecl>): Option<Unit>
    decreases ds
  {
    if ds == [] then Some(u)
    else
      var u1 := VisitTop(u, ds[0]);
      if u1.None? then None else VisitTops(u1.value, ds[1..])
  }

  /** visitProgram: None when an error is reported, also for a program without main. */
  function Compile(ds: seq<TopDecl>): Option<Unit> {
    var u := VisitTops(EmptyUnit, ds);
    if u.Some? && u.value.containsMain then u else None
  }

  // ----- the code of accepted programs is well-formed -----

  function Linkable(u: Unit, lo: int, gaddr: map<string, int>): IrProgram {
    IrProgram(u.code, u.sizes, lo, gaddr)
  }

  ghost predicate UnitOk(u: Unit) {
    && WellFormed(u.code)
    && u.sizes.Keys == u.defined.Keys
    && (forall l :: Marks(u.code, l) <= Range(l, Counters(0, 0), u.counters))
    && (forall i | i in u.code && (i.Func? || i.EndFunc?) :: i.name in u.defined)
    && forall f | f in u.defined :: LinkedFunc(u.defined[f], f, Linkable(u, 0, map[]))
  }

  lemma {:induction false} CurFuncPrefix(a: seq<Instr>, b: seq<Instr>, n: nat)
    requires n <= |a|
    ensures AsmGen.CurFunc(a + b, n) == AsmGen.CurFunc(a, n)
    decreases n
  {
    if n > 0 { CurFuncPrefix(a, b, n - 1); }
  }

  lemma {:induction false} CurFuncInside(a: seq<Instr>, f: string, body: seq<Instr>, tail: seq<Instr>, n: nat)
    requires NoFuncs(body) && n <= |body|
    ensures AsmGen.CurFunc(a + ([Func(f)] + (body + tail)), |a| + 1 + n) == f
    decreases n
  {
    var code := a + ([Func(f)] + (body + tail));
    if n == 0 {
      assert code[|a|] == Func(f);
    } else {
      CurFuncInside(a, f, body, tail, n - 1);
      assert code[|a| + n] == body[n - 1];
    }
  }

  lemma {:induction false} FindPrefix(a: seq<Instr>, b: seq<Instr>, x: Instr)
    requires x in a
    ensures Find(a + b, x) == Find(a, x) < |a|
    decreases |a|
  {
    if a[0] != x {
      assert (a + b)[1..] == a[1..] + b;
      FindPrefix(a[1..], b, x);
    }
  }

  /** Lines of the earlier functions stay as they were. */
  lemma OldLines(a: seq<Instr>, b: seq<Instr>, i: nat)
    requires WellFormed(a) && i < |a|
    ensures LineOk(a + b, i)
  {
    hide AsmGen.CurFunc, Find;
    CurFuncPrefix(a, b, i);
    assert LineOk(a, i);
    if !a[i].Func? { assert EndFunc(AsmGen.CurFunc(a, i)) in a + b; }
    if IsBranch(a[i]) {
      var t := Find(a, Mark(a[i].target));
      assert a[t] == Mark(a[i].target) by { FindIs(a, Mark(a[i].target)); }
      FindPrefix(a, b, Mark(a[i].target));
      CurFuncPrefix(a, b, t);
    }
  }

  lemma FindIs(a: seq<Instr>, x: Instr)
    ensures Find(a, x) < |a| ==> a[Find(a, x)] == x
  {
  }

  lemma UniqueFromMarks(code: seq<Instr>)
    requires forall l :: Marks(code, l) <= 1
    ensures UniqueMarks(code)
  {
    forall i, j | 0 <= i < |code| && 0 <= j < |code| && code[i].Mark? && code[i] == code[j] ensures i == j {
      MarksAt(code, code[i].target, i);
    }
  }

  /** A function whose body is closed under its own labels. */
  ghost predicate Closed(body: seq<Instr>) {
    NoFuncs(body) && forall l | Uses(body, l) :: Marks(body, l) >= 1
  }

  lemma NewLines(a: seq<Instr>, f: string, body: seq<Instr>, i: nat)
    requires WellFormed(a) && Closed(body) && i <= |body| + 1
    requires UniqueMarks(a + ([Func(f)] + (body + [EndFunc(f)])))
    ensures LineOk(a + ([Func(f)] + (body + [EndFunc(f)])), |a| + i)
  {
    hide AsmGen.CurFunc, Find, Marks, Uses, UniqueMarks;
    var code := a + ([Func(f)] + (body + [EndFunc(f)]));
    assert code[|a| + 1 + |body|] == EndFunc(f);
    if i > 0 {
      CurFuncInside(a, f, body, [EndFunc(f)], i - 1);
      if i <= |body| {
        assert code[|a| + i] == body[i - 1];
        assert body[i - 1] in body;
        if i < |body| { assert code[|a| + i + 1] == body[i] && body[i] in body; }
        if IsBranch(body[i - 1]) {
          var l := body[i - 1].target;
          assert IsUse(body[i - 1], l);
          assert Uses(body, l) by { UseIs(body, l, i - 1); }
          var j := MarksIn(body, l);
          assert code[|a| + 1 + j] == Mark(l);
          UniqueFind(code, l, |a| + 1 + j);
          CurFuncInside(a, f, body, [EndFunc(f)], j);
        }
      }
    } else if body != [] {
      assert code[|a| + 1] == body[0] && body[0] in body;
    }
  }

  lemma UseIs(code: seq<Instr>, l: Label, i: nat)
    requires i < |code| && IsUse(code[i], l)
    ensures Uses(code, l)
  {
  }

  lemma UniqueFind(code: seq<Instr>, l: Label, i: nat)
    requires UniqueMarks(code) && i < |code| && code[i] == Mark(l)
    ensures Find(code, Mark(l)) == i
  {
    assert code[i] in code;
  }

  lemma ExtendWellFormed(a: seq<Instr>, f: string, body: seq<Instr>)
    requires WellFormed(a) && Closed(body) && Func(f) !in a && EndFunc(f) !in a
    requires forall l :: Marks(a, l) + Marks(body, l) <= 1
    ensures WellFormed(a + ([Func(f)] + (body + [EndFunc(f)])))
  {
    hide LineOk, Marks, Uses;
    var code := a + ([Func(f)] + (body + [EndFunc(f)]));
    forall l ensures Marks(code, l) <= 1 { BlockMarks(a, f, body, l); }
    UniqueFromMarks(code);
    forall i | 0 <= i < |code| ensures LineOk(code, i) {
      if i < |a| {
        OldLines(a, [Func(f)] + (body + [EndFunc(f)]), i);
      } else {
        NewLines(a, f, body, i - |a|);
      }
    }
  }

  lemma BlockMarks(a: seq<Instr>, f: string, body: seq<Instr>, l: Label)
    ensures Marks(a + ([Func(f)] + (body + [EndFunc(f)])), l) == Marks(a, l) + Marks(body, l)
  {
    MarksAppend(a, [Func(f)] + (body + [EndFunc(f)]), l);
    MarksAppend([Func(f)], body + [EndFunc(f)], l);
    MarksAppend(body, [EndFunc(f)], l);
    MarksOne(Func(f), l);
    MarksOne(EndFunc(f), l);
  }

  // ----- linking -----

  lemma BodyClosed(g: FuncInfo, l: Label)
    ensures var x := ItemsCode(g.ctx, ParamEnv(g.params), None, g.body, g.counters);
            Marks(x.instrs, l) <= Range(l, g.counters, x.next) && Closed(x.instrs)
  {
    hide Marks, Uses, ItemsCode, NoFuncs;
    var x := ItemsCode(g.ctx, ParamEnv(g.params), None, g.body, g.counters);
    ItemsTidy(g.ctx, ParamEnv(g.params), None, g.body, g.counters, l);
    forall l' | Uses(x.instrs, l') ensures Marks(x.instrs, l') >= 1 {
      ItemsTidy(g.ctx, ParamEnv(g.params), None, g.body, g.counters, l');
    }
  }

  /** Code that lies in a program lies at the same place in an extension of it. */
  lemma AtPrefix(p: IrProgram, b: seq<Instr>, pc: nat, c: seq<Instr>)
    requires At(p, pc, c)
    ensures At(p.(code := p.code + b), pc, c)
  {
    assert (p.code + b)[pc..pc + |c|] == p.code[pc..pc + |c|];
  }

  lemma LinkedPrefix(g: FuncInfo, f: string, p: IrProgram, b: seq<Instr>, sizes: map<string, nat>)
    requires LinkedFunc(g, f, p) && f in sizes && sizes[f] == p.sizes[f]
    ensures LinkedFunc(g, f, p.(code := p.code + b, sizes := sizes))
  {
    hide ItemsCode, ItemsOk, FrameSlots, At;
    FindPrefix(p.code, b, Func(f));
    AtPrefix(p, b, p.Entry(f), ItemsCode(g.ctx, ParamEnv(g.params), None, g.body, g.counters).instrs + [EndFunc(f)]);
    AtSizes(p.(code := p.code + b), sizes, p.Entry(f),
            ItemsCode(g.ctx, ParamEnv(g.params), None, g.body, g.counters).instrs + [EndFunc(f)]);
  }

  lemma AtSizes(p: IrProgram, sizes: map<string, nat>, pc: nat, c: seq<Instr>)
    requires At(p, pc, c)
    ensures At(p.(sizes := sizes), pc, c)
  {
  }

  lemma FindAfter(a: seq<Instr>, x: Instr, b: seq<Instr>)
    requires x !in a
    ensures Find(a + ([x] + b), x) == |a|
  {
    var s := a + ([x] + b);
    assert s[|a|] == x;
    assert x in s;
    assert s[..|a|] == a;
  }

  lemma LinkedNew(g: FuncInfo, f: string, a: seq<Instr>, sizes: map<string, nat>)
    requires Func(f) !in a && f in sizes && sizes[f] == g.Slots()
    requires ItemsOk(g.ctx, ParamEnv(g.params), g.ret, false, g.body)
    ensures LinkedFunc(g, f, IrProgram(a + FuncCode(f, g), sizes, 0, map[]))
  {
    hide ItemsCode, ItemsOk, FrameSlots;
    var c := ItemsCode(g.ctx, ParamEnv(g.params), None, g.body, g.counters).instrs + [EndFunc(f)];
    var code := a + FuncCode(f, g);
    FindAfter(a, Func(f), c);
    assert code[|a|] == Func(f);
    assert code[|a| + 1..|a| + 1 + |c|] == c;
  }

  lemma FuncCodeNames(a: seq<Instr>, f: string, g: FuncInfo, i: Instr)
    requires Closed(ItemsCode(g.ctx, ParamEnv(g.params), None, g.body, g.counters).instrs)
    requires i in a + FuncCode(f, g) && (i.Func? || i.EndFunc?)
    ensures i in a || i.name == f
  {
  }

  lemma DefineOk(u: Unit, stars: nat, f: string, params: seq<Param>, body: seq<Item>)
    requires UnitOk(u) && DefineFunc(u, stars, f, params, body).Some?
    ensures UnitOk(DefineFunc(u, stars, f, params, body).value)
  {
    hide ItemsCode, ItemsOk, WellFormed, LinkedFunc, Marks, NoFuncs, Uses, FrameSlots, Closed, DeclareFunc;
    var u1 := DefineFunc(u, stars, f, params, body).value;
    var g := u1.defined[f];
    var x := ItemsCode(g.ctx, ParamEnv(params), None, body, u.counters);
    assert Func(f) !in u.code && EndFunc(f) !in u.code;
    forall l ensures Marks(u.code, l) + Marks(x.instrs, l) <= Range(l, Counters(0, 0), u1.counters) {
      BodyClosed(g, l);
    }
    BodyClosed(g, EndIf(0));
    ExtendWellFormed(u.code, f, x.instrs);
    forall l ensures Marks(u1.code, l) <= Range(l, Counters(0, 0), u1.counters) {
      BlockMarks(u.code, f, x.instrs, l);
    }
    forall i | i in u1.code && (i.Func? || i.EndFunc?) ensures i.name in u1.defined {
      FuncCodeNames(u.code, f, g, i);
    }
    LinkedNew(g, f, u.code, u1.sizes);
    forall h | h in u1.defined ensures LinkedFunc(u1.defined[h], h, Linkable(u1, 0, map[])) {
      if h != f {
        var p := Linkable(u, 0, map[]);
        LinkedPrefix(u.defined[h], h, p, FuncCode(f, g), u1.sizes);
      }
    }
  }

  lemma {:induction false} VisitOk(u: Unit, ds: seq<TopDecl>)
    requires UnitOk(u) && VisitTops(u, ds).Some?
    ensures UnitOk(VisitTops(u, ds).value)
    decreases ds
  {
    hide DefineFunc, DeclareFunc, WellFormed, LinkedFunc, Marks;
    if ds != [] {
      var u1 := VisitTop(u, ds[0]).value;
      match ds[0] {
        case FuncDef(stars, f, params, body) => DefineOk(u, stars, f, params, body);
        case _ => SameCode(u, u1);
      }
      VisitOk(u1, ds[1..]);
    }
  }

  lemma SameCode(u: Unit, u1: Unit)
    requires UnitOk(u) && u1 == u.(ctx := u1.ctx)
    ensures UnitOk(u1)
  {
    hide WellFormed, LinkedFunc, Marks;
    assert Linkable(u1, 0, map[]) == Linkable(u, 0, map[]);
  }

  lemma EmptyOk()
    ensures UnitOk(EmptyUnit)
  {
  }

  /** The layout of stack and globals does not matter for where code lies. */
  lemma Relink(g: FuncInfo, f: string, u: Unit, lo: int, gaddr: map<string, int>)
    requires LinkedFunc(g, f, Linkable(u, 0, map[]))
    ensures LinkedFunc(g, f, Linkable(u, lo, gaddr))
  {
    hide ItemsCode, ItemsOk, FrameSlots;
  }

  /** The labels of an accepted program are closed: each is defined once, every branch stays inside its
      function, and the code of every defined function is in place. */
  lemma CompiledIsLinked(ds: seq<TopDecl>, lo: int, gaddr: map<string, int>)
    requires Compile(ds).Some?
    ensures var u := Compile(ds).value;
            && WellFormed(u.code)
            && Linked(World(u.defined, lo, gaddr), Linkable(u, lo, gaddr))
            && "main" in u.defined
  {
    hide WellFormed, LinkedFunc, Marks, UniqueMarks;
    EmptyOk();
    VisitOk(EmptyUnit, ds);
    var u := Compile(ds).value;
    forall f | f in u.defined ensures LinkedFunc(u.defined[f], f, Linkable(u, lo, gaddr)) {
      Relink(u.defined[f], f, u, lo, gaddr);
    }
    WellFormedMarks(u.code);
    MainDefined(EmptyUnit, ds);
  }

  lemma WellFormedMarks(code: seq<Instr>)
    requires WellFormed(code)
    ensures UniqueMarks(code)
  {
  }

  lemma {:induction false} MainDefined(u: Unit, ds: seq<TopDecl>)
    requires VisitTops(u, ds).Some? && (u.containsMain ==> "main" in u.defined)
    ensures VisitTops(u, ds).value.containsMain ==> "main" in VisitTops(u, ds).value.defined
    decreases ds
  {
    hide DeclareFunc, ItemsOk, ItemsCode;
    if ds != [] { MainDefined(VisitTop(u, ds[0]).value, ds[1..]); }
  }

  // ----- the compiler is correct -----

  /** The machine stands at the label of f, as after a jal: arguments on top of the stack, the return
      address in ra, memory agreeing with the variables that exist. */
  ghost predicate CalledWith(p: IrProgram, f: string, ws: seq<Word>, mem: Memory, hi: int, v: R.Rv) {
    && Space(p, Boot(v.regs.ra, v.regs.fp, v.regs.sp, hi))
    && v.pc == Find(Asm(p), R.Def(R.Global(f)))
    && v.regs.sp % 4 == 0 && v.regs.sp + 4 * |ws| <= hi
    && Ram(p, Boot(v.regs.ra, v.regs.fp, v.regs.sp, hi), v.mem)
    && (forall i | 0 <= i < |ws| :: ArgAt(v, i) in v.mem && v.mem[ArgAt(v, i)] == ws[i])
    && VarsAgree(mem, v.mem) && KeysClear(mem.Keys, p.lo, v.regs.sp + 4 * |ws|)
  }

  function ArgAt(v: R.Rv, i: int): int {
    v.regs.sp + 4 * i
  }

  /** The machine is back at the return address with the result in a0, sp, fp and ra as they were, and
      memory agreeing with the variables. */
  ghost predicate ReturnedWith(v: R.Rv, v': R.Rv, r: Value) {
    && v'.pc == v.regs.ra && v'.regs.a0 == r.w
    && v'.regs.sp == v.regs.sp && v'.regs.fp == v.regs.fp && v'.regs.ra == v.regs.ra
    && VarsAgree(r.mem, v'.mem)
  }

  lemma BootHolds(p: IrProgram, f: string, ws: seq<Word>, mem: Memory, hi: int, v: R.Rv)
    requires CalledWith(p, f, ws, mem, hi, v) && v.regs.sp - 8 - 4 * p.Size(f) >= p.lo
    ensures var boot := Boot(v.regs.ra, v.regs.fp, v.regs.sp, hi);
            var sp := v.regs.sp;
            && sp - 4 in v.mem && sp - 8 in v.mem
            && Holds(p, boot, Frame(f, sp, |ws|, Exit), [], EnterFrame(mem, sp, p.Size(f), ws), sp, sp - 8 - 4 * p.Size(f),
                     v.mem[sp - 4 := v.regs.ra][sp - 8 := v.regs.fp])
  {
    hide EnterFrame, InParams, InLocals;
    var sp := v.regs.sp;
    var slots := p.Size(f);
    var mem1 := EnterFrame(mem, sp, slots, ws);
    var m1 := v.mem[sp - 4 := v.regs.ra][sp - 8 := v.regs.fp];
    forall a | a in mem1
      ensures a in m1 && (mem1[a].Some? ==> m1[a] == mem1[a].value)
      ensures !(p.lo <= a < sp - 8 - 4 * slots) && a != sp - 4 && a != sp - 8
    {
      EnterCell(mem, sp, slots, ws, a);
      if InParams(a, sp, |ws|) && sp <= a { BootParam(v, mem, slots, ws, a); }
    }
  }

  lemma BootParam(v: R.Rv, mem: Memory, slots: nat, ws: seq<Word>, a: int)
    requires InParams(a, v.regs.sp, |ws|)
    requires forall i | 0 <= i < |ws| :: ArgAt(v, i) in v.mem && v.mem[ArgAt(v, i)] == ws[i]
    ensures var mem1 := EnterFrame(mem, v.regs.sp, slots, ws);
            a in v.mem && a in mem1 && mem1[a] == Some(v.mem[a]) && v.regs.sp <= a < v.regs.sp + 4 * |ws|
  {
    var i := (a - v.regs.sp) / 4;
    assert a == ArgAt(v, i) && 0 <= i < |ws|;
  }

  /** The compiler is correct: for every accepted program, every function it defines and all arguments,
      if the source defines the result of the call then the generated code, entered at the function's
      label, returns that result and leaves the variables as the source says. */
  lemma CompilerCorrect(ds: seq<TopDecl>, lo: int, gaddr: map<string, int>, f: string, ws: seq<Word>, mem: Memory,
                        hi: int, fuel: nat, v: R.Rv)
    requires Compile(ds).Some? && f in Compile(ds).value.defined
    requires var p := Linkable(Compile(ds).value, lo, gaddr);
             |Asm(p)| < TWO_32 && CalledWith(p, f, ws, mem, hi, v)
    requires Invoke(World(Compile(ds).value.defined, lo, gaddr), f, ws, v.regs.sp, mem, fuel).Some?
    ensures var u := Compile(ds).value;
            exists v' :: R.Reaches(Asm(Linkable(u, lo, gaddr)), gaddr, v, v')
                         && ReturnedWith(v, v', Invoke(World(u.defined, lo, gaddr), f, ws, v.regs.sp, mem, fuel).value)
  {
    hide Compile, WellFormed, Linked, R.Reaches, IrMachine.Reaches, AsmGen.Lines, EnterFrame, Find, Holds, Ram, VarsAgree, Invoke;
    var u := Compile(ds).value;
    var p, W := Linkable(u, lo, gaddr), World(u.defined, lo, gaddr);
    var r := Invoke(W, f, ws, v.regs.sp, mem, fuel).value;
    var boot := Boot(v.regs.ra, v.regs.fp, v.regs.sp, hi);
    CompiledIsLinked(ds, lo, gaddr);
    LinkedFacts(W, p, f);
    InvokeRoom(W, f, ws, v.regs.sp, mem, fuel);
    var fr := Frame(f, v.regs.sp, |ws|, Exit);
    EntryInBody(p, fr);
    LabelPosition(p, R.Global(f), p.Entry(f) - 1);
    BootHolds(p, f, ws, mem, hi, v);
    PrologueRun(p, f, v);
    var v1 := R.Rv(Off(p, p.Entry(f)), v.regs.(sp := v.regs.sp - 8 - 4 * p.Size(f), fp := v.regs.sp),
                   v.mem[v.regs.sp - 4 := v.regs.ra][v.regs.sp - 8 := v.regs.fp]);
    BodySim(W, p, fr, f, ws, mem, fuel);
    SimReaches(p, boot, EntryState(W, p, fr, f, ws, mem), Halted(r.w, r.mem), v1);
    MatchedVia(p, boot, v, v1, Halted(r.w, r.mem));
    var v' :| R.Reaches(Asm(p), p.gaddr, v, v') && Match(p, boot, Halted(r.w, r.mem), v');
  }

  lemma InvokeRoom(W: World, f: string, ws: seq<Word>, fp: int, mem: Memory, fuel: nat)
    requires Invoke(W, f, ws, fp, mem, fuel).Some?
    ensures f in W.funcs && fp - 8 - 4 * W.funcs[f].Slots() >= W.lo
  {
    hide ExecItems, FrameSlots;
  }

  // ----- consequences -----

  lemma HaltedStays(p: IrProgram, s: State, n: nat, m: nat, t: State, u: State)
    requires t.Halted? && u.Halted? && IrMachine.Run(p, s, n) == Some(t) && IrMachine.Run(p, s, m) == Some(u)
    ensures t == u
  {
    hide IrMachine.Run;
    if n <= m {
      IrMachine.RunAppend(p, s, n, t, m - n);
      HaltedRun(p, t, m - n);
    } else {
      IrMachine.RunAppend(p, s, m, u, n - m);
      HaltedRun(p, u, n - m);
    }
  }

  lemma HaltedRun(p: IrProgram, t: State, n: nat)
    requires t.Halted? && IrMachine.Run(p, t, n).Some?
    ensures n == 0
  {
  }

  /** The meaning of a call does not depend on the fuel: any two amounts that suffice agree on the
      result and on the variables. */
  lemma FuelIrrelevant(ds: seq<TopDecl>, lo: int, gaddr: map<string, int>, f: string, ws: seq<Word>, fp: int, mem: Memory,
                       fuel: nat, fuel': nat)
    requires Compile(ds).Some?
    requires var W := World(Compile(ds).value.defined, lo, gaddr);
             Invoke(W, f, ws, fp, mem, fuel).Some? && Invoke(W, f, ws, fp, mem, fuel').Some?
    ensures var W := World(Compile(ds).value.defined, lo, gaddr);
            Invoke(W, f, ws, fp, mem, fuel) == Invoke(W, f, ws, fp, mem, fuel')
  {
    hide Compile, Linked, WellFormed, Invoke, IrMachine.Run;
    var u := Compile(ds).value;
    var p, W := Linkable(u, lo, gaddr), World(u.defined, lo, gaddr);
    CompiledIsLinked(ds, lo, gaddr);
    InvokeRoom(W, f, ws, fp, mem, fuel);
    var fr := Frame(f, fp, |ws|, Exit);
    BodySim(W, p, fr, f, ws, mem, fuel);
    BodySim(W, p, fr, f, ws, mem, fuel');
    var s := EntryState(W, p, fr, f, ws, mem);
    var t := AfterReturn(fr, Invoke(W, f, ws, fp, mem, fuel).value);
    var t' := AfterReturn(fr, Invoke(W, f, ws, fp, mem, fuel').value);
    var n: nat :| IrMachine.Run(p, s, n) == Some(t);
    var n': nat :| IrMachine.Run(p, s, n') == Some(t');
    HaltedStays(p, s, n, n', t, t');
  }
}
