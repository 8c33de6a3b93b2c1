/** A program with a name clash: int f_epilogue(); int f() { return 0; } int main() { return f_epilogue(); }
    is accepted, and its call, resolved by text, lands in the epilogue of f. */
module LabelClash {
  import opened Wrappers
  import opened Words
  import opened Types
  import opened Syntax
  import opened Ir
  import opened Typing
  import opened CodeGen
  import opened IrMachine
  import opened StackLayout
  import opened Lowering
  import opened Program
  import opened SmallPrograms
  import opened LabelText
  import opened TextMachine
  import AsmGen
  import R = RiscV

  const Declaration: TopDecl := FuncDecl(0, "f_epilogue", [])
  const Zero: seq<Item> := [StmtItem(Return(IntLit("0")))]
  const CallIt: Expr := Call("f_epilogue", [])
  const MainItems: seq<Item> := [StmtItem(Return(CallIt))]
  const Source: seq<TopDecl> := [Declaration, FuncDef(0, "f", [], Zero), FuncDef(0, "main", [], MainItems)]

  lemma VisitThree(u: Unit, c: TopDecl, d: TopDecl, e: TopDecl)
    requires VisitTop(u, c).Some? && VisitTop(VisitTop(u, c).value, d).Some?
    requires VisitTop(VisitTop(VisitTop(u, c).value, d).value, e).Some?
    ensures VisitTops(u, [c, d, e]) == VisitTop(VisitTop(VisitTop(u, c).value, d).value, e)
  {
    hide VisitTop;
    assert [c, d, e][1..] == [d, e];
    VisitTwo(VisitTop(u, c).value, d, e);
  }

  lemma CallType(c: Ctx, sc: seq<Scope>)
    requires "f_epilogue" in c.funcs && c.funcs["f_epilogue"] == SignatureOf(0, [])
    ensures TypeOf(c, sc, CallIt) == Some(IntType(RVALUE))
  {
    assert ArgsOk(c, sc, [], []);
  }

  /** The IR of main is the call and a ret. */
  lemma CallCode(c: Ctx, env: Env, k: Counters)
    requires env.scopes != []
    ensures CallF("f_epilogue", if "f_epilogue" in c.funcs then |c.funcs["f_epilogue"].paramTypes| else 0)
            in ItemsCode(c, env, None, MainItems, k).instrs
  {
    hide TypeOf;
    var i := CallF("f_epilogue", if "f_epilogue" in c.funcs then |c.funcs["f_epilogue"].paramTypes| else 0);
    var sc := env.scopes;
    assert i in ExprCode(c, sc, CallIt, k.labels).instrs;
    assert i in RvalueCode(c, sc, CallIt, k.labels).instrs;
    assert i in CodeOf(c, env, None, Return(CallIt), k).instrs;
    assert i in ItemCode(c, env, None, MainItems[0], k).instrs;
  }

  lemma FirstTwo() returns (u: Unit)
    ensures VisitTop(EmptyUnit, Declaration).Some?
    ensures VisitTop(VisitTop(EmptyUnit, Declaration).value, FuncDef(0, "f", [], Zero)) == Some(u)
    ensures u.defined.Keys == {"f"} && u.ctx.funcs.Keys == {"f_epilogue", "f"} && u.ctx.globals == map[]
    ensures u.ctx.funcs["f_epilogue"] == SignatureOf(0, [])
  {
    hide TypeOf, ItemsCode, ItemsOk, Compare;
    var u1 := VisitTop(EmptyUnit, Declaration).value;
    var c := DeclareFunc(u1, "f", SignatureOf(0, [])).value;
    ZeroAccepted();
    LiteralType(c, ParamEnv([]).scopes, "0");
    ReturnOk(c, ParamEnv([]), IntLit("0"));
    u := DefineFunc(u1, 0, "f", [], Zero).value;
  }

  lemma ZeroAccepted()
    ensures !TooLarge("0")
  {
  }

  lemma Accepted() returns (u: Unit)
    ensures Compile(Source) == Some(u) && u.defined.Keys == {"f", "main"} && u.ctx.funcs.Keys == {"f_epilogue", "f", "main"}
    ensures u.ctx.globals == map[] && CallF("f_epilogue", 0) in u.code
  {
    hide TypeOf, ItemsCode, ItemsOk, Compare;
    var u2 := FirstTwo();
    var c := DeclareFunc(u2, "main", SignatureOf(0, [])).value;
    CallType(c, ParamEnv([]).scopes);
    ReturnOk(c, ParamEnv([]), CallIt);
    CallCode(c, ParamEnv([]), u2.counters);
    u := DefineFunc(u2, 0, "main", [], MainItems).value;
    VisitThree(EmptyUnit, Declaration, FuncDef(0, "f", [], Zero), FuncDef(0, "main", [], MainItems));
  }

  /** The program is accepted and clashes.  Its assembly holds a jal f_epilogue; with structured labels that call
      goes nowhere from any state, as the function is not defined, and as text it lands on the epilogue label
      of f. */
  lemma ClashLandsInside(gaddr: map<string, int>) returns (u: Unit, j: nat)
    ensures Compile(Source) == Some(u) && NamesOk(u) && Clash(u) && "f_epilogue" !in u.defined
    ensures var asm := Asm(Linkable(u, 0, map[]));
            && j < |asm| && asm[j] == R.Jal(R.Global("f_epilogue"))
            && (forall v: R.Rv | v.pc == j :: R.Step(asm, gaddr, v) == None)
            && Find(asm, R.Def(R.Epilogue("f"))) < |asm|
            && forall v: R.Rv | v.pc == j && j + 1 < TWO_32 ::
                 TextStep(asm, gaddr, v) == Some(v.(pc := Find(asm, R.Def(R.Epilogue("f"))), regs := v.regs.(ra := j + 1)))
  {
    hide Compile, Asm, UnitOk, TextFind, Find, NamesOk, Clash, R.Step, TextStep;
    u := Accepted();
    UnitOfCompile(Source);
    HasClash(u);
    j := JalAt(u);
    NotDefined(u);
    LandsAt(u);
    var asm := Asm(Linkable(u, 0, map[]));
    forall v: R.Rv | v.pc == j ensures R.Step(asm, gaddr, v) == None { StepsAt(u, asm, j, gaddr, v); }
    forall v: R.Rv | v.pc == j && j + 1 < TWO_32
      ensures TextStep(asm, gaddr, v) == Some(v.(pc := Find(asm, R.Def(R.Epilogue("f"))), regs := v.regs.(ra := j + 1)))
    {
      StepsAt(u, asm, j, gaddr, v);
    }
  }

  lemma HasClash(u: Unit)
    requires u.defined.Keys == {"f", "main"} && u.ctx.funcs.Keys == {"f_epilogue", "f", "main"} && u.ctx.globals == map[]
    ensures NamesOk(u) && Clash(u) && "f_epilogue" !in u.defined
  {
    assert "f" + "_epilogue" == "f_epilogue";
  }

  lemma JalAt(u: Unit) returns (j: nat)
    requires CallF("f_epilogue", 0) in u.code
    ensures var asm := Asm(Linkable(u, 0, map[])); j < |asm| && asm[j] == R.Jal(R.Global("f_epilogue"))
  {
    hide AsmGen.Lines;
    var p := Linkable(u, 0, map[]);
    var i: nat :| i < |u.code| && u.code[i] == CallF("f_epilogue", 0);
    LineAt(p, i);
    j := Off(p, i);
    R.BlockHead(Asm(p), j, Line(p, i));
  }

  lemma StepsAt(u: Unit, asm: seq<R.Asm>, j: nat, gaddr: map<string, int>, v: R.Rv)
    requires v.pc == j < |asm| && asm[j] == R.Jal(R.Global("f_epilogue"))
    requires Find(asm, R.Def(R.Global("f_epilogue"))) == |asm|
    ensures R.Step(asm, gaddr, v) == None
    ensures TextFind(asm, "f_epilogue") < |asm| && j + 1 < TWO_32 ==>
              TextStep(asm, gaddr, v) == Some(v.(pc := TextFind(asm, "f_epilogue"), regs := v.regs.(ra := j + 1)))
  {
    hide Find, TextFind, Text, R.Plain, R.Next;
    TextOfName("f_epilogue");
  }

  lemma TextOfName(f: string)
    ensures Text(R.Global(f)) == f
  {
  }

  lemma NotDefined(u: Unit)
    requires UnitOk(u) && "f_epilogue" !in u.defined
    ensures Find(Asm(Linkable(u, 0, map[])), R.Def(R.Global("f_epilogue"))) == |Asm(Linkable(u, 0, map[]))|
  {
    hide Asm, UnitOk;
    var asm := Asm(Linkable(u, 0, map[]));
    var k := Find(asm, R.Def(R.Global("f_epilogue")));
    if k < |asm| { LabelsAreNamed(u, k); }
  }

  lemma LandsAt(u: Unit)
    requires UnitOk(u) && u.defined.Keys == {"f", "main"}
    ensures var asm := Asm(Linkable(u, 0, map[]));
            TextFind(asm, "f_epilogue") == Find(asm, R.Def(R.Epilogue("f"))) < |asm|
  {
    hide Asm, UnitOk, Find;
    var asm := Asm(Linkable(u, 0, map[]));
    var i, j := LabelsOfDefined(u, "f");
    forall k | 0 <= k < |asm| && asm[k].Def? && Text(asm[k].l) == Text(R.Epilogue("f")) ensures asm[k].l == R.Epilogue("f") {
      LabelsAreNamed(u, k);
      OnlyEpilogue(asm[k].l);
    }
    Resolves(asm, R.Epilogue("f"));
    assert R.Def(R.Epilogue("f")) in asm;
    FoundWithin(asm, R.Def(R.Epilogue("f")));
  }

  lemma FoundWithin(asm: seq<R.Asm>, x: R.Asm)
    requires x in asm
    ensures Find(asm, x) < |asm|
  {
  }

  lemma OnlyEpilogue(l: R.AsmLabel)
    requires !l.Local? ==> l.name == "f" || l.name == "main"
    requires Text(l) == "f_epilogue"
    ensures l == R.Epilogue("f")
  {
    hide Decimal, Stem;
    var t := Text(l);
    assert t[0] == 'f' && |t| == 10;
    match l {
      case Local(m) => StemHasNoDigits(m);
      case Global(f) =>
      case Epilogue(f) => assert |f| == 1;
    }
  }
}
