/** MainVisitor.java: one walk over the tree that checks it and appends IR to a buffer.  Every method is
    proved against the functions of Typing, CodeGen and Program; a false or None result stands for the
    exception that ends the compilation. */
module MainVisitor {
  import opened Wrappers
  import opened Words
  import opened Types
  import opened Syntax
  import opened Ir
  import opened Typing
  import opened CodeGen
  import P = Program
  import S = Semantics

  class Visitor {
    var currentFunc: string
    var containsMain: bool
    var funcDeclared: map<string, Signature>
    var funcDefined: map<string, Signature>
    var funcFrameSize: map<string, nat>
    var ir: seq<Instr>
    var localCntr: int
    var frameCntr: int
    var symbolTable: seq<Scope>
    var globDeclared: map<string, Type>
    var labelCntr: nat
    var loopCntr: nat
    var loopStack: seq<nat>
    /** The definitions accepted so far, each with the declarations it was checked against. */
    ghost var infos: map<string, S.FuncInfo>

    constructor ()
      ensures AtFileLevel() && Unit() == P.EmptyUnit
    {
      currentFunc, containsMain := "", false;
      funcDeclared, funcDefined, funcFrameSize, globDeclared := map[], map[], map[], map[];
      ir, localCntr, frameCntr, symbolTable := [], 0, 0, [];
      labelCntr, loopCntr, loopStack := 0, 0, [];
      infos := map[];
    }

    function Context(): Ctx
      reads this`globDeclared, this`funcDeclared
    {
      Ctx(globDeclared, funcDeclared)
    }

    function Tables(): Env
      reads this`symbolTable, this`localCntr, this`frameCntr
    {
      Env(symbolTable, localCntr, frameCntr)
    }

    function Numbers(): Counters
      reads this`labelCntr, this`loopCntr
    {
      Counters(labelCntr, loopCntr)
    }

    function InnerLoop(): Option<nat>
      reads this`loopStack
    {
      if loopStack == [] then None else Some(loopStack[0])
    }

    ghost function Unit(): P.Unit
      reads this
    {
      P.Unit(Context(), infos, ir, funcFrameSize, Numbers(), containsMain)
    }

    ghost predicate AtFileLevel()
      reads this
    {
      symbolTable == [] && loopStack == [] && funcDefined.Keys == infos.Keys
    }

    // ----- scopes and types -----

    method Emit(code: seq<Instr>)
      modifies this`ir
      ensures ir == old(ir) + code
    {
      ir := ir + code;
    }

    method LookupSymbol(name: string) returns (r: Option<Symbol>)
      ensures r == Lookup(symbolTable, name)
    {
      var i := 0;
      while i < |symbolTable|
        invariant 0 <= i <= |symbolTable|
        invariant Lookup(symbolTable, name) == Lookup(symbolTable[i..], name)
      {
        if name in symbolTable[i] {
          return Some(symbolTable[i][name]);
        }
        assert symbolTable[i..][1..] == symbolTable[i + 1..];
        i := i + 1;
      }
      return None;
    }

    method DeclLocalVar(num: int)
      modifies this`localCntr, this`frameCntr
      ensures Tables() == Reserve(old(Tables()), num)
    {
      localCntr := localCntr + num;
      if localCntr > frameCntr {
        frameCntr := localCntr;
      }
    }

    method StartScope()
      modifies this`symbolTable
      ensures Tables() == OpenScope(old(Tables()))
    {
      symbolTable := [map[]] + symbolTable;
    }

    /** endScope with the decrement its callers in statements make. */
    method EndScope()
      requires symbolTable != []
      modifies this`symbolTable, this`localCntr
      ensures Tables() == CloseScope(old(Tables()))
    {
      localCntr := localCntr - |symbolTable[0]|;
      symbolTable := symbolTable[1..];
    }

    method PutSymbol(name: string, s: Symbol)
      requires symbolTable != []
      modifies this`symbolTable
      ensures Tables() == Bind(old(Tables()), name, s)
    {
      symbolTable := [symbolTable[0][name := s]] + symbolTable[1..];
    }

    /** castToRValue: an l-value is loaded. */
    method CastToRvalue(t: Type)
      modifies this`ir
      ensures ir == old(ir) + if t.Cat() == LVALUE then [Load] else []
    {
      if t.Cat() == LVALUE {
        Emit([Load]);
      }
    }

    /** The digit-string comparison, position by position. */
    method CompareTexts(s: string, t: string) returns (r: int)
      ensures r == Compare(s, t)
    {
      if |s| != |t| {
        return if |s| < |t| then -1 else 1;
      }
      var i := 0;
      while i < |s|
        invariant 0 <= i <= |s|
        invariant Compare(s, t) == CompareFrom(s, t, i)
      {
        if s[i] != t[i] {
          return if s[i] < t[i] then -1 else 1;
        }
        i := i + 1;
      }
      return 0;
    }

    /** Array types are built from the last dimension outwards. */
    method ArrayTypeOf(elem: Type, dims: seq<string>) returns (r: Option<Type>)
      ensures r == if DimsOk(dims) then Some(ArrayOf(elem, dims)) else None
    {
      var t := elem;
      var i := |dims|;
      while i > 0
        invariant 0 <= i <= |dims|
        invariant t == ArrayOf(elem, dims[i..])
        invariant forall d | d in dims[i..] :: 0 < Numeral(d) < TWO_31
      {
        i := i - 1;
        var x := Numeral(dims[i]);
        if !(0 < x < TWO_31) {
          assert dims[i] in dims;
          return None;
        }
        assert dims[i..] == [dims[i]] + dims[i + 1..];
        t := ArrayType(t, x);
      }
      assert dims[0..] == dims;
      return if dims == [] then None else Some(t);
    }

    // ----- expressions -----

    method VisitExpr(e: Expr) returns (t: Option<Type>)
      modifies this`ir, this`labelCntr
      ensures t == TypeOf(Context(), symbolTable, e)
      ensures t.Some? ==>
        var x := ExprCode(Context(), symbolTable, e, old(labelCntr));
        ir == old(ir) + x.instrs && labelCntr == x.next
      decreases e, 2
    {
      hide Select;
      match e {
        case IntLit(text) => t := VisitIntLit(e);
        case Ident(x) => t := VisitIdent(e);
        case Call(_, _) => t := VisitCall(e);
        case Subscript(_, _) => t := VisitSubscript(e);
        case Unary(op, e1) =>
          t := VisitRvalue(e1);
          if t.None? || !t.value.IntType? {
            return None;
          }
          Emit([UnaryInstr(op)]);
          t := Some(IntType(RVALUE));
        case Deref(e1) =>
          t := VisitRvalue(e1);
          if t.Some? {
            t := t.value.Deref();
          }
        case AddrOf(e1) =>
          t := VisitExpr(e1);
          if t.Some? {
            t := t.value.Ref();
          }
        case Cast(stars, e1) =>
          t := VisitExpr(e1);
          if t.Some? {
            t := Declared(stars).ValueCast(t.value.Cat());
          }
        case Binary(_, _, _) => t := VisitBinary(e);
        case Ternary(_, _, _) => t := VisitTernary(e);
        case Assign(_, _) => t := VisitAssign(e);
      }
    }

    /** A visit followed by castToRValue. */
    method VisitRvalue(e: Expr) returns (t: Option<Type>)
      modifies this`ir, this`labelCntr
      ensures var u := TypeOf(Context(), symbolTable, e);
              t == if u.Some? then Some(u.value.AsRvalue()) else None
      ensures t.Some? ==>
        var x := RvalueCode(Context(), symbolTable, e, old(labelCntr));
        ir == old(ir) + x.instrs && labelCntr == x.next
      decreases e, 3
    {
      hide TypeOf, ExprCode;
      t := VisitExpr(e);
      if t.None? {
        return;
      }
      CastToRvalue(t.value);
      t := Some(t.value.AsRvalue());
    }

    method VisitIntLit(e: Expr) returns (t: Option<Type>)
      requires e.IntLit?
      modifies this`ir, this`labelCntr
      ensures t == TypeOf(Context(), symbolTable, e)
      ensures t.Some? ==> ir == old(ir) + ExprCode(Context(), symbolTable, e, old(labelCntr)).instrs && labelCntr == old(labelCntr)
      decreases e, 1
    {
      var order := CompareTexts(INT_MAX_TEXT, e.text);
      if order == -1 {
        return None;
      }
      Emit([Push(Numeral(e.text))]);
      return Some(IntType(RVALUE));
    }

    method VisitIdent(e: Expr) returns (t: Option<Type>)
      requires e.Ident?
      modifies this`ir, this`labelCntr
      ensures t == TypeOf(Context(), symbolTable, e)
      ensures t.Some? ==> ir == old(ir) + ExprCode(Context(), symbolTable, e, old(labelCntr)).instrs && labelCntr == old(labelCntr)
      decreases e, 1
    {
      var symbol := LookupSymbol(e.name);
      if symbol.Some? {
        Emit([FrameAddr(symbol.value.offset)]);
        return Some(symbol.value.typ);
      } else if e.name in globDeclared {
        Emit([GlobalAddr(e.name)]);
        return Some(globDeclared[e.name]);
      }
      return None;
    }

    method VisitCall(e: Expr) returns (t: Option<Type>)
      requires e.Call?
      modifies this`ir, this`labelCntr
      ensures t == TypeOf(Context(), symbolTable, e)
      ensures t.Some? ==>
        var x := ExprCode(Context(), symbolTable, e, old(labelCntr));
        ir == old(ir) + x.instrs && labelCntr == x.next
      decreases e, 1
    {
      if e.name !in funcDeclared {
        return None;
      }
      var func := funcDeclared[e.name];
      if |func.paramTypes| != |e.args| {
        return None;
      }
      var ok := VisitArgs(e.args, func.paramTypes);
      if !ok {
        return None;
      }
      Emit([CallF(e.name, |func.paramTypes|)]);
      return Some(func.returnType);
    }

    /** The argument loop, from the last argument to the first. */
    method VisitArgs(args: seq<Expr>, types: seq<Type>) returns (ok: bool)
      requires |args| == |types|
      modifies this`ir, this`labelCntr
      ensures ok == ArgsOk(Context(), symbolTable, args, types)
      ensures ok ==>
        var x := ArgsCode(Context(), symbolTable, args, old(labelCntr));
        ir == old(ir) + x.instrs && labelCntr == x.next
      decreases args, 0
    {
      hide TypeOf, ExprCode, RvalueCode;
      ghost var c, sc, n0 := Context(), symbolTable, labelCntr;
      ghost var all := ArgsCode(c, sc, args, n0);
      var i := |args|;
      assert args[..i] == args && types[..i] == types;
      while i > 0
        invariant 0 <= i <= |args| && c == Context() && sc == symbolTable
        invariant ArgsOk(c, sc, args, types) == ArgsOk(c, sc, args[..i], types[..i])
        invariant ir + ArgsCode(c, sc, args[..i], labelCntr).instrs == old(ir) + all.instrs
        invariant ArgsCode(c, sc, args[..i], labelCntr).next == all.next
      {
        i := i - 1;
        ghost var rest, n, before := args[..i + 1], labelCntr, ir;
        assert rest[i] == args[i] && rest[..i] == args[..i] && types[..i + 1][..i] == types[..i];
        var t := VisitRvalue(args[i]);
        if t.None? || !t.value.Equals(types[i]) {
          return false;
        }
        ghost var x := RvalueCode(c, sc, args[i], n);
        ghost var y := ArgsCode(c, sc, args[..i], labelCntr);
        assert ArgsCode(c, sc, rest, n).instrs == x.instrs + y.instrs;
        assert (before + x.instrs) + y.instrs == before + (x.instrs + y.instrs);
      }
      assert args[..0] == [];
      return true;
    }

    method VisitSubscript(e: Expr) returns (t: Option<Type>)
      requires e.Subscript?
      modifies this`ir, this`labelCntr
      ensures t == TypeOf(Context(), symbolTable, e)
      ensures t.Some? ==>
        var x := ExprCode(Context(), symbolTable, e, old(labelCntr));
        ir == old(ir) + x.instrs && labelCntr == x.next
      decreases e, 1
    {
      hide RvalueCode;
      var base := VisitRvalue(e.base);
      if base.None? {
        return None;
      }
      var index := VisitRvalue(e.index);
      if index.None? || !index.value.IntType? {
        return None;
      }
      match base.value {
        case PointerType(_, _) =>
          Emit([Bin(AddPI)]);
          return base.value.Deref();
        case ArrayType(elem, _) =>
          Emit([Push(ElemWords(elem)), Bin(MulI), Bin(AddPI)]);
          return Some(elem);
        case IntType(_) =>
          return None;
      }
    }

    method VisitBinary(e: Expr) returns (t: Option<Type>)
      requires e.Binary?
      modifies this`ir, this`labelCntr
      ensures t == TypeOf(Context(), symbolTable, e)
      ensures t.Some? ==>
        var x := ExprCode(Context(), symbolTable, e, old(labelCntr));
        ir == old(ir) + x.instrs && labelCntr == x.next
      decreases e, 1
    {
      hide RvalueCode, Select;
      var left := VisitRvalue(e.left);
      if left.None? {
        return None;
      }
      var right := VisitRvalue(e.right);
      if right.None? {
        return None;
      }
      var sel := Select(e.bop, left.value, right.value);
      if sel.None? {
        return None;
      }
      Emit([Bin(sel.value.0)]);
      return Some(sel.value.1);
    }

    method VisitTernary(e: Expr) returns (t: Option<Type>)
      requires e.Ternary?
      modifies this`ir, this`labelCntr
      ensures t == TypeOf(Context(), symbolTable, e)
      ensures t.Some? ==>
        var x := ExprCode(Context(), symbolTable, e, old(labelCntr));
        ir == old(ir) + x.instrs && labelCntr == x.next
      decreases e, 1
    {
      hide RvalueCode, ExprCode, TypeOf, TernaryInstrs;
      ghost var c, sc, b, n := Context(), symbolTable, ir, labelCntr;
      TernaryUnfolds(c, sc, e, n);
      labelCntr := labelCntr + 1;
      var m := labelCntr;
      var cond := VisitRvalue(e.cond);
      if cond.None? || !cond.value.IntType? {
        return None;
      }
      ghost var x := RvalueCode(c, sc, e.cond, m);
      Emit([Beqz(ElseTer(m))]);
      var thn := VisitRvalue(e.thn);
      if thn.None? {
        return None;
      }
      ghost var y := RvalueCode(c, sc, e.thn, x.next);
      Emit([Br(EndTer(m)), Mark(ElseTer(m))]);
      var els := VisitRvalue(e.els);
      if els.None? {
        return None;
      }
      TernaryInOrder(b, m, x.instrs, y.instrs, RvalueCode(c, sc, e.els, y.next).instrs);
      Emit([Mark(EndTer(m))]);
      if !thn.value.Equals(els.value) {
        return None;
      }
      return thn;
    }

    method VisitAssign(e: Expr) returns (t: Option<Type>)
      requires e.Assign?
      modifies this`ir, this`labelCntr
      ensures t == TypeOf(Context(), symbolTable, e)
      ensures t.Some? ==>
        var x := ExprCode(Context(), symbolTable, e, old(labelCntr));
        ir == old(ir) + x.instrs && labelCntr == x.next
      decreases e, 1
    {
      hide RvalueCode;
      var value := VisitRvalue(e.rhs);
      if value.None? {
        return None;
      }
      var target := VisitExpr(e.lhs);
      if target.None? || target.value.Cat() == RVALUE || !value.value.Equals(target.value.AsRvalue()) {
        return None;
      }
      Emit([Store]);
      return Some(target.value.AsRvalue());
    }

    // ----- statements -----

    /** An optional expression for its effect: visited and popped. */
    method VisitEffect(e: Option<Expr>) returns (ok: bool)
      modifies this`ir, this`labelCntr
      ensures ok == (e.Some? ==> TypeOf(Context(), symbolTable, e.value).Some?)
      ensures ok ==>
        var x := EffectCode(Context(), symbolTable, e, old(labelCntr));
        ir == old(ir) + x.instrs && labelCntr == x.next
    {
      hide TypeOf, ExprCode;
      if e.None? {
        return true;
      }
      var t := VisitExpr(e.value);
      if t.None? {
        return false;
      }
      Emit([Pop]);
      return true;
    }

    /** An optional loop condition: an int, with a branch to the exit label when it is 0. */
    method VisitTest(e: Option<Expr>, exit: Label) returns (ok: bool)
      modifies this`ir, this`labelCntr
      ensures ok == (e.Some? ==> IsInt(Context(), symbolTable, e.value))
      ensures ok ==>
        var x := TestCode(Context(), symbolTable, e, exit, old(labelCntr));
        ir == old(ir) + x.instrs && labelCntr == x.next
    {
      hide TypeOf, ExprCode, RvalueCode;
      if e.None? {
        return true;
      }
      var t := VisitRvalue(e.value);
      if t.None? || !t.value.IntType? {
        return false;
      }
      Emit([Beqz(exit)]);
      return true;
    }

    method VisitDecl(d: Decl) returns (ok: bool)
      requires symbolTable != []
      modifies this`ir, this`labelCntr, this`symbolTable, this`localCntr, this`frameCntr
      ensures ok == DeclOk(Context(), old(Tables()), d)
      ensures ok ==>
        var x := DeclCode(Context(), old(Tables()), d, old(labelCntr));
        ir == old(ir) + x.instrs && labelCntr == x.next && Tables() == DeclEnv(old(Tables()), d)
      ensures symbolTable != []
    {
      hide TypeOf, RvalueCode;
      if d.name in symbolTable[0] {
        return false;
      }
      match d {
        case Var(stars, x, init) =>
          PutSymbol(x, Symbol(localCntr, LvalueOf(stars)));
          DeclLocalVar(1);
          if init.Some? {
            var t := VisitRvalue(init.value);
            if t.None? || !t.value.Equals(Declared(stars)) {
              return false;
            }
            Emit([FrameAddr(localCntr - 1)]);
            Emit([Store]);
            Emit([Pop]);
          }
          return true;
        case Arr(stars, x, dims) =>
          var t := ArrayTypeOf(LvalueOf(stars), dims);
          if t.None? {
            return false;
          }
          DeclLocalVar(TruncDiv(t.value.GetSize(), 4));
          PutSymbol(x, Symbol(localCntr - 1, t.value));
          return true;
      }
    }

    method VisitStmt(s: Stmt) returns (ok: bool)
      requires symbolTable != [] && currentFunc in funcDefined
      modifies this`ir, this`labelCntr, this`loopCntr, this`loopStack, this`symbolTable, this`localCntr, this`frameCntr
      ensures ok == StmtOk(Context(), old(Tables()), funcDefined[currentFunc].returnType, old(loopStack) != [], s)
      ensures ok ==>
        var x := CodeOf(Context(), old(Tables()), old(InnerLoop()), s, old(Numbers()));
        && ir == old(ir) + x.instrs && Numbers() == x.next
        && Tables() == StmtEnv(old(Tables()), s) && loopStack == old(loopStack)
      decreases s, 2
    {
      hide LoopCode, EffectCode, RvalueCode, TestCode, TypeOf, IfInstrs, IfElseInstrs, DoInstrs;
      match s {
        case Return(_) => ok := VisitReturn(s);
        case ExprStmt(e) => ok := VisitEffect(e);
        case If(_, _, _) => ok := VisitIf(s);
        case Block(_) => ok := VisitCompound(s);
        case For(_, _, _, _, _) => ok := VisitFor(s);
        case While(b, body) =>
          var curLoopNo := loopCntr;
          loopCntr := loopCntr + 1;
          ok := VisitLoop(curLoopNo, Some(b), body, None);
        case DoWhile(_, _) => ok := VisitDo(s);
        case Break => ok := VisitJump(s);
        case Continue => ok := VisitJump(s);
      }
    }

    method VisitReturn(s: Stmt) returns (ok: bool)
      requires s.Return? && symbolTable != [] && currentFunc in funcDefined
      modifies this`ir, this`labelCntr
      ensures ok == StmtOk(Context(), Tables(), funcDefined[currentFunc].returnType, loopStack != [], s)
      ensures ok ==>
        var x := CodeOf(Context(), Tables(), InnerLoop(), s, old(Numbers()));
        ir == old(ir) + x.instrs && Numbers() == x.next && Tables() == StmtEnv(old(Tables()), s)
    {
      hide RvalueCode, TypeOf;
      var t := VisitRvalue(s.result);
      if t.None? || !funcDefined[currentFunc].returnType.Equals(t.value) {
        return false;
      }
      Emit([Ret]);
      return true;
    }

    method VisitCompound(s: Stmt) returns (ok: bool)
      requires s.Block? && symbolTable != [] && currentFunc in funcDefined
      modifies this`ir, this`labelCntr, this`loopCntr, this`loopStack, this`symbolTable, this`localCntr, this`frameCntr
      ensures ok == StmtOk(Context(), old(Tables()), funcDefined[currentFunc].returnType, old(loopStack) != [], s)
      ensures ok ==>
        var x := CodeOf(Context(), old(Tables()), old(InnerLoop()), s, old(Numbers()));
        && ir == old(ir) + x.instrs && Numbers() == x.next
        && Tables() == StmtEnv(old(Tables()), s) && loopStack == old(loopStack)
      decreases s, 0
    {
      hide ItemsOk, ItemsCode, ItemsEnv;
      StartScope();
      ok := VisitItems(s.items);
      if ok {
        EndScope();
      }
    }

    /** break and continue go to a label of the innermost loop. */
    method VisitJump(s: Stmt) returns (ok: bool)
      requires (s.Break? || s.Continue?) && symbolTable != []
      modifies this`ir
      ensures ok == (loopStack != [])
      ensures ok ==>
        var x := CodeOf(Context(), Tables(), InnerLoop(), s, Numbers());
        ir == old(ir) + x.instrs && Numbers() == x.next && Tables() == StmtEnv(Tables(), s)
    {
      if loopStack == [] {
        return false;
      }
      Emit([Br(if s.Break? then BreakLoop(loopStack[0]) else ContinueLoop(loopStack[0]))]);
      return true;
    }

    /** The label number is read after the condition was visited. */
    method VisitIf(s: Stmt) returns (ok: bool)
      requires s.If? && symbolTable != [] && currentFunc in funcDefined
      modifies this`ir, this`labelCntr, this`loopCntr, this`loopStack, this`symbolTable, this`localCntr, this`frameCntr
      ensures ok == StmtOk(Context(), old(Tables()), funcDefined[currentFunc].returnType, old(loopStack) != [], s)
      ensures ok ==>
        var x := CodeOf(Context(), old(Tables()), old(InnerLoop()), s, old(Numbers()));
        && ir == old(ir) + x.instrs && Numbers() == x.next
        && Tables() == StmtEnv(old(Tables()), s) && loopStack == old(loopStack)
      decreases s, 0
    {
      hide RvalueCode, TypeOf, CodeOf, IfInstrs, IfElseInstrs, StmtOk, StmtEnv;
      ghost var env, k, b, loop := Tables(), Numbers(), ir, InnerLoop();
      ghost var c := Context();
      IfUnfolds(c, env, loop, s, k);
      IfChecks(c, env, funcDefined[currentFunc].returnType, loop.Some?, s);
      labelCntr := labelCntr + 1;
      var t := VisitRvalue(s.cond);
      if t.None? || !t.value.IntType? {
        return false;
      }
      var m := labelCntr;
      ghost var x := RvalueCode(c, env.scopes, s.cond, k.labels + 1).instrs;
      if s.els.Some? {
        Emit([Beqz(ElseIf(m))]);
      } else {
        Emit([Beqz(EndIf(m))]);
      }
      ok := VisitStmt(s.thn);
      if !ok {
        return false;
      }
      ghost var y := CodeOf(c, env, loop, s.thn, k.(labels := m));
      if s.els.Some? {
        Emit([Br(EndIf(m)), Mark(ElseIf(m))]);
        ok := VisitStmt(s.els.value);
        if !ok {
          return false;
        }
        IfElseInOrder(b, m, x, y.instrs, CodeOf(c, StmtEnv(env, s.thn), loop, s.els.value, y.next).instrs);
      } else {
        IfInOrder(b, m, x, y.instrs);
      }
      Emit([Mark(EndIf(m))]);
    }

    /** The body of loop m, visited with m on top of loopStack. */
    method VisitLoopBody(m: nat, body: Stmt) returns (ok: bool)
      requires symbolTable != [] && currentFunc in funcDefined
      modifies this`ir, this`labelCntr, this`loopCntr, this`loopStack, this`symbolTable, this`localCntr, this`frameCntr
      ensures ok == StmtOk(Context(), old(Tables()), funcDefined[currentFunc].returnType, true, body)
      ensures ok ==>
        var x := CodeOf(Context(), old(Tables()), Some(m), body, old(Numbers()));
        && ir == old(ir) + x.instrs && Numbers() == x.next
        && Tables() == StmtEnv(old(Tables()), body) && loopStack == old(loopStack)
      decreases body, 3
    {
      hide CodeOf, StmtOk, StmtEnv;
      ghost var outer := loopStack;
      loopStack := [m] + loopStack;
      ok := VisitStmt(body);
      if ok {
        assert ([m] + outer)[1..] == outer;
        loopStack := loopStack[1..];
      }
    }

    /** The common part of for and while, once the loop has its number. */
    method VisitLoop(m: nat, test: Option<Expr>, body: Stmt, post: Option<Expr>) returns (ok: bool)
      requires symbolTable != [] && currentFunc in funcDefined && loopCntr == m + 1
      modifies this`ir, this`labelCntr, this`loopCntr, this`loopStack, this`symbolTable, this`localCntr, this`frameCntr
      ensures ok == ((test.Some? ==> IsInt(Context(), old(symbolTable), test.value))
                     && (post.Some? ==> TypeOf(Context(), old(symbolTable), post.value).Some?)
                     && StmtOk(Context(), old(Tables()), funcDefined[currentFunc].returnType, true, body))
      ensures ok ==>
        var x := LoopCode(Context(), old(Tables()), test, body, post, m, old(labelCntr));
        && ir == old(ir) + x.instrs && Numbers() == x.next
        && Tables() == StmtEnv(old(Tables()), body) && loopStack == old(loopStack)
      decreases body, 4
    {
      hide TypeOf, TestCode, EffectCode, CodeOf, StmtOk, StmtEnv, LoopInstrs;
      ghost var c, env, b, n := Context(), Tables(), ir, labelCntr;
      Emit([Mark(BeginLoop(m))]);
      ok := VisitTest(test, BreakLoop(m));
      if !ok {
        return false;
      }
      ok := VisitLoopBody(m, body);
      if !ok {
        return false;
      }
      Emit([Mark(ContinueLoop(m))]);
      ok := VisitEffect(post);
      if !ok {
        return false;
      }
      Emit([Br(BeginLoop(m)), Mark(BreakLoop(m))]);
      ghost var t := TestCode(c, env.scopes, test, BreakLoop(m), n);
      ghost var x := CodeOf(c, env, Some(m), body, Counters(t.next, m + 1));
      LoopInOrder(b, m, t.instrs, x.instrs, EffectCode(c, env.scopes, post, x.next.labels).instrs);
    }

    method VisitFor(s: Stmt) returns (ok: bool)
      requires s.For? && symbolTable != [] && currentFunc in funcDefined
      modifies this`ir, this`labelCntr, this`loopCntr, this`loopStack, this`symbolTable, this`localCntr, this`frameCntr
      ensures ok == StmtOk(Context(), old(Tables()), funcDefined[currentFunc].returnType, old(loopStack) != [], s)
      ensures ok ==>
        var x := CodeOf(Context(), old(Tables()), old(InnerLoop()), s, old(Numbers()));
        && ir == old(ir) + x.instrs && Numbers() == x.next
        && Tables() == StmtEnv(old(Tables()), s) && loopStack == old(loopStack)
      decreases s, 1
    {
      hide TypeOf, EffectCode, LoopCode, DeclCode, DeclOk, CodeOf, IsInt, DeclEnv, StmtOk, StmtEnv;
      ghost var k := Numbers();
      ForUnfolds(Context(), Tables(), InnerLoop(), s, k);
      ForChecks(Context(), Tables(), funcDefined[currentFunc].returnType, loopStack != [], s);
      var curLoopNo := loopCntr;
      loopCntr := loopCntr + 1;
      StartScope();
      ok := VisitForParts(s, curLoopNo);
      if ok {
        EndScope();
      }
    }

    /** Declaration, first expression and loop number m of a for, in the scope opened for it. */
    method VisitForParts(s: Stmt, m: nat) returns (ok: bool)
      requires s.For? && symbolTable != [] && currentFunc in funcDefined && loopCntr == m + 1
      modifies this`ir, this`labelCntr, this`loopCntr, this`loopStack, this`symbolTable, this`localCntr, this`frameCntr
      ensures var env1 := old(Tables());
              var env2 := if s.decl.Some? then DeclEnv(env1, s.decl.value) else env1;
              ok == ((s.decl.Some? ==> DeclOk(Context(), env1, s.decl.value))
                     && (s.pre.Some? ==> TypeOf(Context(), env2.scopes, s.pre.value).Some?)
                     && (s.test.Some? ==> IsInt(Context(), env2.scopes, s.test.value))
                     && (s.post.Some? ==> TypeOf(Context(), env2.scopes, s.post.value).Some?)
                     && StmtOk(Context(), env2, funcDefined[currentFunc].returnType, true, s.body))
      ensures ok ==>
        var env1 := old(Tables());
        var env2 := if s.decl.Some? then DeclEnv(env1, s.decl.value) else env1;
        var i := ForDeclCode(Context(), env1, s.decl, old(labelCntr));
        var p := EffectCode(Context(), env2.scopes, s.pre, i.next);
        var x := LoopCode(Context(), env2, s.test, s.body, s.post, m, p.next);
        && ir == old(ir) + (i.instrs + (p.instrs + x.instrs)) && Numbers() == x.next
        && Tables() == StmtEnv(env2, s.body) && loopStack == old(loopStack)
      decreases s, 0
    {
      hide TypeOf, EffectCode, LoopCode, DeclCode, DeclOk, IsInt, DeclEnv, StmtOk, StmtEnv, ForDeclCode;
      ghost var c, env1, b, n := Context(), Tables(), ir, labelCntr;
      ok := VisitForDecl(s.decl);
      if !ok {
        return false;
      }
      ghost var env2, i := Tables(), ForDeclCode(c, env1, s.decl, n);
      ok := VisitEffect(s.pre);
      if !ok {
        return false;
      }
      ghost var p := EffectCode(c, env2.scopes, s.pre, i.next);
      ok := VisitLoop(m, s.test, s.body, s.post);
      if ok {
        InThree(b, i.instrs, p.instrs, LoopCode(c, env2, s.test, s.body, s.post, m, p.next).instrs);
      }
    }

    ghost function ForDeclCode(c: Ctx, env: Env, d: Option<Decl>, n: nat): Code
      requires env.scopes != []
    {
      if d.Some? then DeclCode(c, env, d.value, n) else Code([], n)
    }

    method VisitForDecl(d: Option<Decl>) returns (ok: bool)
      requires symbolTable != []
      modifies this`ir, this`labelCntr, this`symbolTable, this`localCntr, this`frameCntr
      ensures ok == (d.Some? ==> DeclOk(Context(), old(Tables()), d.value))
      ensures ok ==>
        var x := ForDeclCode(Context(), old(Tables()), d, old(labelCntr));
        && ir == old(ir) + x.instrs && labelCntr == x.next
        && Tables() == if d.Some? then DeclEnv(old(Tables()), d.value) else old(Tables())
      ensures symbolTable != []
    {
      hide DeclOk, DeclEnv, DeclCode;
      ok := true;
      if d.Some? {
        ok := VisitDecl(d.value);
      }
    }

    method VisitDo(s: Stmt) returns (ok: bool)
      requires s.DoWhile? && symbolTable != [] && currentFunc in funcDefined
      modifies this`ir, this`labelCntr, this`loopCntr, this`loopStack, this`symbolTable, this`localCntr, this`frameCntr
      ensures ok == StmtOk(Context(), old(Tables()), funcDefined[currentFunc].returnType, old(loopStack) != [], s)
      ensures ok ==>
        var x := CodeOf(Context(), old(Tables()), old(InnerLoop()), s, old(Numbers()));
        && ir == old(ir) + x.instrs && Numbers() == x.next
        && Tables() == StmtEnv(old(Tables()), s) && loopStack == old(loopStack)
      decreases s, 0
    {
      hide TypeOf, RvalueCode, CodeOf, DoInstrs, StmtOk, StmtEnv;
      ghost var c, env, b, k := Context(), Tables(), ir, Numbers();
      DoUnfolds(c, env, InnerLoop(), s, k);
      DoChecks(c, env, funcDefined[currentFunc].returnType, loopStack != [], s);
      var m := loopCntr;
      loopCntr := loopCntr + 1;
      Emit([Mark(BeginLoop(m))]);
      ok := VisitLoopBody(m, s.body);
      if !ok {
        return false;
      }
      Emit([Mark(ContinueLoop(m))]);
      var t := VisitRvalue(s.cond);
      if t.None? || !t.value.IntType? {
        return false;
      }
      Emit([Bnez(BeginLoop(m)), Mark(BreakLoop(m))]);
      ghost var x := CodeOf(c, env, Some(m), s.body, k.(loops := m + 1));
      DoInOrder(b, m, x.instrs, RvalueCode(c, env.scopes, s.cond, x.next.labels).instrs);
      return true;
    }

    method VisitItem(i: Item) returns (ok: bool)
      requires symbolTable != [] && currentFunc in funcDefined
      modifies this`ir, this`labelCntr, this`loopCntr, this`loopStack, this`symbolTable, this`localCntr, this`frameCntr
      ensures ok == ItemOk(Context(), old(Tables()), funcDefined[currentFunc].returnType, old(loopStack) != [], i)
      ensures ok ==>
        var x := ItemCode(Context(), old(Tables()), old(InnerLoop()), i, old(Numbers()));
        && ir == old(ir) + x.instrs && Numbers() == x.next
        && Tables() == ItemEnv(old(Tables()), i) && loopStack == old(loopStack)
      decreases i, 2
    {
      hide StmtOk, CodeOf, StmtEnv, DeclOk, DeclCode, DeclEnv;
      match i {
        case StmtItem(s) => ok := VisitStmt(s);
        case DeclItem(d) => ok := VisitDecl(d);
      }
    }

    /** The loop over the items of a block. */
    method VisitItems(items: seq<Item>) returns (ok: bool)
      requires symbolTable != [] && currentFunc in funcDefined
      modifies this`ir, this`labelCntr, this`loopCntr, this`loopStack, this`symbolTable, this`localCntr, this`frameCntr
      ensures ok == ItemsOk(Context(), old(Tables()), funcDefined[currentFunc].returnType, old(loopStack) != [], items)
      ensures ok ==>
        var x := ItemsCode(Context(), old(Tables()), old(InnerLoop()), items, old(Numbers()));
        && ir == old(ir) + x.instrs && Numbers() == x.next
        && Tables() == ItemsEnv(old(Tables()), items) && loopStack == old(loopStack)
      decreases items, 0
    {
      hide ItemOk, ItemCode, ItemEnv;
      ghost var c, ret, loop := Context(), funcDefined[currentFunc].returnType, InnerLoop();
      ghost var env0, k0 := Tables(), Numbers();
      ghost var all := ItemsCode(c, env0, loop, items, k0);
      var i := 0;
      assert items[0..] == items;
      while i < |items|
        invariant 0 <= i <= |items| && symbolTable != []
        invariant loopStack == old(loopStack)
        invariant ItemsOk(c, env0, ret, loop.Some?, items) == ItemsOk(c, Tables(), ret, loop.Some?, items[i..])
        invariant ir + ItemsCode(c, Tables(), loop, items[i..], Numbers()).instrs == old(ir) + all.instrs
        invariant ItemsCode(c, Tables(), loop, items[i..], Numbers()).next == all.next
        invariant ItemsEnv(Tables(), items[i..]) == ItemsEnv(env0, items)
      {
        ghost var env, k, before := Tables(), Numbers(), ir;
        assert items[i..][0] == items[i] && items[i..][1..] == items[i + 1..];
        ok := VisitItem(items[i]);
        if !ok {
          return false;
        }
        ghost var x := ItemCode(c, env, loop, items[i], k);
        ghost var y := ItemsCode(c, Tables(), loop, items[i + 1..], x.next);
        assert (before + x.instrs) + y.instrs == before + (x.instrs + y.instrs);
        i := i + 1;
      }
      return true;
    }

    // ----- file level -----

    method VisitDeclGl(x: string, t: Type) returns (ok: bool)
      requires AtFileLevel()
      modifies this`globDeclared
      ensures var u := P.DeclareGlobal(old(Unit()), x, t);
              ok == u.Some? && (ok ==> AtFileLevel() && Unit() == u.value)
    {
      if x in funcDeclared || (x in globDeclared && !globDeclared[x].Equals(t)) {
        return false;
      }
      globDeclared := globDeclared[x := t];
      return true;
    }

    method VisitDeclGlArray(stars: nat, x: string, dims: seq<string>) returns (ok: bool)
      requires AtFileLevel()
      modifies this`globDeclared
      ensures var u := P.VisitTop(old(Unit()), GlobalArr(stars, x, dims));
              ok == u.Some? && (ok ==> AtFileLevel() && Unit() == u.value)
    {
      var t := ArrayTypeOf(LvalueOf(stars), dims);
      if t.None? {
        return false;
      }
      ok := VisitDeclGl(x, t.value);
    }

    /** The parameter types in order, and the declared result. */
    method SignatureFor(stars: nat, params: seq<Param>) returns (sig: Signature)
      ensures sig == SignatureOf(stars, params)
    {
      var types := [];
      for i := 0 to |params|
        invariant |types| == i && forall j | 0 <= j < i :: types[j] == Declared(params[j].stars)
      {
        types := types + [Declared(params[i].stars)];
      }
      assert types == SignatureOf(stars, params).paramTypes;
      return Signature(Declared(stars), types);
    }

    method VisitFuncDecl(stars: nat, f: string, params: seq<Param>) returns (ok: bool)
      requires AtFileLevel()
      modifies this`funcDeclared
      ensures var u := P.VisitTop(old(Unit()), FuncDecl(stars, f, params));
              ok == u.Some? && (ok ==> AtFileLevel() && Unit() == u.value)
    {
      var func := SignatureFor(stars, params);
      if f in globDeclared || (f in funcDeclared && !funcDeclared[f].Equals(func)) {
        return false;
      }
      funcDeclared := funcDeclared[f := func];
      return true;
    }

    /** Parameters become symbols of the outermost scope, with offsets -3, -4, ... */
    method PutParams(params: seq<Param>) returns (ok: bool)
      requires symbolTable == [map[]]
      modifies this`symbolTable
      ensures ok == DistinctParams(params) && (ok ==> symbolTable == [ParamScope(params)])
    {
      for i := 0 to |params|
        invariant symbolTable == [ParamScope(params[..i])] && DistinctParams(params[..i])
      {
        ParamNames(params[..i]);
        var name := params[i].name;
        assert params[..i + 1][..i] == params[..i];
        if name in symbolTable[0] {
          return false;
        }
        symbolTable := [symbolTable[0][name := Symbol(-2 - (i + 1), LvalueOf(params[i].stars))]] + symbolTable[1..];
      }
      assert params[..|params|] == params;
      return true;
    }

    /** The checks and tables of a definition, before its body. */
    method DefineSignature(stars: nat, f: string, params: seq<Param>) returns (ok: bool)
      requires AtFileLevel()
      modifies this`currentFunc, this`containsMain, this`funcDefined, this`funcDeclared
      ensures var c := P.DeclareFunc(old(Unit()), f, SignatureOf(stars, params));
              && ok == (f !in infos && c.Some?)
              && (ok ==> Context() == c.value && currentFunc == f && containsMain == (old(containsMain) || f == "main")
                         && funcDefined == old(funcDefined)[f := SignatureOf(stars, params)])
    {
      currentFunc := f;
      if f in globDeclared || f in funcDefined {
        return false;
      }
      if f == "main" {
        containsMain := true;
      }
      var func := SignatureFor(stars, params);
      if f in funcDeclared && !funcDeclared[f].Equals(func) {
        return false;
      }
      funcDefined := funcDefined[f := func];
      funcDeclared := funcDeclared[f := func];
      return true;
    }

    /** The body between func and endfunc, in a fresh frame. */
    method VisitBody(f: string, params: seq<Param>, body: seq<Item>) returns (ok: bool)
      requires symbolTable == [] && loopStack == [] && currentFunc == f && f in funcDefined
      modifies this`ir, this`labelCntr, this`loopCntr, this`loopStack, this`symbolTable, this`localCntr, this`frameCntr,
               this`funcFrameSize
      ensures ok == (DistinctParams(params)
                     && ItemsOk(Context(), ParamEnv(params), funcDefined[f].returnType, false, body))
      ensures ok ==>
        var x := ItemsCode(Context(), ParamEnv(params), None, body, old(Numbers()));
        && ir == old(ir) + ([Func(f)] + (x.instrs + [EndFunc(f)])) && Numbers() == x.next
        && symbolTable == [] && loopStack == []
        && funcFrameSize == old(funcFrameSize)[f := FrameSlots(params, body)]
    {
      hide ItemsOk, ItemsCode, ItemsEnv, ParamScope, DistinctParams;
      ghost var b, k := ir, Numbers();
      Emit([Func(f)]);
      ok := VisitScope(params, body);
      if !ok {
        return false;
      }
      funcFrameSize := funcFrameSize[f := frameCntr];
      Emit([EndFunc(f)]);
      InThree(b, [Func(f)], ItemsCode(Context(), ParamEnv(params), None, body, k).instrs, [EndFunc(f)]);
    }

    /** Parameters and body in one scope, with the slot counters reset. */
    method VisitScope(params: seq<Param>, body: seq<Item>) returns (ok: bool)
      requires symbolTable == [] && loopStack == [] && currentFunc in funcDefined
      modifies this`ir, this`labelCntr, this`loopCntr, this`loopStack, this`symbolTable, this`localCntr, this`frameCntr
      ensures ok == (DistinctParams(params)
                     && ItemsOk(Context(), ParamEnv(params), funcDefined[currentFunc].returnType, false, body))
      ensures ok ==>
        var x := ItemsCode(Context(), ParamEnv(params), None, body, old(Numbers()));
        && ir == old(ir) + x.instrs && Numbers() == x.next && symbolTable == [] && loopStack == []
        && frameCntr == FrameSlots(params, body)
    {
      hide ItemsOk, ItemsCode, ItemsEnv, ParamScope, DistinctParams;
      localCntr := 0;
      frameCntr := 0;
      StartScope();
      ok := PutParams(params);
      if !ok {
        return false;
      }
      assert Tables() == ParamEnv(params);
      ok := VisitItems(body);
      if ok {
        symbolTable := symbolTable[1..];
      }
    }

    method VisitFuncDef(stars: nat, f: string, params: seq<Param>, body: seq<Item>) returns (ok: bool)
      requires AtFileLevel()
      modifies this
      ensures var u := P.DefineFunc(old(Unit()), stars, f, params, body);
              ok == u.Some? && (ok ==> AtFileLevel() && Unit() == u.value)
    {
      hide ItemsOk, ItemsCode, FrameSlots, ParamEnv, DistinctParams, SignatureOf, P.DeclareFunc;
      ok := DefineSignature(stars, f, params);
      if !ok {
        return false;
      }
      SignatureReturns(stars, params);
      infos := infos[f := S.FuncInfo(Context(), Declared(stars), params, body, Numbers())];
      ok := VisitBody(f, params, body);
    }

    method VisitTop(d: TopDecl) returns (ok: bool)
      requires AtFileLevel()
      modifies this
      ensures var u := P.VisitTop(old(Unit()), d);
              ok == u.Some? && (ok ==> AtFileLevel() && Unit() == u.value)
    {
      hide P.DefineFunc, P.DeclareGlobal, P.DeclareFunc;
      match d {
        case GlobalVar(stars, x) => ok := VisitDeclGl(x, LvalueOf(stars));
        case GlobalArr(stars, x, dims) => ok := VisitDeclGlArray(stars, x, dims);
        case FuncDecl(stars, f, params) => ok := VisitFuncDecl(stars, f, params);
        case FuncDef(stars, f, params, body) => ok := VisitFuncDef(stars, f, params, body);
      }
    }

    /** The whole walk: on success the buffer holds exactly the compiled program. */
    method VisitProgram(ds: seq<TopDecl>) returns (ok: bool)
      requires AtFileLevel() && Unit() == P.EmptyUnit
      modifies this
      ensures ok == P.Compile(ds).Some?
      ensures ok ==> Unit() == P.Compile(ds).value
    {
      hide P.VisitTop;
      var i := 0;
      assert ds[0..] == ds;
      while i < |ds|
        invariant 0 <= i <= |ds| && AtFileLevel()
        invariant P.VisitTops(P.EmptyUnit, ds) == P.VisitTops(Unit(), ds[i..])
      {
        assert ds[i..][0] == ds[i] && ds[i..][1..] == ds[i + 1..];
        ok := VisitTop(ds[i]);
        if !ok {
          return false;
        }
        i := i + 1;
      }
      return containsMain;
    }
  }

  lemma {:induction false} ParamNames(params: seq<Param>)
    ensures forall x :: x in ParamScope(params) <==> exists i :: 0 <= i < |params| && params[i].name == x
    decreases |params|
  {
    if params != [] {
      var n := |params| - 1;
      ParamNames(params[..n]);
      forall x | x in ParamScope(params) ensures exists i :: 0 <= i < |params| && params[i].name == x {
        if x == params[n].name {
        } else {
          assert x in ParamScope(params[..n]);
          var i :| 0 <= i < n && params[..n][i].name == x;
          assert params[i].name == x;
        }
      }
      forall x | exists i :: 0 <= i < |params| && params[i].name == x ensures x in ParamScope(params) {
        var i :| 0 <= i < |params| && params[i].name == x;
        if i < n { assert params[..n][i].name == x; }
      }
    }
  }

  lemma SignatureReturns(stars: nat, params: seq<Param>)
    ensures SignatureOf(stars, params).returnType == Declared(stars)
  {
  }
}
