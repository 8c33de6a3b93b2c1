/** Typing by counting stars: a second account of which expressions the visitor accepts and with which type, and the
    laws of pointers that programs rely on. */
module Kinds {
  import opened Wrappers
  import opened Words
  import opened Types
  import opened Syntax
  import opened Typing
  import opened CodeGen
  import opened Memory
  import opened Semantics
  import opened TypeLaws
  import P = Program

  /** A word with a number of stars, none for int; the place of such a word; or an array. */
  datatype Kind = Val(stars: nat) | Place(stars: nat) | Whole(typ: Type) {
    /** An array has no stars to count. */
    predicate Has(n: int) {
      !Whole? && stars == n
    }
  }

  function Stars(t: Type): nat {
    if t.PointerType? then t.refDepth else 0
  }

  function KindOfType(t: Type): Kind {
    if t.ArrayType? then Whole(t) else if t.valueCat == LVALUE then Place(Stars(t)) else Val(Stars(t))
  }

  /** Two words under an operator: addition adds stars and subtraction subtracts them. */
  function Operate(op: BinOp, a: nat, b: nat): Option<Kind> {
    match op
    case Plus => if a == 0 || b == 0 then Some(Val(a + b)) else None
    case Sub => if b == 0 || a == b then Some(Val(a - b)) else None
    case Eq => if a == b then Some(Val(0)) else None
    case Ne => if a == b then Some(Val(0)) else None
    case _ => if a == 0 && b == 0 then Some(Val(0)) else None
  }

  function KindOf(c: Ctx, sc: seq<Scope>, e: Expr): Option<Kind>
    decreases e
  {
    match e
    case IntLit(text) => if TooLarge(text) then None else Some(Val(0))
    case Ident(x) =>
      var s := Lookup(sc, x);
      if s.Some? then Some(KindOfType(s.value.typ)) else if x in c.globals then Some(KindOfType(c.globals[x])) else None
    case Call(f, args) =>
      if f in c.funcs && |args| == |c.funcs[f].paramTypes|
         && (forall i | 0 <= i < |args| ::
               var k := KindOf(c, sc, args[i]); k.Some? && k.value.Has(Stars(c.funcs[f].paramTypes[i])))
      then Some(Val(Stars(c.funcs[f].returnType))) else None
    case Subscript(b, i) =>
      var k, n := KindOf(c, sc, b), KindOf(c, sc, i);
      if k.None? || n.None? || !n.value.Has(0) then None
      else if k.value.Whole? then (match k.value.typ case ArrayType(elem, _) => Some(KindOfType(elem)) case _ => None)
      else if k.value.stars >= 1 then Some(Place(k.value.stars - 1)) else None
    case Unary(_, e1) =>
      var k := KindOf(c, sc, e1);
      if k.Some? && k.value.Has(0) then Some(Val(0)) else None
    case Deref(e1) =>
      var k := KindOf(c, sc, e1);
      if k.Some? && !k.value.Whole? && k.value.stars >= 1 then Some(Place(k.value.stars - 1)) else None
    case AddrOf(e1) =>
      var k := KindOf(c, sc, e1);
      if k.Some? && k.value.Place? then Some(Val(k.value.stars + 1)) else None
    case Cast(n, e1) =>
      var k := KindOf(c, sc, e1);
      if k.None? then None else if k.value.Place? then Some(Place(n)) else Some(Val(n))
    case Binary(op, l, r) =>
      var k, n := KindOf(c, sc, l), KindOf(c, sc, r);
      if k.None? || n.None? || k.value.Whole? || n.value.Whole? then None else Operate(op, k.value.stars, n.value.stars)
    case Ternary(b, x, y) =>
      var t, k, n := KindOf(c, sc, b), KindOf(c, sc, x), KindOf(c, sc, y);
      if t.None? || k.None? || n.None? || !t.value.Has(0) then None
      else if k.value.Whole? then (if n.value.Whole? && SameModulo(k.value.typ, n.value.typ) then k else None)
      else if n.value.Has(k.value.stars) then Some(Val(k.value.stars)) else None
    case Assign(x, y) =>
      var k, n := KindOf(c, sc, x), KindOf(c, sc, y);
      if k.Some? && n.Some? && k.value.Place? && n.value.Has(k.value.stars) then Some(Val(k.value.stars)) else None
  }

  /** The expression is a word with n stars. */
  predicate WordOf(c: Ctx, sc: seq<Scope>, e: Expr, n: nat) {
    var k := KindOf(c, sc, e); k.Some? && k.value.Has(n)
  }

  // ----- the visitor types by counting stars -----

  /** A type of an expression: no pointer without stars, and array elements are places. */
  predicate Proper(t: Type) {
    (t.PointerType? ==> t.refDepth >= 1) && (t.ArrayType? ==> Placed(t))
  }

  /** Function signatures hold declared types only. */
  predicate IsDeclared(t: Type) {
    t == Declared(Stars(t))
  }

  predicate SignatureDeclared(s: Signature) {
    IsDeclared(s.returnType) && forall i | 0 <= i < |s.paramTypes| :: IsDeclared(s.paramTypes[i])
  }

  predicate CtxDeclared(c: Ctx) {
    && (forall x | x in c.globals :: Placed(c.globals[x]))
    && (forall f | f in c.funcs :: SignatureDeclared(c.funcs[f]))
  }

  /** For words, equality of types is equality of stars. */
  lemma EqualStars(t: Type, u: Type)
    requires Proper(t) && Proper(u)
    ensures !t.ArrayType? ==> (t.Equals(u) <==> !u.ArrayType? && Stars(t) == Stars(u))
    ensures !u.ArrayType? ==> (t.Equals(u) <==> !t.ArrayType? && Stars(t) == Stars(u))
  {
  }

  lemma SelectCountsStars(op: BinOp, l: Type, r: Type)
    requires Proper(l) && Proper(r)
    ensures var s := Select(op, l.AsRvalue(), r.AsRvalue());
            if l.ArrayType? || r.ArrayType? then s == None
            else var k := Operate(op, Stars(l), Stars(r));
                 (s.Some? <==> k.Some?) && (s.Some? ==> KindOfType(s.value.1) == k.value && Proper(s.value.1))
  {
    hide Placed;
  }

  /** The kind and the type of an expression correspond. */
  predicate Corresponds(t: Option<Type>, k: Option<Kind>) {
    (t.Some? <==> k.Some?) && (t.Some? ==> Proper(t.value) && k.value == KindOfType(t.value))
  }

  /** The visitor accepts exactly the expressions whose stars add up, and gives them the type so counted. */
  lemma {:induction false} TypesCountStars(c: Ctx, sc: seq<Scope>, e: Expr)
    requires ScopesPlaced(sc) && CtxDeclared(c)
    ensures Corresponds(TypeOf(c, sc, e), KindOf(c, sc, e))
    decreases e, 1
  {
    hide TypeOf, KindOf, ScopesPlaced, CtxDeclared, Corresponds;
    match e {
      case IntLit(_) => WordsCorrespond(c, sc, e);
      case Ident(x) => NamesCorrespond(c, sc, x);
      case Call(f, args) => CallsCorrespond(c, sc, f, args, e);
      case Subscript(b, i) =>
        TypesCountStars(c, sc, b);
        TypesCountStars(c, sc, i);
        ElementsCorrespond(c, sc, b, i);
      case Unary(_, e1) => TypesCountStars(c, sc, e1); WordsCorrespond(c, sc, e);
      case Deref(e1) => TypesCountStars(c, sc, e1); WordsCorrespond(c, sc, e);
      case AddrOf(e1) => TypesCountStars(c, sc, e1); WordsCorrespond(c, sc, e);
      case Cast(_, e1) => TypesCountStars(c, sc, e1); WordsCorrespond(c, sc, e);
      case Binary(op, l, r) =>
        TypesCountStars(c, sc, l);
        TypesCountStars(c, sc, r);
        OperatorsCorrespond(c, sc, op, l, r);
      case Ternary(b, x, y) =>
        TypesCountStars(c, sc, b);
        TypesCountStars(c, sc, x);
        TypesCountStars(c, sc, y);
        BranchesCorrespond(c, sc, b, x, y);
      case Assign(x, y) =>
        TypesCountStars(c, sc, x);
        TypesCountStars(c, sc, y);
        AssignmentsCorrespond(c, sc, x, y);
    }
  }

  predicate Agrees(c: Ctx, sc: seq<Scope>, e: Expr) {
    Corresponds(TypeOf(c, sc, e), KindOf(c, sc, e))
  }

  /** Literals and operators with one operand. */
  lemma WordsCorrespond(c: Ctx, sc: seq<Scope>, e: Expr)
    requires e.IntLit? || (e.Unary? && Agrees(c, sc, e.operand)) || (e.Deref? && Agrees(c, sc, e.pointer))
             || (e.AddrOf? && Agrees(c, sc, e.place)) || (e.Cast? && Agrees(c, sc, e.source))
    ensures Agrees(c, sc, e)
  {
    hide Placed, Compare;
  }

  lemma ElementsCorrespond(c: Ctx, sc: seq<Scope>, b: Expr, i: Expr)
    requires Agrees(c, sc, b) && Agrees(c, sc, i)
    ensures Agrees(c, sc, Subscript(b, i))
  {
    hide Placed;
    if TypeOf(c, sc, b).Some? { ElementProper(TypeOf(c, sc, b).value); }
  }

  lemma OperatorsCorrespond(c: Ctx, sc: seq<Scope>, op: BinOp, l: Expr, r: Expr)
    requires Agrees(c, sc, l) && Agrees(c, sc, r)
    ensures Agrees(c, sc, Binary(op, l, r))
  {
    hide Placed, Operate, Select;
    if TypeOf(c, sc, l).Some? && TypeOf(c, sc, r).Some? { SelectCountsStars(op, TypeOf(c, sc, l).value, TypeOf(c, sc, r).value); }
  }

  lemma BranchesCorrespond(c: Ctx, sc: seq<Scope>, b: Expr, x: Expr, y: Expr)
    requires Agrees(c, sc, b) && Agrees(c, sc, x) && Agrees(c, sc, y)
    ensures Agrees(c, sc, Ternary(b, x, y))
  {
    hide Placed, SameModulo;
    if TypeOf(c, sc, x).Some? && TypeOf(c, sc, y).Some? { BranchTypes(TypeOf(c, sc, x).value, TypeOf(c, sc, y).value); }
  }

  lemma AssignmentsCorrespond(c: Ctx, sc: seq<Scope>, x: Expr, y: Expr)
    requires Agrees(c, sc, x) && Agrees(c, sc, y)
    ensures Agrees(c, sc, Assign(x, y))
  {
    hide Placed;
    if TypeOf(c, sc, x).Some? && TypeOf(c, sc, y).Some? { EqualStars(TypeOf(c, sc, y).value.AsRvalue(), TypeOf(c, sc, x).value); }
  }

  lemma NamesCorrespond(c: Ctx, sc: seq<Scope>, x: string)
    requires ScopesPlaced(sc) && CtxDeclared(c)
    ensures Corresponds(TypeOf(c, sc, Ident(x)), KindOf(c, sc, Ident(x)))
  {
    hide ScopesPlaced;
    LookupPlaced(sc, x);
  }

  lemma ElementProper(t: Type)
    requires Proper(t)
    ensures t.ArrayType? ==> Proper(t.baseType)
  {
  }

  lemma BranchTypes(t: Type, u: Type)
    requires Proper(t) && Proper(u)
    ensures t.AsRvalue().Equals(u.AsRvalue())
            <==> if t.ArrayType? then u.ArrayType? && SameModulo(t, u) else !u.ArrayType? && Stars(t) == Stars(u)
    ensures Proper(t.AsRvalue())
  {
    hide SameModulo;
    EqualsIsSameModulo(t, u);
    EqualStars(t.AsRvalue(), u.AsRvalue());
  }

  /** All arguments are words with the declared stars. */
  predicate ArgsHave(c: Ctx, sc: seq<Scope>, args: seq<Expr>, types: seq<Type>)
    requires |args| == |types|
  {
    forall i | 0 <= i < |args| :: WordOf(c, sc, args[i], Stars(types[i]))
  }

  lemma {:induction false} ArgsCountStars(c: Ctx, sc: seq<Scope>, args: seq<Expr>, types: seq<Type>)
    requires ScopesPlaced(sc) && CtxDeclared(c) && |args| == |types| && forall i | 0 <= i < |types| :: IsDeclared(types[i])
    ensures ArgsOk(c, sc, args, types) <==> ArgsHave(c, sc, args, types)
    decreases args, 0
  {
    hide TypeOf, KindOf, ScopesPlaced, CtxDeclared, Placed;
    if args != [] {
      var n := |args| - 1;
      TypesCountStars(c, sc, args[n]);
      ArgsCountStars(c, sc, args[..n], types[..n]);
      if TypeOf(c, sc, args[n]).Some? { EqualStars(TypeOf(c, sc, args[n]).value.AsRvalue(), types[n]); }
      assert args == args[..n] + [args[n]] && types == types[..n] + [types[n]];
    }
  }

  lemma {:induction false} CallsCorrespond(c: Ctx, sc: seq<Scope>, f: string, args: seq<Expr>, e: Expr)
    requires ScopesPlaced(sc) && CtxDeclared(c) && e == Call(f, args)
    ensures Corresponds(TypeOf(c, sc, e), KindOf(c, sc, e))
    decreases e, 0
  {
    hide ScopesPlaced, ArgsOk, Placed;
    if f in c.funcs && |args| == |c.funcs[f].paramTypes| {
      assert SignatureDeclared(c.funcs[f]);
      ArgsCountStars(c, sc, args, c.funcs[f].paramTypes);
      assert ArgsHave(c, sc, args, c.funcs[f].paramTypes) <==> KindOf(c, sc, e).Some?;
    }
  }

  // ----- pointers -----

  /** Stepping a pointer keeps its type; the distance of two pointers is an int; any pointer may be indexed instead of
      being stepped and followed. */
  lemma PointerTypes(c: Ctx, sc: seq<Scope>, p: Expr, i: Expr)
    requires TypeOf(c, sc, p).Some? && TypeOf(c, sc, p).value.PointerType?
    ensures TypeOf(c, sc, Deref(Binary(Plus, p, i))) == TypeOf(c, sc, Subscript(p, i))
    ensures IsInt(c, sc, i) ==>
              var t := TypeOf(c, sc, p).value;
              && TypeOf(c, sc, Binary(Plus, p, i)) == Some(PointerType(t.refDepth, RVALUE))
              && TypeOf(c, sc, Binary(Plus, i, p)) == Some(PointerType(t.refDepth, RVALUE))
              && TypeOf(c, sc, Binary(Sub, p, i)) == Some(PointerType(t.refDepth, RVALUE))
              && TypeOf(c, sc, Binary(Sub, Binary(Plus, p, i), p)) == Some(IntType(RVALUE))
    ensures !IsInt(c, sc, i) ==> TypeOf(c, sc, Binary(Plus, p, i)) == None == TypeOf(c, sc, Binary(Plus, i, p))
  {
  }

  /** p[i] and *(p + i) mean the same in every state, as addresses and as values. */
  lemma SubscriptIsDeref(W: World, c: Ctx, sc: seq<Scope>, fp: int, sp: int, mem: Memory, p: Expr, i: Expr, fuel: nat)
    requires TypeOf(c, sc, p).Some? && TypeOf(c, sc, p).value.PointerType? && IsInt(c, sc, i)
    ensures Eval(W, c, sc, fp, sp, mem, Subscript(p, i), fuel) == Eval(W, c, sc, fp, sp, mem, Deref(Binary(Plus, p, i)), fuel)
    ensures Rvalue(W, c, sc, fp, sp, mem, Subscript(p, i), fuel) == Rvalue(W, c, sc, fp, sp, mem, Deref(Binary(Plus, p, i)), fuel)
  {
    hide ReadCell, Eval, Rvalue;
    PointerTypes(c, sc, p, i);
    var sum := Binary(Plus, p, i);
    StepMeans(W, c, sc, fp, sp, mem, p, i, fuel);
    NotRead(W, c, sc, fp, sp, mem, sum, fuel);
    UnderOperator(W, c, sc, fp, sp, mem, sum, fuel);
    SameRvalue(W, c, sc, fp, sp, mem, Subscript(p, i), Deref(sum), fuel);
  }

  lemma StepMeans(W: World, c: Ctx, sc: seq<Scope>, fp: int, sp: int, mem: Memory, p: Expr, i: Expr, fuel: nat)
    requires TypeOf(c, sc, p).Some? && TypeOf(c, sc, p).value.PointerType? && IsInt(c, sc, i)
    ensures Eval(W, c, sc, fp, sp, mem, Binary(Plus, p, i), fuel) == Eval(W, c, sc, fp, sp, mem, Subscript(p, i), fuel)
  {
    hide Rvalue, TypeOf;
  }

  lemma NotRead(W: World, c: Ctx, sc: seq<Scope>, fp: int, sp: int, mem: Memory, e: Expr, fuel: nat)
    requires !IsLvalue(c, sc, e)
    ensures Rvalue(W, c, sc, fp, sp, mem, e, fuel) == Eval(W, c, sc, fp, sp, mem, e, fuel)
  {
    hide Eval, TypeOf;
  }

  lemma SameRvalue(W: World, c: Ctx, sc: seq<Scope>, fp: int, sp: int, mem: Memory, d: Expr, e: Expr, fuel: nat)
    requires TypeOf(c, sc, d) == TypeOf(c, sc, e) && Eval(W, c, sc, fp, sp, mem, d, fuel) == Eval(W, c, sc, fp, sp, mem, e, fuel)
    ensures Rvalue(W, c, sc, fp, sp, mem, d, fuel) == Rvalue(W, c, sc, fp, sp, mem, e, fuel)
  {
    hide Eval, TypeOf;
  }

  lemma UnderOperator(W: World, c: Ctx, sc: seq<Scope>, fp: int, sp: int, mem: Memory, e: Expr, fuel: nat)
    ensures Eval(W, c, sc, fp, sp, mem, Deref(e), fuel) == Rvalue(W, c, sc, fp, sp, mem, e, fuel)
    ensures Eval(W, c, sc, fp, sp, mem, AddrOf(e), fuel) == Eval(W, c, sc, fp, sp, mem, e, fuel)
  {
    hide Rvalue, TypeOf;
  }

  /** Following the address of a place is the place, and the address of what a pointer points to is the pointer. */
  lemma AddressesCancel(W: World, c: Ctx, sc: seq<Scope>, fp: int, sp: int, mem: Memory, e: Expr, fuel: nat)
    requires ScopesPlaced(sc) && CtxDeclared(c) && TypeOf(c, sc, e).Some?
    ensures TypeOf(c, sc, AddrOf(e)).Some? <==> IsLvalue(c, sc, e)
    ensures IsLvalue(c, sc, e) ==>
              && TypeOf(c, sc, Deref(AddrOf(e))) == TypeOf(c, sc, e)
              && Eval(W, c, sc, fp, sp, mem, Deref(AddrOf(e)), fuel) == Eval(W, c, sc, fp, sp, mem, e, fuel)
    ensures TypeOf(c, sc, Deref(e)).Some? <==> TypeOf(c, sc, e).value.PointerType?
    ensures TypeOf(c, sc, e).value.PointerType? ==>
              && TypeOf(c, sc, AddrOf(Deref(e))) == Some(TypeOf(c, sc, e).value.AsRvalue())
              && Eval(W, c, sc, fp, sp, mem, AddrOf(Deref(e)), fuel) == Rvalue(W, c, sc, fp, sp, mem, e, fuel)
  {
    hide ScopesPlaced, CtxDeclared, KindOf, Placed, Eval, Rvalue;
    TypesCountStars(c, sc, e);
    UnderOperator(W, c, sc, fp, sp, mem, e, fuel);
    UnderOperator(W, c, sc, fp, sp, mem, AddrOf(e), fuel);
    UnderOperator(W, c, sc, fp, sp, mem, Deref(e), fuel);
    if IsLvalue(c, sc, e) { NotRead(W, c, sc, fp, sp, mem, AddrOf(e), fuel); }
  }

  // ----- declarations -----

  /** A declaration with an initialiser is accepted exactly when the name is new in its scope and the initialiser, in
      which the name already stands for the new variable, has the declared stars. */
  lemma InitialiserStars(c: Ctx, env: Env, stars: nat, x: string, e: Expr)
    requires env.scopes != [] && ScopesPlaced(env.scopes) && CtxDeclared(c)
    ensures var d := Var(stars, x, Some(e));
            DeclOk(c, env, d) <==> x !in env.scopes[0] && WordOf(c, DeclEnv(env, d).scopes, e, stars)
  {
    hide ScopesPlaced, CtxDeclared, KindOf, TypeOf, DeclEnv, Placed;
    var d := Var(stars, x, Some(e));
    DeclPlaced(env, d);
    var sc := DeclEnv(env, d).scopes;
    TypesCountStars(c, sc, e);
    if TypeOf(c, sc, e).Some? { EqualStars(TypeOf(c, sc, e).value.AsRvalue(), Declared(stars)); }
  }

  /** The stepped pointer may initialise a variable exactly when that has as many stars. */
  lemma SteppedInitialiser(c: Ctx, env: Env, stars: nat, x: string, p: Expr, i: Expr)
    requires env.scopes != []
    requires var sc := DeclEnv(env, Var(stars, x, Some(Binary(Plus, p, i)))).scopes;
             TypeOf(c, sc, p).Some? && TypeOf(c, sc, p).value.PointerType? && TypeOf(c, sc, p).value.refDepth >= 1 && IsInt(c, sc, i)
    ensures var d := Var(stars, x, Some(Binary(Plus, p, i)));
            DeclOk(c, env, d) <==> x !in env.scopes[0] && stars == TypeOf(c, DeclEnv(env, d).scopes, p).value.refDepth
  {
    hide TypeOf, DeclEnv;
    PointerTypes(c, DeclEnv(env, Var(stars, x, Some(Binary(Plus, p, i)))).scopes, p, i);
  }

  /** What a declaration does to names: its own stands for a place with the declared stars or for the declared array,
      every other name for what it stood for before. */
  lemma DeclaredNames(c: Ctx, env: Env, d: Decl, y: string)
    requires env.scopes != [] && (d.Arr? ==> d.dims != [])
    ensures TypeOf(c, DeclEnv(env, d).scopes, Ident(y))
            == if y != d.name then TypeOf(c, env.scopes, Ident(y))
               else Some(if d.Var? then LvalueOf(d.stars) else ArrayOf(LvalueOf(d.stars), d.dims))
    ensures y == d.name ==> KindOf(c, DeclEnv(env, d).scopes, Ident(y))
                            == Some(if d.Var? then Place(d.stars) else Whole(ArrayOf(LvalueOf(d.stars), d.dims)))
  {
    hide Numeral;
    var sc := DeclEnv(env, d).scopes;
    assert sc == [sc[0]] + env.scopes[1..] && sc[1..] == env.scopes[1..];
  }

  /** At the start of a body the parameters are places with the declared stars, and all other names are globals. */
  lemma ParameterNames(c: Ctx, params: seq<Param>, y: string)
    requires DistinctParams(params)
    ensures forall i | 0 <= i < |params| && params[i].name == y :: KindOf(c, ParamEnv(params).scopes, Ident(y)) == Some(Place(params[i].stars))
    ensures (forall i | 0 <= i < |params| :: params[i].name != y) ==>
              TypeOf(c, ParamEnv(params).scopes, Ident(y)) == if y in c.globals then Some(c.globals[y]) else None
  {
    hide ParamScope;
    ParameterScope(params, y);
    OneScope(ParamScope(params), y);
  }

  lemma OneScope(s: Scope, y: string)
    ensures Lookup([s], y) == if y in s then Some(s[y]) else None
  {
    assert [s][1..] == [];
  }

  lemma {:induction false} ParameterScope(params: seq<Param>, y: string)
    requires DistinctParams(params)
    ensures forall i | 0 <= i < |params| && params[i].name == y :: y in ParamScope(params) && ParamScope(params)[y].typ == LvalueOf(params[i].stars)
    ensures (forall i | 0 <= i < |params| :: params[i].name != y) ==> y !in ParamScope(params)
    decreases |params|
  {
    hide LvalueOf;
    if params != [] {
      var n := |params| - 1;
      ParameterScope(params[..n], y);
      assert params == params[..n] + [params[n]];
    }
  }

  // ----- every accepted program is of this kind -----

  lemma SignatureIsDeclared(stars: nat, params: seq<Param>)
    ensures SignatureDeclared(SignatureOf(stars, params))
  {
  }

  lemma {:induction false} ProgramDeclared(u: P.Unit, ds: seq<TopDecl>)
    requires CtxDeclared(u.ctx) && (forall f | f in u.defined :: CtxDeclared(u.defined[f].ctx)) && P.VisitTops(u, ds).Some?
    ensures var u' := P.VisitTops(u, ds).value; CtxDeclared(u'.ctx) && forall f | f in u'.defined :: CtxDeclared(u'.defined[f].ctx)
    decreases ds
  {
    hide Placed, ItemsOk, ItemsCode, ArrayOf, SignatureDeclared, FrameSlots;
    if ds != [] {
      match ds[0] {
        case GlobalVar(stars, _) => VarPlaced(stars);
        case GlobalArr(stars, _, dims) => ArrayPlaced(stars, dims);
        case FuncDecl(stars, _, params) => SignatureIsDeclared(stars, params);
        case FuncDef(stars, _, params, _) => SignatureIsDeclared(stars, params);
      }
      ProgramDeclared(P.VisitTop(u, ds[0]).value, ds[1..]);
    }
  }
}
