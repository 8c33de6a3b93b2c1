/** Laws of types: equality with wrapped sizes, references, and which expressions are l-values. */
module TypeLaws {
  import opened Wrappers
  import opened Words
  import opened Types
  import opened Syntax
  import opened Typing
  import opened FrameSafety
  import opened ArrayLaws
  import opened CodeGen
  import P = Program

  // ----- equality -----

  /** The same type but for value categories. */
  predicate SameShape(t: Type, u: Type)
    decreases t
  {
    match t
    case IntType(_) => u.IntType?
    case PointerType(d, _) => u.PointerType? && u.refDepth == d
    case ArrayType(base, n) => u.ArrayType? && u.length == n && SameShape(base, u.baseType)
  }

  lemma {:induction false} EqualsIsEquivalence(t: Type, u: Type, v: Type)
    ensures t.Equals(t)
    ensures t.Equals(u) ==> u.Equals(t)
    ensures t.Equals(u) && u.Equals(v) ==> t.Equals(v)
    decreases t
  {
    if t.ArrayType? {
      EqualsIsEquivalence(t.baseType, if u.ArrayType? then u.baseType else u, if v.ArrayType? then v.baseType else v);
    }
  }

  /** The same but for value categories, with the words of arrays compared modulo 2^30 only. */
  predicate SameModulo(t: Type, u: Type)
    decreases t
  {
    match t
    case IntType(_) => u.IntType?
    case PointerType(d, _) => u.PointerType? && u.refDepth == d
    case ArrayType(base, _) =>
      u.ArrayType? && (TrueWords(t) - TrueWords(u)) % 0x4000_0000 == 0 && SameModulo(base, u.baseType)
  }

  /** Exactly what equality of types compares, for all types. */
  lemma {:induction false} EqualsIsSameModulo(t: Type, u: Type)
    ensures t.Equals(u) <==> SameModulo(t, u)
    decreases t
  {
    if t.ArrayType? && u.ArrayType? {
      EqualsIsSameModulo(t.baseType, u.baseType);
      SizeIs(t);
      SizeIs(u);
      SameSize(TrueWords(t), TrueWords(u));
    }
  }

  lemma SameSize(x: int, y: int)
    ensures JavaInt(4 * x) == JavaInt(4 * y) <==> (x - y) % 0x4000_0000 == 0
  {
  }

  /** An array type with positive dimensions whose size does not wrap. */
  predicate Sized(t: Type) {
    4 * TrueWords(t) < TWO_31 && (t.ArrayType? ==> t.length >= 1 && Sized(t.baseType))
  }

  lemma {:induction false} SizedPositive(t: Type)
    requires Sized(t)
    ensures 1 <= TrueWords(t) < 0x2000_0000
    decreases t
  {
    if t.ArrayType? {
      SizedPositive(t.baseType);
      MulAtLeast(t.length, TrueWords(t.baseType));
    }
  }

  /** As long as sizes do not wrap, equal types have the same dimensions. */
  lemma EqualsIsSameShape(t: Type, u: Type)
    requires Sized(t) && Sized(u)
    ensures t.Equals(u) <==> SameShape(t, u)
  {
    EqualsIsSameModulo(t, u);
    ModuloIsShape(t, u);
  }

  lemma {:induction false} ModuloIsShape(t: Type, u: Type)
    requires Sized(t) && Sized(u)
    ensures SameModulo(t, u) <==> SameShape(t, u)
    decreases t
  {
    if t.ArrayType? && u.ArrayType? {
      ModuloIsShape(t.baseType, u.baseType);
      SizedPositive(t);
      SizedPositive(u);
      if SameShape(t.baseType, u.baseType) {
        SameWords(t.baseType, u.baseType);
        SizedPositive(t.baseType);
        SameFactor(t.length, u.length, TrueWords(t.baseType));
      }
    }
  }

  lemma {:induction false} SameWords(t: Type, u: Type)
    requires SameShape(t, u)
    ensures TrueWords(t) == TrueWords(u)
    decreases t
  {
    if t.ArrayType? { SameWords(t.baseType, u.baseType); }
  }

  lemma SameFactor(m: int, n: int, w: int)
    requires w >= 1
    ensures m * w == n * w <==> m == n
  {
    if m != n { assert (m - n) * w != 0; }
  }

  /** Beyond that they need not: int[1] and int[1073741825] are equal types. */
  lemma EqualsConfusesWrapped()
    ensures var t, u := ArrayType(IntType(LVALUE), 1), ArrayType(IntType(LVALUE), 1073741825);
            Sized(t) && !Sized(u) && t.Equals(u) && !SameShape(t, u)
  {
    JavaIntWraps(4);
    assert ArrayType(IntType(LVALUE), 1073741825).GetSize() == JavaInt(1073741825 * 4);
  }

  // ----- references -----

  /** Taking the address of an l-value and following it again is the identity. */
  lemma DerefOfRef(t: Type)
    requires t.PointerType? ==> t.refDepth >= 1
    ensures t.Ref().Some? <==> t.Cat() == LVALUE
    ensures t.Ref().Some? ==> t.Ref().value.Deref() == Some(t)
    ensures t.Deref().Some? ==> t.Deref().value.Ref() == Some(t.AsRvalue())
  {
  }

  // ----- l-values -----

  /** A variable's type: l-values down to the elements of arrays. */
  predicate Placed(t: Type) {
    match t
    case IntType(c) => c == LVALUE
    case PointerType(d, c) => c == LVALUE && d >= 1
    case ArrayType(base, _) => Placed(base)
  }

  predicate ScopesPlaced(sc: seq<Scope>) {
    forall i, x | 0 <= i < |sc| && x in sc[i] :: Placed(sc[i][x].typ)
  }

  predicate CtxPlaced(c: Ctx) {
    (forall x | x in c.globals :: Placed(c.globals[x])) && (forall f | f in c.funcs :: c.funcs[f].returnType.Cat() == RVALUE && !c.funcs[f].returnType.ArrayType?)
  }

  lemma {:induction false} LookupPlaced(sc: seq<Scope>, x: string)
    requires ScopesPlaced(sc)
    ensures Lookup(sc, x).Some? ==> Placed(Lookup(sc, x).value.typ)
    decreases |sc|
  {
    if sc != [] && x !in sc[0] { LookupPlaced(sc[1..], x); }
  }

  lemma {:induction false} ArrayPlaced(stars: nat, dims: seq<string>)
    ensures Placed(ArrayOf(LvalueOf(stars), dims))
    decreases |dims|
  {
    hide Numeral;
    if dims != [] { ArrayPlaced(stars, dims[1..]); }
  }

  /** Declarations of locals give variables such types. */
  lemma DeclPlaced(env: Env, d: Decl)
    requires env.scopes != [] && ScopesPlaced(env.scopes)
    ensures ScopesPlaced(DeclEnv(env, d).scopes)
  {
    hide ArrayOf, Placed;
    VarPlaced(d.stars);
    if d.Arr? { ArrayPlaced(d.stars, d.dims); }
  }

  lemma VarPlaced(stars: nat)
    ensures Placed(LvalueOf(stars))
  {
  }

  lemma {:induction false} ParamsPlaced(params: seq<Param>)
    ensures forall x | x in ParamScope(params) :: Placed(ParamScope(params)[x].typ)
    decreases |params|
  {
    hide Placed;
    if params != [] {
      ParamsPlaced(params[..|params| - 1]);
      VarPlaced(params[|params| - 1].stars);
    }
  }

  /** A variable, an element, what a pointer points to, or a cast of one of these. */
  predicate IsPlace(e: Expr) {
    match e
    case Ident(_) => true
    case Subscript(_, _) => true
    case Deref(_) => true
    case Cast(_, e1) => IsPlace(e1)
    case _ => false
  }

  /** No array on the way: an array is never an l-value, not even after a cast. */
  predicate ThroughArray(c: Ctx, sc: seq<Scope>, e: Expr) {
    var t := TypeOf(c, sc, e);
    t.Some? && (t.value.ArrayType? || (e.Cast? && ThroughArray(c, sc, e.source)))
  }

  /** An accepted expression is an l-value exactly when it is a place and no array; the elements of an array
      expression are l-values in turn. */
  lemma {:induction false} LvaluesArePlaces(c: Ctx, sc: seq<Scope>, e: Expr)
    requires ScopesPlaced(sc) && CtxPlaced(c) && TypeOf(c, sc, e).Some?
    ensures TypeOf(c, sc, e).value.Cat() == LVALUE <==> IsPlace(e) && !ThroughArray(c, sc, e)
    ensures TypeOf(c, sc, e).value.ArrayType? ==> Placed(TypeOf(c, sc, e).value)
    decreases e
  {
    match e {
      case Ident(x) => LookupPlaced(sc, x);
      case Subscript(b, _) => LvaluesArePlaces(c, sc, b);
      case Cast(_, e1) => LvaluesArePlaces(c, sc, e1);
      case Ternary(_, x, _) => LvaluesArePlaces(c, sc, x);
      case Assign(x, _) => LvaluesArePlaces(c, sc, x);
      case _ =>
    }
  }

  /** The declarations of an accepted program are of this kind, */
  lemma {:induction false} ProgramPlaced(u: P.Unit, ds: seq<TopDecl>)
    requires CtxPlaced(u.ctx) && P.VisitTops(u, ds).Some?
    ensures CtxPlaced(P.VisitTops(u, ds).value.ctx)
    decreases ds
  {
    hide Placed, ItemsOk, ItemsCode, ArrayOf;
    if ds != [] {
      match ds[0] {
        case GlobalVar(stars, _) => VarPlaced(stars);
        case GlobalArr(stars, _, dims) => ArrayPlaced(stars, dims);
        case _ =>
      }
      ProgramPlaced(P.VisitTop(u, ds[0]).value, ds[1..]);
    }
  }

  /** and so are the scopes while a body is visited. */
  lemma {:induction false} BodyPlaced(env: Env, items: seq<Item>)
    requires env.scopes != [] && ScopesPlaced(env.scopes)
    ensures ScopesPlaced(ItemsEnv(env, items).scopes)
    decreases |items|
  {
    hide DeclEnv, StmtEnv, Placed;
    if items != [] {
      match items[0] {
        case DeclItem(d) => DeclPlaced(env, d);
        case StmtItem(_) =>
      }
      BodyPlaced(ItemEnv(env, items[0]), items[1..]);
    }
  }
}
