/** File level: which sequences of declarations make an accepted program, and that calls and definitions then agree. */
module FileLevel {
  import opened Wrappers
  import opened Words
  import opened Types
  import opened Syntax
  import opened Ir
  import opened Typing
  import opened CodeGen
  import opened Memory
  import opened Semantics
  import opened TypeLaws
  import opened Kinds
  import opened Program
  import A = Acceptance
  import References

  // ----- signatures -----

  predicate IsGlobal(d: TopDecl) {
    d.GlobalVar? || d.GlobalArr?
  }

  predicate IsFunc(d: TopDecl) {
    d.FuncDecl? || d.FuncDef?
  }

  /** The same number of stars of the result, the same number of parameters and the same stars of each. */
  predicate SameStars(d: TopDecl, e: TopDecl)
    requires IsFunc(d) && IsFunc(e)
  {
    d.stars == e.stars && |d.params| == |e.params| && forall i | 0 <= i < |d.params| :: d.params[i].stars == e.params[i].stars
  }

  function DeclaredSignature(d: TopDecl): Signature
    requires IsFunc(d)
  {
    SignatureOf(d.stars, d.params)
  }

  lemma EqualDeclared(a: nat, b: nat)
    ensures Declared(a).Equals(Declared(b)) <==> a == b
    ensures Declared(a) == Declared(b) <==> a == b
  {
  }

  /** Signatures are taken as equal exactly when all stars agree, and then they are the same. */
  lemma SignaturesAgree(d: TopDecl, e: TopDecl)
    requires IsFunc(d) && IsFunc(e)
    ensures DeclaredSignature(d).Equals(DeclaredSignature(e)) <==> SameStars(d, e)
    ensures SameStars(d, e) <==> DeclaredSignature(d) == DeclaredSignature(e)
  {
    hide Declared;
    forall a: nat, b: nat ensures Declared(a).Equals(Declared(b)) <==> a == b ensures Declared(a) == Declared(b) <==> a == b {
      EqualDeclared(a, b);
    }
    var s, r := DeclaredSignature(d), DeclaredSignature(e);
    if SameStars(d, e) {
      assert s.paramTypes == r.paramTypes;
    }
    if s == r {
      forall i | 0 <= i < |d.params| ensures d.params[i].stars == e.params[i].stars {
        assert s.paramTypes[i] == r.paramTypes[i];
      }
    }
    if s.Equals(r) {
      forall i | 0 <= i < |d.params| ensures d.params[i].stars == e.params[i].stars {
        assert r.paramTypes[i].Equals(s.paramTypes[i]);
      }
    }
  }

  // ----- which declarations go together -----

  function GlobalType(d: TopDecl): Type
    requires IsGlobal(d)
  {
    match d
    case GlobalVar(stars, _) => LvalueOf(stars)
    case GlobalArr(stars, _, dims) => ArrayOf(LvalueOf(stars), dims)
  }

  /** A name is a global or a function throughout; a global keeps its type, array sizes modulo 2^30 words; a function
      keeps its stars and is defined at most once. */
  predicate Compatible(d: TopDecl, e: TopDecl) {
    d.name == e.name ==>
      if IsGlobal(d) then IsGlobal(e) && SameModulo(GlobalType(d), GlobalType(e))
      else IsFunc(e) && SameStars(d, e) && !(d.FuncDef? && e.FuncDef?)
  }

  function Declare(c: Ctx, d: TopDecl): Ctx {
    if IsGlobal(d) then c.(globals := c.globals[d.name := GlobalType(d)])
    else c.(funcs := c.funcs[d.name := DeclaredSignature(d)])
  }

  /** The latest declaration of every name. */
  function ContextOf(ds: seq<TopDecl>): Ctx {
    if ds == [] then Ctx(map[], map[]) else Declare(ContextOf(ds[..|ds| - 1]), ds[|ds| - 1])
  }

  /** What a declaration must meet by itself: an array's dimensions are numbers from 1 to 2147483647; the parameters of
      a definition have different names, and its body meets all demands, knowing what has been declared up to and
      including this function. */
  ghost predicate SoundIn(c: Ctx, d: TopDecl) {
    match d
    case GlobalArr(_, _, dims) => dims != [] && forall n | n in dims :: 1 <= Numeral(n) <= 2147483647
    case FuncDef(stars, _, params, body) =>
      && (forall i, j | 0 <= i < j < |params| :: params[i].name != params[j].name)
      && A.AllInItems(c, ParamEnv(params), stars, false, body)
    case _ => true
  }

  ghost predicate SoundAt(ds: seq<TopDecl>, j: nat)
    requires j < |ds|
  {
    SoundIn(ContextOf(ds[..j + 1]), ds[j])
  }

  ghost predicate Acceptable(ds: seq<TopDecl>) {
    (forall i, j | 0 <= i < j < |ds| :: Compatible(ds[i], ds[j])) && forall j | 0 <= j < |ds| :: SoundAt(ds, j)
  }

  // ----- the visitor's tables after accepted declarations -----

  ghost predicate GlobalsAre(u: Unit, ds: seq<TopDecl>) {
    && (forall x | x in u.ctx.globals :: exists i :: 0 <= i < |ds| && IsGlobal(ds[i]) && ds[i].name == x)
    && (forall i | 0 <= i < |ds| && IsGlobal(ds[i]) ::
          ds[i].name in u.ctx.globals && SameModulo(GlobalType(ds[i]), u.ctx.globals[ds[i].name]))
  }

  ghost predicate FuncsAre(u: Unit, ds: seq<TopDecl>) {
    && (forall f | f in u.ctx.funcs :: exists i :: 0 <= i < |ds| && IsFunc(ds[i]) && ds[i].name == f)
    && (forall i | 0 <= i < |ds| && IsFunc(ds[i]) ::
          ds[i].name in u.ctx.funcs && u.ctx.funcs[ds[i].name] == DeclaredSignature(ds[i]))
  }

  /** A definition is kept with its parameters, its body and the declarations up to it. */
  predicate KeptAt(u: Unit, ds: seq<TopDecl>, i: nat)
    requires i < |ds| && ds[i].FuncDef?
  {
    var f := ds[i].name;
    f in u.defined && u.defined[f].params == ds[i].params && u.defined[f].body == ds[i].body
    && u.defined[f].ret == Declared(ds[i].stars) && u.defined[f].ctx == ContextOf(ds[..i + 1])
  }

  ghost predicate DefinitionsAre(u: Unit, ds: seq<TopDecl>) {
    && (forall f | f in u.defined :: exists i :: 0 <= i < |ds| && ds[i].FuncDef? && ds[i].name == f)
    && (forall i | 0 <= i < |ds| && ds[i].FuncDef? :: KeptAt(u, ds, i))
    && (u.containsMain <==> exists i :: 0 <= i < |ds| && ds[i].FuncDef? && ds[i].name == "main")
  }

  ghost predicate Describes(u: Unit, ds: seq<TopDecl>) {
    GlobalsAre(u, ds) && FuncsAre(u, ds) && DefinitionsAre(u, ds) && u.ctx == ContextOf(ds) && CtxDeclared(u.ctx)
  }

  lemma EqualIsModulo(t: Type, u: Type)
    ensures t.Equals(u) <==> SameModulo(t, u)
  {
    EqualsIsSameModulo(t, u);
  }

  lemma ModuloTrans(t: Type, u: Type, v: Type)
    ensures SameModulo(t, t)
    ensures SameModulo(t, u) && SameModulo(u, v) ==> SameModulo(t, v)
    ensures SameModulo(t, u) && SameModulo(t, v) ==> SameModulo(u, v)
  {
    hide SameModulo;
    EqualIsModulo(t, t);
    EqualIsModulo(t, u);
    EqualIsModulo(u, v);
    EqualIsModulo(t, v);
    EqualIsModulo(u, t);
    EqualsIsEquivalence(t, u, v);
    EqualsIsEquivalence(u, t, v);
  }

  // ----- one more declaration -----

  lemma GlobalFits(u: Unit, ds: seq<TopDecl>, d: TopDecl)
    requires Describes(u, ds) && IsGlobal(d)
    ensures DeclareGlobal(u, d.name, GlobalType(d)).Some? <==> forall i | 0 <= i < |ds| :: Compatible(ds[i], d)
  {
    hide SameModulo, DefinitionsAre, CtxDeclared, ContextOf, GlobalType;
    var t := GlobalType(d);
    if d.name in u.ctx.globals { EqualIsModulo(u.ctx.globals[d.name], t); }
    forall i | 0 <= i < |ds| && IsGlobal(ds[i]) && ds[i].name == d.name
      ensures SameModulo(GlobalType(ds[i]), t) <==> SameModulo(u.ctx.globals[d.name], t)
    {
      ModuloTrans(GlobalType(ds[i]), u.ctx.globals[d.name], t);
      ModuloTrans(u.ctx.globals[d.name], GlobalType(ds[i]), t);
    }
  }

  lemma FuncFits(u: Unit, ds: seq<TopDecl>, d: TopDecl)
    requires Describes(u, ds) && IsFunc(d)
    ensures DeclareFunc(u, d.name, DeclaredSignature(d)).Some? && !(d.FuncDef? && d.name in u.defined)
            <==> forall i | 0 <= i < |ds| :: Compatible(ds[i], d)
  {
    hide SameModulo, SameStars, CtxDeclared, ContextOf, GlobalType, DeclaredSignature;
    forall i | 0 <= i < |ds| && IsFunc(ds[i]) && ds[i].name == d.name
      ensures u.ctx.funcs[d.name].Equals(DeclaredSignature(d)) <==> SameStars(ds[i], d)
    {
      SignaturesAgree(ds[i], d);
    }
    forall i | 0 <= i < |ds| && ds[i].FuncDef? ensures ds[i].name in u.defined { assert KeptAt(u, ds, i); }
  }

  lemma ContextNext(u: Unit, ds: seq<TopDecl>, d: TopDecl)
    requires Describes(u, ds)
    ensures ContextOf(ds + [d]) == Declare(u.ctx, d) && (ds + [d])[..|ds| + 1] == ds + [d]
    ensures CtxDeclared(ContextOf(ds + [d]))
  {
    hide CtxDeclared, GlobalsAre, FuncsAre, DefinitionsAre, Declare;
    assert (ds + [d])[..|ds|] == ds;
    DeclareKeeps(u.ctx, d);
  }

  lemma DeclareKeeps(c: Ctx, d: TopDecl)
    requires CtxDeclared(c)
    ensures CtxDeclared(Declare(c, d))
  {
    hide Placed, SignatureDeclared, ArrayOf, LvalueOf, SignatureOf;
    if IsGlobal(d) {
      VarPlaced(d.stars);
      if d.GlobalArr? { ArrayPlaced(d.stars, d.dims); }
    } else {
      SignatureIsDeclared(d.stars, d.params);
    }
  }

  lemma ScopeOfParams(params: seq<Param>)
    ensures ParamEnv(params).scopes != [] && ScopesPlaced(ParamEnv(params).scopes)
  {
    hide ParamScope, Placed;
    ParamsPlaced(params);
  }

  /** A declaration is accepted after others exactly when it goes together with each of them and is sound. */
  lemma Fits(u: Unit, ds: seq<TopDecl>, d: TopDecl)
    requires Describes(u, ds)
    ensures VisitTop(u, d).Some? <==> (forall i | 0 <= i < |ds| :: Compatible(ds[i], d)) && SoundAt(ds + [d], |ds|)
    ensures VisitTop(u, d).Some? ==> VisitTop(u, d).value.ctx == ContextOf(ds + [d])
  {
    hide ContextOf, Compatible, ItemsOk, ItemsCode, A.AllInItems, ParamEnv, Describes, DeclareGlobal, DeclareFunc, SignatureOf, ArrayOf, Numeral, CtxDeclared;
    ContextNext(u, ds, d);
    NextContext(u, d);
    if IsGlobal(d) { GlobalFits(u, ds, d); } else { FuncFits(u, ds, d); }
    if d.FuncDef? {
      ScopeOfParams(d.params);
      A.ItemsAccepted(ContextOf(ds + [d]), ParamEnv(d.params), d.stars, false, d.body);
    }
  }

  lemma NextContext(u: Unit, d: TopDecl)
    ensures IsGlobal(d) && DeclareGlobal(u, d.name, GlobalType(d)).Some? ==>
              DeclareGlobal(u, d.name, GlobalType(d)).value == u.(ctx := Declare(u.ctx, d))
    ensures IsFunc(d) && DeclareFunc(u, d.name, DeclaredSignature(d)).Some? ==>
              DeclareFunc(u, d.name, DeclaredSignature(d)).value == Declare(u.ctx, d)
  {
    hide SignatureOf, ArrayOf;
  }

  lemma GlobalsNext(u: Unit, u1: Unit, ds: seq<TopDecl>, d: TopDecl)
    requires GlobalsAre(u, ds) && u1.ctx == Declare(u.ctx, d) && forall i | 0 <= i < |ds| :: Compatible(ds[i], d)
    ensures GlobalsAre(u1, ds + [d])
  {
    hide SameModulo, SignatureOf, GlobalType, SameStars;
    var es := ds + [d];
    assert es[|ds|] == d;
    forall x | x in u1.ctx.globals ensures exists i :: 0 <= i < |es| && IsGlobal(es[i]) && es[i].name == x {
      if x in u.ctx.globals {
        var i :| 0 <= i < |ds| && IsGlobal(ds[i]) && ds[i].name == x;
        assert es[i] == ds[i];
      }
    }
    forall i | 0 <= i < |es| && IsGlobal(es[i])
      ensures es[i].name in u1.ctx.globals && SameModulo(GlobalType(es[i]), u1.ctx.globals[es[i].name])
    {
      if i < |ds| { assert Compatible(ds[i], d); } else { ModuloTrans(GlobalType(d), GlobalType(d), GlobalType(d)); }
    }
  }

  lemma FuncsNext(u: Unit, u1: Unit, ds: seq<TopDecl>, d: TopDecl)
    requires FuncsAre(u, ds) && u1.ctx == Declare(u.ctx, d) && forall i | 0 <= i < |ds| :: Compatible(ds[i], d)
    ensures FuncsAre(u1, ds + [d])
  {
    hide SameModulo, DeclaredSignature, GlobalType, SameStars;
    var es := ds + [d];
    assert es[|ds|] == d;
    forall f | f in u1.ctx.funcs ensures exists i :: 0 <= i < |es| && IsFunc(es[i]) && es[i].name == f {
      if f in u.ctx.funcs {
        var i :| 0 <= i < |ds| && IsFunc(ds[i]) && ds[i].name == f;
        assert es[i] == ds[i];
      }
    }
    forall i | 0 <= i < |es| && IsFunc(es[i])
      ensures es[i].name in u1.ctx.funcs && u1.ctx.funcs[es[i].name] == DeclaredSignature(es[i])
    {
      if i < |ds| {
        assert Compatible(ds[i], d);
        if IsFunc(d) { SignaturesAgree(ds[i], d); }
      }
    }
  }

  /** What a declaration adds to the definitions. */
  lemma DefinedNext(u: Unit, d: TopDecl)
    requires VisitTop(u, d).Some?
    ensures var u1 := VisitTop(u, d).value;
            && u1.defined.Keys == u.defined.Keys + (if d.FuncDef? then {d.name} else {})
            && (forall f | f in u.defined && !(d.FuncDef? && f == d.name) :: u1.defined[f] == u.defined[f])
            && (d.FuncDef? ==> d.name !in u.defined)
            && (u1.containsMain <==> u.containsMain || (d.FuncDef? && d.name == "main"))
            && (d.FuncDef? ==> var g := u1.defined[d.name];
                               g.params == d.params && g.body == d.body && g.ret == Declared(d.stars) && g.ctx == u1.ctx)
  {
    hide ItemsOk, ItemsCode, FrameSlots, DeclareFunc, SignatureOf, ArrayOf, FuncCode, DistinctParams, Numeral;
  }

  lemma DefinitionsNext(u: Unit, ds: seq<TopDecl>, d: TopDecl)
    requires DefinitionsAre(u, ds) && VisitTop(u, d).Some? && VisitTop(u, d).value.ctx == ContextOf(ds + [d])
    ensures DefinitionsAre(VisitTop(u, d).value, ds + [d])
  {
    hide ContextOf, VisitTop, KeptAt;
    DefinedNext(u, d);
    var es, u1 := ds + [d], VisitTop(u, d).value;
    forall f | f in u1.defined ensures exists i :: 0 <= i < |es| && es[i].FuncDef? && es[i].name == f {
      NamedNext(ds, d, f);
    }
    forall i | 0 <= i < |es| && es[i].FuncDef? ensures KeptAt(u1, es, i) {
      if i < |ds| { KeptNext(u, ds, d, i); } else { KeptNew(u, ds, d); }
    }
    NamedNext(ds, d, "main");
  }

  lemma KeptNext(u: Unit, ds: seq<TopDecl>, d: TopDecl, i: nat)
    requires i < |ds| && ds[i].FuncDef? && KeptAt(u, ds, i) && VisitTop(u, d).Some?
    ensures KeptAt(VisitTop(u, d).value, ds + [d], i)
  {
    hide ContextOf, VisitTop;
    DefinedNext(u, d);
    assert (ds + [d])[..i + 1] == ds[..i + 1];
  }

  lemma KeptNew(u: Unit, ds: seq<TopDecl>, d: TopDecl)
    requires VisitTop(u, d).Some? && VisitTop(u, d).value.ctx == ContextOf(ds + [d]) && d.FuncDef?
    ensures KeptAt(VisitTop(u, d).value, ds + [d], |ds|)
  {
    hide ContextOf, VisitTop;
    DefinedNext(u, d);
    assert (ds + [d])[..|ds| + 1] == ds + [d];
  }

  lemma NamedNext(ds: seq<TopDecl>, d: TopDecl, f: string)
    ensures (exists i :: 0 <= i < |ds + [d]| && (ds + [d])[i].FuncDef? && (ds + [d])[i].name == f)
            <==> (exists i :: 0 <= i < |ds| && ds[i].FuncDef? && ds[i].name == f) || (d.FuncDef? && d.name == f)
  {
    var es := ds + [d];
    assert es[|ds|] == d && forall i | 0 <= i < |ds| :: es[i] == ds[i];
  }

  lemma DescribesNext(u: Unit, ds: seq<TopDecl>, d: TopDecl)
    requires Describes(u, ds) && VisitTop(u, d).Some?
    ensures Describes(VisitTop(u, d).value, ds + [d])
  {
    hide VisitTop, GlobalsAre, FuncsAre, DefinitionsAre, ContextOf, Compatible, CtxDeclared, SoundAt, Declare;
    Fits(u, ds, d);
    ContextNext(u, ds, d);
    GlobalsNext(u, VisitTop(u, d).value, ds, d);
    FuncsNext(u, VisitTop(u, d).value, ds, d);
    DefinitionsNext(u, ds, d);
  }

  // ----- whole files -----

  lemma {:induction false} VisitLast(u: Unit, ds: seq<TopDecl>, d: TopDecl)
    ensures VisitTops(u, ds + [d]) == (if VisitTops(u, ds).None? then None else VisitTop(VisitTops(u, ds).value, d))
    decreases |ds|
  {
    hide VisitTop;
    if ds == [] {
      assert ds + [d] == [d];
    } else {
      assert (ds + [d])[0] == ds[0] && (ds + [d])[1..] == ds[1..] + [d];
      if VisitTop(u, ds[0]).Some? { VisitLast(VisitTop(u, ds[0]).value, ds[1..], d); }
    }
  }

  lemma AcceptableLast(ds: seq<TopDecl>, d: TopDecl)
    ensures Acceptable(ds + [d])
            <==> Acceptable(ds) && (forall i | 0 <= i < |ds| :: Compatible(ds[i], d)) && SoundAt(ds + [d], |ds|)
  {
    hide Compatible, SoundIn, ContextOf;
    var es := ds + [d];
    forall j | 0 <= j < |ds| ensures SoundAt(es, j) <==> SoundAt(ds, j) { assert es[..j + 1] == ds[..j + 1]; }
    assert forall i | 0 <= i < |ds| :: es[i] == ds[i];
    if Acceptable(es) {
      forall i | 0 <= i < |ds| ensures Compatible(ds[i], d) { assert Compatible(es[i], es[|ds|]); }
      assert SoundAt(es, |ds|);
      forall i, j | 0 <= i < j < |ds| ensures Compatible(ds[i], ds[j]) { assert Compatible(es[i], es[j]); }
      forall j | 0 <= j < |ds| ensures SoundAt(ds, j) { assert SoundAt(es, j); }
    }
  }

  lemma NothingDeclared()
    ensures Describes(EmptyUnit, [])
  {
  }

  /** A file is visited without an error if and only if its declarations go together pairwise and each is sound; the
      tables then hold exactly what was declared and defined. */
  lemma {:induction false} FileAccepted(ds: seq<TopDecl>)
    ensures VisitTops(EmptyUnit, ds).Some? <==> Acceptable(ds)
    ensures VisitTops(EmptyUnit, ds).Some? ==> Describes(VisitTops(EmptyUnit, ds).value, ds)
    decreases |ds|
  {
    hide VisitTops, VisitTop, Describes, Compatible, SoundAt, Acceptable;
    if ds == [] {
      NothingDeclared();
      NothingVisited();
    } else {
      var n := |ds| - 1;
      var init, d := ds[..n], ds[n];
      assert ds == init + [d];
      FileAccepted(init);
      VisitLast(EmptyUnit, init, d);
      AcceptableLast(init, d);
      if VisitTops(EmptyUnit, init).Some? {
        var u := VisitTops(EmptyUnit, init).value;
        Fits(u, init, d);
        if VisitTop(u, d).Some? { DescribesNext(u, init, d); }
      }
    }
  }

  lemma NothingVisited()
    ensures VisitTops(EmptyUnit, []) == Some(EmptyUnit) && Acceptable([])
  {
  }

  /** A program is compiled if and only if moreover it defines main. */
  lemma ProgramAccepted(ds: seq<TopDecl>)
    ensures Compile(ds).Some?
            <==> Acceptable(ds) && exists i :: 0 <= i < |ds| && ds[i].FuncDef? && ds[i].name == "main"
  {
    hide VisitTops, Acceptable, GlobalsAre, FuncsAre;
    FileAccepted(ds);
  }

  /** After an accepted file, a function declared in it may be declared again exactly with the same stars of the result,
      the same number of parameters and the same stars of each. */
  lemma Redeclaration(ds: seq<TopDecl>, i: nat, d: TopDecl)
    requires VisitTops(EmptyUnit, ds).Some? && i < |ds| && IsFunc(ds[i]) && d.FuncDecl? && d.name == ds[i].name
    ensures VisitTops(EmptyUnit, ds + [d]).Some?
            <==> d.stars == ds[i].stars && |d.params| == |ds[i].params|
                 && forall j | 0 <= j < |d.params| :: d.params[j].stars == ds[i].params[j].stars
  {
    hide VisitTops, VisitTop, Acceptable, ContextOf;
    FileAccepted(ds);
    FileAccepted(ds + [d]);
    AcceptableLast(ds, d);
    AllCompatible(ds, i, d);
  }

  /** What goes together with one declaration of a function goes together with all of them. */
  lemma AllCompatible(ds: seq<TopDecl>, i: nat, d: TopDecl)
    requires Acceptable(ds) && i < |ds| && IsFunc(ds[i]) && d.FuncDecl? && d.name == ds[i].name
    ensures SameStars(ds[i], d) <==> forall j | 0 <= j < |ds| :: Compatible(ds[j], d)
  {
    hide SoundAt, SameModulo, GlobalType;
    forall j | 0 <= j < |ds| && SameStars(ds[i], d) ensures Compatible(ds[j], d) {
      if j < i { assert Compatible(ds[j], ds[i]); }
      if i < j { assert Compatible(ds[i], ds[j]); }
    }
    if forall j | 0 <= j < |ds| :: Compatible(ds[j], d) { assert Compatible(ds[i], d); }
  }

  // ----- calls -----

  /** In an accepted program every call instruction to a defined function passes as many arguments as it has
      parameters. */
  lemma CallCounts(ds: seq<TopDecl>, f: string, n: nat)
    requires Compile(ds).Some? && CallF(f, n) in Compile(ds).value.code && f in Compile(ds).value.defined
    ensures n == |Compile(ds).value.defined[f].params|
  {
    hide VisitTops, ContextOf, SignatureOf;
    References.CompiledRefs(ds);
    var k := DefinitionOf(ds, f);
    assert References.RefOk(Compile(ds).value.ctx, CallF(f, n));
    SignatureStars(ds[k].stars, ds[k].params);
  }

  /** Inside the body of any defined function g, a call to a function f declared by then is accepted exactly with one
      argument for each parameter of f, a word with the stars declared for it, and has the type of f's result. */
  lemma CallsMatch(ds: seq<TopDecl>, g: string, f: string, sc: seq<Scope>, args: seq<Expr>)
    requires Compile(ds).Some? && ScopesPlaced(sc)
    requires var u := Compile(ds).value; g in u.defined && f in u.defined && f in u.defined[g].ctx.funcs
    ensures var u := Compile(ds).value;
            var c, d := u.defined[g].ctx, u.defined[f];
            && (TypeOf(c, sc, Call(f, args)).Some?
                <==> |args| == |d.params| && forall i | 0 <= i < |args| :: WordOf(c, sc, args[i], d.params[i].stars))
            && (TypeOf(c, sc, Call(f, args)).Some? ==> TypeOf(c, sc, Call(f, args)) == Some(d.ret))
  {
    hide VisitTops, GlobalsAre, Acceptable, ContextOf, CtxDeclared, TypeOf, KindOf, ScopesPlaced, Placed;
    var u := Compile(ds).value;
    var c, d := u.defined[g].ctx, u.defined[f];
    SignatureOfDefined(ds, g, f);
    ContextDeclared(ds, g);
    TypesCountStars(c, sc, Call(f, args));
    CallChecks(c, sc, f, args);
  }

  /** So no accepted call is undefined for its number of arguments. */
  lemma ArgumentsPassed(ds: seq<TopDecl>, g: string, f: string, sc: seq<Scope>, args: seq<Expr>,
                        W: World, fp: int, sp: int, mem: Memory, fuel: nat)
    requires Compile(ds).Some? && ScopesPlaced(sc)
    requires var u := Compile(ds).value;
             g in u.defined && f in u.defined && TypeOf(u.defined[g].ctx, sc, Call(f, args)).Some?
    ensures var u := Compile(ds).value;
            var a := EvalArgs(W, u.defined[g].ctx, sc, fp, sp, mem, args, fuel);
            a.Some? ==> |a.value.ws| == |u.defined[f].params|
  {
    hide VisitTops, ScopesPlaced, EvalArgs;
    CallsMatch(ds, g, f, sc, args);
  }

  lemma CallChecks(c: Ctx, sc: seq<Scope>, f: string, args: seq<Expr>)
    requires f in c.funcs
    ensures KindOf(c, sc, Call(f, args)).Some?
            <==> |args| == |c.funcs[f].paramTypes|
                 && forall i | 0 <= i < |args| :: WordOf(c, sc, args[i], Stars(c.funcs[f].paramTypes[i]))
    ensures TypeOf(c, sc, Call(f, args)).Some? ==> TypeOf(c, sc, Call(f, args)) == Some(c.funcs[f].returnType)
  {
  }

  lemma ContextDeclared(ds: seq<TopDecl>, g: string)
    requires Compile(ds).Some? && g in Compile(ds).value.defined
    ensures CtxDeclared(Compile(ds).value.defined[g].ctx)
  {
    hide VisitTops, CtxDeclared;
    NothingDeclared();
    ProgramDeclared(EmptyUnit, ds);
  }

  lemma SignatureStars(stars: nat, params: seq<Param>)
    ensures var s := SignatureOf(stars, params);
            s.returnType == Declared(stars) && |s.paramTypes| == |params|
            && forall i | 0 <= i < |params| :: Stars(s.paramTypes[i]) == params[i].stars
  {
  }

  lemma DefinitionOf(ds: seq<TopDecl>, f: string) returns (k: nat)
    requires Compile(ds).Some? && f in Compile(ds).value.defined
    ensures var u := Compile(ds).value;
            && k < |ds| && ds[k].FuncDef? && ds[k].name == f && KeptAt(u, ds, k)
            && u.ctx == ContextOf(ds) && f in u.ctx.funcs && u.ctx.funcs[f] == DeclaredSignature(ds[k])
  {
    hide VisitTops, GlobalsAre, ContextOf, CtxDeclared, DeclaredSignature, KeptAt, Acceptable;
    FileAccepted(ds);
    k :| 0 <= k < |ds| && ds[k].FuncDef? && ds[k].name == f;
  }

  lemma SignatureOfDefined(ds: seq<TopDecl>, g: string, f: string)
    requires Compile(ds).Some?
    requires var u := Compile(ds).value; g in u.defined && f in u.defined && f in u.defined[g].ctx.funcs
    ensures var u := Compile(ds).value;
            var s, d := u.defined[g].ctx.funcs[f], u.defined[f];
            s.returnType == d.ret && |s.paramTypes| == |d.params|
            && forall i | 0 <= i < |d.params| :: Stars(s.paramTypes[i]) == d.params[i].stars
  {
    hide VisitTops, ContextOf, SignatureOf;
    var j := DefinitionOf(ds, g);
    var k := DefinitionOf(ds, f);
    PrefixFuncs(ds, j, f);
    SignatureStars(ds[k].stars, ds[k].params);
  }

  /** A function known part-way through the file has the signature it has at the end. */
  lemma PrefixFuncs(ds: seq<TopDecl>, j: nat, f: string)
    requires VisitTops(EmptyUnit, ds).Some? && j < |ds| && f in ContextOf(ds[..j + 1]).funcs
    ensures f in ContextOf(ds).funcs && ContextOf(ds[..j + 1]).funcs[f] == ContextOf(ds).funcs[f]
  {
    hide VisitTops, GlobalsAre, DefinitionsAre, ContextOf, CtxDeclared, DeclaredSignature;
    var init := ds[..j + 1];
    FileAccepted(ds);
    PrefixAcceptable(ds, j + 1);
    FileAccepted(init);
    var u, v := VisitTops(EmptyUnit, ds).value, VisitTops(EmptyUnit, init).value;
    var i :| 0 <= i < |init| && IsFunc(init[i]) && init[i].name == f;
    assert ds[i] == init[i];
  }

  lemma PrefixAcceptable(ds: seq<TopDecl>, n: nat)
    requires Acceptable(ds) && n <= |ds|
    ensures Acceptable(ds[..n])
  {
    hide Compatible, SoundIn, ContextOf;
    forall i, j | 0 <= i < j < n ensures Compatible(ds[..n][i], ds[..n][j]) { assert Compatible(ds[i], ds[j]); }
    forall j | 0 <= j < n ensures SoundAt(ds[..n], j) {
      assert SoundAt(ds, j);
      assert ds[..n][..j + 1] == ds[..j + 1];
    }
  }
}
