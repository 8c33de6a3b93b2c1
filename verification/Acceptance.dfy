/** Which function bodies the visitor accepts: those in which every statement and declaration, wherever it stands, meets
    a demand of its own. */
module Acceptance {
  import opened Wrappers
  import opened Words
  import opened Types
  import opened Syntax
  import opened Typing
  import opened TypeLaws
  import opened Kinds

  /** A statement or declaration inside a body, with the tables in force there and whether a loop surrounds it. */
  datatype Site = StmtAt(env: Env, inLoop: bool, stmt: Stmt) | DeclAt(env: Env, decl: Decl)

  /** The scope of a for statement, its own declaration included. */
  function ForEnv(env: Env, d: Option<Decl>): (e: Env)
    ensures e.scopes != []
  {
    if d.Some? then DeclEnv(OpenScope(env), d.value) else OpenScope(env)
  }

  predicate InStmt(env: Env, inLoop: bool, s: Stmt, x: Site)
    requires env.scopes != []
    decreases s, 1
  {
    x == StmtAt(env, inLoop, s) ||
    match s
    case If(_, t, f) => InStmt(env, inLoop, t, x) || (f.Some? && InStmt(StmtEnv(env, t), inLoop, f.value, x))
    case Block(items) => InItems(OpenScope(env), inLoop, items, x)
    case For(d, _, _, _, body) => (d.Some? && x == DeclAt(OpenScope(env), d.value)) || InStmt(ForEnv(env, d), true, body, x)
    case While(_, body) => InStmt(env, true, body, x)
    case DoWhile(body, _) => InStmt(env, true, body, x)
    case _ => false
  }

  predicate InItems(env: Env, inLoop: bool, items: seq<Item>, x: Site)
    requires env.scopes != []
    decreases items, 0
  {
    items != [] && (InItem(env, inLoop, items[0], x) || InItems(ItemEnv(env, items[0]), inLoop, items[1..], x))
  }

  predicate InItem(env: Env, inLoop: bool, i: Item, x: Site)
    requires env.scopes != []
    decreases i, 2
  {
    match i case StmtItem(s) => InStmt(env, inLoop, s, x) case DeclItem(d) => x == DeclAt(env, d)
  }

  // ----- the demands -----

  predicate Typed(c: Ctx, sc: seq<Scope>, e: Option<Expr>) {
    e.Some? ==> KindOf(c, sc, e.value).Some?
  }

  /** A result has the declared stars, conditions are int, jumps stand in a loop; a declared name is new in its scope,
      its initialiser has the declared stars, its dimensions are numbers from 1 to 2147483647. */
  predicate Demand(c: Ctx, ret: nat, x: Site) {
    x.env.scopes != [] &&
    match x
    case StmtAt(env, inLoop, s) =>
      (match s
       case Return(e) => WordOf(c, env.scopes, e, ret)
       case ExprStmt(e) => Typed(c, env.scopes, e)
       case If(b, _, _) => WordOf(c, env.scopes, b, 0)
       case While(b, _) => WordOf(c, env.scopes, b, 0)
       case DoWhile(_, b) => WordOf(c, env.scopes, b, 0)
       case For(d, pre, test, post, _) =>
         var sc := ForEnv(env, d).scopes;
         Typed(c, sc, pre) && (test.Some? ==> WordOf(c, sc, test.value, 0)) && Typed(c, sc, post)
       case Block(_) => true
       case Break => inLoop
       case Continue => inLoop)
    case DeclAt(env, d) =>
      && d.name !in env.scopes[0]
      && (d.Var? && d.init.Some? ==> WordOf(c, DeclEnv(env, d).scopes, d.init.value, d.stars))
      && (d.Arr? ==> d.dims != [] && forall n | n in d.dims :: 1 <= Numeral(n) <= 2147483647)
  }

  ghost predicate AllInStmt(c: Ctx, env: Env, ret: nat, inLoop: bool, s: Stmt)
    requires env.scopes != []
  {
    forall x | InStmt(env, inLoop, s, x) :: Demand(c, ret, x)
  }

  ghost predicate AllInItems(c: Ctx, env: Env, ret: nat, inLoop: bool, items: seq<Item>)
    requires env.scopes != []
  {
    forall x | InItems(env, inLoop, items, x) :: Demand(c, ret, x)
  }

  ghost predicate AllInItem(c: Ctx, env: Env, ret: nat, inLoop: bool, i: Item)
    requires env.scopes != []
  {
    forall x | InItem(env, inLoop, i, x) :: Demand(c, ret, x)
  }

  // ----- demands of a construct and of its parts -----

  lemma AllInLeaf(c: Ctx, env: Env, ret: nat, inLoop: bool, s: Stmt)
    requires env.scopes != [] && !s.If? && !s.Block? && !s.For? && !s.While? && !s.DoWhile?
    ensures AllInStmt(c, env, ret, inLoop, s) <==> Demand(c, ret, StmtAt(env, inLoop, s))
  {
    hide Demand;
    assert InStmt(env, inLoop, s, StmtAt(env, inLoop, s));
  }

  lemma AllInIf(c: Ctx, env: Env, ret: nat, inLoop: bool, s: Stmt)
    requires env.scopes != [] && s.If?
    ensures AllInStmt(c, env, ret, inLoop, s)
            <==> Demand(c, ret, StmtAt(env, inLoop, s)) && AllInStmt(c, env, ret, inLoop, s.thn)
                 && (s.els.Some? ==> AllInStmt(c, StmtEnv(env, s.thn), ret, inLoop, s.els.value))
  {
    hide Demand, StmtEnv;
    assert InStmt(env, inLoop, s, StmtAt(env, inLoop, s));
    assert forall x | InStmt(env, inLoop, s.thn, x) :: InStmt(env, inLoop, s, x);
    assert s.els.Some? ==> forall x | InStmt(StmtEnv(env, s.thn), inLoop, s.els.value, x) :: InStmt(env, inLoop, s, x);
  }

  lemma AllInBlock(c: Ctx, env: Env, ret: nat, inLoop: bool, s: Stmt)
    requires env.scopes != [] && s.Block?
    ensures AllInStmt(c, env, ret, inLoop, s)
            <==> Demand(c, ret, StmtAt(env, inLoop, s)) && AllInItems(c, OpenScope(env), ret, inLoop, s.items)
  {
    hide Demand, InItems;
    assert InStmt(env, inLoop, s, StmtAt(env, inLoop, s));
    assert forall x | InItems(OpenScope(env), inLoop, s.items, x) :: InStmt(env, inLoop, s, x);
  }

  lemma AllInFor(c: Ctx, env: Env, ret: nat, inLoop: bool, s: Stmt)
    requires env.scopes != [] && s.For?
    ensures AllInStmt(c, env, ret, inLoop, s)
            <==> Demand(c, ret, StmtAt(env, inLoop, s)) && AllInStmt(c, ForEnv(env, s.decl), ret, true, s.body)
                 && (s.decl.Some? ==> Demand(c, ret, DeclAt(OpenScope(env), s.decl.value)))
  {
    hide Demand, ForEnv;
    assert InStmt(env, inLoop, s, StmtAt(env, inLoop, s));
    assert s.decl.Some? ==> InStmt(env, inLoop, s, DeclAt(OpenScope(env), s.decl.value));
    assert forall x | InStmt(ForEnv(env, s.decl), true, s.body, x) :: InStmt(env, inLoop, s, x);
  }

  lemma AllInLoop(c: Ctx, env: Env, ret: nat, inLoop: bool, s: Stmt)
    requires env.scopes != [] && (s.While? || s.DoWhile?)
    ensures AllInStmt(c, env, ret, inLoop, s)
            <==> Demand(c, ret, StmtAt(env, inLoop, s)) && AllInStmt(c, env, ret, true, s.body)
  {
    hide Demand;
    assert InStmt(env, inLoop, s, StmtAt(env, inLoop, s));
    assert forall x | InStmt(env, true, s.body, x) :: InStmt(env, inLoop, s, x);
  }

  lemma AllInFirst(c: Ctx, env: Env, ret: nat, inLoop: bool, items: seq<Item>)
    requires env.scopes != [] && items != []
    ensures AllInItems(c, env, ret, inLoop, items)
            <==> AllInItem(c, env, ret, inLoop, items[0]) && AllInItems(c, ItemEnv(env, items[0]), ret, inLoop, items[1..])
  {
    hide Demand, InItem, ItemEnv;
    assert forall x | InItem(env, inLoop, items[0], x) :: InItems(env, inLoop, items, x);
    assert forall x | InItems(ItemEnv(env, items[0]), inLoop, items[1..], x) :: InItems(env, inLoop, items, x);
  }

  lemma AllInOne(c: Ctx, env: Env, ret: nat, inLoop: bool, i: Item)
    requires env.scopes != []
    ensures AllInItem(c, env, ret, inLoop, i)
            <==> if i.StmtItem? then AllInStmt(c, env, ret, inLoop, i.stmt) else Demand(c, ret, DeclAt(env, i.decl))
  {
    hide Demand, InStmt;
    if i.DeclItem? { assert InItem(env, inLoop, i, DeclAt(env, i.decl)); }
  }

  // ----- single checks -----

  lemma CheckIsKind(c: Ctx, sc: seq<Scope>, e: Expr)
    requires ScopesPlaced(sc) && CtxDeclared(c)
    ensures TypeOf(c, sc, e).Some? <==> KindOf(c, sc, e).Some?
    ensures IsInt(c, sc, e) <==> WordOf(c, sc, e, 0)
    ensures forall n: nat :: TypeOf(c, sc, e).Some? && Declared(n).Equals(TypeOf(c, sc, e).value.AsRvalue()) <==> WordOf(c, sc, e, n)
  {
    hide TypeOf, KindOf, ScopesPlaced, CtxDeclared, Placed;
    TypesCountStars(c, sc, e);
    if TypeOf(c, sc, e).Some? {
      forall n: nat ensures Declared(n).Equals(TypeOf(c, sc, e).value.AsRvalue()) <==> WordOf(c, sc, e, n) {
        EqualStars(Declared(n), TypeOf(c, sc, e).value.AsRvalue());
      }
    }
  }

  lemma DeclMeetsDemand(c: Ctx, env: Env, ret: nat, d: Decl)
    requires env.scopes != [] && ScopesPlaced(env.scopes) && CtxDeclared(c)
    ensures DeclOk(c, env, d) <==> Demand(c, ret, DeclAt(env, d))
  {
    hide TypeOf, KindOf, ScopesPlaced, CtxDeclared, DeclEnv, Numeral;
    if d.Var? && d.init.Some? { InitialiserStars(c, env, d.stars, d.name, d.init.value); }
  }

  lemma ForPlaced(env: Env, d: Option<Decl>)
    requires env.scopes != [] && ScopesPlaced(env.scopes)
    ensures ScopesPlaced(OpenScope(env).scopes) && ScopesPlaced(ForEnv(env, d).scopes)
  {
    hide Placed, DeclEnv;
    assert ScopesPlaced(OpenScope(env).scopes);
    if d.Some? { DeclPlaced(OpenScope(env), d.value); }
  }

  lemma ForMeetsDemand(c: Ctx, env: Env, ret: nat, inLoop: bool, s: Stmt)
    requires env.scopes != [] && s.For? && ScopesPlaced(env.scopes) && CtxDeclared(c)
    ensures StmtOk(c, env, Declared(ret), inLoop, s)
            <==> Demand(c, ret, StmtAt(env, inLoop, s)) && StmtOk(c, ForEnv(env, s.decl), Declared(ret), true, s.body)
                 && (s.decl.Some? ==> Demand(c, ret, DeclAt(OpenScope(env), s.decl.value)))
  {
    hide StmtOk, TypeOf, KindOf, IsInt, WordOf, ScopesPlaced, CtxDeclared, DeclEnv, DeclOk;
    ForChecks(c, env, Declared(ret), inLoop, s);
    ForPlaced(env, s.decl);
    var sc := ForEnv(env, s.decl).scopes;
    if s.decl.Some? { DeclMeetsDemand(c, OpenScope(env), ret, s.decl.value); }
    if s.pre.Some? { CheckIsKind(c, sc, s.pre.value); }
    if s.test.Some? { CheckIsKind(c, sc, s.test.value); }
    if s.post.Some? { CheckIsKind(c, sc, s.post.value); }
  }

  lemma OpenPlaced(env: Env)
    requires ScopesPlaced(env.scopes)
    ensures ScopesPlaced(OpenScope(env).scopes)
  {
    hide Placed;
  }

  // ----- a body is accepted exactly when all demands are met -----

  lemma {:induction false} StmtAccepted(c: Ctx, env: Env, ret: nat, inLoop: bool, s: Stmt)
    requires env.scopes != [] && ScopesPlaced(env.scopes) && CtxDeclared(c)
    ensures StmtOk(c, env, Declared(ret), inLoop, s) <==> AllInStmt(c, env, ret, inLoop, s)
    decreases s, 1
  {
    hide TypeOf, KindOf, IsInt, WordOf, ScopesPlaced, CtxDeclared, AllInStmt, AllInItems, InStmt, StmtEnv, ItemsOk, DeclEnv, DeclOk;
    match s {
      case Return(e) => CheckIsKind(c, env.scopes, e); AllInLeaf(c, env, ret, inLoop, s);
      case ExprStmt(e) =>
        if e.Some? { CheckIsKind(c, env.scopes, e.value); }
        AllInLeaf(c, env, ret, inLoop, s);
      case If(b, t, f) =>
        CheckIsKind(c, env.scopes, b);
        StmtAccepted(c, env, ret, inLoop, t);
        if f.Some? { StmtAccepted(c, StmtEnv(env, t), ret, inLoop, f.value); }
        AllInIf(c, env, ret, inLoop, s);
      case Block(items) =>
        OpenPlaced(env);
        ItemsAccepted(c, OpenScope(env), ret, inLoop, items);
        AllInBlock(c, env, ret, inLoop, s);
      case For(d, _, _, _, body) =>
        ForMeetsDemand(c, env, ret, inLoop, s);
        ForPlaced(env, d);
        StmtAccepted(c, ForEnv(env, d), ret, true, body);
        AllInFor(c, env, ret, inLoop, s);
      case While(b, body) => LoopAccepted(c, env, ret, inLoop, s);
      case DoWhile(body, b) => LoopAccepted(c, env, ret, inLoop, s);
      case _ => AllInLeaf(c, env, ret, inLoop, s);
    }
  }

  lemma {:induction false} LoopAccepted(c: Ctx, env: Env, ret: nat, inLoop: bool, s: Stmt)
    requires env.scopes != [] && ScopesPlaced(env.scopes) && CtxDeclared(c) && (s.While? || s.DoWhile?)
    ensures StmtOk(c, env, Declared(ret), inLoop, s) <==> AllInStmt(c, env, ret, inLoop, s)
    decreases s, 0
  {
    hide TypeOf, KindOf, IsInt, WordOf, ScopesPlaced, CtxDeclared, AllInStmt, InStmt;
    CheckIsKind(c, env.scopes, s.cond);
    StmtAccepted(c, env, ret, true, s.body);
    AllInLoop(c, env, ret, inLoop, s);
  }

  /** A body is accepted if and only if every statement and declaration in it meets its demand. */
  lemma {:induction false} ItemsAccepted(c: Ctx, env: Env, ret: nat, inLoop: bool, items: seq<Item>)
    requires env.scopes != [] && ScopesPlaced(env.scopes) && CtxDeclared(c)
    ensures ItemsOk(c, env, Declared(ret), inLoop, items) <==> AllInItems(c, env, ret, inLoop, items)
    decreases items, 0
  {
    hide ScopesPlaced, CtxDeclared, AllInItems, AllInItem, ItemOk, ItemEnv;
    if items == [] {
      NoItems(c, env, ret, inLoop);
    } else {
      ItemAccepted(c, env, ret, inLoop, items[0]);
      ItemPlaced(env, items[0]);
      ItemsAccepted(c, ItemEnv(env, items[0]), ret, inLoop, items[1..]);
      AllInFirst(c, env, ret, inLoop, items);
    }
  }

  lemma NoItems(c: Ctx, env: Env, ret: nat, inLoop: bool)
    requires env.scopes != []
    ensures AllInItems(c, env, ret, inLoop, [])
  {
  }

  lemma ItemPlaced(env: Env, i: Item)
    requires env.scopes != [] && ScopesPlaced(env.scopes)
    ensures ScopesPlaced(ItemEnv(env, i).scopes)
  {
    hide ScopesPlaced, DeclEnv, StmtEnv;
    if i.DeclItem? { DeclPlaced(env, i.decl); }
  }

  lemma {:induction false} ItemAccepted(c: Ctx, env: Env, ret: nat, inLoop: bool, i: Item)
    requires env.scopes != [] && ScopesPlaced(env.scopes) && CtxDeclared(c)
    ensures ItemOk(c, env, Declared(ret), inLoop, i) <==> AllInItem(c, env, ret, inLoop, i)
    decreases i, 2
  {
    hide ScopesPlaced, CtxDeclared, AllInItem, AllInStmt, StmtOk, DeclOk, Demand;
    AllInOne(c, env, ret, inLoop, i);
    match i {
      case StmtItem(s) => StmtAccepted(c, env, ret, inLoop, s);
      case DeclItem(d) => DeclMeetsDemand(c, env, ret, d);
    }
  }
}
