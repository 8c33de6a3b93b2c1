/** Scopes, symbols and the static checks of MainVisitor, as functions of the visitor's tables. */
module Typing {
  import opened Wrappers
  import opened Words
  import opened Types
  import opened Syntax
  import opened Ir

  datatype Symbol = Symbol(offset: int, typ: Type)

  /** A function signature (Func.java). */
  datatype Signature = Signature(returnType: Type, paramTypes: seq<Type>) {
    predicate Equals(r: Signature) {
      && r.returnType.Equals(returnType)
      && |r.paramTypes| == |paramTypes|
      && forall i | 0 <= i < |paramTypes| :: r.paramTypes[i].Equals(paramTypes[i])
    }
  }

  /** What is declared at file level: globDeclared and funcDeclared. */
  datatype Ctx = Ctx(globals: map<string, Type>, funcs: map<string, Signature>)

  type Scope = map<string, Symbol>

  /** The innermost scope that has the name decides; the head of the sequence is innermost. */
  function Lookup(scopes: seq<Scope>, name: string): Option<Symbol> {
    if scopes == [] then None
    else if name in scopes[0] then Some(scopes[0][name])
    else Lookup(scopes[1..], name)
  }

  // ----- integer literals -----

  const INT_MAX_TEXT: string := "2147483647"

  function Digit(c: char): int {
    c as int - '0' as int
  }

  /** The number a digit string denotes. */
  function Numeral(text: string): int {
    if text == [] then 0 else 10 * Numeral(text[..|text| - 1]) + Digit(text[|text| - 1])
  }

  /** MainVisitor.compare: shorter is smaller, equal lengths compare at the first difference. */
  function Compare(s: string, t: string): int {
    if |s| != |t| then (if |s| < |t| then -1 else 1) else CompareFrom(s, t, 0)
  }

  function CompareFrom(s: string, t: string, i: nat): int
    requires |s| == |t| && i <= |s|
    decreases |s| - i
  {
    if i == |s| then 0
    else if s[i] != t[i] then (if s[i] < t[i] then -1 else 1)
    else CompareFrom(s, t, i + 1)
  }

  predicate TooLarge(text: string) {
    Compare(INT_MAX_TEXT, text) == -1
  }

  // ----- expressions -----

  /** The IR operator that visitExpr* picks from the operand types, and the type of its result. */
  function Select(op: BinOp, l: Type, r: Type): Option<(IrBinary, Type)> {
    var intR := IntType(RVALUE);
    var ints := l.IntType? && r.IntType?;
    match op
    case Or => if ints then Some((OrL, intR)) else None
    case And => if ints then Some((AndL, intR)) else None
    case Eq => if l.Equals(r) && !l.ArrayType? then Some((EqI, intR)) else None
    case Ne => if l.Equals(r) && !l.ArrayType? then Some((NeqI, intR)) else None
    case Lt => if ints then Some((LtI, intR)) else None
    case Gt => if ints then Some((GtI, intR)) else None
    case Le => if ints then Some((LeI, intR)) else None
    case Ge => if ints then Some((GeI, intR)) else None
    case Plus =>
      if ints then Some((AddI, intR))
      else if l.IntType? && r.PointerType? then Some((AddIP, r))
      else if l.PointerType? && r.IntType? then Some((AddPI, l))
      else None
    case Sub =>
      if ints then Some((SubI, intR))
      else if l.PointerType? && r.IntType? then Some((SubPI, l))
      else if l.PointerType? && r.Equals(l) then Some((SubPP, intR))
      else None
    case Times => if ints then Some((MulI, intR)) else None
    case Div => if ints then Some((DivI, intR)) else None
    case Rem => if ints then Some((RemI, intR)) else None
  }

  /** The type the visitor returns for e, or None when it reports an error. */
  function TypeOf(c: Ctx, sc: seq<Scope>, e: Expr): Option<Type>
    decreases e, 0
  {
    match e
    case IntLit(text) => if TooLarge(text) then None else Some(IntType(RVALUE))
    case Ident(x) =>
      var s := Lookup(sc, x);
      if s.Some? then Some(s.value.typ)
      else if x in c.globals then Some(c.globals[x])
      else None
    case Call(f, args) =>
      if f in c.funcs && |args| == |c.funcs[f].paramTypes| && ArgsOk(c, sc, args, c.funcs[f].paramTypes)
      then Some(c.funcs[f].returnType) else None
    case Subscript(b, i) =>
      var tb, ti := TypeOf(c, sc, b), TypeOf(c, sc, i);
      if tb.None? || ti.None? || !ti.value.IntType? then None
      else (match tb.value
        case PointerType(_, _) => tb.value.Deref()
        case ArrayType(elem, _) => Some(elem)
        case IntType(_) => None)
    case Unary(_, e1) =>
      var t := TypeOf(c, sc, e1);
      if t.Some? && t.value.IntType? then Some(IntType(RVALUE)) else None
    case Deref(e1) =>
      var t := TypeOf(c, sc, e1);
      if t.Some? then t.value.AsRvalue().Deref() else None
    case AddrOf(e1) =>
      var t := TypeOf(c, sc, e1);
      if t.Some? then t.value.Ref() else None
    case Cast(stars, e1) =>
      var t := TypeOf(c, sc, e1);
      if t.Some? then Declared(stars).ValueCast(t.value.Cat()) else None
    case Binary(op, l, r) =>
      var tl, tr := TypeOf(c, sc, l), TypeOf(c, sc, r);
      if tl.None? || tr.None? then None
      else
        var sel := Select(op, tl.value.AsRvalue(), tr.value.AsRvalue());
        if sel.Some? then Some(sel.value.1) else None
    case Ternary(b, x, y) =>
      var tb, tx, ty := TypeOf(c, sc, b), TypeOf(c, sc, x), TypeOf(c, sc, y);
      if tb.Some? && tb.value.IntType? && tx.Some? && ty.Some? && tx.value.AsRvalue().Equals(ty.value.AsRvalue())
      then Some(tx.value.AsRvalue()) else None
    case Assign(x, y) =>
      var tx, ty := TypeOf(c, sc, x), TypeOf(c, sc, y);
      if tx.Some? && ty.Some? && tx.value.Cat() == LVALUE && ty.value.AsRvalue().Equals(tx.value.AsRvalue())
      then Some(tx.value.AsRvalue()) else None
  }

  predicate ArgsOk(c: Ctx, sc: seq<Scope>, args: seq<Expr>, types: seq<Type>)
    requires |args| == |types|
    decreases args, 0
  {
    if args == [] then true
    else
      var last := |args| - 1;
      var t := TypeOf(c, sc, args[last]);
      t.Some? && t.value.AsRvalue().Equals(types[last]) && ArgsOk(c, sc, args[..last], types[..last])
  }

  predicate IsInt(c: Ctx, sc: seq<Scope>, e: Expr) {
    var t := TypeOf(c, sc, e);
    t.Some? && t.value.IntType?
  }

  predicate IsLvalue(c: Ctx, sc: seq<Scope>, e: Expr) {
    var t := TypeOf(c, sc, e);
    t.Some? && t.value.Cat() == LVALUE
  }

  // ----- frame slots and scopes -----

  /** symbolTable, localCntr and frameCntr while one function is visited. */
  datatype Env = Env(scopes: seq<Scope>, localCntr: int, frameCntr: int)

  function OpenScope(env: Env): Env {
    env.(scopes := [map[]] + env.scopes)
  }

  /** endScope together with the decrement by the number of symbols. */
  function CloseScope(env: Env): Env
    requires env.scopes != []
  {
    env.(scopes := env.scopes[1..], localCntr := env.localCntr - |env.scopes[0]|)
  }

  /** declLocalVar(words). */
  function Reserve(env: Env, words: int): Env {
    var local := env.localCntr + words;
    env.(localCntr := local, frameCntr := if local > env.frameCntr then local else env.frameCntr)
  }

  function Bind(env: Env, name: string, s: Symbol): Env
    requires env.scopes != []
  {
    env.(scopes := [env.scopes[0][name := s]] + env.scopes[1..])
  }

  /** Parsed array dimensions: parseInt fails above the int range, zero is reported. */
  predicate DimsOk(dims: seq<string>) {
    dims != [] && forall d | d in dims :: 0 < Numeral(d) < TWO_31
  }

  function ArrayOf(elem: Type, dims: seq<string>): Type
    decreases |dims|
  {
    if dims == [] then elem else ArrayType(ArrayOf(elem, dims[1..]), Numeral(dims[0]))
  }

  function LvalueOf(stars: nat): Type {
    if stars == 0 then IntType(LVALUE) else PointerType(stars, LVALUE)
  }

  /** The tables after a declaration: a scalar takes one slot and its symbol the first free slot,
      an array takes its words and its symbol the last of them, where its element 0 lies. */
  function DeclEnv(env: Env, d: Decl): (env': Env)
    requires env.scopes != []
    ensures env'.scopes != []
  {
    match d
    case Var(stars, x, _) => Reserve(Bind(env, x, Symbol(env.localCntr, LvalueOf(stars))), 1)
    case Arr(stars, x, dims) =>
      var t := ArrayOf(LvalueOf(stars), dims);
      var env1 := Reserve(env, TruncDiv(t.GetSize(), 4));
      Bind(env1, x, Symbol(env1.localCntr - 1, t))
  }

  predicate DeclOk(c: Ctx, env: Env, d: Decl)
    requires env.scopes != []
  {
    && d.name !in env.scopes[0]
    && match d
       case Var(stars, x, None) => true
       case Var(stars, x, Some(e)) =>
         var t := TypeOf(c, DeclEnv(env, d).scopes, e);
         t.Some? && t.value.AsRvalue().Equals(Declared(stars))
       case Arr(_, _, dims) => DimsOk(dims)
  }

  /** A statement changes no visible scope, but the slots of arrays declared inside stay counted. */
  function StmtEnv(env: Env, s: Stmt): (env': Env)
    requires env.scopes != []
    ensures env'.scopes == env.scopes && env'.frameCntr >= env.frameCntr
    decreases s, 1
  {
    match s
    case Return(_) => env
    case ExprStmt(_) => env
    case If(_, t, f) =>
      var env1 := StmtEnv(env, t);
      if f.Some? then StmtEnv(env1, f.value) else env1
    case Block(items) => CloseScope(ItemsEnv(OpenScope(env), items))
    case For(d, _, _, _, body) =>
      var env1 := OpenScope(env);
      var env2 := if d.Some? then DeclEnv(env1, d.value) else env1;
      CloseScope(StmtEnv(env2, body))
    case While(_, body) => StmtEnv(env, body)
    case DoWhile(body, _) => StmtEnv(env, body)
    case Break => env
    case Continue => env
  }

  function ItemEnv(env: Env, i: Item): (env': Env)
    requires env.scopes != []
    ensures env'.scopes != [] && env'.scopes[1..] == env.scopes[1..] && env'.frameCntr >= env.frameCntr
    decreases i, 2
  {
    match i
    case StmtItem(s) => StmtEnv(env, s)
    case DeclItem(d) => DeclEnv(env, d)
  }

  function ItemsEnv(env: Env, items: seq<Item>): (env': Env)
    requires env.scopes != []
    ensures env'.scopes != [] && env'.scopes[1..] == env.scopes[1..] && env'.frameCntr >= env.frameCntr
    decreases items, 0
  {
    if items == [] then env else ItemsEnv(ItemEnv(env, items[0]), items[1..])
  }

  /** The visitor accepts a statement: no check in it reports an error. */
  predicate StmtOk(c: Ctx, env: Env, ret: Type, inLoop: bool, s: Stmt)
    requires env.scopes != []
    decreases s, 1
  {
    match s
    case Return(e) =>
      var t := TypeOf(c, env.scopes, e);
      t.Some? && ret.Equals(t.value.AsRvalue())
    case ExprStmt(e) => e.Some? ==> TypeOf(c, env.scopes, e.value).Some?
    case If(b, t, f) =>
      && IsInt(c, env.scopes, b)
      && StmtOk(c, env, ret, inLoop, t)
      && (f.Some? ==> StmtOk(c, StmtEnv(env, t), ret, inLoop, f.value))
    case Block(items) => ItemsOk(c, OpenScope(env), ret, inLoop, items)
    case For(d, pre, test, post, body) =>
      var env1 := OpenScope(env);
      && (d.Some? ==> DeclOk(c, env1, d.value))
      && var env2 := if d.Some? then DeclEnv(env1, d.value) else env1;
      && (pre.Some? ==> TypeOf(c, env2.scopes, pre.value).Some?)
      && (test.Some? ==> IsInt(c, env2.scopes, test.value))
      && (post.Some? ==> TypeOf(c, env2.scopes, post.value).Some?)
      && StmtOk(c, env2, ret, true, body)
    case While(b, body) => IsInt(c, env.scopes, b) && StmtOk(c, env, ret, true, body)
    case DoWhile(body, b) => IsInt(c, env.scopes, b) && StmtOk(c, env, ret, true, body)
    case Break => inLoop
    case Continue => inLoop
  }

  /** What the visitor checks and changes at an if, in one step. */
  lemma IfChecks(c: Ctx, env: Env, ret: Type, inLoop: bool, s: Stmt)
    requires env.scopes != [] && s.If?
    ensures StmtOk(c, env, ret, inLoop, s)
            == (IsInt(c, env.scopes, s.cond) && StmtOk(c, env, ret, inLoop, s.thn)
                && (s.els.Some? ==> StmtOk(c, StmtEnv(env, s.thn), ret, inLoop, s.els.value)))
    ensures StmtEnv(env, s)
            == if s.els.Some? then StmtEnv(StmtEnv(env, s.thn), s.els.value) else StmtEnv(env, s.thn)
  {
    hide IsInt;
  }

  lemma ForChecks(c: Ctx, env: Env, ret: Type, inLoop: bool, s: Stmt)
    requires env.scopes != [] && s.For?
    ensures var env1 := OpenScope(env);
            var env2 := if s.decl.Some? then DeclEnv(env1, s.decl.value) else env1;
            && StmtOk(c, env, ret, inLoop, s)
               == ((s.decl.Some? ==> DeclOk(c, env1, s.decl.value))
                   && (s.pre.Some? ==> TypeOf(c, env2.scopes, s.pre.value).Some?)
                   && (s.test.Some? ==> IsInt(c, env2.scopes, s.test.value))
                   && (s.post.Some? ==> TypeOf(c, env2.scopes, s.post.value).Some?)
                   && StmtOk(c, env2, ret, true, s.body))
            && StmtEnv(env, s) == CloseScope(StmtEnv(env2, s.body))
  {
    hide IsInt, TypeOf, DeclOk, DeclEnv;
  }

  lemma DoChecks(c: Ctx, env: Env, ret: Type, inLoop: bool, s: Stmt)
    requires env.scopes != [] && s.DoWhile?
    ensures StmtOk(c, env, ret, inLoop, s) == (IsInt(c, env.scopes, s.cond) && StmtOk(c, env, ret, true, s.body))
    ensures StmtEnv(env, s) == StmtEnv(env, s.body)
  {
    hide IsInt;
  }

  predicate ItemOk(c: Ctx, env: Env, ret: Type, inLoop: bool, i: Item)
    requires env.scopes != []
    decreases i, 2
  {
    match i
    case StmtItem(s) => StmtOk(c, env, ret, inLoop, s)
    case DeclItem(d) => DeclOk(c, env, d)
  }

  predicate ItemsOk(c: Ctx, env: Env, ret: Type, inLoop: bool, items: seq<Item>)
    requires env.scopes != []
    decreases items, 0
  {
    items == [] ||
    (ItemOk(c, env, ret, inLoop, items[0]) && ItemsOk(c, ItemEnv(env, items[0]), ret, inLoop, items[1..]))
  }

  // ----- functions -----

  /** Parameter i has offset -3 - i, which FrameAddr turns into fp + 4 * i. */
  function ParamScope(params: seq<Param>): Scope {
    if params == [] then map[]
    else
      var i := |params| - 1;
      ParamScope(params[..i])[params[i].name := Symbol(-3 - i, LvalueOf(params[i].stars))]
  }

  function ParamEnv(params: seq<Param>): Env {
    Env([ParamScope(params)], 0, 0)
  }

  predicate DistinctParams(params: seq<Param>) {
    forall i, j | 0 <= i < j < |params| :: params[i].name != params[j].name
  }

  function SignatureOf(stars: nat, params: seq<Param>): Signature {
    Signature(Declared(stars), seq(|params|, i requires 0 <= i < |params| => Declared(params[i].stars)))
  }

  /** funcFrameSize: the largest slot count reached while the body is visited. */
  function FrameSlots(params: seq<Param>, body: seq<Item>): nat {
    ItemsEnv(ParamEnv(params), body).frameCntr
  }
}
