/** Frame layout: in every state of the scope helpers, live variables occupy disjoint cells of the frame,
    as long as each declared array's size in bytes fits a Java int. */
module FrameSafety {
  import opened Wrappers
  import opened Words
  import opened Types
  import opened Syntax
  import opened Typing
  import opened Literals
  import opened Memory

  /** The words an object of the type really takes, without wrapping. */
  function TrueWords(t: Type): int {
    if t.ArrayType? then t.length * TrueWords(t.baseType) else 1
  }

  /** Word j of the variable at an offset lies in slot offset - j: arrays grow towards fp. */
  function FirstSlot(s: Symbol): int {
    s.offset - TrueWords(s.typ) + 1
  }

  predicate Disjoint(s: Symbol, t: Symbol) {
    s.offset < FirstSlot(t) || t.offset < FirstSlot(s)
  }

  // ----- array sizes -----

  /** The declared array is smaller than 2 GiB, so that its Java size does not wrap. */
  predicate Fits(dims: seq<string>) {
    4 * TrueWords(ArrayOf(IntType(LVALUE), dims)) < TWO_31
  }

  lemma MulAtLeast(a: int, b: int)
    requires a >= 1 && b >= 1
    ensures a * b >= b && a * b >= 1
  {
  }

  /** The size of any type is its true size reduced to a Java int. */
  lemma {:induction false} SizeIs(t: Type)
    ensures t.GetSize() == JavaInt(4 * TrueWords(t))
    decreases t
  {
    hide JavaInt;
    if t.ArrayType? {
      SizeIs(t.baseType);
      ProductSize(t.length, t.baseType.GetSize(), TrueWords(t.baseType));
    } else {
      JavaIntWraps(4);
    }
  }

  /** Declared arrays have at least one word, whatever their elements. */
  lemma {:induction false} SizeOf(elem: Type, dims: seq<string>)
    requires !elem.ArrayType? && forall d | d in dims :: 0 < Numeral(d) < TWO_31
    ensures TrueWords(ArrayOf(elem, dims)) >= 1
    ensures TrueWords(ArrayOf(elem, dims)) == TrueWords(ArrayOf(IntType(LVALUE), dims))
    decreases |dims|
  {
    hide Numeral;
    if dims != [] {
      SizeOf(elem, dims[1..]);
      assert dims[0] in dims;
      MulAtLeast(Numeral(dims[0]), TrueWords(ArrayOf(elem, dims[1..])));
    }
  }

  lemma ProductSize(n: int, s: int, w: int)
    requires s == JavaInt(4 * w)
    ensures JavaInt(n * s) == JavaInt(4 * (n * w))
  {
    hide JavaInt;
    SameProduct(n, s, 4 * w);
    assert n * (4 * w) == 4 * (n * w);
  }

  /** A factor may be reduced to a Java int before multiplying. */
  lemma SameProduct(n: int, s: int, x: int)
    requires s == JavaInt(x)
    ensures JavaInt(n * s) == JavaInt(n * x)
  {
    JavaIntWraps(x);
    WrapMul(s, n);
    WrapMul(x, n);
    assert n * s == s * n && n * x == x * n;
  }

  lemma ReservedWords(elem: Type, dims: seq<string>)
    requires !elem.ArrayType? && forall d | d in dims :: 0 < Numeral(d) < TWO_31
    ensures var t := ArrayOf(elem, dims);
            && TruncDiv(t.GetSize(), 4) < TWO_31 / 4
            && (Fits(dims) ==> TruncDiv(t.GetSize(), 4) == TrueWords(t))
            && (!Fits(dims) ==> TruncDiv(t.GetSize(), 4) < TrueWords(t))
  {
    SizeOf(elem, dims);
    SizeIs(ArrayOf(elem, dims));
    JavaIntWraps(4 * TrueWords(ArrayOf(elem, dims)));
  }

  /** An array declaration takes fresh slots only if and only if the array fits. */
  lemma ArrayTakesFreshSlots(env: Env, stars: nat, x: string, dims: seq<string>)
    requires env.scopes != [] && DimsOk(dims)
    ensures var env' := DeclEnv(env, Arr(stars, x, dims));
            var s := env'.scopes[0][x];
            s.offset == env'.localCntr - 1
            && (FirstSlot(s) >= env.localCntr <==> Fits(dims))
  {
    ReservedWords(LvalueOf(stars), dims);
  }

  /** Such an array exists: the 2^30 ints of this declaration reserve no slot, and element 0 lies on
      the frame pointer saved at fp - 8. */
  lemma OverflowingArray(env: Env, x: string, fp: int)
    requires env == Env([map[]], 0, 0)
    ensures DimsOk(["1073741824"]) && !Fits(["1073741824"])
    ensures var env' := DeclEnv(env, Arr(0, x, ["1073741824"]));
            env'.localCntr == 0 && env'.frameCntr == 0
            && CellOf(fp, env'.scopes[0][x], 0) == fp - 8
  {
    var d := "1073741824";
    NumeralOfTwo30();
    assert ArrayOf(IntType(LVALUE), [d][1..]) == IntType(LVALUE);
    var t := ArrayOf(IntType(LVALUE), [d]);
    assert t == ArrayType(IntType(LVALUE), Numeral(d));
    assert t.GetSize() == JavaInt(Numeral(d) * 4);
  }

  lemma NumeralOfTwo30()
    ensures Numeral("1073741824") == 1073741824
  {
    hide Numeral;
    NumeralEmpty();
    NumeralStep("", '1');
    NumeralStep("1", '0');
    NumeralStep("10", '7');
    NumeralStep("107", '3');
    NumeralStep("1073", '7');
    NumeralStep("10737", '4');
    NumeralStep("107374", '1');
    NumeralStep("1073741", '8');
    NumeralStep("10737418", '2');
    NumeralStep("107374182", '4');
    assert "" + ['1'] == "1" && "1" + ['0'] == "10" && "10" + ['7'] == "107" && "107" + ['3'] == "1073";
    assert "1073" + ['7'] == "10737" && "10737" + ['4'] == "107374" && "107374" + ['1'] == "1073741";
    assert "1073741" + ['8'] == "10737418" && "10737418" + ['2'] == "107374182" && "107374182" + ['4'] == "1073741824";
  }

  // ----- every state of the scope helpers -----

  datatype ScopeOp = Open | Close | Declare(d: Decl)

  function Apply(env: Env, op: ScopeOp): Option<Env>
    requires env.scopes != []
  {
    match op
    case Open => Some(OpenScope(env))
    case Close => if |env.scopes| < 2 then None else Some(CloseScope(env))
    case Declare(d) =>
      if d.name in env.scopes[0] || (d.Arr? && !DimsOk(d.dims)) then None else Some(DeclEnv(env, d))
  }

  function RunOps(env: Env, ops: seq<ScopeOp>): Option<Env>
    requires env.scopes != []
    decreases ops
  {
    if ops == [] then Some(env)
    else
      var env1 := Apply(env, ops[0]);
      if env1.None? || env1.value.scopes == [] then None else RunOps(env1.value, ops[1..])
  }

  predicate AllFit(ops: seq<ScopeOp>) {
    forall op | op in ops :: op.Declare? && op.d.Arr? ==> Fits(op.d.dims)
  }

  predicate IsParam(s: Symbol, n: nat) {
    -3 - n < s.offset <= -3 && !s.typ.ArrayType?
  }

  /** The variables of one scope: parameters if it is the outermost, slots of [b, limit) otherwise. */
  predicate ScopeIn(sc: Scope, b: int, limit: int, n: nat) {
    && (forall x | x in sc :: IsParam(sc[x], n) || (b <= FirstSlot(sc[x]) <= sc[x].offset < limit))
    && (forall x, y | x in sc && y in sc && x != y :: Disjoint(sc[x], sc[y]))
  }

  /** Scopes occupy successive layers of slots; an inner layer holds at least one slot per symbol, so
      that closing the scope does not reach into the layers outside. */
  ghost predicate Layered(scopes: seq<Scope>, bases: seq<int>, limit: int, n: nat)
    decreases |scopes|
  {
    && |scopes| == |bases| && scopes != []
    && 0 <= bases[0] <= limit
    && ScopeIn(scopes[0], bases[0], limit, if |scopes| == 1 then n else 0)
    && (|scopes| > 1 ==> bases[0] + |scopes[0]| <= limit && Layered(scopes[1..], bases[1..], bases[0], n))
  }

  /** A declaration adds one symbol, whose slots are the ones just reserved. */
  lemma DeclaredSlots(env: Env, d: Decl)
    requires env.scopes != [] && (d.Arr? ==> DimsOk(d.dims) && Fits(d.dims))
    ensures var env' := DeclEnv(env, d);
            && d.name in env'.scopes[0]
            && var s := env'.scopes[0][d.name];
            && env'.scopes == [env.scopes[0][d.name := s]] + env.scopes[1..]
            && env.localCntr <= FirstSlot(s) <= s.offset < env'.localCntr
  {
    if d.Arr? {
      ReservedWords(LvalueOf(d.stars), d.dims);
      SizeOf(LvalueOf(d.stars), d.dims);
    }
  }

  lemma {:induction false} DeclareLayered(env: Env, bases: seq<int>, n: nat, d: Decl)
    requires Layered(env.scopes, bases, env.localCntr, n) && Apply(env, Declare(d)).Some?
    requires d.Arr? ==> Fits(d.dims)
    ensures var env' := DeclEnv(env, d); Layered(env'.scopes, bases, env'.localCntr, n)
  {
    hide DeclEnv, DimsOk, Fits, FirstSlot, ScopeIn;
    DeclaredSlots(env, d);
    var env' := DeclEnv(env, d);
    var sc, sc' := env.scopes[0], env'.scopes[0];
    assert |sc'| == |sc| + 1 by { assert sc'.Keys == sc.Keys + {d.name}; }
    assert env'.scopes[1..] == env.scopes[1..];
    AddDisjoint(sc, d.name, sc'[d.name], bases[0], env.localCntr, env'.localCntr, if |env.scopes| == 1 then n else 0);
  }

  /** A symbol whose slots come after all others of its scope. */
  lemma AddDisjoint(sc: Scope, x: string, s: Symbol, b: int, limit: int, limit': int, n: nat)
    requires ScopeIn(sc, b, limit, n) && x !in sc && 0 <= b <= limit <= FirstSlot(s) <= s.offset < limit'
    ensures ScopeIn(sc[x := s], b, limit', n)
  {
    hide TrueWords;
    var sc' := sc[x := s];
    forall y, z | y in sc' && z in sc' && y != z ensures Disjoint(sc'[y], sc'[z]) {
      if y != x && z != x { assert Disjoint(sc[y], sc[z]); }
    }
  }

  lemma ApplyLayered(env: Env, bases: seq<int>, n: nat, op: ScopeOp) returns (bases': seq<int>)
    requires Layered(env.scopes, bases, env.localCntr, n) && env.localCntr <= env.frameCntr
    requires Apply(env, op).Some? && (op.Declare? && op.d.Arr? ==> Fits(op.d.dims))
    ensures var env' := Apply(env, op).value;
            && env'.scopes != [] && Layered(env'.scopes, bases', env'.localCntr, n)
            && env'.localCntr <= env'.frameCntr && env.frameCntr <= env'.frameCntr
  {
    match op {
      case Open =>
        bases' := [env.localCntr] + bases;
        assert ([map[]] + env.scopes)[1..] == env.scopes && bases'[1..] == bases;
      case Close =>
        bases' := bases[1..];
      case Declare(d) =>
        bases' := bases;
        DeclareLayered(env, bases, n, d);
    }
  }

  lemma {:induction false} RunLayered(env: Env, bases: seq<int>, n: nat, ops: seq<ScopeOp>) returns (bases': seq<int>)
    requires Layered(env.scopes, bases, env.localCntr, n) && env.localCntr <= env.frameCntr
    requires RunOps(env, ops).Some? && AllFit(ops)
    ensures var env' := RunOps(env, ops).value;
            Layered(env'.scopes, bases', env'.localCntr, n) && env'.localCntr <= env'.frameCntr
    decreases |ops|
  {
    if ops == [] {
      bases' := bases;
    } else {
      assert ops[0] in ops;
      var b := ApplyLayered(env, bases, n, ops[0]);
      forall op | op in ops[1..] ensures op.Declare? && op.d.Arr? ==> Fits(op.d.dims) { assert op in ops; }
      bases' := RunLayered(Apply(env, ops[0]).value, b, n, ops[1..]);
    }
  }

  lemma {:induction false} LayeredFrame(scopes: seq<Scope>, bases: seq<int>, limit: int, n: nat, i: nat, x: string)
    requires Layered(scopes, bases, limit, n) && i < |scopes| && x in scopes[i]
    ensures IsParam(scopes[i][x], n) || 0 <= FirstSlot(scopes[i][x]) <= scopes[i][x].offset < limit
    decreases i
  {
    if i > 0 { LayeredFrame(scopes[1..], bases[1..], bases[0], n, i - 1, x); }
  }

  lemma {:induction false} LayeredDisjoint(scopes: seq<Scope>, bases: seq<int>, limit: int, n: nat,
                                           i: nat, x: string, j: nat, y: string)
    requires Layered(scopes, bases, limit, n) && i <= j < |scopes| && x in scopes[i] && y in scopes[j]
    requires i != j || x != y
    ensures Disjoint(scopes[i][x], scopes[j][y])
    decreases i
  {
    if i > 0 {
      LayeredDisjoint(scopes[1..], bases[1..], bases[0], n, i - 1, x, j - 1, y);
    } else if j > 0 {
      LayeredFrame(scopes[1..], bases[1..], bases[0], n, j - 1, y);
      assert !IsParam(scopes[0][x], 0);
    }
  }

  /** Different parameters have different offsets, all of them parameter offsets. */
  lemma {:induction false} ParamsLayered(params: seq<Param>)
    ensures ScopeIn(ParamScope(params), 0, 0, |params|)
    ensures forall x | x in ParamScope(params) :: IsParam(ParamScope(params)[x], |params|)
    decreases |params|
  {
    if params != [] {
      var k := |params| - 1;
      ParamsLayered(params[..k]);
      var sc, sc' := ParamScope(params[..k]), ParamScope(params);
      forall x, y | x in sc' && y in sc' && x != y ensures Disjoint(sc'[x], sc'[y]) {
        if x != params[k].name { assert IsParam(sc[x], k) && sc'[x] == sc[x]; }
        if y != params[k].name { assert IsParam(sc[y], k) && sc'[y] == sc[y]; }
        if x != params[k].name && y != params[k].name { assert Disjoint(sc[x], sc[y]); }
      }
    }
  }

  /** The address of word j of a variable, as FrameAddr and subscripting compute it. */
  function CellOf(fp: int, s: Symbol, j: int): int {
    fp - 12 - 4 * s.offset + 4 * j
  }

  /** The recorded slot count never shrinks. */
  lemma {:induction false} FrameGrows(env: Env, ops: seq<ScopeOp>)
    requires env.scopes != [] && RunOps(env, ops).Some?
    ensures env.frameCntr <= RunOps(env, ops).value.frameCntr
    decreases |ops|
  {
    if ops != [] { FrameGrows(Apply(env, ops[0]).value, ops[1..]); }
  }

  /** In every state that a function's scopes reach, whatever is visited afterwards, and if the arrays so far
      all fit: two different variables in scope share no cell, and every cell lies inside the frame
      recorded at the end, off the saved ra and fp. */
  lemma FrameSafe(params: seq<Param>, ops: seq<ScopeOp>, rest: seq<ScopeOp>, fp: int, i: nat, x: string, k: int, j: nat, y: string, l: int)
    requires RunOps(ParamEnv(params), ops).Some? && AllFit(ops)
    requires var env := RunOps(ParamEnv(params), ops).value;
             && i <= j < |env.scopes| && x in env.scopes[i] && y in env.scopes[j]
             && 0 <= k < TrueWords(env.scopes[i][x].typ) && 0 <= l < TrueWords(env.scopes[j][y].typ)
             && RunOps(env, rest).Some?
    ensures var env := RunOps(ParamEnv(params), ops).value;
            var a, slots := CellOf(fp, env.scopes[i][x], k), RunOps(env, rest).value.frameCntr;
            && 0 <= slots && InFrame(a, fp, slots, |params|)
            && a != fp - 4 && a != fp - 8
            && (i != j || x != y ==> a != CellOf(fp, env.scopes[j][y], l))
  {
    ParamsLayered(params);
    assert Layered(ParamEnv(params).scopes, [0], 0, |params|);
    var bases := RunLayered(ParamEnv(params), [0], |params|, ops);
    var env := RunOps(ParamEnv(params), ops).value;
    FrameGrows(env, rest);
    LayeredFrame(env.scopes, bases, env.localCntr, |params|, i, x);
    if i != j || x != y {
      LayeredDisjoint(env.scopes, bases, env.localCntr, |params|, i, x, j, y);
    }
    CellInFrame(fp, env.scopes[i][x], k, RunOps(env, rest).value.frameCntr, |params|);
  }

  lemma CellInFrame(fp: int, s: Symbol, k: int, slots: int, n: nat)
    requires slots >= 0 && 0 <= k < TrueWords(s.typ)
    requires IsParam(s, n) || 0 <= FirstSlot(s) <= s.offset < slots
    ensures var a := CellOf(fp, s, k); InFrame(a, fp, slots, n) && a != fp - 4 && a != fp - 8
  {
    var a := CellOf(fp, s, k);
    assert a - fp == 4 * (k - s.offset - 3);
  }

  // ----- the visitor only makes such states -----

  predicate DeclFits(d: Decl) {
    d.Arr? ==> Fits(d.dims)
  }

  /** All arrays declared in a statement fit. */
  predicate StmtFits(s: Stmt)
    decreases s, 1
  {
    match s
    case If(_, t, f) => StmtFits(t) && (f.Some? ==> StmtFits(f.value))
    case Block(items) => ItemsFit(items)
    case For(d, _, _, _, body) => (d.Some? ==> DeclFits(d.value)) && StmtFits(body)
    case While(_, body) => StmtFits(body)
    case DoWhile(body, _) => StmtFits(body)
    case _ => true
  }

  predicate ItemsFit(items: seq<Item>)
    decreases items, 0
  {
    items == [] || (ItemFits(items[0]) && ItemsFit(items[1..]))
  }

  predicate ItemFits(i: Item)
    decreases i, 2
  {
    match i case StmtItem(s) => StmtFits(s) case DeclItem(d) => DeclFits(d)
  }

  lemma {:induction false} RunOpsAppend(env: Env, a: seq<ScopeOp>, b: seq<ScopeOp>)
    requires env.scopes != [] && RunOps(env, a).Some? && RunOps(env, a).value.scopes != []
    ensures RunOps(env, a + b) == RunOps(RunOps(env, a).value, b)
    decreases |a|
  {
    hide Apply;
    if a == [] {
      assert a + b == b;
    } else {
      assert (a + b)[1..] == a[1..] + b;
      RunOpsAppend(Apply(env, a[0]).value, a[1..], b);
    }
  }

  /** A visit of an accepted statement is a run of scope operations. */
  lemma {:induction false} StmtOps(c: Ctx, env: Env, ret: Type, inLoop: bool, s: Stmt) returns (ops: seq<ScopeOp>)
    requires env.scopes != [] && StmtOk(c, env, ret, inLoop, s)
    ensures RunOps(env, ops) == Some(StmtEnv(env, s)) && (StmtFits(s) ==> AllFit(ops))
    decreases s, 1
  {
    hide Apply, TypeOf, IsInt, DeclOk, DeclEnv;
    match s {
      case If(_, t, f) =>
        ops := StmtOps(c, env, ret, inLoop, t);
        if f.Some? {
          var more := StmtOps(c, StmtEnv(env, t), ret, inLoop, f.value);
          RunOpsAppend(env, ops, more);
          ops := ops + more;
        }
      case Block(items) =>
        var inner := ItemsOps(c, OpenScope(env), ret, inLoop, items);
        ops := Bracket(env, inner, ItemsEnv(OpenScope(env), items));
      case For(d, _, _, _, body) =>
        var env1 := OpenScope(env);
        var env2 := if d.Some? then DeclEnv(env1, d.value) else env1;
        var inner := StmtOps(c, env2, ret, true, body);
        var head := [];
        if d.Some? { head := DeclOps(c, env1, d.value); }
        RunOpsAppend(env1, head, inner);
        ForScopes(env1, d);
        ops := Bracket(env, head + inner, StmtEnv(env2, body));
      case While(_, body) => ops := StmtOps(c, env, ret, true, body);
      case DoWhile(body, _) => ops := StmtOps(c, env, ret, true, body);
      case _ => ops := [];
    }
  }

  lemma ForScopes(env: Env, d: Option<Decl>)
    requires env.scopes != []
    ensures var env2 := if d.Some? then DeclEnv(env, d.value) else env; env2.scopes[1..] == env.scopes[1..]
  {
  }

  lemma DeclOps(c: Ctx, env: Env, d: Decl) returns (ops: seq<ScopeOp>)
    requires env.scopes != [] && DeclOk(c, env, d)
    ensures RunOps(env, ops) == Some(DeclEnv(env, d)) && (DeclFits(d) ==> AllFit(ops))
  {
    ops := [Declare(d)];
  }

  lemma Bracket(env: Env, inner: seq<ScopeOp>, env2: Env) returns (ops: seq<ScopeOp>)
    requires env.scopes != [] && RunOps(OpenScope(env), inner) == Some(env2)
    requires env2.scopes != [] && env2.scopes[1..] == OpenScope(env).scopes[1..]
    ensures RunOps(env, ops) == Some(CloseScope(env2)) && (AllFit(inner) ==> AllFit(ops))
  {
    ops := [Open] + (inner + [Close]);
    assert OpenScope(env).scopes[1..] == env.scopes;
    assert |env2.scopes| == 1 + |env2.scopes[1..]|;
    RunOpsAppend(OpenScope(env), inner, [Close]);
    RunOpsAppend(env, [Open], inner + [Close]);
  }

  lemma {:induction false} ItemsOps(c: Ctx, env: Env, ret: Type, inLoop: bool, items: seq<Item>) returns (ops: seq<ScopeOp>)
    requires env.scopes != [] && ItemsOk(c, env, ret, inLoop, items)
    ensures RunOps(env, ops) == Some(ItemsEnv(env, items)) && (ItemsFit(items) ==> AllFit(ops))
    decreases items, 0
  {
    hide Apply, StmtOk, StmtEnv, DeclOk, DeclEnv, StmtFits;
    if items == [] {
      ops := [];
    } else {
      ops := ItemOps(c, env, ret, inLoop, items[0]);
      var more := ItemsOps(c, ItemEnv(env, items[0]), ret, inLoop, items[1..]);
      RunOpsAppend(env, ops, more);
      ops := ops + more;
    }
  }

  lemma {:induction false} ItemOps(c: Ctx, env: Env, ret: Type, inLoop: bool, i: Item) returns (ops: seq<ScopeOp>)
    requires env.scopes != [] && ItemOk(c, env, ret, inLoop, i)
    ensures RunOps(env, ops) == Some(ItemEnv(env, i))
    ensures ItemFits(i) ==> AllFit(ops)
    decreases i, 2
  {
    hide Apply, StmtOk, StmtEnv, DeclOk, DeclEnv, StmtFits;
    match i {
      case StmtItem(s) => ops := StmtOps(c, env, ret, inLoop, s);
      case DeclItem(d) => ops := DeclOps(c, env, d);
    }
  }
}
