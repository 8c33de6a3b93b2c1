/** What closing a scope gives back: one slot per symbol, so every further word of an array stays counted. */
module ScopeExit {
  import opened Wrappers
  import opened Words
  import opened Types
  import opened Syntax
  import opened Typing
  import opened FrameSafety
  import opened Literals
  import opened Memory

  /** Slots a declaration takes beyond the one that closing its scope gives back. */
  function DeclExcess(d: Decl): int {
    match d
    case Var(_, _, _) => 0
    case Arr(stars, _, dims) => TruncDiv(ArrayOf(LvalueOf(stars), dims).GetSize(), 4) - 1
  }

  function Excess(s: Stmt): int
    decreases s, 1
  {
    match s
    case If(_, t, f) => Excess(t) + if f.Some? then Excess(f.value) else 0
    case Block(items) => ItemsExcess(items)
    case For(d, _, _, _, body) => (if d.Some? then DeclExcess(d.value) else 0) + Excess(body)
    case While(_, body) => Excess(body)
    case DoWhile(body, _) => Excess(body)
    case _ => 0
  }

  function ItemExcess(i: Item): int
    decreases i, 2
  {
    match i case StmtItem(s) => Excess(s) case DeclItem(d) => DeclExcess(d)
  }

  function ItemsExcess(items: seq<Item>): int
    decreases items, 0
  {
    if items == [] then 0 else ItemExcess(items[0]) + ItemsExcess(items[1..])
  }

  /** Every array declared in a statement has a single element. */
  predicate SingleDecl(d: Decl) {
    d.Arr? ==> TrueWords(ArrayOf(LvalueOf(d.stars), d.dims)) == 1
  }

  predicate Singles(s: Stmt)
    decreases s, 1
  {
    match s
    case If(_, t, f) => Singles(t) && (f.Some? ==> Singles(f.value))
    case Block(items) => ItemsSingle(items)
    case For(d, _, _, _, body) => (d.Some? ==> SingleDecl(d.value)) && Singles(body)
    case While(_, body) => Singles(body)
    case DoWhile(body, _) => Singles(body)
    case _ => true
  }

  predicate ItemSingle(i: Item)
    decreases i, 2
  {
    match i case StmtItem(s) => Singles(s) case DeclItem(d) => SingleDecl(d)
  }

  predicate ItemsSingle(items: seq<Item>)
    decreases items, 0
  {
    items == [] || (ItemSingle(items[0]) && ItemsSingle(items[1..]))
  }

  /** The counter less the symbols of the innermost scope: what closing that scope would leave. */
  function Kept(env: Env): int
    requires env.scopes != []
  {
    env.localCntr - |env.scopes[0]|
  }

  /** A declaration adds one symbol and its slots. */
  lemma DeclKept(c: Ctx, env: Env, d: Decl)
    requires env.scopes != [] && DeclOk(c, env, d)
    ensures Kept(DeclEnv(env, d)) == Kept(env) + DeclExcess(d)
  {
    hide TypeOf, ArrayOf;
    var sc, sc' := env.scopes[0], DeclEnv(env, d).scopes[0];
    assert sc'.Keys == sc.Keys + {d.name};
    assert |sc'| == |sc| + 1;
  }

  /** After any accepted statement the slot counter has grown by exactly the array words that were not
      given back. */
  lemma {:induction false} CounterAfter(c: Ctx, env: Env, ret: Type, inLoop: bool, s: Stmt)
    requires env.scopes != [] && StmtOk(c, env, ret, inLoop, s)
    ensures StmtEnv(env, s).localCntr == env.localCntr + Excess(s)
    decreases s, 1
  {
    hide TypeOf, IsInt, DeclOk, DeclEnv, DeclExcess;
    match s {
      case If(_, t, f) =>
        CounterAfter(c, env, ret, inLoop, t);
        if f.Some? { CounterAfter(c, StmtEnv(env, t), ret, inLoop, f.value); }
      case Block(items) => ItemsCounter(c, OpenScope(env), ret, inLoop, items);
      case For(d, _, _, _, body) =>
        var env1 := OpenScope(env);
        if d.Some? { DeclKept(c, env1, d.value); }
        CounterAfter(c, if d.Some? then DeclEnv(env1, d.value) else env1, ret, true, body);
      case While(_, body) => CounterAfter(c, env, ret, true, body);
      case DoWhile(body, _) => CounterAfter(c, env, ret, true, body);
      case _ =>
    }
  }

  lemma {:induction false} ItemsCounter(c: Ctx, env: Env, ret: Type, inLoop: bool, items: seq<Item>)
    requires env.scopes != [] && ItemsOk(c, env, ret, inLoop, items)
    ensures Kept(ItemsEnv(env, items)) == Kept(env) + ItemsExcess(items)
    decreases items, 0
  {
    hide StmtOk, StmtEnv, DeclOk, DeclEnv, DeclExcess;
    if items != [] {
      ItemCounter(c, env, ret, inLoop, items[0]);
      ItemsCounter(c, ItemEnv(env, items[0]), ret, inLoop, items[1..]);
    }
  }

  lemma {:induction false} ItemCounter(c: Ctx, env: Env, ret: Type, inLoop: bool, i: Item)
    requires env.scopes != [] && ItemOk(c, env, ret, inLoop, i)
    ensures Kept(ItemEnv(env, i)) == Kept(env) + ItemExcess(i)
    decreases i, 2
  {
    hide StmtOk, StmtEnv, DeclOk, DeclEnv, DeclExcess;
    match i {
      case StmtItem(s) => CounterAfter(c, env, ret, inLoop, s);
      case DeclItem(d) => DeclKept(c, env, d);
    }
  }

  lemma DeclExcessIs(d: Decl)
    requires DeclFits(d) && (d.Arr? ==> DimsOk(d.dims))
    ensures DeclExcess(d) >= 0 && (DeclExcess(d) == 0 <==> SingleDecl(d))
  {
    if d.Arr? {
      ReservedWords(LvalueOf(d.stars), d.dims);
      SizeOf(LvalueOf(d.stars), d.dims);
    }
  }

  lemma {:induction false} ExcessIs(c: Ctx, env: Env, ret: Type, inLoop: bool, s: Stmt)
    requires env.scopes != [] && StmtOk(c, env, ret, inLoop, s) && StmtFits(s)
    ensures Excess(s) >= 0 && (Excess(s) == 0 <==> Singles(s))
    decreases s, 1
  {
    hide TypeOf, IsInt, DeclEnv, DeclExcess, SingleDecl, DeclFits;
    match s {
      case If(_, t, f) =>
        ExcessIs(c, env, ret, inLoop, t);
        if f.Some? { ExcessIs(c, StmtEnv(env, t), ret, inLoop, f.value); }
      case Block(items) => ItemsExcessIs(c, OpenScope(env), ret, inLoop, items);
      case For(d, _, _, _, body) =>
        var env1 := OpenScope(env);
        if d.Some? { DeclExcessIs(d.value); }
        ExcessIs(c, if d.Some? then DeclEnv(env1, d.value) else env1, ret, true, body);
      case While(_, body) => ExcessIs(c, env, ret, true, body);
      case DoWhile(body, _) => ExcessIs(c, env, ret, true, body);
      case _ =>
    }
  }

  lemma {:induction false} ItemsExcessIs(c: Ctx, env: Env, ret: Type, inLoop: bool, items: seq<Item>)
    requires env.scopes != [] && ItemsOk(c, env, ret, inLoop, items) && ItemsFit(items)
    ensures ItemsExcess(items) >= 0 && (ItemsExcess(items) == 0 <==> ItemsSingle(items))
    decreases items, 0
  {
    hide TypeOf, DeclEnv, DeclExcess, SingleDecl, DeclFits, StmtEnv, StmtOk, Excess, Singles;
    if items != [] {
      ItemExcessIs(c, env, ret, inLoop, items[0]);
      ItemsExcessIs(c, ItemEnv(env, items[0]), ret, inLoop, items[1..]);
    }
  }

  lemma {:induction false} ItemExcessIs(c: Ctx, env: Env, ret: Type, inLoop: bool, i: Item)
    requires env.scopes != [] && ItemOk(c, env, ret, inLoop, i) && ItemFits(i)
    ensures ItemExcess(i) >= 0 && (ItemExcess(i) == 0 <==> ItemSingle(i))
    decreases i, 2
  {
    hide TypeOf, DeclEnv, DeclExcess, SingleDecl, DeclFits, StmtEnv, StmtOk, Excess, Singles;
    match i {
      case StmtItem(s) => ExcessIs(c, env, ret, inLoop, s);
      case DeclItem(d) => DeclExcessIs(d);
    }
  }

  /** When the arrays fit, no excess is negative, and the counter is restored if and only if no array of more
      than one word was declared. */
  lemma RestoredUnlessArrays(c: Ctx, env: Env, ret: Type, inLoop: bool, s: Stmt)
    requires env.scopes != [] && StmtOk(c, env, ret, inLoop, s) && StmtFits(s)
    ensures StmtEnv(env, s).localCntr >= env.localCntr
    ensures StmtEnv(env, s).localCntr == env.localCntr <==> Singles(s)
  {
    hide StmtOk, StmtEnv, Excess, Singles, StmtFits;
    CounterAfter(c, env, ret, inLoop, s);
    ExcessIs(c, env, ret, inLoop, s);
  }

  /** For every accepted statement: the slot counter is not below its value at entry if and only if the
      excess is not negative, and restored if and only if the excess is zero. */
  lemma CounterRestored(c: Ctx, env: Env, ret: Type, inLoop: bool, s: Stmt)
    requires env.scopes != [] && StmtOk(c, env, ret, inLoop, s)
    ensures StmtEnv(env, s).localCntr >= env.localCntr <==> Excess(s) >= 0
    ensures StmtEnv(env, s).localCntr == env.localCntr <==> Excess(s) == 0
  {
    hide StmtOk, StmtEnv, Excess;
    CounterAfter(c, env, ret, inLoop, s);
  }

  /** The block { int a[805306368]; } */
  const Shrinking: Stmt := Block([DeclItem(Arr(0, "a", ["805306368"]))])

  /** It is accepted and leaves the counter 2^28 + 1 lower, since 3 * 2^30 bytes is a negative Java int; a
      variable declared next then lies above fp, outside its frame. */
  lemma CounterBelowEntry(c: Ctx, ret: Type, fp: int, argc: nat)
    requires argc <= 0xFFF_FFFE
    ensures var env := Env([map[]], 0, 0);
            && StmtOk(c, env, ret, false, Shrinking) && Excess(Shrinking) == -0x1000_0001
            && StmtEnv(env, Shrinking).localCntr == -0x1000_0001
            && var env1 := DeclEnv(StmtEnv(env, Shrinking), Var(0, "x", None));
               !InFrame(CellOf(fp, env1.scopes[0]["x"], 0), fp, env1.frameCntr, argc)
  {
    var env := Env([map[]], 0, 0);
    var items := [DeclItem(Arr(0, "a", ["805306368"]))];
    ShrinkingSize();
    hide ArrayOf, TruncDiv, Numeral;
    assert items[1..] == [];
    assert ItemOk(c, OpenScope(env), ret, false, items[0]);
    assert ItemsOk(c, OpenScope(env), ret, false, items);
    assert ItemsExcess(items) == ItemExcess(items[0]);
    CounterAfter(c, env, ret, false, Shrinking);
    FrameUnmoved(env);
  }

  lemma FrameUnmoved(env: Env)
    requires env == Env([map[]], 0, 0)
    ensures StmtEnv(env, Shrinking).frameCntr == 0 && StmtEnv(env, Shrinking).scopes == [map[]]
  {
    ShrinkingSize();
    hide ArrayOf, TruncDiv, Numeral;
    var items := [DeclItem(Arr(0, "a", ["805306368"]))];
    assert items[1..] == [];
    assert ItemsEnv(OpenScope(env), items) == ItemEnv(OpenScope(env), items[0]);
  }

  lemma ShrinkingSize()
    ensures DimsOk(["805306368"]) && TruncDiv(ArrayOf(LvalueOf(0), ["805306368"]).GetSize(), 4) == -0x1000_0000
  {
    NumeralOfThreeTwo28();
    var d := "805306368";
    assert [d][1..] == [];
    assert ArrayOf(LvalueOf(0), []) == IntType(LVALUE);
    var t := ArrayOf(LvalueOf(0), [d]);
    assert t == ArrayType(IntType(LVALUE), Numeral(d));
    assert t.GetSize() == JavaInt(Numeral(d) * 4);
  }

  lemma NumeralOfThreeTwo28()
    ensures Numeral("805306368") == 805306368
  {
    hide Numeral;
    NumeralEmpty();
    NumeralStep("", '8');
    NumeralStep("8", '0');
    NumeralStep("80", '5');
    NumeralStep("805", '3');
    NumeralStep("8053", '0');
    NumeralStep("80530", '6');
    NumeralStep("805306", '3');
    NumeralStep("8053063", '6');
    NumeralStep("80530636", '8');
    assert "" + ['8'] == "8" && "8" + ['0'] == "80" && "80" + ['5'] == "805" && "805" + ['3'] == "8053" && "8053" + ['0'] == "80530";
    assert "80530" + ['6'] == "805306" && "805306" + ['3'] == "8053063" && "8053063" + ['6'] == "80530636" && "80530636" + ['8'] == "805306368";
  }
}
