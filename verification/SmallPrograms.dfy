/** Acceptance of programs small enough to follow by hand. */
module SmallPrograms {
  import opened Wrappers
  import opened Words
  import opened Types
  import opened Syntax
  import opened Typing
  import opened CodeGen
  import opened Program

  lemma ReturnOk(c: Ctx, env: Env, e: Expr)
    requires env.scopes != [] && TypeOf(c, env.scopes, e) == Some(IntType(RVALUE))
    ensures ItemsOk(c, env, IntType(RVALUE), false, [StmtItem(Return(e))])
    ensures ItemsEnv(env, [StmtItem(Return(e))]) == env
  {
    hide TypeOf;
    var items := [StmtItem(Return(e))];
    assert items[1..] == [];
    assert StmtOk(c, env, IntType(RVALUE), false, Return(e));
    assert ItemOk(c, env, IntType(RVALUE), false, items[0]) && ItemEnv(env, items[0]) == env;
  }

  lemma LiteralType(c: Ctx, sc: seq<Scope>, text: string)
    requires !TooLarge(text)
    ensures TypeOf(c, sc, IntLit(text)) == Some(IntType(RVALUE))
  {
  }

  lemma VisitTwo(u: Unit, d: TopDecl, e: TopDecl)
    requires VisitTop(u, d).Some? && VisitTop(VisitTop(u, d).value, e).Some?
    ensures VisitTops(u, [d, e]) == VisitTop(VisitTop(u, d).value, e)
  {
    hide VisitTop;
    assert [d, e][1..] == [e] && [e][1..] == [];
    var u2 := VisitTop(VisitTop(u, d).value, e).value;
    assert VisitTops(u2, []) == Some(u2);
    assert VisitTops(VisitTop(u, d).value, [e]) == Some(u2);
  }
}
