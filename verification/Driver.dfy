/** Main.java: the visitor walks the tree, then the generator expands its IR. */
module Driver {
  import opened Wrappers
  import opened Syntax
  import opened Ir
  import opened MainVisitor
  import AsmGen
  import L = Lowering
  import P = Program
  import R = RiscV

  /** The assembly of an accepted program is the one Program.CompilerCorrect speaks of. */
  method CompileProgram(ds: seq<TopDecl>) returns (asm: Option<seq<R.Asm>>)
    ensures asm.Some? <==> P.Compile(ds).Some?
    ensures asm.Some? ==> forall lo, gaddr {:trigger P.Linkable(P.Compile(ds).value, lo, gaddr)} ::
                            asm.value == L.Asm(P.Linkable(P.Compile(ds).value, lo, gaddr))
  {
    var visitor := new Visitor();
    var ok := visitor.VisitProgram(ds);
    if !ok {
      return None;
    }
    NamesHaveSizes(ds);
    var generator := new AsmGen.Generator();
    generator.GenAsm(visitor.ir, visitor.funcFrameSize);
    return Some(generator.asm);
  }

  /** Every function line of a compiled program has a recorded frame size. */
  lemma NamesHaveSizes(ds: seq<TopDecl>)
    requires P.Compile(ds).Some?
    ensures var u := P.Compile(ds).value; forall i | i in u.code && (i.Func? || i.EndFunc?) :: i.name in u.sizes
  {
    P.EmptyOk();
    P.VisitOk(P.EmptyUnit, ds);
  }
}
