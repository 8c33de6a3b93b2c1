/** The stack IR that MainVisitor emits and AsmGen reads. */
module Ir {
  /** Labels inside functions; their text is a fixed prefix followed by the number. */
  datatype Label =
    | EndIf(n: nat) | ElseIf(n: nat)
    | EndTer(n: nat) | ElseTer(n: nat)
    | BeginLoop(n: nat) | ContinueLoop(n: nat) | BreakLoop(n: nat)

  datatype IrUnary = NotL | NotB | Neg

  datatype IrBinary =
    | OrL | AndL | EqI | NeqI | LtI | GtI | LeI | GeI
    | AddI | AddIP | AddPI | SubI | SubPI | SubPP | MulI | DivI | RemI

  datatype Instr =
    | Func(name: string)
    | EndFunc(name: string)
    | Mark(target: Label)
    | CallF(name: string, argc: nat)
    | Ret
    | Push(n: int)
    | Un(uop: IrUnary)
    | Bin(bop: IrBinary)
    | FrameAddr(offset: int)
    | GlobalAddr(name: string)
    | Load
    | Store
    | Pop
    | Br(target: Label)
    | Beqz(target: Label)
    | Bnez(target: Label)
}
