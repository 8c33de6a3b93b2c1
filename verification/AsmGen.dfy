/** AsmGen.java: every IR line becomes a fixed run of RISC-V instructions, appended to one buffer. */
module AsmGen {
  import opened Words
  import opened Ir
  import opened RiscV

  // ----- what each line expands to -----

  const PushT1: seq<Asm> := [Addi(Sp, Sp, -4), Sw(T1, 0, Sp)]
  const PushA0: seq<Asm> := [Addi(Sp, Sp, -4), Sw(A0, 0, Sp)]
  const PopT1: seq<Asm> := [Lw(T1, 0, Sp), Addi(Sp, Sp, 4)]
  const PopA0: seq<Asm> := [Lw(A0, 0, Sp), Addi(Sp, Sp, 4)]

  /** Saved ra, saved fp and the slots, in bytes. */
  function FrameBytes(slots: nat): int {
    8 + 4 * slots
  }

  function Prologue(f: string, slots: nat): seq<Asm> {
    var n := FrameBytes(slots);
    [Def(Global(f)), Addi(Sp, Sp, -n), Sw(Ra, n - 4, Sp), Sw(Fp, n - 8, Sp), Addi(Fp, Sp, n)]
  }

  function EpilogueTail(slots: nat): seq<Asm> {
    var n := FrameBytes(slots);
    PopA0 + [Lw(Fp, n - 8, Sp), Lw(Ra, n - 4, Sp), Addi(Sp, Sp, n), Jr(Ra)]
  }

  function EpilogueCode(f: string, slots: nat): seq<Asm> {
    ([Li(T1, 0)] + PushT1) + ([Def(Epilogue(f))] + EpilogueTail(slots))
  }

  function UnaryCode(op: IrUnary): Asm {
    match op
    case NotL => R1(Seqz, T1, T1)
    case NotB => R1(Not, T1, T1)
    case Neg => R1(NegR, T1, T1)
  }

  /** From t1 (below) and t2 (top) to the result in t1. */
  function BinaryCode(op: IrBinary): seq<Asm> {
    match op
    case OrL => [R2(Or, T1, T1, T2), R1(Snez, T1, T1)]
    case AndL => [R1(Snez, T1, T1), R1(Snez, T2, T2), R2(And, T1, T1, T2)]
    case EqI => [R2(Sub, T1, T1, T2), R1(Seqz, T1, T1)]
    case NeqI => [R2(Sub, T1, T1, T2), R1(Snez, T1, T1)]
    case LtI => [R2(Slt, T1, T1, T2)]
    case GtI => [R2(Slt, T1, T2, T1)]
    case LeI => [R2(Slt, T1, T2, T1), Xori(T1, T1, 1)]
    case GeI => [R2(Slt, T1, T1, T2), Xori(T1, T1, 1)]
    case AddI => [R2(Add, T1, T1, T2)]
    case SubI => [R2(Sub, T1, T1, T2)]
    case MulI => [R2(Mul, T1, T1, T2)]
    case DivI => [R2(Div, T1, T1, T2)]
    case RemI => [R2(Rem, T1, T1, T2)]
    case AddIP => [Slli(T1, T1, 2), R2(Add, T1, T1, T2)]
    case AddPI => [Slli(T2, T2, 2), R2(Add, T1, T1, T2)]
    case SubPI => [Slli(T2, T2, 2), R2(Sub, T1, T1, T2)]
    case SubPP => [R2(Sub, T1, T1, T2), Srai(T1, T1, 2)]
  }

  const LoadPair: seq<Asm> := [Lw(T1, 4, Sp), Lw(T2, 0, Sp)]
  const StoreResult: seq<Asm> := [Addi(Sp, Sp, 4), Sw(T1, 0, Sp)]

  /** The instructions for one IR line; cur is the function being emitted. */
  function Expand(sizes: map<string, nat>, cur: string, i: Instr): seq<Asm> {
    match i
    case Func(f) => Prologue(f, if f in sizes then sizes[f] else 0)
    case EndFunc(f) => EpilogueCode(f, if f in sizes then sizes[f] else 0)
    case Mark(l) => [Def(Local(l))]
    case CallF(f, n) => [Jal(Global(f)), Addi(Sp, Sp, 4 * n)] + PushA0
    case Ret => [J(Epilogue(cur))]
    case Push(n) => [Li(T1, n)] + PushT1
    case Un(op) => PopT1 + ([UnaryCode(op)] + PushT1)
    case Bin(op) => LoadPair + (BinaryCode(op) + StoreResult)
    case FrameAddr(k) => [Addi(T1, Fp, -12 - 4 * k)] + PushT1
    case GlobalAddr(x) => [La(T1, x)] + PushT1
    case Load => [Lw(T1, 0, Sp), Lw(T1, 0, T1), Sw(T1, 0, Sp)]
    case Store => LoadPair + [Addi(Sp, Sp, 4), Sw(T1, 0, T2)]
    case Pop => [Addi(Sp, Sp, 4)]
    case Br(l) => [J(Local(l))]
    case Beqz(l) => PopT1 + [BranchZero(T1, Local(l))]
    case Bnez(l) => PopT1 + [BranchNonzero(T1, Local(l))]
  }

  /** The value of currentFunc before line n is read. */
  function CurFunc(code: seq<Instr>, n: nat): string
    requires n <= |code|
  {
    if n == 0 then ""
    else match code[n - 1]
      case Func(f) => f
      case EndFunc(_) => ""
      case _ => CurFunc(code, n - 1)
  }

  /** The instructions of the first n lines. */
  function Lines(sizes: map<string, nat>, code: seq<Instr>, n: nat): seq<Asm>
    requires n <= |code|
  {
    if n == 0 then []
    else Lines(sizes, code, n - 1) + Expand(sizes, CurFunc(code, n - 1), code[n - 1])
  }

  function Assemble(sizes: map<string, nat>, code: seq<Instr>): seq<Asm> {
    Lines(sizes, code, |code|)
  }

  // ----- the generator -----

  class Generator {
    var asm: seq<Asm>

    constructor ()
      ensures asm == []
    {
      asm := [];
    }

    method Emit(i: Asm)
      modifies this
      ensures asm == old(asm) + [i]
    {
      asm := asm + [i];
    }

    method MPush(from: Reg)
      modifies this
      ensures asm == old(asm) + [Addi(Sp, Sp, -4), Sw(from, 0, Sp)]
    {
      Emit(Addi(Sp, Sp, -4));
      Emit(Sw(from, 0, Sp));
    }

    method MPop(to: Reg)
      modifies this
      ensures asm == old(asm) + [Lw(to, 0, Sp), Addi(Sp, Sp, 4)]
    {
      Emit(Lw(to, 0, Sp));
      Emit(Addi(Sp, Sp, 4));
    }

    method DoPush(n: int)
      modifies this
      ensures asm == old(asm) + ([Li(T1, n)] + PushT1)
    {
      Emit(Li(T1, n));
      MPush(T1);
    }

    method DoFunc(f: string, slots: nat)
      modifies this
      ensures asm == old(asm) + Prologue(f, slots)
    {
      var framesize := 8 + 4 * slots;
      Emit(Def(Global(f)));
      Emit(Addi(Sp, Sp, -framesize));
      Emit(Sw(Ra, framesize - 4, Sp));
      Emit(Sw(Fp, framesize - 8, Sp));
      Emit(Addi(Fp, Sp, framesize));
    }

    method DoEpilogue(f: string, slots: nat)
      modifies this
      ensures asm == old(asm) + EpilogueCode(f, slots)
    {
      DoPush(0);
      Emit(Def(Epilogue(f)));
      var framesize := 8 + 4 * slots;
      MPop(A0);
      Emit(Lw(Fp, framesize - 8, Sp));
      Emit(Lw(Ra, framesize - 4, Sp));
      Emit(Addi(Sp, Sp, framesize));
      Emit(Jr(Ra));
    }

    method DoCall(f: string, n: nat)
      modifies this
      ensures asm == old(asm) + ([Jal(Global(f)), Addi(Sp, Sp, 4 * n)] + PushA0)
    {
      Emit(Jal(Global(f)));
      Emit(Addi(Sp, Sp, 4 * n));
      MPush(A0);
    }

    method DoUnaryOp(op: IrUnary)
      modifies this
      ensures asm == old(asm) + (PopT1 + ([UnaryCode(op)] + PushT1))
    {
      MPop(T1);
      Emit(UnaryCode(op));
      MPush(T1);
    }

    method DoBinaryOp(op: IrBinary)
      modifies this
      ensures asm == old(asm) + (LoadPair + (BinaryCode(op) + StoreResult))
    {
      Emit(Lw(T1, 4, Sp));
      Emit(Lw(T2, 0, Sp));
      asm := asm + BinaryCode(op);
      Emit(Addi(Sp, Sp, 4));
      Emit(Sw(T1, 0, Sp));
    }

    method DoAddress(compute: Asm)
      modifies this
      ensures asm == old(asm) + ([compute] + PushT1)
    {
      Emit(compute);
      MPush(T1);
    }

    method DoLoad()
      modifies this
      ensures asm == old(asm) + [Lw(T1, 0, Sp), Lw(T1, 0, T1), Sw(T1, 0, Sp)]
    {
      Emit(Lw(T1, 0, Sp));
      Emit(Lw(T1, 0, T1));
      Emit(Sw(T1, 0, Sp));
    }

    method DoStore()
      modifies this
      ensures asm == old(asm) + (LoadPair + [Addi(Sp, Sp, 4), Sw(T1, 0, T2)])
    {
      Emit(Lw(T1, 4, Sp));
      Emit(Lw(T2, 0, Sp));
      Emit(Addi(Sp, Sp, 4));
      Emit(Sw(T1, 0, T2));
    }

    method DoBranch(i: Asm)
      modifies this
      ensures asm == old(asm) + (PopT1 + [i])
    {
      MPop(T1);
      Emit(i);
    }

    /** The switch of genAsm on one line; currentFunc has its value before the line. */
    method DoLine(sizes: map<string, nat>, currentFunc: string, i: Instr)
      requires (i.Func? || i.EndFunc?) ==> i.name in sizes
      modifies this
      ensures asm == old(asm) + Expand(sizes, currentFunc, i)
    {
      match i {
        case Func(f) => DoFunc(f, sizes[f]);
        case EndFunc(f) => DoEpilogue(f, sizes[f]);
        case Mark(l) => Emit(Def(Local(l)));
        case CallF(f, n) => DoCall(f, n);
        case Ret => Emit(J(Epilogue(currentFunc)));
        case Push(n) => DoPush(n);
        case Un(op) => DoUnaryOp(op);
        case Bin(op) => DoBinaryOp(op);
        case FrameAddr(k) => DoAddress(Addi(T1, Fp, -12 - 4 * k));
        case GlobalAddr(x) => DoAddress(La(T1, x));
        case Load => DoLoad();
        case Store => DoStore();
        case Pop => Emit(Addi(Sp, Sp, 4));
        case Br(l) => Emit(J(Local(l)));
        case Beqz(l) => DoBranch(BranchZero(T1, Local(l)));
        case Bnez(l) => DoBranch(BranchNonzero(T1, Local(l)));
      }
    }

    /** genAsm: the lines in order, with currentFunc set by func and cleared by endfunc. */
    method GenAsm(code: seq<Instr>, sizes: map<string, nat>)
      requires forall i | i in code && (i.Func? || i.EndFunc?) :: i.name in sizes
      modifies this
      ensures asm == old(asm) + Assemble(sizes, code)
    {
      hide Expand;
      var currentFunc := "";
      var n := 0;
      while n < |code|
        invariant 0 <= n <= |code|
        invariant currentFunc == CurFunc(code, n)
        invariant asm == old(asm) + Lines(sizes, code, n)
      {
        DoLine(sizes, currentFunc, code[n]);
        if code[n].Func? {
          currentFunc := code[n].name;
        } else if code[n].EndFunc? {
          currentFunc := "";
        }
        n := n + 1;
      }
    }
  }
}
