/** A machine for the IR: the operand stack is separate from memory, but takes up stack space, so that
    frames lie where the compiled program puts them. */
module IrMachine {
  import opened Wrappers
  import opened Words
  import opened Ir
  import opened Memory

  /** A linked IR program: code, frame sizes in slots, the lowest stack address, addresses of globals. */
  datatype IrProgram = IrProgram(code: seq<Instr>, sizes: map<string, nat>, lo: int, gaddr: map<string, int>) {
    function Size(f: string): nat {
      if f in sizes then sizes[f] else 0
    }

    function Target(l: Label): nat {
      Find(code, Mark(l))
    }

    function Entry(f: string): nat {
      Find(code, Func(f)) + 1
    }
  }

  /** One activation; link says where it returns to. */
  datatype Frame = Frame(func: string, fp: int, argc: nat, link: Link)
  datatype Link = Exit | Back(pc: nat, saved: seq<Word>, caller: Frame)

  datatype State =
    | Running(fr: Frame, pc: nat, ost: seq<Word>, mem: Memory)
    | Halted(result: Word, mem: Memory)

  function Base(p: IrProgram, fr: Frame): int {
    fr.fp - 8 - 4 * p.Size(fr.func)
  }

  function Sp(p: IrProgram, fr: Frame, ost: seq<Word>): int {
    Base(p, fr) - 4 * |ost|
  }

  function UnaryResult(op: IrUnary, x: Word): Word {
    match op
    case NotL => Bool(x == 0)
    case NotB => Wrap(0 - x - 1)
    case Neg => Wrap(0 - x)
  }

  /** None is division by zero. */
  function BinaryResult(op: IrBinary, x: Word, y: Word): Option<Word> {
    match op
    case OrL => Some(Bool(x != 0 || y != 0))
    case AndL => Some(Bool(x != 0 && y != 0))
    case EqI => Some(Bool(x == y))
    case NeqI => Some(Bool(x != y))
    case LtI => Some(Bool(Signed(x) < Signed(y)))
    case GtI => Some(Bool(Signed(x) > Signed(y)))
    case LeI => Some(Bool(Signed(x) <= Signed(y)))
    case GeI => Some(Bool(Signed(x) >= Signed(y)))
    case AddI => Some(Wrap(x + y))
    case AddIP => Some(Wrap(4 * x + y))
    case AddPI => Some(Wrap(x + 4 * y))
    case SubI => Some(Wrap(x - y))
    case SubPI => Some(Wrap(x - 4 * y))
    case SubPP => Some(Wrap(Signed(Wrap(x - y)) / 4))
    case MulI => Some(Wrap(x * y))
    case DivI => if y == 0 then None else Some(Wrap(TruncDiv(Signed(x), Signed(y))))
    case RemI => if y == 0 then None else Some(Wrap(Signed(x) - Signed(y) * TruncDiv(Signed(x), Signed(y))))
  }

  function Leave(p: IrProgram, fr: Frame, w: Word, mem: Memory): State {
    var mem' := LeaveFrame(mem, fr.fp, p.Size(fr.func), fr.argc);
    match fr.link
    case Exit => Halted(w, mem')
    case Back(pc, saved, caller) => Running(caller, pc, saved + [w], mem')
  }

  /** The arguments of a call, first parameter first: they were pushed from the last to the first. */
  function PopArgs(ost: seq<Word>, n: nat): seq<Word>
    requires n <= |ost|
  {
    seq(n, i requires 0 <= i < n => ost[|ost| - 1 - i])
  }

  function PushWord(p: IrProgram, s: State, w: Word): Option<State>
    requires s.Running?
  {
    if Sp(p, s.fr, s.ost) - 4 < p.lo then None else Some(s.(pc := s.pc + 1, ost := s.ost + [w]))
  }

  function Jump(p: IrProgram, s: State, l: Label): Option<State>
    requires s.Running?
  {
    if p.Target(l) < |p.code| then Some(s.(pc := p.Target(l))) else None
  }

  function Branch(p: IrProgram, s: State, l: Label, onZero: bool): Option<State>
    requires s.Running?
  {
    if s.ost == [] then None
    else
      var n := |s.ost| - 1;
      var s1 := s.(ost := s.ost[..n]);
      if (s.ost[n] == 0) == onZero then Jump(p, s1, l) else Some(s1.(pc := s.pc + 1))
  }

  function CallStep(p: IrProgram, s: State, f: string, n: nat): Option<State>
    requires s.Running?
  {
    var fp := Sp(p, s.fr, s.ost);
    if |s.ost| < n || f !in p.sizes || Func(f) !in p.code || fp - 8 - 4 * p.Size(f) < p.lo then None
    else
      var fr := Frame(f, fp, n, Back(s.pc + 1, s.ost[..|s.ost| - n], s.fr));
      Some(Running(fr, p.Entry(f), [], EnterFrame(s.mem, fp, p.Size(f), PopArgs(s.ost, n))))
  }

  function Step(p: IrProgram, s: State): Option<State> {
    if s.Halted? || s.pc >= |p.code| then None
    else
      var n := |s.ost|;
      match p.code[s.pc]
      case Func(_) => None
      case EndFunc(_) =>
        if n != 0 || Sp(p, s.fr, s.ost) - 4 < p.lo then None else Some(Leave(p, s.fr, 0, s.mem))
      case Mark(_) => Some(s.(pc := s.pc + 1))
      case CallF(f, argc) => CallStep(p, s, f, argc)
      case Ret => if n != 1 then None else Some(Leave(p, s.fr, s.ost[0], s.mem))
      case Push(k) => PushWord(p, s, Wrap(k))
      case Un(op) =>
        if n < 1 then None else Some(s.(pc := s.pc + 1, ost := s.ost[..n - 1] + [UnaryResult(op, s.ost[n - 1])]))
      case Bin(op) =>
        if n < 2 then None
        else
          var w := BinaryResult(op, s.ost[n - 2], s.ost[n - 1]);
          if w.None? then None else Some(s.(pc := s.pc + 1, ost := s.ost[..n - 2] + [w.value]))
      case FrameAddr(k) => PushWord(p, s, Wrap(s.fr.fp - 12 - 4 * k))
      case GlobalAddr(x) => if x in p.gaddr then PushWord(p, s, Wrap(p.gaddr[x])) else None
      case Load =>
        if n < 1 || s.ost[n - 1] !in s.mem || s.mem[s.ost[n - 1]].None? then None
        else Some(s.(pc := s.pc + 1, ost := s.ost[..n - 1] + [s.mem[s.ost[n - 1]].value]))
      case Store =>
        if n < 2 || s.ost[n - 1] !in s.mem then None
        else Some(s.(pc := s.pc + 1, ost := s.ost[..n - 1], mem := s.mem[s.ost[n - 1] := Some(s.ost[n - 2])]))
      case Pop => if n < 1 then None else Some(s.(pc := s.pc + 1, ost := s.ost[..n - 1]))
      case Br(l) => Jump(p, s, l)
      case Beqz(l) => Branch(p, s, l, true)
      case Bnez(l) => Branch(p, s, l, false)
  }

  function Run(p: IrProgram, s: State, n: nat): Option<State>
    decreases n
  {
    if n == 0 then Some(s)
    else
      var s1 := Step(p, s);
      if s1.None? then None else Run(p, s1.value, n - 1)
  }

  ghost predicate Reaches(p: IrProgram, s: State, t: State) {
    exists n: nat :: Run(p, s, n) == Some(t)
  }

  lemma {:induction false} RunAppend(p: IrProgram, s: State, n: nat, t: State, m: nat)
    requires Run(p, s, n) == Some(t)
    ensures Run(p, s, n + m) == Run(p, t, m)
    decreases n
  {
    hide Step;
    if n > 0 { RunAppend(p, Step(p, s).value, n - 1, t, m); }
  }

  lemma Trans(p: IrProgram, s: State, t: State, u: State)
    requires Reaches(p, s, t) && Reaches(p, t, u)
    ensures Reaches(p, s, u)
  {
    var n: nat :| Run(p, s, n) == Some(t);
    var m: nat :| Run(p, t, m) == Some(u);
    RunAppend(p, s, n, t, m);
    assert Run(p, s, n + m) == Some(u);
  }

  lemma Here(p: IrProgram, s: State)
    ensures Reaches(p, s, s)
  {
    assert Run(p, s, 0) == Some(s);
  }

  lemma One(p: IrProgram, s: State, t: State)
    requires Step(p, s) == Some(t)
    ensures Reaches(p, s, t)
  {
    assert Run(p, t, 0) == Some(t);
    assert Run(p, s, 1) == Some(t);
  }

  /** Reach t, then take one step. */
  lemma Then(p: IrProgram, s: State, t: State, u: State)
    requires Reaches(p, s, t) && Step(p, t) == Some(u)
    ensures Reaches(p, s, u)
  {
    One(p, t, u);
    Trans(p, s, t, u);
  }
}
