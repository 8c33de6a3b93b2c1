/** How the compiled program keeps the state of the IR machine in its memory: variables in their cells,
    operand stacks just below their frames, saved ra and fp on top of each frame. */
module StackLayout {
  import opened Wrappers
  import opened Words
  import opened Ir
  import opened Memory
  import opened IrMachine
  import AsmGen

  /** What the compiled program was entered with: return address, frame and stack pointer, stack top. */
  datatype Boot = Boot(ra: Word, fp: Word, sp: Word, hi: int)

  /** The stack region is word-aligned and within the 32-bit address space. */
  predicate Space(p: IrProgram, boot: Boot) {
    0 <= p.lo <= boot.hi < TWO_32 && p.lo % 4 == 0 && boot.hi % 4 == 0
  }

  /** Where the expansion of IR line n starts. */
  function Off(p: IrProgram, n: nat): nat
    requires n <= |p.code|
  {
    |AsmGen.Lines(p.sizes, p.code, n)|
  }

  ghost predicate Ram(p: IrProgram, boot: Boot, m: map<int, Word>) {
    forall a | p.lo <= a < boot.hi && a % 4 == 0 :: a in m
  }

  /** The address of operand stack word i below address b. */
  function SlotAt(b: int, i: int): int {
    b - 4 * (i + 1)
  }

  /** The operand stack lies below address b, its first word highest. */
  ghost predicate StackHolds(m: map<int, Word>, b: int, ost: seq<Word>) {
    forall i | 0 <= i < |ost| :: SlotAt(b, i) in m && m[SlotAt(b, i)] == ost[i]
  }

  ghost predicate VarsAgree(mem: Memory, m: map<int, Word>) {
    forall a | a in mem :: a in m && (mem[a].Some? ==> m[a] == mem[a].value)
  }

  ghost predicate KeysClear(keys: set<int>, lo: int, b: int) {
    forall a | a in keys :: !(lo <= a < b)
  }

  function Without(keys: set<int>, fp: int, slots: nat, argc: nat): set<int> {
    set a | a in keys && !InFrame(a, fp, slots, argc)
  }

  predicate Cell(m: map<int, Word>, keys: set<int>, a: int, w: int) {
    a in m && m[a] == w && a !in keys
  }

  /** Line pc - 1 is the call that created fr, and pc lies in the calling function. */
  predicate ReturnsTo(p: IrProgram, pc: nat, fr: Frame, caller: Frame) {
    && 0 < pc < |p.code| && p.code[pc - 1] == CallF(fr.func, fr.argc)
    && !p.code[pc].Func? && AsmGen.CurFunc(p.code, pc) == caller.func
  }

  function ReturnAddress(p: IrProgram, boot: Boot, fr: Frame): int {
    match fr.link
    case Exit => boot.ra
    case Back(pc, _, caller) => if 0 < pc <= |p.code| then Off(p, pc - 1) + 1 else 0
  }

  function CallerFp(boot: Boot, fr: Frame): int {
    match fr.link
    case Exit => boot.fp
    case Back(_, _, caller) => caller.fp
  }

  /** The chain of activations: no variable cell lies below a frame or among the saved words, and the
      saved words of every pending caller are in place. */
  ghost predicate FrameOk(p: IrProgram, boot: Boot, m: map<int, Word>, keys: set<int>, fr: Frame)
    decreases fr
  {
    && p.lo <= Base(p, fr) && fr.fp % 4 == 0 && fr.fp + 4 * fr.argc <= boot.hi
    && KeysClear(keys, p.lo, Base(p, fr))
    && Cell(m, keys, fr.fp - 4, ReturnAddress(p, boot, fr))
    && Cell(m, keys, fr.fp - 8, CallerFp(boot, fr))
    && match fr.link
       case Exit => fr.fp == boot.sp
       case Back(pc, saved, caller) =>
         && ReturnsTo(p, pc, fr, caller)
         && Sp(p, caller, saved) == fr.fp + 4 * fr.argc
         && StackHolds(m, Base(p, caller), saved)
         && FrameOk(p, boot, m, Without(keys, fr.fp, p.Size(fr.func), fr.argc), caller)
  }

  /** Writing only to variable cells or below the frame leaves the chain of activations intact. */
  lemma {:induction false} FrameRule(p: IrProgram, boot: Boot, m: map<int, Word>, m': map<int, Word>, keys: set<int>, fr: Frame)
    requires FrameOk(p, boot, m, keys, fr)
    requires forall a | a in m && a !in keys && a >= fr.fp - 8 :: a in m' && m'[a] == m[a]
    ensures FrameOk(p, boot, m', keys, fr)
    decreases fr
  {
    match fr.link {
      case Exit =>
      case Back(pc, saved, caller) =>
        var keys1 := Without(keys, fr.fp, p.Size(fr.func), fr.argc);
        forall i | 0 <= i < |saved|
          ensures SlotAt(Base(p, caller), i) in m' && m'[SlotAt(Base(p, caller), i)] == saved[i]
        {
          var a := SlotAt(Base(p, caller), i);
          assert a in m && m[a] == saved[i];
          assert a in keys ==> a in keys1;
          assert p.lo <= a < Base(p, caller);
        }
        forall a | a in m && a !in keys1 && a >= caller.fp - 8 ensures a in m' && m'[a] == m[a] {
          assert a !in keys;
        }
        FrameRule(p, boot, m, m', keys1, caller);
    }
  }

  /** A running activation as the compiled program holds it. */
  ghost predicate Holds(p: IrProgram, boot: Boot, fr: Frame, ost: seq<Word>, mem: Memory, fp: Word, sp: Word, m: map<int, Word>) {
    && Space(p, boot)
    && fp == fr.fp && sp == Sp(p, fr, ost) && p.lo <= sp
    && Ram(p, boot, m) && StackHolds(m, Base(p, fr), ost) && VarsAgree(mem, m)
    && FrameOk(p, boot, m, mem.Keys, fr)
  }

  lemma PushHolds(p: IrProgram, boot: Boot, fr: Frame, ost: seq<Word>, mem: Memory, fp: Word, sp: Word, m: map<int, Word>, w: Word)
    requires Holds(p, boot, fr, ost, mem, fp, sp, m) && sp - 4 >= p.lo
    ensures sp - 4 in m && Wrap(sp - 4) == sp - 4
    ensures Holds(p, boot, fr, ost + [w], mem, fp, sp - 4, m[sp - 4 := w])
  {
    var m' := m[sp - 4 := w];
    assert sp % 4 == 0;
    FrameRule(p, boot, m, m', mem.Keys, fr);
    var b := Base(p, fr);
    assert VarsAgree(mem, m') by {
      assert sp - 4 !in mem.Keys;
    }
    forall i | 0 <= i < |ost + [w]| ensures SlotAt(b, i) in m' && m'[SlotAt(b, i)] == (ost + [w])[i] {
      if i < |ost| { assert SlotAt(b, i) in m && m[SlotAt(b, i)] == ost[i]; }
    }
  }

  lemma PopHolds(p: IrProgram, boot: Boot, fr: Frame, ost: seq<Word>, mem: Memory, fp: Word, sp: Word, m: map<int, Word>)
    requires Holds(p, boot, fr, ost, mem, fp, sp, m) && ost != []
    ensures sp + 4 < TWO_32 && sp in m && m[sp] == ost[|ost| - 1]
    ensures Holds(p, boot, fr, ost[..|ost| - 1], mem, fp, sp + 4, m)
  {
    assert SlotAt(Base(p, fr), |ost| - 1) == sp;
  }

  /** A store to a variable cell. */
  lemma StoreHolds(p: IrProgram, boot: Boot, fr: Frame, ost: seq<Word>, mem: Memory, fp: Word, sp: Word, m: map<int, Word>,
                   a: int, w: Word)
    requires Holds(p, boot, fr, ost, mem, fp, sp, m) && a in mem
    ensures a in m && Holds(p, boot, fr, ost, mem[a := Some(w)], fp, sp, m[a := w])
  {
    var m' := m[a := w];
    assert mem[a := Some(w)].Keys == mem.Keys;
    FrameRule(p, boot, m, m', mem.Keys, fr);
    var b := Base(p, fr);
    forall i | 0 <= i < |ost| ensures SlotAt(b, i) in m' && m'[SlotAt(b, i)] == ost[i] {
      assert SlotAt(b, i) in m && m[SlotAt(b, i)] == ost[i];
      assert !(p.lo <= a < b);
    }
  }

  lemma EnterKeys(mem: Memory, lo: int, b: int, sp: int, slots: nat, args: seq<Word>)
    requires KeysClear(mem.Keys, lo, b) && sp + 4 * |args| <= b && lo <= sp - 8 - 4 * slots
    ensures Without(EnterFrame(mem, sp, slots, args).Keys, sp, slots, |args|) == mem.Keys
  {
    forall a | a in mem ensures !InFrame(a, sp, slots, |args|) {
      assert !(lo <= a < b);
    }
  }

  lemma EnterChain(p: IrProgram, boot: Boot, fr: Frame, mem: Memory, m: map<int, Word>, m1: map<int, Word>,
                   fr1: Frame, pc: nat, saved: seq<Word>, args: seq<Word>)
    requires FrameOk(p, boot, m, mem.Keys, fr) && StackHolds(m, Base(p, fr), saved)
    requires fr1.link == Back(pc, saved, fr) && ReturnsTo(p, pc, fr1, fr) && fr1.argc == |args|
    requires Sp(p, fr, saved) == fr1.fp + 4 * |args| && fr1.fp % 4 == 0 && p.lo <= Base(p, fr1)
    requires forall a | a in m && a >= fr1.fp :: a in m1 && m1[a] == m[a]
    requires fr1.fp - 4 in m1 && m1[fr1.fp - 4] == ReturnAddress(p, boot, fr1)
    requires fr1.fp - 8 in m1 && m1[fr1.fp - 8] == fr.fp
    ensures FrameOk(p, boot, m1, EnterFrame(mem, fr1.fp, p.Size(fr1.func), args).Keys, fr1)
  {
    hide EnterFrame, ReturnsTo, ReturnAddress;
    var keys1 := EnterFrame(mem, fr1.fp, p.Size(fr1.func), args).Keys;
    EnterKeys(mem, p.lo, Base(p, fr), fr1.fp, p.Size(fr1.func), args);
    FrameRule(p, boot, m, m1, mem.Keys, fr);
    forall a | a in keys1 ensures !(p.lo <= a < Base(p, fr1)) && a != fr1.fp - 4 && a != fr1.fp - 8 {
      if !InFrame(a, fr1.fp, p.Size(fr1.func), |args|) {
        assert a in mem.Keys by { assert a in Without(keys1, fr1.fp, p.Size(fr1.func), |args|); }
        assert !(p.lo <= a < Base(p, fr));
      }
    }
    assert StackHolds(m1, Base(p, fr), saved) by {
      forall i | 0 <= i < |saved| ensures SlotAt(Base(p, fr), i) in m1 && m1[SlotAt(Base(p, fr), i)] == saved[i] {
        assert SlotAt(Base(p, fr), i) in m;
      }
    }
  }

  lemma EnterVars(p: IrProgram, boot: Boot, fr: Frame, ost: seq<Word>, mem: Memory, sp: int, m: map<int, Word>,
                  m1: map<int, Word>, slots: nat, argc: nat)
    requires Space(p, boot) && Ram(p, boot, m) && StackHolds(m, Base(p, fr), ost) && VarsAgree(mem, m)
    requires KeysClear(mem.Keys, p.lo, Base(p, fr)) && Base(p, fr) <= boot.hi
    requires sp == Sp(p, fr, ost) && sp % 4 == 0 && argc <= |ost| && p.lo <= sp - 8 - 4 * slots
    requires forall a | a in m && a != sp - 4 && a != sp - 8 :: a in m1 && m1[a] == m[a]
    ensures VarsAgree(EnterFrame(mem, sp, slots, PopArgs(ost, argc)), m1)
  {
    hide EnterFrame, InParams, InLocals, StackHolds;
    var mem1 := EnterFrame(mem, sp, slots, PopArgs(ost, argc));
    ParametersAgree(p, fr, ost, mem, sp, m, slots, argc);
    forall a | a in mem1 ensures a in m1 && (mem1[a].Some? ==> m1[a] == mem1[a].value) {
      EnterCell(mem, sp, slots, PopArgs(ost, argc), a);
    }
  }

  /** Where a cell of a memory just entered comes from. */
  lemma EnterCell(mem: Memory, sp: int, slots: nat, args: seq<Word>, a: int)
    requires a in EnterFrame(mem, sp, slots, args)
    ensures var mem1 := EnterFrame(mem, sp, slots, args);
            || (InParams(a, sp, |args|) && sp <= a)
            || (mem1[a].None? && sp - 8 - 4 * slots <= a < sp - 8 && (a - sp) % 4 == 0)
            || (a in mem && mem1[a] == mem[a] && !(sp - 8 - 4 * slots <= a < sp - 8 && (a - sp) % 4 == 0))
  {
  }

  /** Entering a function: its frame goes below the operand stack, whose top words become parameters. */
  lemma EnterHolds(p: IrProgram, boot: Boot, fr: Frame, ost: seq<Word>, mem: Memory, fp: Word, sp: Word, m: map<int, Word>,
                   f: string, argc: nat, pc: nat, ra: Word)
    requires Holds(p, boot, fr, ost, mem, fp, sp, m) && argc <= |ost|
    requires sp - 8 - 4 * p.Size(f) >= p.lo
    requires var fr1 := Frame(f, sp, argc, Back(pc, ost[..|ost| - argc], fr));
             ReturnsTo(p, pc, fr1, fr) && ra == ReturnAddress(p, boot, fr1)
    ensures var fr1 := Frame(f, sp, argc, Back(pc, ost[..|ost| - argc], fr));
            var mem1 := EnterFrame(mem, sp, p.Size(f), PopArgs(ost, argc));
            && sp - 4 in m && sp - 8 in m
            && Holds(p, boot, fr1, [], mem1, sp, sp - 8 - 4 * p.Size(f), m[sp - 4 := ra][sp - 8 := fp])
  {
    hide EnterFrame, ReturnsTo, ReturnAddress, VarsAgree;
    var saved := ost[..|ost| - argc];
    var fr1 := Frame(f, sp, argc, Back(pc, saved, fr));
    var m1 := m[sp - 4 := ra][sp - 8 := fp];
    assert StackHolds(m, Base(p, fr), saved) by {
      forall i | 0 <= i < |saved| ensures SlotAt(Base(p, fr), i) in m && m[SlotAt(Base(p, fr), i)] == saved[i] {
        assert saved[i] == ost[i];
      }
    }
    EnterChain(p, boot, fr, mem, m, m1, fr1, pc, saved, PopArgs(ost, argc));
    EnterVars(p, boot, fr, ost, mem, sp, m, m1, p.Size(f), argc);
  }

  lemma ParametersAgree(p: IrProgram, fr: Frame, ost: seq<Word>, mem: Memory, sp: int, m: map<int, Word>, slots: nat, argc: nat)
    requires StackHolds(m, Base(p, fr), ost) && sp == Sp(p, fr, ost) && argc <= |ost|
    ensures var mem1 := EnterFrame(mem, sp, slots, PopArgs(ost, argc));
            forall a | InParams(a, sp, argc) :: a in mem1 && a in m && mem1[a] == Some(m[a])
  {
    var mem1 := EnterFrame(mem, sp, slots, PopArgs(ost, argc));
    forall a | InParams(a, sp, argc) ensures a in mem1 && a in m && mem1[a] == Some(m[a]) {
      var k := (a - sp) / 4;
      assert a == sp + 4 * k && 0 <= k < argc;
      assert mem1[a] == Some(PopArgs(ost, argc)[k]);
      assert PopArgs(ost, argc)[k] == ost[|ost| - 1 - k];
      assert a == SlotAt(Base(p, fr), |ost| - 1 - k);
    }
  }

  /** Leaving a function: the caller's operand stack and variables are as they were left. */
  lemma LeaveHolds(p: IrProgram, boot: Boot, fr: Frame, ost: seq<Word>, mem: Memory, fp: Word, sp: Word, m: map<int, Word>)
    requires Holds(p, boot, fr, ost, mem, fp, sp, m) && fr.link.Back?
    ensures var mem1 := LeaveFrame(mem, fr.fp, p.Size(fr.func), fr.argc);
            && 0 <= fr.link.caller.fp < TWO_32 && fr.fp + 4 * fr.argc < TWO_32
            && Holds(p, boot, fr.link.caller, fr.link.saved, mem1, fr.link.caller.fp, fr.fp + 4 * fr.argc, m)
  {
    var mem1 := LeaveFrame(mem, fr.fp, p.Size(fr.func), fr.argc);
    assert mem1.Keys == Without(mem.Keys, fr.fp, p.Size(fr.func), fr.argc);
  }
}
