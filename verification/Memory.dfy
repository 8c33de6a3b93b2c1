/** Variable memory: the cells the program may use, keyed by address; None is a cell never written. */
module Memory {
  import opened Wrappers
  import opened Words

  type Memory = map<int, Option<Word>>

  predicate InParams(a: int, fp: int, argc: nat) {
    fp <= a < fp + 4 * argc && (a - fp) % 4 == 0
  }

  predicate InLocals(a: int, fp: int, slots: nat) {
    fp - 8 - 4 * slots <= a < fp - 8 && (a - fp) % 4 == 0
  }

  /** The cells of one activation: parameters at fp + 4k, slots at fp - 12 - 4k. */
  predicate InFrame(a: int, fp: int, slots: nat, argc: nat) {
    InParams(a, fp, argc) || InLocals(a, fp, slots)
  }

  /** Entering a function makes its parameters initialised cells and its slots fresh ones. */
  function EnterFrame(mem: Memory, fp: int, slots: nat, args: seq<Word>): Memory {
    mem
    + (map a | fp - 8 - 4 * slots <= a < fp - 8 && InLocals(a, fp, slots) :: None)
    + (map a | fp <= a < fp + 4 * |args| && InParams(a, fp, |args|) :: Some(args[(a - fp) / 4]))
  }

  function LeaveFrame(mem: Memory, fp: int, slots: nat, argc: nat): Memory {
    map a | a in mem && !InFrame(a, fp, slots, argc) :: mem[a]
  }
}
