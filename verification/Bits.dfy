/** Bitwise operators on words, bit by bit. */
module Bits {
  import opened Words

  datatype BitOp = OrBit | AndBit | XorBit

  function Bit(op: BitOp, a: nat, b: nat): (r: nat)
    ensures r <= 1
  {
    match op
    case OrBit => if a == 1 || b == 1 then 1 else 0
    case AndBit => if a == 1 && b == 1 then 1 else 0
    case XorBit => if a != b then 1 else 0
  }

  function Pow2(k: nat): (r: nat)
    ensures r >= 1
  {
    if k == 0 then 1 else 2 * Pow2(k - 1)
  }

  /** The low k bits of x and y combined bit by bit. */
  function Bitwise(k: nat, op: BitOp, x: nat, y: nat): (r: nat)
    ensures r < Pow2(k)
    decreases k
  {
    if k == 0 then 0 else 2 * Bitwise(k - 1, op, x / 2, y / 2) + Bit(op, x % 2, y % 2)
  }

  lemma Pow2Word()
    ensures Pow2(32) == TWO_32
  {
    assert Pow2(8) == 256;
    assert Pow2(16) == 65536 by { assert Pow2(12) == 4096; }
    assert Pow2(24) == 0x100_0000 by { assert Pow2(20) == 0x10_0000; }
    assert Pow2(28) == 0x1000_0000;
  }

  function BitsOf(op: BitOp, x: Word, y: Word): Word {
    Pow2Word();
    Bitwise(32, op, x, y)
  }

  lemma {:induction false} OrIsZero(k: nat, x: nat, y: nat)
    requires x < Pow2(k) && y < Pow2(k)
    ensures Bitwise(k, OrBit, x, y) == 0 <==> x == 0 && y == 0
  {
    if k > 0 { OrIsZero(k - 1, x / 2, y / 2); }
  }

  lemma {:induction false} ZeroBits(k: nat, op: BitOp)
    ensures Bitwise(k, op, 0, 0) == 0
  {
    if k > 0 { ZeroBits(k - 1, op); }
  }

  lemma OrWords(x: Word, y: Word)
    ensures BitsOf(OrBit, x, y) == 0 <==> x == 0 && y == 0
  {
    Pow2Word();
    OrIsZero(32, x, y);
  }

  lemma FlagBitsAt(k: nat, op: BitOp, x: nat, y: nat)
    requires k >= 1 && x <= 1 && y <= 1
    ensures Bitwise(k, op, x, y) == Bit(op, x, y)
  {
    ZeroBits(k - 1, op);
  }

  lemma FlagBits(op: BitOp, x: Word, y: Word)
    requires x <= 1 && y <= 1
    ensures BitsOf(op, x, y) == Bit(op, x, y)
  {
    FlagBitsAt(32, op, x, y);
  }
}
