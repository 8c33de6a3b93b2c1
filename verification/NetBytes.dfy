/** 32-bit fields in network order, held as little-endian words: bytes, swaps, masks, prefixes. */
module NetBytes {
  import opened Words
  import opened Bits
  import opened Checksum

  function B0(x: Word): Byte { x % 0x100 }
  function B1(x: Word): Byte { x / 0x100 % 0x100 }
  function B2(x: Word): Byte { x / 0x1_0000 % 0x100 }
  function B3(x: Word): Byte { x / 0x100_0000 }

  /** The word whose bytes in memory are b0, b1, b2, b3. */
  function FromBytes(b0: int, b1: int, b2: int, b3: int): (x: int)
    ensures 0 <= b0 < 256 && 0 <= b1 < 256 && 0 <= b2 < 256 && 0 <= b3 < 256 ==> 0 <= x < TWO_32
  {
    b0 + 0x100 * b1 + 0x1_0000 * b2 + 0x100_0000 * b3
  }

  lemma BytesOfWord(x: Word)
    ensures FromBytes(B0(x), B1(x), B2(x), B3(x)) == x
  {
    var y := x / 0x100;
    var z := y / 0x100;
    assert x / 0x1_0000 == z && x / 0x100_0000 == z / 0x100;
    assert x == 0x100 * y + x % 0x100 && y == 0x100 * z + y % 0x100 && z == 0x100 * (z / 0x100) + z % 0x100;
  }

  lemma LowByte(b: Byte, y: nat)
    ensures (b + 0x100 * y) % 0x100 == b && (b + 0x100 * y) / 0x100 == y
  {
  }

  lemma WordOfBytes(b0: Byte, b1: Byte, b2: Byte, b3: Byte)
    ensures var x := FromBytes(b0, b1, b2, b3); B0(x) == b0 && B1(x) == b1 && B2(x) == b2 && B3(x) == b3
  {
    var z := b2 + 0x100 * b3;
    var y := b1 + 0x100 * z;
    LowByte(b2, b3);
    LowByte(b1, z);
    LowByte(b0, y);
  }

  /** ntohl and htonl on a little-endian machine. */
  function Swap(x: Word): Word {
    FromBytes(B3(x), B2(x), B1(x), B0(x))
  }

  lemma SwapTwice(x: Word)
    ensures Swap(Swap(x)) == x
  {
    hide B0, B1, B2, B3, FromBytes;
    WordOfBytes(B3(x), B2(x), B1(x), B0(x));
    BytesOfWord(x);
  }

  // ----- powers and population counts -----

  lemma {:induction false} Pow2Sum(a: nat, b: nat)
    ensures Pow2(a + b) == Pow2(a) * Pow2(b)
    decreases a
  {
    if a > 0 { Pow2Sum(a - 1, b); }
  }

  function Popcount(m: nat): nat {
    if m == 0 then 0 else m % 2 + Popcount(m / 2)
  }

  lemma {:induction false} PopSplit(k: nat, x: nat, y: nat)
    requires x < Pow2(k)
    ensures Popcount(x + Pow2(k) * y) == Popcount(x) + Popcount(y)
    decreases k
  {
    hide Pow2, Popcount;
    Pow2Step(k);
    PopZero();
    if k > 0 {
      PopSplit(k - 1, x / 2, y);
      var z := x + Pow2(k) * y;
      DoubleProduct(Pow2(k - 1), y);
      assert z / 2 == x / 2 + Pow2(k - 1) * y && z % 2 == x % 2;
      PopHalf(z);
      PopHalf(x);
    }
  }

  lemma PopHalf(z: nat)
    ensures Popcount(z) == z % 2 + Popcount(z / 2)
  {
  }

  lemma Pow2Eight()
    ensures Pow2(8) == 256
  {
  }

  lemma PopBytes(b0: Byte, b1: Byte, b2: Byte, b3: Byte)
    ensures Popcount(FromBytes(b0, b1, b2, b3)) == Popcount(b0) + Popcount(b1) + Popcount(b2) + Popcount(b3)
  {
    hide Popcount;
    Pow2Eight();
    PopSplit(8, b2, b3);
    PopSplit(8, b1, b2 + 256 * b3);
    PopSplit(8, b0, b1 + 256 * (b2 + 256 * b3));
  }

  lemma PopSwap(x: Word)
    ensures Popcount(Swap(x)) == Popcount(x)
  {
    hide B0, B1, B2, B3, FromBytes, Popcount;
    PopBytes(B0(x), B1(x), B2(x), B3(x));
    PopBytes(B3(x), B2(x), B1(x), B0(x));
    BytesOfWord(x);
  }

  // ----- masks -----

  /** The mask of a prefix length in host order. */
  function Ones(len: nat): (m: int)
    requires len <= 32
    ensures 0 <= m < TWO_32
  {
    Pow2Word();
    Pow2Sum(32 - len, len);
    PowAtMost(Pow2(32 - len), Pow2(len));
    TWO_32 - Pow2(32 - len)
  }

  lemma PowAtMost(a: nat, b: nat)
    requires a >= 1 && b >= 1
    ensures a <= a * b
  {
  }

  const MASK_BE: seq<Word> := [
    0x00000000,
    0x00000080, 0x000000c0, 0x000000e0, 0x000000f0, 0x000000f8, 0x000000fc, 0x000000fe, 0x000000ff,
    0x000080ff, 0x0000c0ff, 0x0000e0ff, 0x0000f0ff, 0x0000f8ff, 0x0000fcff, 0x0000feff, 0x0000ffff,
    0x0080ffff, 0x00c0ffff, 0x00e0ffff, 0x00f0ffff, 0x00f8ffff, 0x00fcffff, 0x00feffff, 0x00ffffff,
    0x80ffffff, 0xc0ffffff, 0xe0ffffff, 0xf0ffffff, 0xf8ffffff, 0xfcffffff, 0xfeffffff, 0xffffffff]

  /** Byte j of the mask in network order: full, partial or empty. */
  function MaskByte(len: nat, j: nat): Byte
    requires len <= 32 && j < 4
  {
    if len >= 8 * (j + 1) then 255 else if len <= 8 * j then 0 else [0, 128, 192, 224, 240, 248, 252, 254][len - 8 * j]
  }

  /** The byte that holds the last of the leading ones. */
  lemma PartialByte(r: nat) returns (b: Byte)
    requires r <= 8
    ensures b == [0, 128, 192, 224, 240, 248, 252, 254, 255][r] == 256 - Pow2(8 - r)
  {
    b := [0, 128, 192, 224, 240, 248, 252, 254, 255][r];
    Pow2Eight();
    assert Pow2(4) == 16;
  }

  /** One partial byte, full ones above it and empty ones below. */
  lemma OnesBytes(len: nat)
    requires len <= 32
    ensures Ones(len) == FromBytes(MaskByte(len, 3), MaskByte(len, 2), MaskByte(len, 1), MaskByte(len, 0))
  {
    hide Pow2, Ones;
    var q := if len <= 8 then 0 else if len <= 16 then 1 else if len <= 24 then 2 else 3;
    var r := len - 8 * q;
    var b := PartialByte(r);
    OnesIs(q, r);
    BytePowers();
    var p := Pow2(8 - r);
    match q {
      case 0 => assert Ones(len) == TWO_32 - 0x100_0000 * p;
      case 1 => assert Ones(len) == TWO_32 - 0x1_0000 * p;
      case 2 => assert Ones(len) == TWO_32 - 0x100 * p;
      case 3 => assert Ones(len) == TWO_32 - p;
    }
    MaskBytesAre(len, q, b);
  }

  lemma MaskBytesAre(len: nat, q: nat, b: Byte)
    requires len <= 32 && q <= 3 && 8 * q <= len <= 8 * q + 8 && (q > 0 ==> len > 8 * q)
    requires b == [0, 128, 192, 224, 240, 248, 252, 254, 255][len - 8 * q]
    ensures forall j | 0 <= j < 4 :: MaskByte(len, j) == if j < q then 255 else if j == q then b else 0
  {
  }

  lemma OnesIs(q: nat, r: nat)
    requires q <= 3 && r <= 8
    ensures Ones(8 * q + r) == TWO_32 - Pow2(8 * (3 - q)) * Pow2(8 - r)
  {
    hide Pow2;
    Pow2Sum(8 * (3 - q), 8 - r);
  }

  lemma BytePowers()
    ensures Pow2(0) == 1 && Pow2(8) == 0x100 && Pow2(16) == 0x1_0000 && Pow2(24) == 0x100_0000
  {
    hide Pow2;
    Pow2Eight();
    Pow2Sum(8, 8);
    Pow2Sum(8, 16);
    Pow2Step(0);
  }

  lemma TableBytes(len: nat)
    requires len <= 32
    ensures MASK_BE[len] == FromBytes(MaskByte(len, 0), MaskByte(len, 1), MaskByte(len, 2), MaskByte(len, 3))
  {
    if len <= 16 {
      if len <= 8 { TableFirst(len); } else { TableSecond(len); }
    } else {
      if len <= 24 { TableThird(len); } else { TableFourth(len); }
    }
  }

  lemma TableFirst(len: nat)
    requires 0 <= len <= 8
    ensures MASK_BE[len] == FromBytes(MaskByte(len, 0), MaskByte(len, 1), MaskByte(len, 2), MaskByte(len, 3))
  {
    match len {
      case 0 => assert MASK_BE[0] == 0x0;
      case 1 => assert MASK_BE[1] == 0x80;
      case 2 => assert MASK_BE[2] == 0xc0;
      case 3 => assert MASK_BE[3] == 0xe0;
      case 4 => assert MASK_BE[4] == 0xf0;
      case 5 => assert MASK_BE[5] == 0xf8;
      case 6 => assert MASK_BE[6] == 0xfc;
      case 7 => assert MASK_BE[7] == 0xfe;
      case 8 => assert MASK_BE[8] == 0xff;
    }
  }

  lemma TableSecond(len: nat)
    requires 9 <= len <= 16
    ensures MASK_BE[len] == FromBytes(MaskByte(len, 0), MaskByte(len, 1), MaskByte(len, 2), MaskByte(len, 3))
  {
    match len {
      case 9 => assert MASK_BE[9] == 0x80ff;
      case 10 => assert MASK_BE[10] == 0xc0ff;
      case 11 => assert MASK_BE[11] == 0xe0ff;
      case 12 => assert MASK_BE[12] == 0xf0ff;
      case 13 => assert MASK_BE[13] == 0xf8ff;
      case 14 => assert MASK_BE[14] == 0xfcff;
      case 15 => assert MASK_BE[15] == 0xfeff;
      case 16 => assert MASK_BE[16] == 0xffff;
    }
  }

  lemma TableThird(len: nat)
    requires 17 <= len <= 24
    ensures MASK_BE[len] == FromBytes(MaskByte(len, 0), MaskByte(len, 1), MaskByte(len, 2), MaskByte(len, 3))
  {
    match len {
      case 17 => assert MASK_BE[17] == 0x80ffff;
      case 18 => assert MASK_BE[18] == 0xc0ffff;
      case 19 => assert MASK_BE[19] == 0xe0ffff;
      case 20 => assert MASK_BE[20] == 0xf0ffff;
      case 21 => assert MASK_BE[21] == 0xf8ffff;
      case 22 => assert MASK_BE[22] == 0xfcffff;
      case 23 => assert MASK_BE[23] == 0xfeffff;
      case 24 => assert MASK_BE[24] == 0xffffff;
    }
  }

  lemma TableFourth(len: nat)
    requires 25 <= len <= 32
    ensures MASK_BE[len] == FromBytes(MaskByte(len, 0), MaskByte(len, 1), MaskByte(len, 2), MaskByte(len, 3))
  {
    match len {
      case 25 => assert MASK_BE[25] == 0x80ffffff;
      case 26 => assert MASK_BE[26] == 0xc0ffffff;
      case 27 => assert MASK_BE[27] == 0xe0ffffff;
      case 28 => assert MASK_BE[28] == 0xf0ffffff;
      case 29 => assert MASK_BE[29] == 0xf8ffffff;
      case 30 => assert MASK_BE[30] == 0xfcffffff;
      case 31 => assert MASK_BE[31] == 0xfeffffff;
      case 32 => assert MASK_BE[32] == 0xffffffff;
    }
  }

  /** The table holds the prefix masks in network byte order. */
  lemma MaskTable(len: nat)
    requires len <= 32
    ensures MASK_BE[len] == Swap(Ones(len))
  {
    hide MaskByte, FromBytes, B0, B1, B2, B3, Ones;
    OnesBytes(len);
    TableBytes(len);
    WordOfBytes(MaskByte(len, 3), MaskByte(len, 2), MaskByte(len, 1), MaskByte(len, 0));
  }

  lemma {:induction false} PopAllOnes(n: nat)
    ensures Popcount(Pow2(n) - 1) == n
    decreases n
  {
    hide Popcount, Pow2;
    Pow2Step(n);
    if n > 0 {
      PopAllOnes(n - 1);
      PopHalf(Pow2(n) - 1);
    } else {
      PopZero();
    }
  }

  /** The receiver recovers the prefix length from the mask by counting bits. */
  lemma MaskPopcount(len: nat)
    requires len <= 32
    ensures Popcount(MASK_BE[len]) == len
  {
    hide Popcount, Pow2, Swap, Ones;
    MaskTable(len);
    PopSwap(Ones(len));
    PopOnes(len);
  }

  lemma PopOnes(len: nat)
    requires len <= 32
    ensures Popcount(Ones(len)) == len
  {
    hide Popcount, Pow2;
    PopAllOnes(len);
    PopSplit(32 - len, 0, Pow2(len) - 1);
    Pow2Sum(32 - len, len);
    Pow2Word();
    PopZero();
    OneFewer(Pow2(32 - len), Pow2(len));
  }

  lemma OneFewer(p: int, q: int)
    ensures p * (q - 1) == p * q - p
  {
  }

  lemma PopZero()
    ensures Popcount(0) == 0
  {
  }

  // ----- contiguity -----

  /** The parser's loop: shift left while the top bit is set. */
  function Strip(m: Word): Word
    decreases m
  {
    if m >= TWO_31 then Strip(2 * m - TWO_32) else m
  }

  /** Leading ones, then zeros, in network order. */
  predicate Contiguous(mask: Word) {
    exists len :: 0 <= len <= 32 && Swap(mask) == Ones(len)
  }

  lemma {:induction false} StripOnes(len: nat)
    requires len <= 32
    ensures Strip(Ones(len)) == 0
    decreases len
  {
    hide Ones;
    if len > 0 {
      OnesShift(len);
      StripOnes(len - 1);
    } else {
      NoOnes();
    }
  }

  lemma NoOnes()
    ensures Ones(0) == 0
  {
    hide Pow2;
    Pow2Word();
  }

  lemma OnesShift(len: nat)
    requires 0 < len <= 32
    ensures Ones(len) >= TWO_31 && 2 * Ones(len) - TWO_32 == Ones(len - 1)
  {
    hide Pow2;
    assert Ones(len - 1) >= 0;
    Pow2Step(33 - len);
  }

  lemma {:induction false} StripInverse(m: Word) returns (len: nat)
    requires Strip(m) == 0
    ensures len <= 32 && m == Ones(len)
    decreases m
  {
    hide Ones;
    if m >= TWO_31 {
      var k := StripInverse(2 * m - TWO_32);
      AllOnesIsOdd();
      assert k < 32 by { assert (2 * m - TWO_32) % 2 == 0; }
      OnesShift(k + 1);
      len := k + 1;
    } else {
      len := 0;
      NoOnes();
    }
  }

  lemma AllOnesIsOdd()
    ensures Ones(32) % 2 == 1
  {
    hide Pow2;
    Pow2Step(0);
  }

  /** Nothing is left after the leading ones exactly when the mask is contiguous. */
  lemma StripDecides(mask: Word)
    ensures Strip(Swap(mask)) == 0 <==> Contiguous(mask)
  {
    hide Ones, Swap, Strip;
    if Strip(Swap(mask)) == 0 {
      var len := StripInverse(Swap(mask));
      assert Swap(mask) == Ones(len);
    }
    if Contiguous(mask) {
      var len :| 0 <= len <= 32 && Swap(mask) == Ones(len);
      StripOnes(len);
    }
  }

  /** The contiguous masks are exactly those of the table. */
  lemma ContiguousIffTable(mask: Word)
    ensures Contiguous(mask) <==> exists len :: 0 <= len <= 32 && mask == MASK_BE[len]
  {
    hide Ones, Swap;
    if Contiguous(mask) {
      var len :| 0 <= len <= 32 && Swap(mask) == Ones(len);
      MaskTable(len);
      SwapTwice(mask);
      assert mask == MASK_BE[len];
    }
    if exists len :: 0 <= len <= 32 && mask == MASK_BE[len] {
      var len :| 0 <= len <= 32 && mask == MASK_BE[len];
      MaskTable(len);
      SwapTwice(Ones(len));
      assert Swap(mask) == Ones(len);
    }
  }

  // ----- masking -----

  /** addr & MASK_BE[len]. */
  function Masked(addr: Word, len: nat): Word
    requires len <= 32
  {
    BitsOf(AndBit, addr, MASK_BE[len])
  }

  /** The first len bits of an address in network order. */
  function Prefix(addr: Word, len: nat): int
    requires len <= 32
  {
    Swap(addr) / Pow2(32 - len)
  }

  lemma {:induction false} BitwiseSplit(j: nat, k: nat, op: BitOp, b: nat, x: nat, c: nat, y: nat)
    requires b < Pow2(j) && c < Pow2(j)
    ensures Bitwise(j + k, op, b + Pow2(j) * x, c + Pow2(j) * y) == Bitwise(j, op, b, c) + Pow2(j) * Bitwise(k, op, x, y)
    decreases j
  {
    hide Pow2, Bitwise;
    Pow2Step(j);
    if j > 0 {
      HalfOf(j, b, x);
      HalfOf(j, c, y);
      BitwiseHalf(j + k, op, b + Pow2(j) * x, c + Pow2(j) * y);
      BitwiseHalf(j, op, b, c);
      BitwiseSplit(j - 1, k, op, b / 2, x, c / 2, y);
      var z := Bitwise(k, op, x, y);
      DoubleProduct(Pow2(j - 1), z);
    } else {
    }
  }

  lemma Pow2Step(j: nat)
    ensures Pow2(j) == if j == 0 then 1 else 2 * Pow2(j - 1)
  {
  }

  lemma DoubleProduct(p: int, z: int)
    ensures (2 * p) * z == 2 * (p * z)
  {
  }

  lemma BitwiseHalf(k: nat, op: BitOp, x: nat, y: nat)
    requires k > 0
    ensures Bitwise(k, op, x, y) == 2 * Bitwise(k - 1, op, x / 2, y / 2) + Bit(op, x % 2, y % 2)
  {
  }

  lemma HalfOf(j: nat, b: nat, x: nat)
    requires j > 0
    ensures (b + Pow2(j) * x) / 2 == b / 2 + Pow2(j - 1) * x && (b + Pow2(j) * x) % 2 == b % 2
  {
    assert Pow2(j) * x == 2 * (Pow2(j - 1) * x);
  }

  function And8(b: Byte, c: Byte): (r: nat)
    ensures r < 256
  {
    Pow2Eight();
    Bitwise(8, AndBit, b, c)
  }

  lemma AndBytes(b0: Byte, b1: Byte, b2: Byte, b3: Byte, c0: Byte, c1: Byte, c2: Byte, c3: Byte)
    ensures BitsOf(AndBit, FromBytes(b0, b1, b2, b3), FromBytes(c0, c1, c2, c3))
            == FromBytes(And8(b0, c0), And8(b1, c1), And8(b2, c2), And8(b3, c3))
  {
    hide Bitwise;
    Pow2Eight();
    BitwiseSplit(8, 8, AndBit, b2, b3, c2, c3);
    BitwiseSplit(8, 16, AndBit, b1, b2 + 256 * b3, c1, c2 + 256 * c3);
    BitwiseSplit(8, 24, AndBit, b0, b1 + 256 * (b2 + 256 * b3), c0, c1 + 256 * (c2 + 256 * c3));
  }

  /** Bitwise and commutes with byte order. */
  lemma AndSwap(x: Word, y: Word)
    ensures Swap(BitsOf(AndBit, x, y)) == BitsOf(AndBit, Swap(x), Swap(y))
  {
    hide B0, B1, B2, B3, FromBytes, And8, BitsOf;
    BytesOfWord(x);
    BytesOfWord(y);
    AndBytes(B0(x), B1(x), B2(x), B3(x), B0(y), B1(y), B2(y), B3(y));
    AndBytes(B3(x), B2(x), B1(x), B0(x), B3(y), B2(y), B1(y), B0(y));
    WordOfBytes(And8(B0(x), B0(y)), And8(B1(x), B1(y)), And8(B2(x), B2(y)), And8(B3(x), B3(y)));
  }

  lemma {:induction false} AndAll(k: nat, y: nat)
    requires y < Pow2(k)
    ensures Bitwise(k, AndBit, y, Pow2(k) - 1) == y
    decreases k
  {
    hide Bitwise, Pow2;
    Pow2Step(k);
    if k > 0 {
      AndAll(k - 1, y / 2);
      BitwiseHalf(k, AndBit, y, Pow2(k) - 1);
    } else {
    }
  }

  /** And with a mask of leading ones clears the low j bits. */
  lemma {:induction false} AndHigh(k: nat, j: nat, y: nat)
    requires y < Pow2(k) && j <= k && Pow2(j) <= Pow2(k)
    ensures Bitwise(k, AndBit, y, Pow2(k) - Pow2(j)) == HighPart(y, Pow2(j))
    decreases k
  {
    hide Bitwise, Pow2, HighPart;
    Pow2Step(j);
    Pow2Step(k);
    HighAll(y);
    if j == 0 {
      AndAll(k, y);
    } else {
      AndHigh(k - 1, j - 1, y / 2);
      BitwiseHalf(k, AndBit, y, Pow2(k) - Pow2(j));
      HalfDifference(Pow2(k - 1), Pow2(j - 1));
      HighHalf(y, Pow2(j - 1));
    }
  }

  /** y without what is below p. */
  function HighPart(y: nat, p: nat): int
    requires p >= 1
  {
    p * (y / p)
  }

  lemma HighAll(y: nat)
    ensures HighPart(y, 1) == y
  {
  }

  lemma HighHalf(y: nat, p: nat)
    requires p >= 1
    ensures HighPart(y, 2 * p) == 2 * HighPart(y / 2, p)
  {
    DivTwice(y, p);
    DoubleProduct(p, y / (2 * p));
  }

  lemma HalfDifference(a: int, b: int)
    ensures (2 * a - 2 * b) / 2 == a - b && (2 * a - 2 * b) % 2 == 0
  {
  }

  lemma DivTwice(y: nat, p: nat)
    requires p >= 1
    ensures y / 2 / p == y / (2 * p)
  {
    var q, r := y / (2 * p), y % (2 * p);
    assert y == (2 * p) * q + r && 0 <= r < 2 * p;
    assert (2 * p) * q == 2 * (p * q);
    assert y / 2 == p * q + r / 2;
    QuotientIs(y / 2, p, q, r / 2);
  }

  lemma QuotientIs(y: int, p: int, q: int, r: int)
    requires p >= 1 && y == p * q + r && 0 <= r < p
    ensures y / p == q
  {
    assert p * q == q * p;
    ModUnique(y, q, r, p);
    assert y == (y / p) * p + y % p;
    MulGap(y / p - q, p);
    assert (y / p - q) * p == (y / p) * p - q * p;
  }

  /** Masking keeps the first len bits in network order and clears the rest. */
  lemma MaskedSwap(addr: Word, len: nat)
    requires len <= 32
    ensures Swap(Masked(addr, len)) == Pow2(32 - len) * Prefix(addr, len)
  {
    hide Swap, Bitwise, Pow2;
    MaskTable(len);
    AndSwap(addr, MASK_BE[len]);
    SwapTwice(Ones(len));
    Pow2Word();
    Pow2Sum(32 - len, len);
    PowAtMost(Pow2(32 - len), Pow2(len));
    AndHigh(32, 32 - len, Swap(addr));
  }

  /** Two addresses agree under the mask exactly when their first len network bits agree. */
  lemma MaskedIffPrefix(a: Word, b: Word, len: nat)
    requires len <= 32
    ensures Masked(a, len) == Masked(b, len) <==> Prefix(a, len) == Prefix(b, len)
  {
    hide Swap, Masked, Prefix, Pow2;
    MaskedSwap(a, len);
    MaskedSwap(b, len);
    SwapTwice(Masked(a, len));
    SwapTwice(Masked(b, len));
  }

  lemma MaskedTwice(a: Word, len: nat)
    requires len <= 32
    ensures Masked(Masked(a, len), len) == Masked(a, len)
  {
    hide Swap, Masked, Pow2;
    MaskedSwap(a, len);
    var p, q := Pow2(32 - len), Prefix(a, len);
    QuotientIs(p * q, p, q, 0);
    assert Prefix(Masked(a, len), len) == q;
    MaskedIffPrefix(Masked(a, len), a, len);
  }

  // ----- networks of 24 bits -----

  lemma {:induction false} AndNone(k: nat, b: nat)
    ensures Bitwise(k, AndBit, b, 0) == 0
  {
    if k > 0 { AndNone(k - 1, b / 2); }
  }

  /** Masking with 0x00FFFFFF clears the last byte of an address. */
  lemma NetworkAddress(b0: Byte, b1: Byte, b2: Byte, b3: Byte)
    ensures BitsOf(AndBit, FromBytes(b0, b1, b2, b3), 0x00FF_FFFF) == FromBytes(b0, b1, b2, 0)
  {
    hide Bitwise, FromBytes;
    Pow2Eight();
    AndBytes(b0, b1, b2, b3, 255, 255, 255, 0);
    AndAll(8, b0);
    AndAll(8, b1);
    AndAll(8, b2);
    AndNone(8, b3);
    assert FromBytes(255, 255, 255, 0) == 0x00FF_FFFF by { MaskBytes(); }
  }

  lemma MaskBytes()
    ensures FromBytes(255, 255, 255, 0) == 0x00FF_FFFF
  {
  }
}
