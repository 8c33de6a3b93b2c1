/** 32-bit words as integers, with the signed reading and the operators both machines share. */
module Words {
  const TWO_32: int := 0x1_0000_0000
  const TWO_31: int := 0x8000_0000

  type Word = x: int | 0 <= x < TWO_32

  function Wrap(x: int): Word {
    x % TWO_32
  }

  function Signed(w: Word): int {
    if w < TWO_31 then w else w - TWO_32
  }

  function Bool(b: bool): Word {
    if b then 1 else 0
  }

  /** Quotient rounded toward zero, as Java, C and RISC-V divide. */
  function TruncDiv(a: int, b: int): int
    requires b != 0
  {
    if a >= 0 then (if b > 0 then a / b else -(a / -b))
    else if b > 0 then -(-a / b) else -a / -b
  }

  function Magnitude(a: int): nat {
    if a >= 0 then a else -a
  }

  /** The remainder that this quotient leaves is smaller than the divisor and has the sign of the dividend, and the
      quotient is no larger than the dividend. */
  lemma TruncatesTowardZero(a: int, b: int)
    requires b != 0
    ensures var q := TruncDiv(a, b);
            var r := a - b * q;
            && Magnitude(r) < Magnitude(b) && (r == 0 || (r > 0 <==> a > 0))
            && Magnitude(q) <= Magnitude(a) && (Magnitude(b) > 1 ==> 2 * Magnitude(q) <= Magnitude(a))
  {
    hide TruncDiv;
    var k := Magnitude(a) / Magnitude(b);
    QuotientOf(Magnitude(a), Magnitude(b));
    QuotientSign(a, b);
    SignsCancel(Magnitude(b), k);
  }

  lemma QuotientSign(a: int, b: int)
    requires b != 0
    ensures var k := Magnitude(a) / Magnitude(b); TruncDiv(a, b) == if (a >= 0) == (b > 0) then k else -k
  {
  }

  lemma QuotientOf(m: nat, n: nat)
    requires n > 0
    ensures m / n >= 0 && n * (m / n) <= m < n * (m / n) + n
    ensures m / n <= m && (n > 1 ==> 2 * (m / n) <= m)
  {
    var k := m / n;
    assert m == n * k + m % n;
    AtLeastOnce(n, k);
  }

  lemma AtLeastOnce(n: nat, k: nat)
    requires n > 0
    ensures n * k >= k && (n > 1 ==> n * k >= 2 * k)
  {
    if n > 1 { assert n * k == 2 * k + (n - 2) * k; }
  }

  lemma SignsCancel(n: int, k: int)
    ensures (-n) * (-k) == n * k && (-n) * k == -(n * k) && n * (-k) == -(n * k)
  {
  }

  /** A Java int result: the mathematical value reduced to 32 bits and read as signed. */
  function JavaInt(x: int): int {
    Signed(Wrap(x))
  }

  lemma WrapRange(x: int)
    requires 0 <= x < TWO_32
    ensures Wrap(x) == x
  {
  }

  lemma WrapAdd(x: int, y: int)
    ensures Wrap(Wrap(x) + y) == Wrap(x + y)
  {
  }

  /** Reducing one factor first does not change the low 32 bits of a product. */
  lemma WrapMul(x: int, y: int)
    ensures Wrap(Wrap(x) * y) == Wrap(x * y)
  {
    var q := x / TWO_32;
    assert x == q * TWO_32 + Wrap(x);
    assert x * y == Wrap(x) * y + (q * y) * TWO_32 by {
      assert x * y == (q * TWO_32) * y + Wrap(x) * y;
      assert (q * TWO_32) * y == (q * y) * TWO_32;
    }
  }

  lemma SignedWrap(x: int)
    requires -TWO_31 <= x < TWO_31
    ensures Signed(Wrap(x)) == x
  {
  }

  lemma JavaIntWraps(x: int)
    ensures Wrap(JavaInt(x)) == Wrap(x)
    ensures -TWO_31 <= x < TWO_31 ==> JavaInt(x) == x
    ensures x % 4 == 0 ==> JavaInt(x) % 4 == 0
  {
  }
}
