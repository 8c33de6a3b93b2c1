/** Addresses of array elements and pointer arithmetic. */
module ArrayLaws {
  import opened Wrappers
  import opened Words
  import opened Types
  import opened Syntax
  import opened Typing
  import opened FrameSafety
  import opened Memory
  import opened Semantics

  /** An array type with positive dimensions, as in every accepted declaration. */
  predicate Dimensioned(t: Type) {
    t.ArrayType? ==> 1 <= t.length < TWO_31 && Dimensioned(t.baseType)
  }

  lemma {:induction false} DeclaredDimensions(stars: nat, dims: seq<string>)
    requires forall d | d in dims :: 0 < Numeral(d) < TWO_31
    ensures Dimensioned(ArrayOf(LvalueOf(stars), dims))
    decreases |dims|
  {
    hide Numeral;
    if dims != [] {
      DeclaredDimensions(stars, dims[1..]);
      assert dims[0] in dims;
    }
  }

  /** The type after k subscripts. */
  function Peel(t: Type, k: nat): Option<Type>
    decreases k
  {
    if k == 0 then Some(t) else if t.ArrayType? then Peel(t.baseType, k - 1) else None
  }

  /** A declared array has its dimensions from the outermost to the innermost, and elements with the declared stars. */
  lemma {:induction false} DimensionsInOrder(stars: nat, dims: seq<string>, k: nat)
    requires k <= |dims|
    ensures var t := Peel(ArrayOf(LvalueOf(stars), dims), k);
            t.Some? && if k < |dims| then t.value.ArrayType? && t.value.length == Numeral(dims[k]) else t.value == LvalueOf(stars)
    decreases k
  {
    hide Numeral, LvalueOf;
    if k > 0 { DimensionsInOrder(stars, dims[1..], k - 1); }
  }

  /** One index per dimension, each within its bound. */
  predicate InBounds(t: Type, idx: seq<Word>)
    decreases t
  {
    if t.ArrayType? then idx != [] && idx[0] < t.length && InBounds(t.baseType, idx[1..]) else idx == []
  }

  /** The position of an element in row-major order. */
  function Flat(t: Type, idx: seq<Word>): int
    decreases t
  {
    if t.ArrayType? && idx != [] then idx[0] * TrueWords(t.baseType) + Flat(t.baseType, idx[1..]) else 0
  }

  /** The address after subscripting with each index in turn. */
  function ElementChain(t: Type, base: Word, idx: seq<Word>): Word
    decreases t
  {
    if t.ArrayType? && idx != [] then ElementChain(t.baseType, ElementAddress(t, base, idx[0]), idx[1..]) else base
  }

  lemma RowBound(i: int, n: int, w: int, r: int)
    requires 0 <= i < n && 0 <= r < w
    ensures 0 <= i * w + r < n * w
  {
    assert (i + 1) * w == i * w + w;
  }

  lemma {:induction false} FlatInRange(t: Type, idx: seq<Word>)
    requires InBounds(t, idx)
    ensures 0 <= Flat(t, idx) < TrueWords(t)
    decreases t
  {
    if t.ArrayType? {
      FlatInRange(t.baseType, idx[1..]);
      RowBound(idx[0], t.length, TrueWords(t.baseType), Flat(t.baseType, idx[1..]));
    }
  }

  /** Subscripting is row-major modulo 2^32 for every array and all indices, those of 2 GiB arrays and those
      out of range included: the address is the base plus four bytes per preceding word. */
  lemma {:induction false} RowMajor(t: Type, base: Word, idx: seq<Word>)
    ensures ElementChain(t, base, idx) == Wrap(base + 4 * Flat(t, idx))
    decreases t
  {
    hide ElementAddress, Wrap;
    if t.ArrayType? && idx != [] {
      ElementAt(t, base, idx[0]);
      RowMajor(t.baseType, ElementAddress(t, base, idx[0]), idx[1..]);
      RowAddress(base, idx[0], TrueWords(t.baseType), Flat(t.baseType, idx[1..]));
    } else {
      WrapRange(base);
    }
  }

  /** Neither the wrapped size nor the sign of the index matters modulo 2^32. */
  lemma ElementAt(t: Type, base: Word, i: Word)
    requires t.ArrayType?
    ensures ElementAddress(t, base, i) == Wrap(base + i * (4 * TrueWords(t.baseType)))
  {
    hide Wrap, Signed, JavaInt;
    var size, z := t.baseType.GetSize(), 4 * TrueWords(t.baseType);
    SizeIs(t.baseType);
    JavaIntWraps(z);
    SameResidue(Signed(i), i, size, z) by {
      WrapSigned(i);
      WrapRange(i);
    }
    WrapSum(base, Signed(i) * size);
    WrapSum(base, i * z);
  }

  lemma SameResidue(x: int, y: int, a: int, b: int)
    requires Wrap(x) == Wrap(y) && Wrap(a) == Wrap(b)
    ensures Wrap(x * a) == Wrap(y * b)
  {
    hide Wrap;
    WrapMul(x, a);
    WrapMul(y, a);
    WrapMul(a, y);
    WrapMul(b, y);
    assert a * y == y * a && b * y == y * b;
  }

  lemma WrapSum(x: int, y: int)
    ensures Wrap(x + Wrap(y)) == Wrap(x + y)
  {
    WrapAdd(y, x);
  }

  lemma RowAddress(base: int, i: int, w: int, r: int)
    ensures Wrap(Wrap(base + i * (4 * w)) + 4 * r) == Wrap(base + 4 * (i * w + r))
  {
    WrapAdd(base + i * (4 * w), 4 * r);
    assert i * (4 * w) == 4 * (i * w);
  }

  lemma RowsDiffer(i: int, j: int, w: int, r: int, s: int)
    requires i < j && 0 <= r < w && 0 <= s < w
    ensures i * w + r < j * w + s
  {
    GapAtLeast(j - i, w);
    assert j * w == i * w + (j - i) * w;
  }

  lemma GapAtLeast(d: int, w: int)
    requires d >= 1 && w >= 1
    ensures d * w >= w
  {
  }

  /** Different elements lie at different positions. */
  lemma {:induction false} FlatInjective(t: Type, i: seq<Word>, j: seq<Word>)
    requires InBounds(t, i) && InBounds(t, j) && Flat(t, i) == Flat(t, j)
    ensures i == j
    decreases t
  {
    if t.ArrayType? {
      var b := t.baseType;
      FlatInRange(b, i[1..]);
      FlatInRange(b, j[1..]);
      if i[0] < j[0] {
        RowsDiffer(i[0], j[0], TrueWords(b), Flat(b, i[1..]), Flat(b, j[1..]));
      } else if j[0] < i[0] {
        RowsDiffer(j[0], i[0], TrueWords(b), Flat(b, j[1..]), Flat(b, i[1..]));
      } else {
        FlatInjective(b, i[1..], j[1..]);
        assert i == [i[0]] + i[1..] && j == [j[0]] + j[1..];
      }
    }
  }

  lemma {:induction false} WordsPositive(t: Type)
    requires Dimensioned(t)
    ensures TrueWords(t) >= 1
    decreases t
  {
    if t.ArrayType? {
      WordsPositive(t.baseType);
      MulAtLeast(t.length, TrueWords(t.baseType));
    }
  }

  /** Every word of the array is an element. */
  lemma {:induction false} FlatOnto(t: Type, k: int) returns (idx: seq<Word>)
    requires Dimensioned(t) && 0 <= k < TrueWords(t)
    ensures InBounds(t, idx) && Flat(t, idx) == k
    decreases t
  {
    if t.ArrayType? {
      WordsPositive(t.baseType);
      var q, r := Divide(k, TrueWords(t.baseType), t.length);
      var rest := FlatOnto(t.baseType, r);
      idx := FirstIndex(t, q, rest);
    } else {
      idx := [];
    }
  }

  lemma FirstIndex(t: Type, q: int, rest: seq<Word>) returns (idx: seq<Word>)
    requires t.ArrayType? && Dimensioned(t) && 0 <= q < t.length && InBounds(t.baseType, rest)
    ensures InBounds(t, idx) && Flat(t, idx) == q * TrueWords(t.baseType) + Flat(t.baseType, rest)
  {
    hide TrueWords;
    idx := [q] + rest;
    assert idx[1..] == rest;
  }

  lemma Divide(k: int, w: int, n: int) returns (q: int, r: int)
    requires w >= 1 && 0 <= k < n * w
    ensures k == q * w + r && 0 <= r < w && 0 <= q < n
  {
    q, r := k / w, k % w;
  }

  // ----- addresses of elements -----

  /** No two elements share an address. */
  ghost predicate AddressesDistinct(t: Type, base: Word) {
    forall i, j | InBounds(t, i) && InBounds(t, j) && ElementChain(t, base, i) == ElementChain(t, base, j) :: i == j
  }

  lemma SameAddress(base: Word, x: int, y: int)
    ensures Wrap(base + 4 * x) == Wrap(base + 4 * y) <==> (x - y) % 0x4000_0000 == 0
  {
  }

  /** The elements of an array have different addresses if and only if the array has at most 2^30 words, the
      whole address space; beyond that, elements 0 and 2^30 share one. */
  lemma ElementsDistinct(t: Type, base: Word)
    requires Dimensioned(t)
    ensures AddressesDistinct(t, base) <==> TrueWords(t) <= 0x4000_0000
  {
    if TrueWords(t) <= 0x4000_0000 {
      forall i, j | InBounds(t, i) && InBounds(t, j) && ElementChain(t, base, i) == ElementChain(t, base, j) ensures i == j {
        DistinctBelow(t, base, i, j);
      }
    } else {
      var i, j := SharedAddress(t, base);
      assert InBounds(t, i) && InBounds(t, j);
    }
  }

  lemma DistinctBelow(t: Type, base: Word, i: seq<Word>, j: seq<Word>)
    requires TrueWords(t) <= 0x4000_0000 && InBounds(t, i) && InBounds(t, j) && ElementChain(t, base, i) == ElementChain(t, base, j)
    ensures i == j
  {
    hide Wrap, TrueWords, Flat, ElementChain, InBounds;
    RowMajor(t, base, i);
    RowMajor(t, base, j);
    SameAddress(base, Flat(t, i), Flat(t, j));
    FlatInRange(t, i);
    FlatInRange(t, j);
    FlatInjective(t, i, j);
  }

  lemma SharedAddress(t: Type, base: Word) returns (i: seq<Word>, j: seq<Word>)
    requires Dimensioned(t) && TrueWords(t) > 0x4000_0000
    ensures InBounds(t, i) && InBounds(t, j) && Flat(t, i) == 0 && Flat(t, j) == 0x4000_0000
    ensures i != j && ElementChain(t, base, i) == ElementChain(t, base, j)
  {
    hide Wrap, TrueWords, Flat, ElementChain, InBounds, Dimensioned;
    i := FlatOnto(t, 0);
    j := FlatOnto(t, 0x4000_0000);
    RowMajor(t, base, i);
    RowMajor(t, base, j);
    SameAddress(base, Flat(t, i), Flat(t, j));
  }

  /** Subscripting a local array reaches the cell that the frame layout gives to the element's word. */
  lemma ElementCell(fp: int, s: Symbol, idx: seq<Word>)
    ensures ElementChain(s.typ, Wrap(CellOf(fp, s, 0)), idx) == Wrap(CellOf(fp, s, Flat(s.typ, idx)))
  {
    hide Flat, ElementChain, Wrap;
    RowMajor(s.typ, Wrap(CellOf(fp, s, 0)), idx);
    WrapAdd(CellOf(fp, s, 0), 4 * Flat(s.typ, idx));
  }

  // ----- evaluation -----

  /** a[es[0]][es[1]]... */
  function Indexed(a: Expr, es: seq<Expr>): Expr
    decreases |es|
  {
    if es == [] then a else Subscript(Indexed(a, es[..|es| - 1]), es[|es| - 1])
  }

  function ElementType(t: Type, n: nat): Type
    decreases n
  {
    if n == 0 || !t.ArrayType? then t else ElementType(t.baseType, n - 1)
  }

  predicate Depth(t: Type, n: nat)
    decreases n
  {
    n == 0 || (t.ArrayType? && Depth(t.baseType, n - 1))
  }

  lemma {:induction false} ChainAppend(t: Type, base: Word, idx: seq<Word>, i: Word)
    requires Depth(t, |idx| + 1)
    ensures ElementType(t, |idx|).ArrayType? && Depth(t, |idx|)
    ensures ElementType(t, |idx| + 1) == ElementType(t, |idx|).baseType
    ensures ElementChain(t, base, idx + [i]) == ElementAddress(ElementType(t, |idx|), ElementChain(t, base, idx), i)
    decreases |idx|
  {
    if idx != [] {
      assert (idx + [i])[1..] == idx[1..] + [i];
      ChainAppend(t.baseType, ElementAddress(t, base, idx[0]), idx[1..], i);
    } else {
      assert [i][1..] == [];
      assert idx + [i] == [i];
      assert ElementChain(t.baseType, ElementAddress(t, base, i), []) == ElementAddress(t, base, i);
    }
  }

  /** The index expressions, each in the memory that the one before left. */
  ghost predicate Indices(W: World, c: Ctx, sc: seq<Scope>, fp: int, sp: int, fuel: nat, es: seq<Expr>, idx: seq<Word>, mems: seq<Memory>) {
    && |idx| == |es| && |mems| == |es| + 1
    && forall i | 0 <= i < |es| ::
         IsInt(c, sc, es[i]) && Rvalue(W, c, sc, fp, sp - 4, mems[i], es[i], fuel) == Some(Value(idx[i], mems[i + 1]))
  }

  /** Evaluating a fully or partly subscripted array gives the chained address and the memory that its base
      and indices leave, evaluated from left to right; its type is the remaining element type. */
  lemma {:induction false} IndexedEval(W: World, c: Ctx, sc: seq<Scope>, fp: int, sp: int, mem: Memory, fuel: nat,
                                       a: Expr, t: Type, base: Word, es: seq<Expr>, idx: seq<Word>, mems: seq<Memory>)
    requires Indices(W, c, sc, fp, sp, fuel, es, idx, mems) && Depth(t, |idx|) && sp - 12 >= W.lo
    requires TypeOf(c, sc, a) == Some(t) && t.ArrayType? && Eval(W, c, sc, fp, sp, mem, a, fuel) == Some(Value(base, mems[0]))
    ensures TypeOf(c, sc, Indexed(a, es)) == Some(ElementType(t, |es|))
    ensures Eval(W, c, sc, fp, sp, mem, Indexed(a, es), fuel) == Some(Value(ElementChain(t, base, idx), mems[|es|]))
    decreases |es|
  {
    hide Eval, Rvalue, TypeOf, IsInt, ElementAddress;
    if es != [] {
      var n := |es| - 1;
      assert idx == idx[..n] + [idx[n]];
      ChainAppend(t, base, idx[..n], idx[n]);
      IndexedEval(W, c, sc, fp, sp, mem, fuel, a, t, base, es[..n], idx[..n], mems[..n + 1]);
      SubscriptEval(W, c, sc, fp, sp, mem, fuel, Indexed(a, es[..n]), es[n], ElementType(t, n),
                    ElementChain(t, base, idx[..n]), idx[n], mems[n], mems[n + 1]);
    }
  }

  lemma SubscriptEval(W: World, c: Ctx, sc: seq<Scope>, fp: int, sp: int, mem: Memory, fuel: nat,
                      b: Expr, i: Expr, t: Type, x: Word, y: Word, m1: Memory, m2: Memory)
    requires TypeOf(c, sc, b) == Some(t) && t.ArrayType? && Eval(W, c, sc, fp, sp, mem, b, fuel) == Some(Value(x, m1))
    requires IsInt(c, sc, i) && Rvalue(W, c, sc, fp, sp - 4, m1, i, fuel) == Some(Value(y, m2)) && sp - 12 >= W.lo
    ensures TypeOf(c, sc, Subscript(b, i)) == Some(t.baseType)
    ensures Eval(W, c, sc, fp, sp, mem, Subscript(b, i), fuel) == Some(Value(ElementAddress(t, x, y), m2))
  {
    hide ElementAddress, TypeOf, Rvalue, IsInt;
    ArrayIsValue(W, c, sc, fp, sp, mem, fuel, b, t);
    SubscriptType(c, sc, b, i, t);
  }

  lemma ArrayIsValue(W: World, c: Ctx, sc: seq<Scope>, fp: int, sp: int, mem: Memory, fuel: nat, b: Expr, t: Type)
    requires TypeOf(c, sc, b) == Some(t) && t.ArrayType?
    ensures Rvalue(W, c, sc, fp, sp, mem, b, fuel) == Eval(W, c, sc, fp, sp, mem, b, fuel)
  {
    hide Eval, TypeOf;
  }

  lemma SubscriptType(c: Ctx, sc: seq<Scope>, b: Expr, i: Expr, t: Type)
    requires TypeOf(c, sc, b) == Some(t) && t.ArrayType? && IsInt(c, sc, i)
    ensures TypeOf(c, sc, Subscript(b, i)) == Some(t.baseType)
  {
  }

  /** A subscripted local array evaluates to the address of the element's cell. */
  lemma LocalElement(W: World, c: Ctx, sc: seq<Scope>, fp: int, sp: int, mem: Memory, fuel: nat, x: string, s: Symbol,
                     es: seq<Expr>, idx: seq<Word>, mems: seq<Memory>)
    requires Lookup(sc, x) == Some(s) && s.typ.ArrayType? && Depth(s.typ, |idx|) && sp - 12 >= W.lo
    requires Indices(W, c, sc, fp, sp, fuel, es, idx, mems) && mems[0] == mem
    ensures Eval(W, c, sc, fp, sp, mem, Indexed(Ident(x), es), fuel) == Some(Value(Wrap(CellOf(fp, s, Flat(s.typ, idx))), mems[|es|]))
  {
    hide Wrap, Rvalue, IsInt, ElementChain, Depth, Flat;
    assert TypeOf(c, sc, Ident(x)) == Some(s.typ);
    assert Eval(W, c, sc, fp, sp, mem, Ident(x), fuel) == Some(Value(Wrap(CellOf(fp, s, 0)), mem));
    hide Eval, TypeOf;
    IndexedEval(W, c, sc, fp, sp, mem, fuel, Ident(x), s.typ, Wrap(CellOf(fp, s, 0)), es, idx, mems);
    ElementCell(fp, s, idx);
  }

  // ----- pointers -----

  /** (p + i) - p gives back i exactly for the indices whose byte offset is a 32-bit int. */
  lemma PointerRoundTrip(d: nat, p: Word, i: Word)
    ensures var ptr, intR := PointerType(d, RVALUE), IntType(RVALUE);
            var q := BinaryMeaning(Plus, ptr, intR, p, i);
            q.Some? && (BinaryMeaning(Sub, ptr, ptr, q.value, p) == Some(i) <==> -0x2000_0000 <= Signed(i) < 0x2000_0000)
  {
    hide Wrap, Signed;
    var s := Signed(i);
    DifferenceIs(p, s);
    QuarterRange(4 * s);
    SignedWrap(Signed(Wrap(4 * s)) / 4);
    WrapSigned(i);
  }

  lemma DifferenceIs(p: Word, s: int)
    ensures Wrap(Wrap(p + 4 * s) - p) == Wrap(4 * s)
  {
    WrapAdd(p + 4 * s, 0 - p);
  }

  /** A quarter of the signed reading recovers x / 4 exactly when x is a 32-bit int. */
  lemma QuarterRange(x: int)
    requires x % 4 == 0
    ensures -0x2000_0000 <= Signed(Wrap(x)) / 4 < 0x2000_0000
    ensures -TWO_31 <= x < TWO_31 ==> Signed(Wrap(x)) / 4 == x / 4
  {
    JavaIntWraps(x);
  }

  lemma WrapSigned(i: Word)
    ensures Wrap(Signed(i)) == i
  {
  }
}
