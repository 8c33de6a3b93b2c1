/** Types of MiniDecaf expressions (Type.java). */
module Types {
  import opened Wrappers
  import opened Words

  datatype ValueCat = LVALUE | RVALUE

  /** An array keeps its length; Java stores the byte size computed from it at construction. */
  datatype Type =
    | IntType(valueCat: ValueCat)
    | PointerType(refDepth: nat, valueCat: ValueCat)
    | ArrayType(baseType: Type, length: int)
  {
    function Cat(): ValueCat {
      if ArrayType? then RVALUE else valueCat
    }

    /** Size in bytes, a Java int: the product wraps. */
    function GetSize(): (size: int)
      ensures size % 4 == 0
      ensures -TWO_31 <= size < TWO_31
    {
      match this
      case ArrayType(base, n) =>
        var s := n * base.GetSize();
        ProductOfFour(n, base.GetSize());
        JavaIntWraps(s);
        JavaInt(s)
      case _ => 4
    }

    /** Type.equals: value categories are ignored, arrays compare by size and element type. */
    predicate Equals(t: Type) {
      match this
      case IntType(_) => t.IntType?
      case PointerType(d, _) => t.PointerType? && t.refDepth == d
      case ArrayType(base, _) => t.ArrayType? && GetSize() == t.GetSize() && base.Equals(t.baseType)
    }

    function ValueCast(target: ValueCat): Option<Type> {
      match this
      case IntType(_) => Some(IntType(target))
      case PointerType(d, _) => Some(PointerType(d, target))
      case ArrayType(_, _) => if target == LVALUE then None else Some(this)
    }

    function Ref(): Option<Type> {
      match this
      case IntType(c) => if c == LVALUE then Some(PointerType(1, RVALUE)) else None
      case PointerType(d, c) => if c == LVALUE then Some(PointerType(d + 1, RVALUE)) else None
      case ArrayType(_, _) => None
    }

    function Deref(): Option<Type> {
      match this
      case PointerType(d, _) => if d > 1 then Some(PointerType(d - 1, LVALUE)) else Some(IntType(LVALUE))
      case _ => None
    }

    /** The type after castToRValue: only the value category changes. */
    function AsRvalue(): Type {
      match this
      case IntType(_) => IntType(RVALUE)
      case PointerType(d, _) => PointerType(d, RVALUE)
      case ArrayType(_, _) => this
    }
  }

  /** Elements per step of an array subscript, the operand of the emitted push. */
  function ElemWords(t: Type): int {
    TruncDiv(t.GetSize(), 4)
  }

  /** visitType: int followed by any number of stars. */
  function Declared(stars: nat): Type {
    if stars == 0 then IntType(RVALUE) else PointerType(stars, RVALUE)
  }

  lemma ProductOfFour(n: int, s: int)
    requires s % 4 == 0
    ensures (n * s) % 4 == 0
  {
    var k := s / 4;
    assert n * s == (n * k) * 4;
  }
}
