/** Option is used where the sources throw an exception, return null or have no defined result. */
module Wrappers {
  datatype Option<+T> = None | Some(value: T)

  /** The first position of x in s, or |s| when x does not occur. */
  function Find<T(==)>(s: seq<T>, x: T): (i: nat)
    ensures i <= |s|
    ensures i < |s| ==> s[i] == x
    ensures x !in s[..i]
  {
    if s == [] then 0
    else if s[0] == x then 0
    else
      var i := 1 + Find(s[1..], x);
      assert s[..i] == [s[0]] + s[1..][..i - 1];
      i
  }
}
