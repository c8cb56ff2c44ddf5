/** Bytes as numbers. */
module Bytes {

  /** The number that a byte stands for. */
  function Val(b: bv8): (n: nat)
    ensures n <= 0xff
  {
    b as nat
  }

  lemma ValZero(b: bv8)
    ensures Val(b) == 0 <==> b == 0
  {}

  lemma ValInjective(b: bv8, c: bv8)
    requires Val(b) == Val(c)
    ensures b == c
  {}

  lemma ByteIncrement(x: bv8)
    ensures Val(x + 1) == (Val(x) + 1) % 0x100
  {}

  /** The byte that stands for a number. */
  function ByteOf(n: nat): (b: bv8)
    requires n <= 0xff
    ensures Val(b) == n
  {
    if n == 0 then 0 else ByteOf(n - 1) + 1
  }

  lemma ByteOfVal(b: bv8)
    ensures ByteOf(Val(b)) == b
  {
    hide Val;
    ValInjective(ByteOf(Val(b)), b);
  }
}
