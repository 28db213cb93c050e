/** Java's 32-bit `int` and its wrapping addition. */
module Int32 {

  /** Integer.MIN_VALUE and Integer.MAX_VALUE. */
  const MinValue: int := -0x8000_0000
  const MaxValue: int := 0x7FFF_FFFF

  /** The number of distinct `int` values; wrap-around works modulo this. */
  const Modulus: int := 0x1_0000_0000

  type int32 = x: int | MinValue <= x <= MaxValue

  /** `a + b` as Java computes it on two `int`s: the exact sum, reduced
      modulo 2^32 into the `int` range. */
  function Add(a: int32, b: int32): (r: int32)
    ensures (a + b - r) % Modulus == 0
    ensures MinValue <= a + b <= MaxValue ==> r == a + b
    ensures a + b > MaxValue ==> r < 0 && r == a + b - Modulus
    ensures a + b < MinValue ==> r >= 0 && r == a + b + Modulus
  {
    var s := a + b;
    if s > MaxValue then s - Modulus
    else if s < MinValue then s + Modulus
    else s
  }

  /** Wrap-around is determined by its residue: no other int has it. */
  lemma AddIsUnique(a: int32, b: int32, r: int32)
    requires (a + b - r) % Modulus == 0
    ensures r == Add(a, b)
  {
  }
}
