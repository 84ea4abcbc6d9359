/** Machine words, and integer division facts that the solver is slow to find on its own. */
module Arith {

  type u16 = n: nat | n < 0x1_0000

  /** A Rust `as u32` cast. */
  function AsU32(n: nat): nat {
    n % 0x1_0000_0000
  }

  lemma MulAtLeast(b: int, d: int)
    requires b > 0
    ensures d >= 1 ==> b * d >= b
    ensures d <= -1 ==> b * d <= -b
  {
    if d >= 1 {
      assert b * d == b + b * (d - 1);
    } else if d <= -1 {
      assert b * d == b * (d + 1) - b;
    }
  }

  /** A quotient and remainder that fit are the quotient and remainder. */
  lemma QuotientIs(x: int, b: int, q: int, r: int)
    requires b > 0 && 0 <= r < b && x == b * q + r
    ensures x / b == q && x % b == r
  {
    var d := x / b - q;
    assert b * d == b * (x / b) - b * q;
    MulAtLeast(b, d);
  }
}
