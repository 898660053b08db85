/**
 * The 32-bit unsigned words (word_t, uint32_t) of the debugger, the
 * expression generator and the trace tools, as mathematical integers
 * reduced modulo 2^32 where C's unsigned arithmetic wraps.
 */
module Unsigned {

  const Modulus: int := 0x1_0000_0000

  type U32 = x: int | 0 <= x < 0x1_0000_0000

  /** Reduction of a mathematical result to a word, as C's unsigned arithmetic does. */
  function Wrap(x: int): (r: U32)
    ensures 0 <= x < Modulus ==> r == x
    ensures (r - x) % Modulus == 0
  {
    x % Modulus
  }

  /**
   * The product a * b, by halving b. Written as a recursion so that the
   * verifier unfolds it one linear step at a time; ProductIsProduct ties it
   * to a * b.
   */
  function Product(a: nat, b: nat): nat
    decreases b
  {
    if b == 0 then 0 else 2 * Product(a, b / 2) + (if b % 2 == 0 then 0 else a)
  }

  lemma {:induction false} ProductIsProduct(a: nat, b: nat)
    ensures Product(a, b) == a * b
    decreases b
  {
    if b != 0 {
      var h, r := b / 2, b % 2;
      ProductIsProduct(a, h);
      assert b == 2 * h + r;
      Halves(a, h, r);
    }
  }

  /** a times 2h + r, for a last bit r, is twice a times h, plus a when r is set. */
  lemma Halves(a: nat, h: nat, r: nat)
    requires r < 2
    ensures a * (2 * h + r) == 2 * (a * h) + (if r == 0 then 0 else a)
  {
    calc {
      a * (2 * h + r);
      a * (2 * h) + a * r;
      2 * (a * h) + a * r;
    }
    if r == 1 {
      assert a * r == a;
    }
  }

  /** The quotient a / b, by repeated subtraction; QuotientIsQuotient ties it to a / b. */
  function Quotient(a: nat, b: nat): (r: nat)
    requires b > 0
    ensures r <= a
    decreases a
  {
    if a < b then 0 else 1 + Quotient(a - b, b)
  }

  lemma {:induction false} QuotientIsQuotient(a: nat, b: nat)
    requires b > 0
    ensures Quotient(a, b) == a / b
    decreases a
  {
    if a >= b {
      QuotientIsQuotient(a - b, b);
      var k := (a - b) / b;
      assert a == b * (k + 1) + (a - b) % b;
      DivisionUnique(a, b, k + 1, (a - b) % b);
    }
  }

  /** The quotient is the only k with a == b * k + r and 0 <= r < b. */
  lemma DivisionUnique(a: int, b: int, k: int, r: int)
    requires b > 0 && a == b * k + r && 0 <= r < b
    ensures a / b == k
  {
    var q := a / b;
    assert a == b * q + a % b;
    if q < k {
      AtLeastOnce(b, k - q);
    } else if q > k {
      AtLeastOnce(b, q - k);
    }
  }

  lemma AtLeastOnce(b: int, d: int)
    requires b > 0 && d >= 1
    ensures b * d >= b
  {
  }

  /** All ones: the value of -1 as a word. */
  const AllOnes: U32 := 0xFFFF_FFFF
}
