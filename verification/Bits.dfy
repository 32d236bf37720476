/** Powers of two, bitwise AND on naturals and the bit tricks the sources use. */
module Bits {

  predicate PowerOfTwo(x: nat) {
    x == 1 || (x > 1 && x % 2 == 0 && PowerOfTwo(x / 2))
  }

  lemma PowerOne()
    ensures PowerOfTwo(1)
  {
  }

  /** Bitwise AND of two non-negative integers. */
  function And(a: nat, b: nat): nat {
    if a == 0 || b == 0 then 0
    else 2 * And(a / 2, b / 2) + (if a % 2 == 1 && b % 2 == 1 then 1 else 0)
  }

  /** The expression `x & (x - 1)`; at zero the right operand is all ones. */
  function ClearLowestBit(x: nat): nat {
    if x == 0 then 0 else And(x, x - 1)
  }

  lemma {:induction false} AndOfEqual(x: nat)
    ensures And(x, x) == x
  {
    if x != 0 {
      AndOfEqual(x / 2);
    }
  }

  /** `(x & (x - 1)) == 0` is a test for powers of two (and zero). */
  lemma {:induction false} ClearLowestBitIsPowerTest(x: nat)
    ensures ClearLowestBit(x) == 0 <==> x == 0 || PowerOfTwo(x)
  {
    if x == 0 || x == 1 {
    } else if x % 2 == 1 {
      assert (x - 1) / 2 == x / 2;
      AndOfEqual(x / 2);
    } else {
      assert (x - 1) / 2 == x / 2 - 1;
      ClearLowestBitIsPowerTest(x / 2);
    }
  }

  /** The least power of two that is at least n. */
  function CeilPower(n: nat): (p: nat)
    requires n >= 1
    ensures PowerOfTwo(p) && n <= p < 2 * n
  {
    if n == 1 then 1 else 2 * CeilPower((n + 1) / 2)
  }

  lemma {:induction false} CeilPowerIsLeast(n: nat, q: nat)
    requires 1 <= n <= q && PowerOfTwo(q)
    ensures CeilPower(n) <= q
  {
    if n > 1 {
      CeilPowerIsLeast((n + 1) / 2, q / 2);
    }
  }

  lemma CeilOfPower(p: nat)
    requires PowerOfTwo(p)
    ensures CeilPower(p) == p
  {
    CeilPowerIsLeast(p, p);
  }

  /** Between two powers of two there is at least a factor of two. */
  lemma {:induction false} PowersAreSparse(p: nat, q: nat)
    requires PowerOfTwo(p) && PowerOfTwo(q) && p < q
    ensures 2 * p <= q
  {
    if p > 1 {
      PowersAreSparse(p / 2, q / 2);
    }
  }

  function PopCount(n: nat): nat {
    if n == 0 then 0 else PopCount(n / 2) + n % 2
  }

  lemma EvenPower(p: nat)
    requires PowerOfTwo(p) && p >= 2
    ensures p % 2 == 0
  {
  }

  lemma CeilOfEven(n: nat)
    ensures n > 0 && n % 2 == 0 ==> CeilPower(n) % 2 == 0
  {
  }

  function NatOrZero(x: int): nat {
    if x < 0 then 0 else x
  }
}
