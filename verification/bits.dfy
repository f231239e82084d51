/** Python's `&` on integers (two's complement, unbounded width), which is what
    pandas applies to two integer columns. */
module Bits {

  /** Bit `k` of a non-negative integer. */
  function Bit(a: nat, k: nat): bool {
    if k == 0 then a % 2 == 1 else Bit(a / 2, k - 1)
  }

  function AndNat(a: nat, b: nat): (r: nat)
    ensures r <= a && r <= b
  {
    if a == 0 || b == 0 then 0
    else 2 * AndNat(a / 2, b / 2) + (if a % 2 == 1 && b % 2 == 1 then 1 else 0)
  }

  function OrNat(a: nat, b: nat): (r: nat)
    ensures a <= r + b && b <= r + a
  {
    if a == 0 then b
    else if b == 0 then a
    else 2 * OrNat(a / 2, b / 2) + (if a % 2 == 1 || b % 2 == 1 then 1 else 0)
  }

  /** `AndNat` is bitwise conjunction: each bit of the result is set exactly when
      it is set in both arguments. */
  lemma {:induction false} AndNatBits(a: nat, b: nat, k: nat)
    ensures Bit(AndNat(a, b), k) == (Bit(a, k) && Bit(b, k))
  {
    if a == 0 || b == 0 {
      ZeroBits(k);
    } else {
      var q := AndNat(a / 2, b / 2);
      var r := AndNat(a, b);
      assert r == 2 * q + (if a % 2 == 1 && b % 2 == 1 then 1 else 0);
      assert r % 2 == (if a % 2 == 1 && b % 2 == 1 then 1 else 0);
      assert r / 2 == q;
      if k > 0 {
        AndNatBits(a / 2, b / 2, k - 1);
      }
    }
  }

  /** `OrNat` is bitwise disjunction. */
  lemma {:induction false} OrNatBits(a: nat, b: nat, k: nat)
    ensures Bit(OrNat(a, b), k) == (Bit(a, k) || Bit(b, k))
  {
    if a == 0 {
      ZeroBits(k);
    } else if b == 0 {
      ZeroBits(k);
    } else {
      var q := OrNat(a / 2, b / 2);
      var r := OrNat(a, b);
      assert r == 2 * q + (if a % 2 == 1 || b % 2 == 1 then 1 else 0);
      assert r % 2 == (if a % 2 == 1 || b % 2 == 1 then 1 else 0);
      assert r / 2 == q;
      if k > 0 {
        OrNatBits(a / 2, b / 2, k - 1);
      }
    }
  }

  lemma {:induction false} ZeroBits(k: nat)
    ensures !Bit(0, k)
  {
    if k > 0 {
      ZeroBits(k - 1);
    }
  }

  /** Python `a & b`. A negative integer is the complement `~n == -n - 1` of a
      non-negative one, and `x & ~n == x - (x & n)`, `~m & ~n == ~(m | n)`. */
  function BitAnd(a: int, b: int): (r: int)
    ensures a >= 0 || b >= 0 ==> r >= 0
    ensures a >= 0 && b >= 0 ==> r <= a && r <= b
  {
    if a >= 0 && b >= 0 then AndNat(a, b)
    else if a >= 0 then a - AndNat(a, -b - 1)
    else if b >= 0 then b - AndNat(b, -a - 1)
    else -(OrNat(-a - 1, -b - 1) as int) - 1
  }

  /** On 0/1 flags, `&` is logical conjunction. */
  lemma BitAndFlags(a: int, b: int)
    requires a == 0 || a == 1
    requires b == 0 || b == 1
    ensures BitAnd(a, b) == if a == 1 && b == 1 then 1 else 0
  {
  }

  /** `&` is symmetric. */
  lemma {:induction false} AndNatCommutes(a: nat, b: nat)
    ensures AndNat(a, b) == AndNat(b, a)
  {
    if a != 0 && b != 0 {
      AndNatCommutes(a / 2, b / 2);
    }
  }

  lemma BitAndCommutes(a: int, b: int)
    ensures BitAnd(a, b) == BitAnd(b, a)
  {
    if a >= 0 && b >= 0 {
      AndNatCommutes(a, b);
    } else if a < 0 && b < 0 {
      OrNatCommutes(-a - 1, -b - 1);
    }
  }

  lemma {:induction false} OrNatCommutes(a: nat, b: nat)
    ensures OrNat(a, b) == OrNat(b, a)
  {
    if a != 0 && b != 0 {
      OrNatCommutes(a / 2, b / 2);
    }
  }
}
