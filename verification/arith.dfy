/**
 Exact integer arithmetic shared by the key agreement and the address
 formatter: powers, and the facts about Euclidean division that the
 verifier does not find on its own. Python's `**`, `//`, `%` and `>>` are
 exact on unbounded non-negative integers, which is what these are.
 */
module Arith {

  /** `b ** e` for a non-negative exponent. */
  function Pow(b: nat, e: nat): (r: nat)
    ensures b > 0 ==> r > 0
    decreases e
  {
    if e == 0 then 1 else b * Pow(b, e - 1)
  }

  /** `b ** (e1 + e2) == b ** e1 * b ** e2`. */
  lemma {:induction false} PowAdd(b: nat, e1: nat, e2: nat)
    ensures Pow(b, e1 + e2) == Pow(b, e1) * Pow(b, e2)
    decreases e1
  {
    if e1 > 0 {
      PowAdd(b, e1 - 1, e2);
      MulAssoc(b, Pow(b, e1 - 1), Pow(b, e2));
      assert (e1 - 1) + e2 == e1 + e2 - 1;
    }
  }

  /** Multiplication regroups. */
  lemma MulAssoc(a: int, b: int, c: int)
    ensures a * (b * c) == (a * b) * c
  {
  }

  /** `(b ** e1) ** e2 == b ** (e1 * e2)`. */
  lemma {:induction false} PowMul(b: nat, e1: nat, e2: nat)
    ensures Pow(Pow(b, e1), e2) == Pow(b, e1 * e2)
    decreases e2
  {
    if e2 > 0 {
      PowMul(b, e1, e2 - 1);
      PowAdd(b, e1, e1 * (e2 - 1));
      assert e1 + e1 * (e2 - 1) == e1 * e2;
    }
  }

  lemma MulNonneg(a: int, b: int)
    requires a >= 0 && b >= 0
    ensures a * b >= 0
  {
  }

  lemma MulPositive(a: int, b: int)
    requires a > 0 && b > 0
    ensures a * b > 0
  {
  }

  /** Quotient and remainder are unique. */
  lemma DivModUnique(a: int, p: int, q: int, r: int)
    requires p > 0 && 0 <= r < p && a == p * q + r
    ensures a / p == q && a % p == r
  {
    var q', r' := a / p, a % p;
    assert a == p * q' + r';
    if q' < q {
      MulNonneg(p, q - q' - 1);
      assert false;
    } else if q' > q {
      MulNonneg(p, q' - q - 1);
      assert false;
    }
  }

  /** Adding a multiple of `p` does not change the remainder. */
  lemma ModAddMultiple(r: nat, k: nat, p: nat)
    requires p > 0
    ensures (p * k + r) % p == r % p
  {
    DivModUnique(p * k + r, p, k + r / p, r % p);
  }

  /** Reducing the left factor first does not change the remainder of a product. */
  lemma ModMulLeft(x: nat, y: nat, p: nat)
    requires p > 0
    ensures (x * y) % p == ((x % p) * y) % p
  {
    var q, r := x / p, x % p;
    assert x * y == p * (q * y) + r * y by {
      assert x == p * q + r;
    }
    ModAddMultiple(r * y, q * y, p);
  }

  /**
   Dividing by `a` and then by `b` is dividing by `a * b`, and the remainder
   modulo `a * b` is made of the two smaller remainders.
   */
  lemma DivModNested(n: nat, a: nat, b: nat)
    requires a > 0 && b > 0
    ensures n / (a * b) == (n / a) / b
    ensures n % (a * b) == a * ((n / a) % b) + n % a
  {
    var q1, r1 := n / a, n % a;
    var q2, r2 := q1 / b, q1 % b;
    assert n == (a * b) * q2 + (a * r2 + r1) by {
      assert n == a * q1 + r1;
      assert q1 == b * q2 + r2;
      assert a * q1 == a * (b * q2) + a * r2;
      assert a * (b * q2) == (a * b) * q2;
    }
    assert a * r2 + r1 < a * b by {
      MulNonneg(a, b - 1 - r2);
      assert a * (b - 1 - r2) == a * b - a - a * r2;
    }
    MulPositive(a, b);
    DivModUnique(n, a * b, q2, a * r2 + r1);
  }

  /**
   The low and high parts of a remainder modulo `a * b`: its remainder
   modulo `a` is `n`'s, and its quotient by `a` is `(n / a) % b`.
   */
  lemma ModNestedParts(n: nat, a: nat, b: nat)
    requires a > 0 && b > 0
    ensures (n % (a * b)) % a == n % a
    ensures (n % (a * b)) / a == (n / a) % b
  {
    DivModNested(n, a, b);
    DivModUnique(n % (a * b), a, (n / a) % b, n % a);
  }
}
