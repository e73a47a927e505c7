/**
 * The scalar field of the alt_bn128 curve: the integers modulo the prime
 * order R shared by G1, G2 and GT. Scalars (the verifier's random challenge)
 * live here, and so do the discrete logarithms the curve model uses for points.
 */
module Field {

  /** The order of the alt_bn128 groups, which is also the modulus of their scalar field. */
  const R: nat := 21888242871839275222246405745257275088548364400416034343698204186575808495617

  /** A reduced scalar. */
  type Fr = x: int | 0 <= x < R

  /** Field multiplication. */
  function Mul(a: Fr, b: Fr): Fr
  {
    (a * b) % R
  }

  /** In-place squaring of a scalar (`FieldT::sqr()`), as a value. */
  function Square(a: Fr): Fr
  {
    Mul(a, a)
  }

  /** Integer power b^e, unreduced. */
  function Pow(b: int, e: nat): int
  {
    if e == 0 then 1 else b * Pow(b, e - 1)
  }

  /** 2^i. */
  function Pow2(i: nat): (r: nat)
    ensures r >= 1
  {
    if i == 0 then 1 else 2 * Pow2(i - 1)
  }

  lemma {:induction false} PowAdd(b: int, m: nat, n: nat)
    ensures Pow(b, m + n) == Pow(b, m) * Pow(b, n)
  {
    if m > 0 {
      PowAdd(b, m - 1, n);
      assert Pow(b, m + n) == b * Pow(b, m - 1 + n);
    }
  }

  lemma ModMultiple(k: int, m: int)
    ensures (k * R + m) % R == m % R
  {
  }

  lemma ModAdd(x: int, y: int)
    ensures (x % R + y % R) % R == (x + y) % R
  {
    var a, c := x / R, y / R;
    assert x + y == (a + c) * R + (x % R + y % R);
    ModMultiple(a + c, x % R + y % R);
  }

  lemma ModMul(x: int, y: int)
    ensures ((x % R) * (y % R)) % R == (x * y) % R
  {
    var a, b := x / R, x % R;
    var c, d := y / R, y % R;
    assert x == a * R + b;
    assert y == c * R + d;
    var k := a * c * R + a * d + b * c;
    assert x * y == k * R + b * d by {
      calc {
        x * y;
        (a * R + b) * (c * R + d);
        a * R * (c * R + d) + b * (c * R + d);
        a * R * c * R + a * R * d + b * c * R + b * d;
        k * R + b * d;
      }
    }
    ModMultiple(k, b * d);
  }

  /** Multiplying congruent values by the same factor keeps them congruent. */
  lemma ModMulCongruent(a: int, b: int, c: int)
    requires a % R == b % R
    ensures (c * a) % R == (c * b) % R
  {
    ModMul(c, a);
    ModMul(c, b);
  }

  /** Adding congruent values keeps them congruent. */
  lemma ModAddCongruent(a: int, b: int, c: int, d: int)
    requires a % R == b % R && c % R == d % R
    ensures (a + c) % R == (b + d) % R
  {
    ModAdd(a, c);
    ModAdd(b, d);
  }
}
