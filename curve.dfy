/**
 * The pairing groups of the curve library, in the discrete-logarithm model.
 *
 * G1 and G2 are cyclic of prime order R, so every point is `log` times its
 * group's fixed generator (`one()`): a point is represented by that exponent,
 * tagged with the group it belongs to. Group addition is addition of exponents
 * modulo R, scalar multiplication is multiplication modulo R, `zero()` is 0 and
 * `one()` is 1. GT is represented the same way, by the exponent of
 * e(one(G1), one(G2)), so the bilinear pairing is e(a, b) = a * b mod R and
 * GT's identity is the exponent 0. Precomputation, the Miller loop and the
 * final exponentiation are library internals; only the pairing they compute
 * together is modelled.
 */
module Curve {
  import opened Field

  /** Which of the two source groups a point lies in. */
  datatype Group = G1 | G2

  function Opposite(g: Group): Group
  {
    if g == G1 then G2 else G1
  }

  /** A point of G1 or G2: `log` times the generator of `group`. */
  datatype Point = Point(group: Group, log: Fr)

  /** `GroupT::zero()`, the identity. */
  function Zero(g: Group): Point
  {
    Point(g, 0)
  }

  /** `GroupT::one()`, the fixed generator. */
  function One(g: Group): Point
  {
    Point(g, 1)
  }

  /** Group addition `a + b`; both operands must lie in the same group. */
  function Add(a: Point, b: Point): Point
    requires a.group == b.group
  {
    Point(a.group, (a.log + b.log) % R)
  }

  /** The additive inverse `-a`. */
  function Neg(a: Point): Point
  {
    Point(a.group, (R - a.log) % R)
  }

  /** Scalar multiplication `a * k`. */
  function Scale(a: Point, k: Fr): Point
  {
    Point(a.group, (a.log * k) % R)
  }

  /** An element of GT: the exponent of e(one(G1), one(G2)). */
  datatype Target = Target(log: Fr)

  /** `GT::one()`, the identity of GT. */
  function TargetOne(): Target
  {
    Target(0)
  }

  /** The group operation of GT. */
  function TargetMul(s: Target, t: Target): Target
  {
    Target((s.log + t.log) % R)
  }

  /** The pairing e: G1 x G2 -> GT; its first argument must be in G1 and its second in G2. */
  function Pairing(a: Point, b: Point): Target
    requires a.group == G1 && b.group == G2
  {
    Target((a.log * b.log) % R)
  }
}
