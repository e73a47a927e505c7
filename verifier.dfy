/**
 * The powers-of-tau transcript verifier (src/setup/verifier.hpp).
 *
 * A transcript holds four point sequences: g1_x and g1_alpha_x in G1, g2_x and
 * g2_alpha_x in G2. A random challenge z folds each sequence into a two-point
 * verification key; one pairing equality then compares the key with an
 * anchor point from the other group. A fifth pairing equality checks that the
 * same alpha scales the base points of both groups.
 *
 * The C++ templates over `GroupT` become a `Group` tag on each point and an
 * explicit group argument. `FieldT::random_element()` becomes a challenge
 * parameter.
 */
module Verifier {
  import opened Field
  import opened Curve

  /** A pair of points of one group, built and consumed within a single check. */
  datatype VerificationKey = VerificationKey(lhs: Point, rhs: Point)

  predicate InGroup(key: VerificationKey, g: Group)
  {
    key.lhs.group == g && key.rhs.group == g
  }

  /** Every point of the sequence lies in group g (in the source, the pointer's element type). */
  predicate AllIn(p: seq<Point>, g: Group)
  {
    forall j :: 0 <= j < |p| ==> p[j].group == g
  }

  // ---------------------------------------------------------------------------
  // same_ratio_preprocess
  //
  // The comments above the C++ function describe a key with weights
  // z, z^2, ..., z^(n-1) in which rhs is lhs shifted by one position. The code
  // computes something else: the running multiplier is SQUARED at each step,
  // so index i is weighted by z^(2^i), and lhs and rhs share one accumulator
  // over indices 1..n-2 and differ only in their last term. The functions
  // below state what the code computes, reading `scalar_multiplier.sqr()`
  // as squaring its receiver in place (its result is not used, and the
  // field class that defines it is not part of this model). If `sqr()`
  // instead returned the square and left its receiver alone, every weight
  // would be z.
  // ---------------------------------------------------------------------------

  /** The weight of index i: z^(2^i), the challenge squared i times. */
  function Weight(z: int, i: nat): int
  {
    Pow(z, Pow2(i))
  }

  /** The accumulator's value, unreduced: the sum over j = 1..k of Weight(z, j) * p[j]. */
  function WeightedSum(p: seq<Point>, z: int, k: nat): int
    requires k < |p|
  {
    if k == 0 then 0 else WeightedSum(p, z, k - 1) + Weight(z, k) * p[k].log
  }

  /** How many times the loop body runs for a given degree: indices 1..degree-2. */
  function Rounds(degree: nat): nat
  {
    if degree >= 2 then degree - 2 else 0
  }

  /**
   * The key `same_ratio_preprocess` computes, in closed form. With
   * acc = WeightedSum over 1..Rounds(degree):
   *   lhs = acc + z * p[0]
   *   rhs = acc + z^(2^(Rounds(degree) + 1)) * p[degree - 1]
   * For degree >= 2 the last weight is z^(2^(degree - 1)).
   */
  function PreprocessKey(p: seq<Point>, g: Group, degree: nat, z: Fr): (key: VerificationKey)
    requires 1 <= degree <= |p|
    ensures InGroup(key, g)
  {
    var acc := WeightedSum(p, z, Rounds(degree));
    VerificationKey(
      Point(g, (acc + z * p[0].log) % R),
      Point(g, (acc + Weight(z, Rounds(degree) + 1) * p[degree - 1].log) % R))
  }

  /** One squaring advances the reduced weight of index i to that of index i + 1. */
  lemma SquareStep(z: Fr, i: nat)
    ensures Square(Weight(z, i) % R) == Weight(z, i + 1) % R
  {
    ModMul(Weight(z, i), Weight(z, i));
    PowAdd(z, Pow2(i), Pow2(i));
  }

  /** Adding a reduced weighted term to a reduced sum reduces the unreduced total. */
  lemma FoldTerm(acc: int, w: int, x: Fr)
    ensures (acc % R + (x * (w % R)) % R) % R == (acc + w * x) % R
  {
    ModMul(x, w);
    assert x % R == x;
    ModAdd(acc, x * w);
  }

  /**
   * Models `same_ratio_preprocess`: folds the first `degree` points into a key
   * with the challenge z. The point array is only read (no modifies clause),
   * and only its indices 0..degree-1 matter (PreprocessKeyReadsPrefix).
   * `degree >= 1` is what keeps `polynomial_degree - 1` from wrapping around.
   */
  method SameRatioPreprocess(points: array<Point>, g: Group, degree: nat, challenge: Fr)
    returns (key: VerificationKey)
    requires 1 <= degree <= points.Length
    requires AllIn(points[..], g)
    ensures key == PreprocessKey(points[..], g, degree, challenge)
  {
    assert Weight(challenge, 0) == challenge * Pow(challenge, 0);
    var scalarMultiplier := challenge;
    var accumulator := Zero(g);
    var i := 1;
    while i < degree - 1
      invariant 1 <= i <= Rounds(degree) + 1
      invariant scalarMultiplier == Weight(challenge, i - 1) % R
      invariant accumulator == Point(g, WeightedSum(points[..], challenge, i - 1) % R)
    {
      SquareStep(challenge, i - 1);
      scalarMultiplier := Square(scalarMultiplier);
      FoldTerm(WeightedSum(points[..], challenge, i - 1), Weight(challenge, i), points[i].log);
      accumulator := Add(accumulator, Scale(points[i], scalarMultiplier));
      i := i + 1;
    }
    SquareStep(challenge, i - 1);
    scalarMultiplier := Square(scalarMultiplier);
    var acc := WeightedSum(points[..], challenge, i - 1);
    FoldTerm(acc, Weight(challenge, i), points[degree - 1].log);
    var rhs := Add(accumulator, Scale(points[degree - 1], scalarMultiplier));
    FoldTerm(acc, challenge, points[0].log);
    var lhs := Add(accumulator, Scale(points[0], challenge));
    key := VerificationKey(lhs, rhs);
  }

  /**
   * The two halves of the key differ only in their last terms: the shared
   * accumulator cancels, leaving z^(2^(n-1)) * p[n-1] - z * p[0].
   */
  lemma PreprocessKeyDifference(p: seq<Point>, g: Group, degree: nat, z: Fr)
    requires 2 <= degree <= |p|
    ensures var key := PreprocessKey(p, g, degree, z);
      (key.rhs.log - key.lhs.log) % R == (Weight(z, degree - 1) * p[degree - 1].log - z * p[0].log) % R
  {
    var acc := WeightedSum(p, z, degree - 2);
    var a := acc + Weight(z, degree - 1) * p[degree - 1].log;
    var b := acc + z * p[0].log;
    assert a - b == Weight(z, degree - 1) * p[degree - 1].log - z * p[0].log;
    var qa, qb := a / R, b / R;
    assert a % R - b % R == (qb - qa) * R + (a - b);
    ModMultiple(qb - qa, a - b);
  }

  /** Degree 2: the loop body never runs; only the two boundary terms remain. */
  lemma PreprocessKeyDegreeTwo(p: seq<Point>, g: Group, z: Fr)
    requires 2 <= |p|
    ensures PreprocessKey(p, g, 2, z)
      == VerificationKey(Point(g, (z * p[0].log) % R), Point(g, (z * z * p[1].log) % R))
  {
    assert Pow2(1) == 2;
    assert Pow(z, 1) == z;
    assert Weight(z, 1) == z * Pow(z, 1);
  }

  /** Degree 1: the loop body never runs and both halves weight the single point p[0]. */
  lemma PreprocessKeyDegreeOne(p: seq<Point>, g: Group, z: Fr)
    requires 1 <= |p|
    ensures PreprocessKey(p, g, 1, z)
      == VerificationKey(Point(g, (z * p[0].log) % R), Point(g, (z * z * p[0].log) % R))
  {
    assert Pow2(1) == 2;
    assert Pow(z, 1) == z;
    assert Weight(z, 1) == z * Pow(z, 1);
  }

  lemma {:induction false} WeightedSumPrefix(p: seq<Point>, q: seq<Point>, z: int, k: nat)
    requires k < |p| && k < |q|
    requires p[..k + 1] == q[..k + 1]
    ensures WeightedSum(p, z, k) == WeightedSum(q, z, k)
  {
    if k > 0 {
      assert p[k] == p[..k + 1][k] == q[..k + 1][k] == q[k];
      assert p[..k] == p[..k + 1][..k];
      assert q[..k] == q[..k + 1][..k];
      WeightedSumPrefix(p, q, z, k - 1);
    }
  }

  /** The key depends only on the first `degree` points. */
  lemma PreprocessKeyReadsPrefix(p: seq<Point>, q: seq<Point>, g: Group, degree: nat, z: Fr)
    requires 1 <= degree <= |p| && degree <= |q|
    requires p[..degree] == q[..degree]
    ensures PreprocessKey(p, g, degree, z) == PreprocessKey(q, g, degree, z)
  {
    assert p[..Rounds(degree) + 1] == p[..degree][..Rounds(degree) + 1];
    assert q[..Rounds(degree) + 1] == q[..degree][..Rounds(degree) + 1];
    WeightedSumPrefix(p, q, z, Rounds(degree));
    assert p[0] == p[..degree][0] == q[..degree][0] == q[0];
    assert p[degree - 1] == p[..degree][degree - 1] == q[..degree][degree - 1] == q[degree - 1];
  }

  // ---------------------------------------------------------------------------
  // same_ratio
  //
  // The comment on the C++ function states the intended check,
  // e(g1.lhs, g2.lhs) == e(g1.rhs, g2.rhs). The code as written does not
  // compute it: it passes g1_rhs in the G2 slot of double_miller_loop (where
  // g2_rhs is meant; the call does not type-check), and it compares the
  // product e(g1.lhs, g2.lhs) * e(g1.rhs, g2.rhs) with GT's identity without
  // negating either rhs. SameRatio models the intended check, computed as the
  // batched form e(lhs1, lhs2) * e(-rhs1, rhs2) == 1; SameRatioAsWritten
  // models the missing negation.
  // ---------------------------------------------------------------------------

  /** e(c, d) * e(-c, d) is the identity of GT: the pairing of a negated point inverts. */
  lemma NegatedPairingCancels(c: Point, d: Point)
    requires c.group == G1 && d.group == G2
    ensures (Pairing(c, d).log + Pairing(Neg(c), d).log) % R == 0
  {
    ModMul(R - c.log, d.log);
    assert d.log % R == d.log;
    assert (R - c.log) * d.log + c.log * d.log == R * d.log;
    ModAdd((R - c.log) * d.log, c.log * d.log);
    ModMultiple(d.log, 0);
  }

  /** Reduced exponents X, Y, Z with Y + Z == 0 (mod R): X + Z == 0 (mod R) exactly when X == Y. */
  lemma CancelsExactly(x: Fr, y: Fr, z: Fr)
    requires (y + z) % R == 0
    ensures (x + z) % R == 0 <==> x == y
  {
  }

  /** Models `same_ratio`: the pairing equality of a G1 key and a G2 key. */
  function SameRatio(g1Key: VerificationKey, g2Key: VerificationKey): (ok: bool)
    requires InGroup(g1Key, G1) && InGroup(g2Key, G2)
    ensures ok <==> Pairing(g1Key.lhs, g2Key.lhs) == Pairing(g1Key.rhs, g2Key.rhs)
    ensures ok <==> (g1Key.lhs.log * g2Key.lhs.log) % R == (g1Key.rhs.log * g2Key.rhs.log) % R
  {
    NegatedPairingCancels(g1Key.rhs, g2Key.rhs);
    CancelsExactly(Pairing(g1Key.lhs, g2Key.lhs).log, Pairing(g1Key.rhs, g2Key.rhs).log,
                   Pairing(Neg(g1Key.rhs), g2Key.rhs).log);
    var millerResult := TargetMul(Pairing(g1Key.lhs, g2Key.lhs), Pairing(Neg(g1Key.rhs), g2Key.rhs));
    millerResult == TargetOne()
  }

  /**
   * `same_ratio` as written: the product of the two pairings compared with
   * GT's identity, with g2_rhs in the slot line 54 fills with g1_rhs.
   */
  function SameRatioAsWritten(g1Key: VerificationKey, g2Key: VerificationKey): (ok: bool)
    requires InGroup(g1Key, G1) && InGroup(g2Key, G2)
    ensures ok <==> (g1Key.lhs.log * g2Key.lhs.log + g1Key.rhs.log * g2Key.rhs.log) % R == 0
  {
    ModAdd(g1Key.lhs.log * g2Key.lhs.log, g1Key.rhs.log * g2Key.rhs.log);
    TargetMul(Pairing(g1Key.lhs, g2Key.lhs), Pairing(g1Key.rhs, g2Key.rhs)) == TargetOne()
  }

  /** Two keys made of generators have equal ratios, yet the as-written check rejects them. */
  lemma SameRatioAsWrittenRejectsEqualRatios()
    ensures var g1Key := VerificationKey(One(G1), One(G1));
      var g2Key := VerificationKey(One(G2), One(G2));
      SameRatio(g1Key, g2Key) && !SameRatioAsWritten(g1Key, g2Key)
  {
  }

  // ---------------------------------------------------------------------------
  // validate_polynomial_evaluation
  //
  // Divergences from the code as written, each modelled as intended:
  // - `delta.rhs = Group1T::one()` assigns the generator of the sequence's
  //   group to the anchor-group key (a G1 point into a G2 key for a G1
  //   sequence, a G2 point into a G1 key for a G2 sequence); the model uses
  //   the generator of the anchor's own group.
  // - the call names an undeclared `GroupT` and the misspelt
  //   `polynomial_degree`; the model passes the sequence's group and the
  //   degree parameter.
  // - the G1 role is chosen by comparing `sizeof` the two group types; the
  //   model takes the sequence's group explicitly and puts the G1 key first.
  // ---------------------------------------------------------------------------

  /**
   * The check in exponent form: the anchor's discrete logarithm is the ratio
   * rhs / lhs of the sequence's key, lhs * anchor == rhs (mod R).
   */
  predicate AnchoredBy(p: seq<Point>, g: Group, anchor: Point, degree: nat, z: Fr)
    requires 1 <= degree <= |p|
  {
    var key := PreprocessKey(p, g, degree, z);
    (key.lhs.log * anchor.log) % R == key.rhs.log
  }

  /**
   * Models `validate_polynomial_evaluation`: the sequence `evaluation` in group
   * g is checked against `comparator`, a point of the other group.
   */
  method ValidatePolynomialEvaluation(evaluation: array<Point>, g: Group, comparator: Point, degree: nat, challenge: Fr)
    returns (ok: bool)
    requires 1 <= degree <= evaluation.Length
    requires AllIn(evaluation[..], g)
    requires comparator.group == Opposite(g)
    ensures ok == AnchoredBy(evaluation[..], g, comparator, degree, challenge)
  {
    var delta := VerificationKey(comparator, One(Opposite(g)));
    var key := SameRatioPreprocess(evaluation, g, degree, challenge);
    assert key.rhs.log % R == key.rhs.log;
    if g == G1 {
      ok := SameRatio(key, delta);
    } else {
      ok := SameRatio(delta, key);
    }
  }

  // ---------------------------------------------------------------------------
  // validate_transcript
  // ---------------------------------------------------------------------------

  /** The four challenges drawn, in order, by the four sequence checks. */
  datatype Challenges = Challenges(g1X: Fr, g1AlphaX: Fr, g2X: Fr, g2AlphaX: Fr)

  /**
   * The fifth check: the ratio g1_alpha_x[0] / g1_x[0] in G1 equals the ratio
   * g2_alpha_x[0] / g2_x[0] in G2, so both groups are shifted by the same alpha.
   */
  function CrossBinding(g1Base: Point, g1AlphaBase: Point, g2Base: Point, g2AlphaBase: Point): (ok: bool)
    requires g1Base.group == G1 && g1AlphaBase.group == G1
    requires g2Base.group == G2 && g2AlphaBase.group == G2
    ensures ok <==> (g1Base.log * g2AlphaBase.log) % R == (g1AlphaBase.log * g2Base.log) % R
  {
    SameRatio(VerificationKey(g1Base, g1AlphaBase), VerificationKey(g2AlphaBase, g2Base))
  }

  /** The shape `validate_transcript` relies on: four sequences of at least `degree` points, in their groups. */
  predicate Shaped(g1X: seq<Point>, g1AlphaX: seq<Point>, g2X: seq<Point>, g2AlphaX: seq<Point>, degree: nat)
  {
    1 <= degree && degree <= |g1X| && degree <= |g1AlphaX| && degree <= |g2X| && degree <= |g2AlphaX|
    && AllIn(g1X, G1) && AllIn(g1AlphaX, G1) && AllIn(g2X, G2) && AllIn(g2AlphaX, G2)
  }

  /** The outcomes of the five checks, in the order the source runs them. */
  function TranscriptChecks(g1X: seq<Point>, g1AlphaX: seq<Point>, g2X: seq<Point>, g2AlphaX: seq<Point>,
                            degree: nat, zs: Challenges): (checks: seq<bool>)
    requires Shaped(g1X, g1AlphaX, g2X, g2AlphaX, degree)
    ensures |checks| == 5
  {
    [ AnchoredBy(g1X, G1, g2X[0], degree, zs.g1X),
      AnchoredBy(g1AlphaX, G1, g2X[0], degree, zs.g1AlphaX),
      AnchoredBy(g2X, G2, g1X[0], degree, zs.g2X),
      AnchoredBy(g2AlphaX, G2, g1X[0], degree, zs.g2AlphaX),
      CrossBinding(g1X[0], g1AlphaX[0], g2X[0], g2AlphaX[0]) ]
  }

  /** The value of `result` after `result &= c` for each outcome c in order, starting from true. */
  function AllPass(outcomes: seq<bool>): bool
  {
    if outcomes == [] then true else AllPass(outcomes[..|outcomes| - 1]) && outcomes[|outcomes| - 1]
  }

  lemma AllPassSnoc(outcomes: seq<bool>, c: bool)
    ensures AllPass(outcomes + [c]) == (AllPass(outcomes) && c)
  {
    assert (outcomes + [c])[..|outcomes|] == outcomes;
  }

  /**
   * Models `validate_transcript`. Each check is a statement of its own whose
   * outcome is and-ed into `result` afterwards, so every check runs whatever
   * the earlier ones returned.
   */
  method ValidateTranscript(g1X: array<Point>, g1AlphaX: array<Point>, g2X: array<Point>, g2AlphaX: array<Point>,
                            degree: nat, zs: Challenges)
    returns (result: bool)
    requires Shaped(g1X[..], g1AlphaX[..], g2X[..], g2AlphaX[..], degree)
    ensures result == AllPass(TranscriptChecks(g1X[..], g1AlphaX[..], g2X[..], g2AlphaX[..], degree, zs))
  {
    ghost var outcomes: seq<bool> := [];
    result := true;

    var ok := ValidatePolynomialEvaluation(g1X, G1, g2X[0], degree, zs.g1X);
    AllPassSnoc(outcomes, ok);
    result, outcomes := result && ok, outcomes + [ok];

    ok := ValidatePolynomialEvaluation(g1AlphaX, G1, g2X[0], degree, zs.g1AlphaX);
    AllPassSnoc(outcomes, ok);
    result, outcomes := result && ok, outcomes + [ok];

    ok := ValidatePolynomialEvaluation(g2X, G2, g1X[0], degree, zs.g2X);
    AllPassSnoc(outcomes, ok);
    result, outcomes := result && ok, outcomes + [ok];

    ok := ValidatePolynomialEvaluation(g2AlphaX, G2, g1X[0], degree, zs.g2AlphaX);
    AllPassSnoc(outcomes, ok);
    result, outcomes := result && ok, outcomes + [ok];

    var g1AlphaKey := VerificationKey(g1X[0], g1AlphaX[0]);
    var g2AlphaKey := VerificationKey(g2AlphaX[0], g2X[0]);
    ok := SameRatio(g1AlphaKey, g2AlphaKey);
    AllPassSnoc(outcomes, ok);
    result, outcomes := result && ok, outcomes + [ok];

    assert outcomes == TranscriptChecks(g1X[..], g1AlphaX[..], g2X[..], g2AlphaX[..], degree, zs);
  }

  lemma AllPassFive(a: bool, b: bool, c: bool, d: bool, e: bool)
    ensures AllPass([a, b, c, d, e]) == (a && b && c && d && e)
  {
    AllPassSnoc([], a);
    AllPassSnoc([a], b);
    AllPassSnoc([a, b], c);
    AllPassSnoc([a, b, c], d);
    AllPassSnoc([a, b, c, d], e);
    assert [a] == [] + [a] && [a, b] == [a] + [b] && [a, b, c] == [a, b] + [c];
    assert [a, b, c, d] == [a, b, c] + [d] && [a, b, c, d, e] == [a, b, c, d] + [e];
  }

  /** The aggregate passes exactly when no outcome fails. */
  lemma {:induction false} AllPassIffNoFailure(outcomes: seq<bool>)
    ensures AllPass(outcomes) <==> forall k :: 0 <= k < |outcomes| ==> outcomes[k]
  {
    if outcomes != [] {
      var init := outcomes[..|outcomes| - 1];
      AllPassIffNoFailure(init);
      assert forall k :: 0 <= k < |init| ==> init[k] == outcomes[k];
    }
  }

  /** The aggregate does not depend on the order in which the checks run. */
  lemma AllPassOrderIndependent(outcomes: seq<bool>, reordered: seq<bool>)
    requires multiset(outcomes) == multiset(reordered)
    ensures AllPass(outcomes) == AllPass(reordered)
  {
    AllPassIffNoFailure(outcomes);
    AllPassIffNoFailure(reordered);
    assert (false in outcomes) == (false in multiset(outcomes));
    assert (false in reordered) == (false in multiset(reordered));
    assert (forall k :: 0 <= k < |outcomes| ==> outcomes[k]) <==> false !in outcomes;
    assert (forall k :: 0 <= k < |reordered| ==> reordered[k]) <==> false !in reordered;
  }

  /** The transcript is accepted exactly when all four sequence checks and the cross-binding check pass. */
  lemma TranscriptAcceptedIff(g1X: seq<Point>, g1AlphaX: seq<Point>, g2X: seq<Point>, g2AlphaX: seq<Point>,
                              degree: nat, zs: Challenges)
    requires Shaped(g1X, g1AlphaX, g2X, g2AlphaX, degree)
    ensures AllPass(TranscriptChecks(g1X, g1AlphaX, g2X, g2AlphaX, degree, zs)) <==>
      AnchoredBy(g1X, G1, g2X[0], degree, zs.g1X)
      && AnchoredBy(g1AlphaX, G1, g2X[0], degree, zs.g1AlphaX)
      && AnchoredBy(g2X, G2, g1X[0], degree, zs.g2X)
      && AnchoredBy(g2AlphaX, G2, g1X[0], degree, zs.g2AlphaX)
      && (g1X[0].log * g2AlphaX[0].log) % R == (g1AlphaX[0].log * g2X[0].log) % R
  {
    var checks := TranscriptChecks(g1X, g1AlphaX, g2X, g2AlphaX, degree, zs);
    AllPassFive(checks[0], checks[1], checks[2], checks[3], checks[4]);
    assert checks == [checks[0], checks[1], checks[2], checks[3], checks[4]];
  }

  /** Base points genuinely shifted by one alpha in both groups pass the cross-binding check. */
  lemma CrossBindingAcceptsCommonAlpha(g1Base: Point, g1AlphaBase: Point, g2Base: Point, g2AlphaBase: Point, alpha: Fr)
    requires g1Base.group == G1 && g1AlphaBase.group == G1
    requires g2Base.group == G2 && g2AlphaBase.group == G2
    requires g1AlphaBase.log == (alpha * g1Base.log) % R
    requires g2AlphaBase.log == (alpha * g2Base.log) % R
    ensures CrossBinding(g1Base, g1AlphaBase, g2Base, g2AlphaBase)
  {
    var a, c := g1Base.log, g2Base.log;
    ModMul(a, alpha * c);
    ModMul(alpha * a, c);
    assert a % R == a && c % R == c;
    assert a * (alpha * c) == (alpha * a) * c;
  }

  // ---------------------------------------------------------------------------
  // The accumulator described by the comments, and what the squared weights do
  // to a genuine sequence.
  // ---------------------------------------------------------------------------

  /** Element j of the first n points is x^(j+1) times the generator. */
  predicate PowersOf(p: seq<Point>, x: Fr, n: nat)
  {
    n <= |p| && forall j :: 0 <= j < n ==> p[j].log == Pow(x, j + 1) % R
  }

  /**
   * A genuine degree-3 sequence with x = 7 and its genuine anchor 7 * one(G2):
   * with challenge 2 the code's key is lhs = 4*49 + 2*7 = 210 and
   * rhs = 4*49 + 16*343 = 5684, and 210 * 7 = 1470 is not 5684, so the
   * sequence check rejects it.
   */
  lemma SquaredWeightsRejectGenuineSequence()
    ensures var p := [Point(G1, 7), Point(G1, 49), Point(G1, 343)];
      PowersOf(p, 7, 3) && !AnchoredBy(p, G1, Point(G2, 7), 3, 2)
  {
    var p := [Point(G1, 7), Point(G1, 49), Point(G1, 343)];
    assert Pow(7, 1) == 7 && Pow(7, 2) == 49 && Pow(7, 3) == 343;
    assert Weight(2, 1) == 4 && Weight(2, 2) == 16;
    assert WeightedSum(p, 2, 1) == 196;
    var key := PreprocessKey(p, G1, 3, 2);
    assert key.lhs.log == 210 && key.rhs.log == 5684;
  }

  /**
   * The sum over i = 1..k of z^i * p[i - 1 + shift]: with shift 0 the comments'
   * A = x.z + x^2.z^2 + ..., with shift 1 their B = x^2.z + x^3.z^2 + ....
   */
  function ShiftedSum(p: seq<Point>, z: int, k: nat, shift: nat): int
    requires shift <= 1 && k + shift <= |p|
  {
    if k == 0 then 0 else ShiftedSum(p, z, k - 1, shift) + Pow(z, k) * p[k - 1 + shift].log
  }

  /** The key the comments describe: both halves weight by z, z^2, ..., z^(n-1), rhs one position ahead. */
  function ShiftedKey(p: seq<Point>, g: Group, degree: nat, z: Fr): (key: VerificationKey)
    requires 1 <= degree <= |p|
    ensures InGroup(key, g)
  {
    VerificationKey(Point(g, ShiftedSum(p, z, degree - 1, 0) % R), Point(g, ShiftedSum(p, z, degree - 1, 1) % R))
  }

  /** Reduced x^k times x is x^(k+1), modulo R. */
  lemma NextPower(x: Fr, k: nat)
    ensures ((Pow(x, k) % R) * x) % R == Pow(x, k + 1) % R
  {
    ModMul(Pow(x, k), x);
    assert x % R == x;
    assert Pow(x, k + 1) == x * Pow(x, k);
  }

  /** One more term keeps the ratio: if L * x == R' and a * x == b, then (L + w*a) * x == R' + w*b (mod R). */
  lemma ShiftedStep(l: int, r: int, w: int, a: int, b: int, x: int)
    requires (l * x) % R == r % R && (a * x) % R == b % R
    ensures ((l + w * a) * x) % R == (r + w * b) % R
  {
    ModMulCongruent(a * x, b, w);
    assert (l + w * a) * x == l * x + w * (a * x);
    ModAddCongruent(l * x, r, w * (a * x), w * b);
  }

  lemma {:induction false} ShiftedSumRatio(p: seq<Point>, x: Fr, z: int, k: nat)
    requires PowersOf(p, x, k + 1)
    ensures (ShiftedSum(p, z, k, 0) * x) % R == ShiftedSum(p, z, k, 1) % R
  {
    if k > 0 {
      ShiftedSumRatio(p, x, z, k - 1);
      NextPower(x, k);
      assert p[k - 1].log == Pow(x, k) % R;
      assert p[k].log % R == Pow(x, k + 1) % R;
      ShiftedStep(ShiftedSum(p, z, k - 1, 0), ShiftedSum(p, z, k - 1, 1), Pow(z, k), p[k - 1].log, p[k].log, x);
    }
  }

  /** With the comments' key, every genuine sequence passes the intended pairing check against its anchor. */
  lemma ShiftedKeyAcceptsGenuineSequence(p: seq<Point>, x: Fr, degree: nat, z: Fr)
    requires 1 <= degree && PowersOf(p, x, degree)
    ensures SameRatio(ShiftedKey(p, G1, degree, z), VerificationKey(Point(G2, x), One(G2)))
  {
    ShiftedSumRatio(p, x, z, degree - 1);
    var l, r := ShiftedSum(p, z, degree - 1, 0), ShiftedSum(p, z, degree - 1, 1);
    var key := ShiftedKey(p, G1, degree, z);
    ModMul(l, x);
    assert x % R == x;
    assert (key.lhs.log * x) % R == key.rhs.log;
    assert key.rhs.log * 1 == key.rhs.log;
    var anchorKey := VerificationKey(Point(G2, x), One(G2));
    assert (key.lhs.log * anchorKey.lhs.log) % R == (key.rhs.log * anchorKey.rhs.log) % R;
  }

  /** The same for a G2 sequence: its anchor key (x, one(G1)) takes the G1 place in the pairing check. */
  lemma ShiftedKeyAcceptsGenuineG2Sequence(p: seq<Point>, x: Fr, degree: nat, z: Fr)
    requires 1 <= degree && PowersOf(p, x, degree)
    ensures SameRatio(VerificationKey(Point(G1, x), One(G1)), ShiftedKey(p, G2, degree, z))
  {
    ShiftedSumRatio(p, x, z, degree - 1);
    var l := ShiftedSum(p, z, degree - 1, 0);
    var key := ShiftedKey(p, G2, degree, z);
    ModMul(l, x);
    assert x % R == x;
    assert (key.lhs.log * x) % R == key.rhs.log;
    assert 1 * key.rhs.log == key.rhs.log;
    assert x * key.lhs.log == key.lhs.log * x;
    var anchorKey := VerificationKey(Point(G1, x), One(G1));
    assert (anchorKey.lhs.log * key.lhs.log) % R == (anchorKey.rhs.log * key.rhs.log) % R;
  }
}
