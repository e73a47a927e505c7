# Powers-of-tau transcript verifier, modelled in Dafny

This project models the transcript verifier of a powers-of-tau trusted-setup
ceremony (`src/setup/verifier.hpp`). A transcript is four point sequences:
`g1_x` and `g1_alpha_x` in G1, `g2_x` and `g2_alpha_x` in G2. Each should
hold the powers x, x^2, ..., x^n of a secret x, and the alpha sequences
should also be scaled by a secret alpha. The verifier:

- folds each sequence into a two-point verification key with a random
  challenge z (`same_ratio_preprocess`);
- compares that key with an anchor point from the other group in a single
  pairing equality (`same_ratio`, composed by `validate_polynomial_evaluation`);
- checks that the same alpha shifts the base points of both groups;
- ands the five outcomes together (`validate_transcript`).

Files:

- `field.dfy` (module `Field`): the scalar field modulo R, the order of the
  alt_bn128 groups. It also holds integer powers and the modular-arithmetic
  lemmas the proofs use.
- `curve.dfy` (module `Curve`): the curve library in the discrete-logarithm
  model. Each point of G1 or G2 is stored as its exponent over its group's
  generator, tagged with its group. Addition is `+ mod R`, scalar
  multiplication is `* mod R`, `zero()` is 0 and `one()` is 1. GT is stored
  the same way, so the pairing is `e(a, b) = a * b mod R`, and it accepts
  only a G1 point first and a G2 point second.
- `verifier.dfy` (module `Verifier`): the four functions of the verifier.
  - `SameRatioPreprocess` and `ValidateTranscript` are methods, because the
    source updates a multiplier, an accumulator and a result flag step by
    step.
  - `SameRatio` is a function.
  - `ValidatePolynomialEvaluation` is a method, because it calls the
    accumulator method.

The random challenge of `FieldT::random_element()` is a parameter. One
challenge is passed per sequence check (`Challenges`).

### Where the code and its stated intent differ

The model states the closed forms that `same_ratio_preprocess` computes
(`src/setup/verifier.hpp:32-40`). Elsewhere it follows the intent stated
next to the code:

- `src/setup/verifier.hpp:20-24` and `:59-65`: the comments describe weights
  z, z^2, ..., z^(n-1), with rhs equal to lhs shifted by one position. The
  code squares the multiplier at each step, so index i gets weight
  z^(2^i). lhs and rhs also share one accumulator over indices 1..n-2. The
  model computes what the code computes (`PreprocessKey`). The comments'
  construction is `ShiftedKey`; see Findings.
- `:54`: `g1_rhs` is passed where `g2_rhs` belongs.
- `:55-56`: the product of the two Miller loops is compared with GT's
  identity, with no negation. `SameRatio` models the contract stated at
  `:43`. `SameRatioAsWritten` models the missing negation.
- `:74`: the generator of the sequence's group (`Group1T::one()`) is
  assigned to the anchor-group key. For a G2 sequence (`:105-108`) that puts
  a G2 point into a G1 key. The model uses the generator of the anchor's
  group.
- `:76`: the code names an undeclared `GroupT` and the misspelt
  `polynomial_degree`. The model passes the sequence's group and the degree
  parameter.
- `:79`: the G1 role is chosen by comparing `sizeof` of the two types. The
  model takes the sequence's group as an explicit argument and always passes
  the G1 key first.

## Model

| member | source | states |
|---|---|---|
| Verifier.SameRatioPreprocess | src/setup/verifier.hpp:25-41 | The returned key equals `PreprocessKey`, the closed form of lines 32-40, for every degree >= 1. Its loop invariants say that after index i the multiplier is z^(2^i) mod R and the accumulator is the sum over j = 1..i of z^(2^j)·p[j] mod R. The method has no modifies clause, so the point array is only read and the key is its only output. |
| Verifier.PreprocessKey | src/setup/verifier.hpp:38-40 | Both halves of the key lie in the sequence's group. lhs = acc + z·p[0] and rhs = acc + z^(2^(n-1))·p[n-1] for n ≥ 2, where acc is one shared sum over indices 1..n-2. For n = 1 the last weight is z^2, not z. |
| Verifier.SquareStep | src/setup/verifier.hpp:34 | One squaring (`sqr()`) mod R turns the reduced weight z^(2^i) into z^(2^(i+1)). |
| Verifier.PreprocessKeyDifference | src/setup/verifier.hpp:38-40 | For n >= 2, rhs − lhs ≡ z^(2^(n-1))·p[n-1] − z·p[0] (mod R): the shared accumulator cancels. |
| Verifier.PreprocessKeyDegreeTwo | src/setup/verifier.hpp:32-40 | With n = 2 the loop body never runs: lhs = z·p[0] and rhs = z^2·p[1]. |
| Verifier.PreprocessKeyDegreeOne | src/setup/verifier.hpp:32-40 | With n = 1 the loop body never runs and both halves weight p[0]: lhs = z·p[0], rhs = z^2·p[0]. |
| Verifier.PreprocessKeyReadsPrefix | src/setup/verifier.hpp:32-40 | Two sequences that agree on indices 0..n-1 give the same key: nothing beyond index n-1 is read. |
| Verifier.SameRatio | src/setup/verifier.hpp:43-57 | Computed as the batched check e(g1.lhs, g2.lhs)·e(−g1.rhs, g2.rhs) == 1. True iff e(g1.lhs, g2.lhs) = e(g1.rhs, g2.rhs), that is, iff g1.lhs·g2.lhs ≡ g1.rhs·g2.rhs (mod R). G1 key first, G2 key second. |
| Verifier.SameRatioAsWritten | src/setup/verifier.hpp:54-56 | The product of the two pairings compared with GT's identity is true iff g1.lhs·g2.lhs + g1.rhs·g2.rhs ≡ 0 (mod R). |
| Verifier.SameRatioAsWrittenRejectsEqualRatios | src/setup/verifier.hpp:54-56 | On keys made of the generators, `SameRatio` holds and `SameRatioAsWritten` does not. |
| Verifier.ValidatePolynomialEvaluation | src/setup/verifier.hpp:67-88 | The anchor key is (comparator, generator of the comparator's group). The result is the `SameRatio` outcome with the G1 key first, whichever group the sequence is in. It is true iff key.lhs·comparator ≡ key.rhs (mod R) for the sequence's `PreprocessKey`. |
| Verifier.CrossBinding | src/setup/verifier.hpp:110-120 | The keys are (g1_x[0], g1_alpha_x[0]) and (g2_alpha_x[0], g2_x[0]). The check is true iff g1_x[0]·g2_alpha_x[0] ≡ g1_alpha_x[0]·g2_x[0] (mod R). |
| Verifier.TranscriptChecks | src/setup/verifier.hpp:98-120 | Exactly five outcomes, in source order. `g1_x` and `g1_alpha_x` are checked against the anchor `g2_x[0]`. `g2_x` and `g2_alpha_x` are checked against the anchor `g1_x[0]`. The fifth outcome is the cross-binding check. |
| Verifier.ValidateTranscript | src/setup/verifier.hpp:90-123 | `result` starts at true and each of the five outcomes is and-ed in after it is computed, so all five are evaluated. The returned value equals `AllPass` of the five outcomes. |
| Verifier.AllPassSnoc | src/setup/verifier.hpp:99 | One `result &= c` step: folding c onto an aggregate gives the old aggregate and c. |
| Verifier.AllPassIffNoFailure | src/setup/verifier.hpp:96-122 | The aggregate is true iff every outcome is true. Equivalently, it is false iff at least one outcome is false. |
| Verifier.AllPassOrderIndependent | src/setup/verifier.hpp:96-122 | Two orderings of the same outcomes (the same multiset) give the same aggregate. |
| Verifier.TranscriptAcceptedIff | src/setup/verifier.hpp:96-122 | The transcript is accepted iff all four sequence checks pass and g1_x[0]·g2_alpha_x[0] ≡ g1_alpha_x[0]·g2_x[0] (mod R). |
| Verifier.CrossBindingAcceptsCommonAlpha | src/setup/verifier.hpp:110-120 | Suppose g1_alpha_x[0] = alpha·g1_x[0] and g2_alpha_x[0] = alpha·g2_x[0] for one alpha. Then the cross-binding check passes. |
| Verifier.SquaredWeightsRejectGenuineSequence | src/setup/verifier.hpp:20-40 | The sequence [7, 49, 343] is genuine for x = 7. With anchor 7 and challenge 2, the code's key gives lhs = 210 and rhs = 5684, and the sequence check fails. |
| Verifier.ShiftedKey | src/setup/verifier.hpp:20-24 | The key the comments describe: lhs = Σ z^i·p[i-1] and rhs = Σ z^i·p[i] for i = 1..n-1. Both halves lie in the sequence's group. |
| Verifier.ShiftedSumRatio | src/setup/verifier.hpp:59-65 | For a genuine sequence (p[j] = x^(j+1)), the comments' sums satisfy A·x ≡ B (mod R). |
| Verifier.ShiftedKeyAcceptsGenuineSequence | src/setup/verifier.hpp:59-65 | Every genuine G1 sequence passes `SameRatio` against its anchor (x, generator) when its key is built the way the comments describe. |
| Verifier.ShiftedKeyAcceptsGenuineG2Sequence | src/setup/verifier.hpp:59-65 | The same for a genuine G2 sequence, whose anchor key (x, one(G1)) comes first in `SameRatio`. |

## Left out

- Curve and field arithmetic, point precomputation, the Miller loop and the final exponentiation (`src/setup/verifier.hpp:3-6`, `:47-55`). They are library code. Each point is its discrete logarithm, and the pairing is the product of exponents mod R.
- `FieldT::random_element()` (`src/setup/verifier.hpp:28`) is a challenge parameter. Anything probabilistic is outside the model. That covers the chance that a forged sequence slips through (Schwartz–Zippel), and the claim that two runs draw different challenges.
- The model does not prove that check 5 fails when the two groups use different alphas. That needs R to be prime and the base points to be nonzero, and R's primality is not proved here. The model proves only the iff form (`CrossBinding`).
- That all five checks always run is a property of the statement order in `ValidateTranscript`. No contract states it.
- The `sizeof`-based role choice (`src/setup/verifier.hpp:79`) is replaced by an explicit group argument. The model captures no property of representation sizes.
- `polynomial_degree` is a `size_t` in the source and a `nat` here. Degree 0 is excluded by `requires`: `polynomial_degree - 1` would wrap around and the loop would read past the array. The C++ arrays are raw pointers, so `requires degree <= Length` stands for the caller passing at least `degree` points.
- The sequence checks of `ValidateTranscript` keep the code's squared-weight accumulator. The model states what the code computes, and the comments' accumulator (`ShiftedKey`) is proved separately.
- `setup-tools/src/range-prep/main.cpp` is not part of this model. It is file I/O, argument parsing, timing and curve-parameter initialisation around a prepend of `G1::one()`.
- `scalar_multiplier.sqr()` (`src/setup/verifier.hpp:34`, `:38`) is taken to square the multiplier in place. Its return value is not used, so the call only has an effect if it changes its receiver. The field class that defines `sqr()` is not part of this model, so this reading is not checked. If `sqr()` returned the square and left its receiver unchanged, every weight would be z, and `SameRatioPreprocess`, `PreprocessKey`, `SquareStep` and the second Findings row would not describe the code.
- The comments' key is proved to accept genuine sequences with alpha = 1 only (`PowersOf`). The alpha-scaled sequences are not covered by that proof.
- Concurrency: the source runs its checks sequentially, and so does the model.

## Findings

| source | as written | input that shows it | evidently intended | confidence | as-written member | corrected member |
|---|---|---|---|---|---|---|
| src/setup/verifier.hpp:54-56 | The code multiplies the two Miller loops and compares the result with GT's identity. Neither rhs is negated, and `g1_rhs` fills the G2 slot. | Keys (one(G1), one(G1)) and (one(G2), one(G2)) have equal ratios, but e(P1,P2)·e(P1,P2) ≠ 1. | e(g1.lhs, g2.lhs) = e(g1.rhs, g2.rhs), as stated at line 43 | high; not executed | Verifier.SameRatioAsWrittenRejectsEqualRatios | Verifier.SameRatio |
| src/setup/verifier.hpp:32-40 | The weights are squared at each step (z^(2^i)), and lhs and rhs share one accumulator. | n = 3, x = 7, z = 2, sequence [7, 49, 343], anchor 7: lhs = 210, rhs = 5684, and 210·7 = 1470 ≠ 5684. | The comments at lines 20-24 and 59-65 describe weights z..z^(n-1) with rhs = lhs shifted one place, so that rhs = x·lhs. | medium; not executed; depends on `sqr()` squaring its receiver in place. If it returns the square instead, every weight is z, and this input passes (lhs = 112, rhs = 784). | Verifier.SquaredWeightsRejectGenuineSequence | Verifier.ShiftedKeyAcceptsGenuineSequence |
