# Shamir secret reconstruction with corrupt-share detection, in Dafny

This project models `ShamirSecretReconstruction`, a program that recovers the secret of
Shamir's threshold scheme from n shares when some of the shares may have been tampered with.
It works in three steps:

- **Combinations.** `generateCombinations` enumerates every k-subset of the shares by
  backtracking. A scratch list `temp` grows and shrinks, and each complete subset is appended
  to `result`.
- **Interpolation.** `lagrangeInterpolation` evaluates the Lagrange interpolating polynomial
  of each subset at x = 0, modulo the prime p. Numerator, denominator and secret are all
  reduced modulo p after every step. The denominator is inverted with `BigInteger.modInverse`.
- **Majority vote.** The detection block of `main` tallies the secrets in two hash maps: each
  secret's frequency, and the combinations that produced it. It then picks a most frequent
  secret and reports:
  - the shares of the first combination giving that secret as valid;
  - every other share as possibly corrupt.

## Modules

| file | module | what it holds |
|---|---|---|
| `wrappers.dfy` | `Wrappers` | the `Option` and `Result` types |
| `mod_arith.dfy` | `ModArith` | `BigInteger.mod` / `modInverse` by extended Euclid, primality, congruence lemmas |
| `lagrange.dfy` | `Lagrange` | `Share`, the specification `Interpolate`, and `LagrangeInterpolation` with its nested loops |
| `lagrange_facts.dfy` | `LagrangeFacts` | one share, failure on a repeated x, order independence |
| `polynomial.dfy` | `Polynomial` | polynomial evaluation, the factor theorem |
| `reconstruction.dfy` | `Reconstruction` | the proof that interpolation returns f(0) mod p |
| `combinations.dfy` | `Combinations` | the `Backtracker` class (`temp`, `result`) with the recursive `Generate`, and the selections it produces |
| `detection.dfy` | `Detection` | `Detect` (the detection block of `main`), the tally, the vote, and the valid/corrupt split |

### How each part is modelled

- **Interpolation errors.** These are modelled as results, not preconditions:
  - An empty share list returns 0 without calling `mod`.
  - At least one share with p ≤ 0 gives `ModulusNotPositive`. `BigInteger.mod` and
    `modInverse` both throw here.
  - A denominator with no inverse modulo p gives `NotInvertible`.
  - Otherwise the result is the value in [0, p).
- **`modInverse`.** It is an extended-Euclid function that agrees with Java, including the
  inverse 0 modulo 1.
- **The tally.** `frequencyMap` and `secretToCombos` are two local immutable `map` values.
  The loop of `Detection.CountSecrets` rebinds them with the updated map on each iteration,
  where the Java updates its `HashMap`s in place. Nothing else refers to the maps, so the
  difference cannot be observed. They are specified by `Tally` (the count of each secret)
  and `Groups` (each secret's combinations, in order).
- **`HashMap` iteration order.** The source chooses a secret by walking `frequencyMap` in
  this order. The model (`Detection.MostFrequent`) takes the keys in an arbitrary order and
  keeps the first one strictly above the running maximum. Its contract therefore promises
  "some secret of largest count", which is all the source guarantees.
- **No combination.** When there are no combinations (k < 0 or k > n), `correctSecret` stays
  `null` and `secretToCombos.get(null).get(0)` throws. The model returns
  `Err(NoCombinations)` instead.
- **Threshold k.** The code never checks k:
  - k > n and k < 0 give no combination, so the code hits the `null` failure above.
  - k = 0 gives one empty combination. It interpolates to 0, so every share is reported as
    possibly corrupt.
- **Valid shares.** Only the first combination that gives the chosen secret (`get(0)`)
  decides which shares are valid. A share that appears only in later combinations giving
  the same secret is still reported as possibly corrupt.
- **Ties.** When several secrets share the largest count, the one chosen depends on the
  `HashMap` iteration order (see above). No tie-break by value is applied.
- **Corrupt shares.** They are printed as a list in input order, so a share given twice is
  printed twice. `Detection.Unmatched` is that list.

## Model

| member | source | states |
|---|---|---|
| `ModArith.ModInverse` | src/ShamirSecretReconstruction.java:139 | `modInverse`: a result r lies in [0, m) with a·r ≡ 1 (mod m); None only when no b has a·b ≡ 1 (mod m) |
| `ModArith.InvertibleModPrime` | src/ShamirSecretReconstruction.java:139 | modulo a prime, the inverse exists exactly when a mod p ≠ 0 |
| `Lagrange.BasisAt` | src/ShamirSecretReconstruction.java:139 | a Lagrange basis value, when it exists, lies in [0, p) |
| `Lagrange.Accumulate` | src/ShamirSecretReconstruction.java:125-141 | the running secret after each share lies in [0, p); the only failure is a non-invertible denominator |
| `Lagrange.Interpolate` | src/ShamirSecretReconstruction.java:121-144 | the result lies in [0, p); no shares give 0; p ≤ 0 with some share gives the modulus error; otherwise the only failure is a non-invertible denominator |
| `Lagrange.LagrangeInterpolation` | src/ShamirSecretReconstruction.java:121-144 | the nested loops return exactly `Interpolate(shares, p)`, value or exception |
| `Lagrange.BasisProducts` | src/ShamirSecretReconstruction.java:129-137 | the inner loop leaves numerator ≡ ∏_{j≠i}(−x_j) and denominator ≡ ∏_{j≠i}(x_i − x_j) modulo p |
| `LagrangeFacts.SingleShare` | src/ShamirSecretReconstruction.java:129-140 | one share gives y mod p, because both products are empty (p ≤ 0 gives the modulus error) |
| `LagrangeFacts.DiffProductNonZero` | src/ShamirSecretReconstruction.java:136 | modulo a prime, the denominator product is non-zero exactly when no other x agrees with x_i |
| `LagrangeFacts.BasisSomeIff` | src/ShamirSecretReconstruction.java:132-139 | modulo a prime, share i's denominator is invertible exactly when no other share has the same x mod p |
| `LagrangeFacts.AccumulateOk` | src/ShamirSecretReconstruction.java:125-141 | the loop finishes exactly when every share's denominator is invertible |
| `LagrangeFacts.InterpolateOkIffDistinct` | src/ShamirSecretReconstruction.java:125-141 | modulo a prime, interpolation succeeds exactly when the x are pairwise distinct mod p; a repeated x is an error, not a skipped term |
| `LagrangeFacts.AccumulateValue` | src/ShamirSecretReconstruction.java:135-140 | reducing at every step gives the unreduced sum Σ y_i·basis_i taken mod p |
| `LagrangeFacts.BasisPermutation` | src/ShamirSecretReconstruction.java:129-139 | a share's basis value depends only on the share and the multiset of the other shares |
| `LagrangeFacts.TermSumPermutation` | src/ShamirSecretReconstruction.java:125-141 | the unreduced sum of the terms does not depend on the order of the shares |
| `LagrangeFacts.InterpolatePermutation` | src/ShamirSecretReconstruction.java:125-141 | interpolation (value or error) does not depend on the order of the shares |
| `Reconstruction.ReconstructAwayFromZero` | src/ShamirSecretReconstruction.java:125-143 | for a prime p, shares at x pairwise distinct mod p, none at x ≡ 0, lying on f with at most as many coefficients as there are shares: the result is f(0) mod p |
| `Reconstruction.InterpolateRecoversSecret` | src/ShamirSecretReconstruction.java:120-143 | shares with pairwise distinct x mod a prime p, lying on a polynomial with at most as many coefficients as shares, interpolate to its constant term mod p |
| `Combinations.Backtracker.constructor` | src/ShamirSecretReconstruction.java:178-179 | the scratch list and the result list start empty |
| `Combinations.Backtracker.Generate` | src/ShamirSecretReconstruction.java:147-157 | `temp` is restored on return; `result` is only appended to, and gains `temp` completed by every selection of the remaining positions from `start` on, in backtracking order |
| `Combinations.CombosShape` | src/ShamirSecretReconstruction.java:147-157 | every selection has r positions, strictly increasing, within [start, n) |
| `Combinations.CombosComplete` | src/ShamirSecretReconstruction.java:147-157 | every strictly increasing choice of r positions in [start, n) is produced |
| `Combinations.CombosDistinct` | src/ShamirSecretReconstruction.java:147-157 | no selection is produced twice |
| `Combinations.CombosCount` | src/ShamirSecretReconstruction.java:147-157 | exactly C(n − start, r) selections are produced |
| `Combinations.BinomialFactorial` | src/ShamirSecretReconstruction.java:147-157 | the count satisfies C(m, r)·r!·(m − r)! = m! |
| `Combinations.CombosAll` | src/ShamirSecretReconstruction.java:147-157 | choosing all of the remaining positions can be done one way only |
| `Combinations.GenerateCombinations` | src/ShamirSecretReconstruction.java:178-179 | the call of `main` (empty `temp`, start 0) yields `Generated(shares, k)` |
| `Combinations.GeneratedShape` | src/ShamirSecretReconstruction.java:147-157 | from an empty `temp`: exactly C(n, k) combinations, each of the shares at k strictly increasing positions, no two from the same positions |
| `Combinations.GeneratedComplete` | src/ShamirSecretReconstruction.java:147-157 | every choice of k shares at increasing positions is among the combinations |
| `Combinations.GeneratedNone` | src/ShamirSecretReconstruction.java:148-156 | k > n or k < 0 gives no combination |
| `Combinations.GeneratedAll` | src/ShamirSecretReconstruction.java:147-157 | k = n gives the single combination of all the shares, in order |
| `Detection.SecretsUpTo` | src/ShamirSecretReconstruction.java:185-189 | a successful run yields one secret per combination tried |
| `Detection.SecretsOk` | src/ShamirSecretReconstruction.java:185-186 | each secret is the interpolation of its own combination |
| `Detection.SecretsErr` | src/ShamirSecretReconstruction.java:185-186 | an exception is the one thrown by the first failing combination, all earlier ones having succeeded |
| `Detection.TallyStep` | src/ShamirSecretReconstruction.java:187 | one more secret raises its own count by one (from absent to 1) and leaves the others alone |
| `Detection.GroupsStep` | src/ShamirSecretReconstruction.java:188 | one more combination is appended to its secret's list (created if absent) and to no other |
| `Detection.CountSecrets` | src/ShamirSecretReconstruction.java:182-189 | the loop leaves `frequencyMap` = the tally of the secrets and `secretToCombos` = their groups, or propagates the first exception |
| `Detection.TallySum` | src/ShamirSecretReconstruction.java:185-189 | the frequencies add up to the number of combinations |
| `Detection.GroupSize` | src/ShamirSecretReconstruction.java:187-188 | each secret's list of combinations is as long as its frequency |
| `Detection.First` | src/ShamirSecretReconstruction.java:205 | the position of a secret's first occurrence: it holds the secret and nothing before it does |
| `Detection.GroupFirst` | src/ShamirSecretReconstruction.java:205 | `secretToCombos.get(s).get(0)` exists and is the first combination that gave s |
| `Detection.MostFrequent` | src/ShamirSecretReconstruction.java:192-199 | no key exactly when the map is empty; otherwise a key whose count is at least every other count |
| `Detection.ShareSet` | src/ShamirSecretReconstruction.java:204-207 | the valid set holds exactly the shares of the chosen combination |
| `Detection.CollectUnmatched` | src/ShamirSecretReconstruction.java:213-217 | the possibly corrupt shares are those of `allShares` outside the valid set, in input order |
| `Detection.UnmatchedPartition` | src/ShamirSecretReconstruction.java:213-217 | a share is reported corrupt exactly when it is an input share not in the valid set |
| `Detection.Detect` | src/ShamirSecretReconstruction.java:178-217 | the first interpolation exception is propagated; no combination is the `null` failure; otherwise the tally, the groups, a most frequent secret, the valid set from its first combination and the corrupt list of all other shares |
| `Detection.OutcomeTally` | src/ShamirSecretReconstruction.java:182-199 | after the tally the counts sum to the number of combinations, both maps have the same keys, and each list's length is its positive count |
| `Detection.OutcomePartition` | src/ShamirSecretReconstruction.java:204-217 | every input share is exactly one of valid and possibly corrupt; the valid shares are those of a combination that interpolates to the chosen secret |
| `Detection.AllSharesValid` | src/ShamirSecretReconstruction.java:179-217 | with k = n every share is valid and none is reported corrupt |
| `Detection.CleanSecrets` | src/ShamirSecretReconstruction.java:185-189 | untampered shares (on one polynomial with at most k coefficients, at x distinct mod a prime) make every combination interpolate to the constant term mod p |
| `Detection.CleanDetect` | src/ShamirSecretReconstruction.java:185-199 | with untampered shares the vote is unanimous: the chosen secret is the constant term mod p and its count is the number of combinations |
| `Detection.CleanVotes` | src/ShamirSecretReconstruction.java:185-189 | every combination made only of shares on the polynomial c (at x distinct mod a prime, with at least as many shares as c has coefficients) is counted for c's constant term mod p, so that secret's count is at least the number of such combinations |
| `Detection.MajorityWins` | src/ShamirSecretReconstruction.java:193-199 | a secret given by more than half of the combinations is the one the vote chooses, whatever the hash-map order |
| `Detection.MajorityDetect` | src/ShamirSecretReconstruction.java:182-199 | for a prime p, all shares (tampered ones included) at x pairwise distinct mod p, and c with at most k coefficients: whatever the y of the shares off c, when the combinations made only of shares on c are a strict majority, the chosen secret is c's constant term mod p |
| `Detection.TamperedTie` | src/ShamirSecretReconstruction.java:193-199 | with the shares (1, 5), (2, 0), (3, 3), k = 2 and p = 7, only (3, 3) lies off f(x) = 3 + 2x; the three combinations give the secrets 3, 6, 1, and an outcome choosing 1 ≠ f(0) is allowed, which keeps (3, 3) as valid and reports (1, 5) as possibly corrupt |

## Left out

- Reading `input.json` with `org.json` (src/ShamirSecretReconstruction.java:161-175) is file
  I/O and a foreign library. Its output appears as the parameters `shares`, `k` and `p`. The
  count `n` it reads is never used by the source.
- Console output (src/ShamirSecretReconstruction.java:201, 209-210, 212-218) is formatting
  only. The model returns the chosen secret, the valid set and the corrupt list instead.
- The commented-out earlier version (src/ShamirSecretReconstruction.java:1-97) is dead code.
- The `"x:y"` strings that key the valid set are replaced by comparing shares by value. The
  rendering is injective on (x, y), so membership is the same.
- Primality of p is never checked by the source. The theorems that need it
  (`InterpolateOkIffDistinct`, `InterpolateRecoversSecret`, `CleanDetect`, …) require it;
  the operations do not.
- The Java `int` width of `x`, of the frequency counts and of `maxFreq`:
  - `x` is widened to `BigInteger` before any arithmetic, so it cannot overflow.
  - The counts are unbounded in the model. They could only wrap past C(n, k) ≥ 2^31
    combinations, far beyond what the brute-force search can run.
- Detection.MostFrequent: the concrete `HashMap` iteration order is not modelled, so the
  contract only promises some key of largest count, not which one the JVM would pick on a tie.
- Detection.CleanDetect: proves the vote for untampered shares only. With some shares
  tampered, the model proves recovery only when the clean combinations are a strict majority
  (`MajorityDetect`). A tie can choose a wrong secret (see Findings).
- Aliasing of the `List` objects shared between `combinations` and `secretToCombos` is not
  modelled: combinations are immutable values, and no code mutates them after creation.

## Findings

| source | as written | input that shows it | evidently intended | confidence | as-written member | corrected member |
|---|---|---|---|---|---|---|
| src/ShamirSecretReconstruction.java:193-199 | the most frequent secret is chosen by a strict `>` over the `HashMap` entries, so a tie goes to whichever tied secret the map visits first | shares (1, 5), (2, 0), (3, 3), k = 2, p = 7; only (3, 3) is off f(x) = 3 + 2x; the combinations give 3, 6, 1 once each. With `BigInteger` hash codes equal to the small values, the 16-bucket `HashMap` visits 1 first, so the printed secret would be 1, with (1, 5) reported as possibly corrupt | the secret of the untampered shares is recovered despite a tampered minority; that holds when the clean combinations are a strict majority of all combinations, and not merely when fewer than n − k + 1 shares are tampered | not executed; the tie and the allowed wrong outcome are proved, the choice of 1 rests on the JDK's `HashMap` layout | `Detection.TamperedTie` | `Detection.MajorityDetect` |
