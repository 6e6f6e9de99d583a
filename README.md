# eta: a verified model of the eta ranking-agreement measure

The eta measure is a generalisation of Kendall's tau for noisy and incomplete
pairwise judgements. It scores a ranking against a matrix of pairwise
preference probabilities. For every pair of ranking positions i < j holding
items x and y, with preference p = pref(x, y):

- the label is 2p - 1;
- in the `_p` variants, the label is divided by 1 + v, where v is the pair's variance;
- the observed accumulator `_eta` adds label * delta;
- the `ideal` accumulator adds label * true_delta, where true_delta is +1 when p > 0.5 and -1 otherwise.

The result is `_eta / ideal`.

The repository has four variants:

- `eta`: a dense preference matrix indexed by ids.
- `eta_p`: a dense matrix with a dense variance matrix.
- `eta_dict`: a sparse dictionary keyed by ordered pairs. It looks up (x, y) first, falls back to (y, x) with the opposite sign, and skips the pair when neither key is stored.
- `eta_p_dict`: the sparse variant with a sparse variance dictionary.

The project has four modules:

- `Pairwise` (`pairwise.dfy`) holds the skeleton the four variants share:
  - the `Score` pair of accumulators;
  - the contribution of one pair;
  - the recursive sum `Total` of a pair `term` over every pair of positions i < j;
  - the algebra of that sum: range, zero, perfect ranking, reversal and agreement of two terms;
  - the final division, as an `Outcome` that is either `Value(v)` or `ZeroDivision`.
- `Dense` (`dense.dfy`) holds `eta` and `eta_p`. Each is a method with the source's nested loops, proved equal to `Normalise(Total(term, ranking))`. The module also holds their properties.
- `Sparse` (`sparse.dfy`) holds `eta_dict` and `eta_p_dict`, in the same way. It adds the lookup rules, direction invariance and agreement with the dense form.
- `Doctests` (`doctests.dfy`) holds every docstring example, each proved as a call of the modelled method that yields the documented value.

Arithmetic is over `real`, and the model's result for the noisy doctests is exactly 2/3. The documented output 0.6666666666666667 is one unit in the last place above the double nearest to 2/3 (which prints as 0.6666666666666666); the difference comes from rounding in the floating-point sums `_eta` and `ideal`.

## Model

| member | source | states |
|---|---|---|
| Pairwise.TrueDelta | eta/eta.py:38 | Defines true_delta: +1 when p > 0.5 and -1 otherwise, so a tie at exactly 0.5 gets -1. |
| Pairwise.Label | eta/eta.py:39 | Defines the unweighted label 2p - 1. |
| Pairwise.WeightedLabel | eta/eta.py:83 | Defines the weighted label (2p - 1) / (1 + v), for the documented variance v >= 0. |
| Pairwise.Contribution | eta/eta.py:40-41 | Defines what one pair adds: label * delta to `_eta` and label * true_delta to `ideal`. |
| Pairwise.Row | eta/eta.py:33-41 | Defines the inner loop for one x: the sum of term(x, y) over the later items y, accumulated left to right. |
| Pairwise.Total | eta/eta.py:32-41 | Defines the double loop: the sum of term(ranking[i], ranking[j]) over all positions i < j, as row 0 plus the total of the rest. |
| Pairwise.Normalise | eta/eta.py:42 | The final division fails exactly when `ideal` is 0. Otherwise the value times `ideal` is `_eta`. |
| Pairwise.NormaliseRange | eta/eta.py:42 | If the observed score is bounded by the ideal score in absolute value, a defined measure lies in [-1, 1]. |
| Pairwise.NormaliseMirror | eta/eta.py:42 | Negating `_eta` while keeping `ideal` negates the measure. A division by zero stays a division by zero. |
| Pairwise.ContributionWithinIdeal | eta/eta.py:37-41 | One pair with delta = ±1 and a label whose sign follows p's side of 0.5 adds \|label\| to `ideal`. It adds at most that much, in absolute value, to `_eta`. |
| Pairwise.WeightedLabelShrinks | eta/eta.py:83 | Dividing by 1 + v with v >= 0 keeps the sign of 2p - 1 and never enlarges its magnitude. With v = 0 it changes nothing. |
| Pairwise.WeightedLabelMonotone | eta/eta.py:83 | For a pair that is not a tie, a larger variance gives a strictly smaller label magnitude with the same sign. |
| Pairwise.WeightedLabelMirror | eta/eta.py:83 | The weighted label of 1 - p is the negation of that of p, for the same variance. |
| Pairwise.MirroredContribution | eta/eta.py:37-41 | A pair seen from the other side, with probability 1 - p and negated label, adds the mirrored score: negated `_eta` and the same `ideal`. |
| Pairwise.TotalsAgree | eta/eta.py:32-41 | Two terms that agree on every compared pair give the same sums. |
| Pairwise.TotalWithinIdeal | eta/eta.py:32-41 | If every pair's contribution is bounded by its ideal, so is the whole sum. |
| Pairwise.TotalZero | eta/eta.py:32-41 | Pairs that all contribute nothing give zero sums. |
| Pairwise.TotalPositive | eta/eta.py:32-41 | One pair with a positive ideal contribution, among pairs bounded by their ideal, makes `ideal` positive. |
| Pairwise.TotalIdealZero | eta/eta.py:32-42 | Under per-pair bounds, `ideal` is 0 if and only if every compared pair contributes nothing. |
| Pairwise.TotalBalanced | eta/eta.py:32-41 | If every pair adds equally to both accumulators, the two sums are equal. |
| Pairwise.TotalPerfect | eta/eta.py:32-42 | With at least two items, and every pair adding the same positive amount to both sums, the measure is exactly 1. |
| Pairwise.TotalPerfectWhere | eta/eta.py:32-42 | If every compared pair adds the same non-negative amount to both sums, and at least one pair adds a positive amount, the measure is exactly 1. Pairs that add nothing are allowed. |
| Pairwise.TotalSnoc | eta/eta.py:32-41 | Appending an item adds one column: its pairs with every earlier item. |
| Pairwise.RowReverse | eta/eta.py:33-41 | The inner loop over a reversed list, under a mirroring term, is the mirror of the column sum. |
| Pairwise.TotalReverse | eta/eta.py:32-41 | Reversing the ranking mirrors the sums when the term mirrors on every compared pair: `_eta` is negated and `ideal` unchanged. |
| Pairwise.RowUpToStep | eta/eta.py:33-41 | One inner-loop step adds the pair (i, j) to both accumulators. |
| Pairwise.RowsFromNext | eta/eta.py:32-33 | The inner loop starts with nothing added. A finished inner loop has added row i. |
| Pairwise.LoopComputesTotal | eta/eta.py:32-41 | The positional double loop, row by row from i = 0, computes the recursive `Total`. |
| Dense.Term | eta/eta.py:35-41 | Defines the `eta` term of (x, y): the contribution of pref[x][y] with delta +1, since j > i always. It is defined only where pref[x][y] exists. |
| Dense.WeightedTerm | eta/eta.py:79-85 | Defines the `eta_p` term of (x, y): the weighted label of Ep[x][y] and Vp[x][y] with delta +1. It is defined only where both entries exist and Vp[x][y] >= 0. |
| Dense.Eta | eta/eta.py:29-43 | The nested loops of `eta` return `Normalise(Total(Term(pref), ranking))`. They need only that every entry read is in the matrix. |
| Dense.TermStep | eta/eta.py:34-41 | In the body of `eta`, delta is always +1 because j > i. The pair adds (label * delta, label * true_delta), which is `Term(pref)(x, y)`. |
| Dense.EtaP | eta/eta.py:72-87 | The nested loops of `eta_p` return `Normalise(Total(WeightedTerm(Ep, Vp), ranking))`. The entries read need to exist and the variances read need to be non-negative. |
| Dense.WeightedStep | eta/eta.py:77-85 | In the body of `eta_p`, delta is +1. The pair adds (label * delta, label * true_delta) with label = (2p - 1) / (1 + v). |
| Dense.TermsWithinIdeal | eta/eta.py:36-41 | Every pair's contribution to `eta` is bounded by its ideal contribution. |
| Dense.EtaRange | eta/eta.py:29-43 | The observed sum is bounded by the ideal sum. A defined `eta` lies in [-1, 1]. |
| Dense.EtaUndefined | eta/eta.py:42 | `eta` divides by zero exactly when every compared pair is a tie p = 0.5. This includes every ranking of fewer than two items. |
| Dense.TieContributesNothing | eta/eta.py:38-41 | A tie p = 0.5 gets true_delta = -1, because the test is strict, and adds 0 to both sums. |
| Dense.EtaPerfect | eta/eta.py:21-22 | A ranking of at least two items in which every compared pair has p > 0.5 scores exactly 1. |
| Dense.EtaReverse | eta/eta.py:14 | Under pref[y][x] == 1 - pref[x][y] on the compared pairs: reversing the ranking negates `_eta`, keeps `ideal` and negates `eta`. |
| Dense.EtaPerfectReversed | eta/eta.py:23-24 | The perfect ranking reversed scores exactly -1 under antisymmetry. |
| Dense.EtaPPerfectReversed | eta/eta.py:66-67 | Under antisymmetric Ep and symmetric non-negative Vp, the perfect ranking reversed scores exactly -1 under `eta_p`. |
| Dense.ReversedIndexable | eta/eta.py:14 | Under antisymmetry, every entry the reversed ranking reads is in the matrix. |
| Dense.ReversedVariances | eta/eta.py:57 | Under symmetric variances, every variance the reversed ranking reads exists and is non-negative. |
| Dense.WeightedTermsWithinIdeal | eta/eta.py:79-85 | Every pair's contribution to `eta_p` is bounded by its ideal contribution. |
| Dense.EtaPRange | eta/eta.py:72-87 | A defined `eta_p` lies in [-1, 1]. |
| Dense.EtaPUndefined | eta/eta.py:86 | `eta_p` divides by zero exactly when every compared pair is a tie. |
| Dense.EtaPZeroVariance | eta/eta.py:83 | When every variance read is 0, `eta_p` computes the same sums as `eta` over Ep. |
| Dense.EtaPPerfect | eta/eta.py:64-65 | A ranking of at least two items in which every compared pair has p > 0.5 scores exactly 1 under `eta_p`, whatever the non-negative variances. |
| Dense.EtaPReverse | eta/eta.py:54-57 | With antisymmetric Ep and symmetric Vp, reversing the ranking negates `eta_p` and keeps `ideal`. |
| Sparse.Term | eta/eta.py:125-138 | Defines the `eta_dict` term of (x, y): pref[(x, y)] with delta +1 when (x, y) is stored, else pref[(y, x)] with delta -1 when (y, x) is stored, else nothing. |
| Sparse.WeightedTerm | eta/eta.py:181-196 | Defines the `eta_p_dict` term of (x, y): the same lookup on Ep, with the variance read under the key that matched in Ep. It is defined only where that variance is stored and non-negative (`VarianceReadable`). |
| Sparse.EtaDict | eta/eta.py:118-140 | The nested loops of `eta_dict`, with the (x, y) / (y, x) / skip lookup, return `Normalise(Total(Term(pref), ranking))` for every input. |
| Sparse.TermThisWay | eta/eta.py:125-131 | In the direct branch of `eta_dict`, delta is +1 and the pair adds `Term(pref)(x, y)`. |
| Sparse.TermOtherWay | eta/eta.py:132-138 | In the mirrored branch of `eta_dict`, delta is -1 because j < i never holds. The pair adds `Term(pref)(x, y)`. |
| Sparse.EtaPDict | eta/eta.py:174-198 | The nested loops of `eta_p_dict` return `Normalise(Total(WeightedTerm(Ep, Vp), ranking))`. Vp needs to hold, non-negative, the key that matched in Ep. |
| Sparse.WeightedThisWay | eta/eta.py:181-188 | In the direct branch of `eta_p_dict`, delta is +1. The variance is read under the same key (x, y). The inner loop's running sums grow by (label * delta, label * true_delta), which is the weighted term of (x, y). |
| Sparse.WeightedOtherWay | eta/eta.py:189-196 | In the mirrored branch of `eta_p_dict`, delta is -1. The variance is read under (y, x). The running sums grow by the weighted term of (x, y). |
| Sparse.WeightedNeitherWay | eta/eta.py:181-196 | When neither (x, y) nor (y, x) is in Ep, the pair is skipped: the running sums of the inner loop are unchanged. |
| Sparse.TermWithinIdeal | eta/eta.py:125-138 | A pair's contribution to `eta_dict` is bounded by its ideal. It is zero if and only if the pair is a stored tie or stored in neither direction. |
| Sparse.TermsWithinIdeal | eta/eta.py:125-138 | Every pair's contribution to `eta_dict` is bounded by its ideal. |
| Sparse.DictRange | eta/eta.py:118-140 | A defined `eta_dict` lies in [-1, 1]. |
| Sparse.DictUndefined | eta/eta.py:139 | `eta_dict` divides by zero exactly when every compared pair is a tie or missing in both directions. |
| Sparse.StoredDirectionFirst | eta/eta.py:125-132 | When (x, y) is stored, the (y, x) entry is never consulted: changing or removing it leaves the pair's contribution unchanged. |
| Sparse.DictPerfect | eta/eta.py:106-107 | A ranking of at least two items that agrees with every compared pair, stored either way round, scores exactly 1. |
| Sparse.DictPerfectWhereStored | eta/eta.py:125-138 | For an incomplete dictionary, a ranking that agrees with every compared pair stored in either direction scores exactly 1, provided at least one compared pair is stored. Pairs missing in both directions are allowed. |
| Sparse.TermMirrors | eta/eta.py:98 | For a complementary pair, the contribution of (y, x) is the mirror of that of (x, y). |
| Sparse.TermsMirror | eta/eta.py:98 | Under antisymmetry on the compared pairs, the `eta_dict` term mirrors on each of them. |
| Sparse.DictReverse | eta/eta.py:98 | Under antisymmetry of the stored pairs, reversing the ranking negates `eta_dict`. |
| Sparse.DictPerfectReversed | eta/eta.py:108-109 | The perfect ranking reversed scores exactly -1 under `eta_dict`. |
| Sparse.TermCompletion | eta/eta.py:99 | Adding the omitted (y, x) := 1 - p entry changes no pair's contribution. |
| Sparse.DictCompletion | eta/eta.py:99 | Adding the omitted (y, x) := 1 - p entry leaves the sums unchanged. |
| Sparse.TermDirection | eta/eta.py:99 | Storing (y, x) := 1 - p instead of (x, y) := p changes no pair's contribution. |
| Sparse.DictDirectionInvariant | eta/eta.py:110-115 | Storing (y, x) := 1 - p instead of (x, y) := p leaves the sums of `eta_dict` unchanged. The docstring's three dictionaries rely on this. |
| Sparse.DictMatchesDense | eta/eta.py:125-138 | A dictionary holding, for every compared pair, the dense entry under (x, y), or 1 - that entry under (y, x) alone, gives the same sums as `eta` over the matrix. |
| Sparse.WeightedTermWithinIdeal | eta/eta.py:181-196 | A pair's contribution to `eta_p_dict` is bounded by its ideal. It is zero if and only if the pair is uninformative. |
| Sparse.WeightedTermsWithinIdeal | eta/eta.py:181-196 | Every pair's contribution to `eta_p_dict` is bounded by its ideal. |
| Sparse.PDictRange | eta/eta.py:174-198 | A defined `eta_p_dict` lies in [-1, 1]. |
| Sparse.PDictUndefined | eta/eta.py:197 | `eta_p_dict` divides by zero exactly when every compared pair is a tie or missing in both directions. |
| Sparse.PDictPerfect | eta/eta.py:162-163 | A ranking of at least two items that agrees with every compared pair scores exactly 1 under `eta_p_dict`. |
| Sparse.PDictPerfectWhereStored | eta/eta.py:181-196 | For an incomplete Ep, a ranking that agrees with every stored compared pair scores exactly 1 under `eta_p_dict` when at least one compared pair is stored, whatever the non-negative variances. |
| Sparse.PStoredDirectionFirst | eta/eta.py:181-191 | When (x, y) is in Ep and its variance is stored, the (y, x) entries of Ep and Vp are never consulted: changing or removing them leaves the pair's contribution unchanged. |
| Sparse.WeightedTermMirrors | eta/eta.py:151-155 | For a consistent pair (complementary Ep, equal Vp), the weighted contribution of (y, x) mirrors that of (x, y). |
| Sparse.WeightedTermsMirror | eta/eta.py:151-155 | Under consistency on the compared pairs, the `eta_p_dict` term mirrors on each of them. |
| Sparse.PDictReverse | eta/eta.py:151-155 | Under consistency, reversing the ranking negates `eta_p_dict`. |
| Sparse.PDictPerfectReversed | eta/eta.py:164-165 | Under consistency, the perfect ranking reversed scores exactly -1 under `eta_p_dict`. |
| Sparse.PDictZeroVariance | eta/eta.py:186-194 | When every variance read is 0, `eta_p_dict` computes the same sums as `eta_dict` over Ep. |
| Sparse.WeightedTermDirection | eta/eta.py:152-155 | Moving an entry to the other direction, Ep as 1 - p and Vp with the same variance, changes no pair's contribution. |
| Sparse.PDictDirectionInvariant | eta/eta.py:152-155 | Moving an entry to the other direction, Ep as 1 - p and Vp with the same variance, leaves the sums of `eta_p_dict` unchanged. |
| Sparse.WeightedTermCompletion | eta/eta.py:152-155 | Adding the omitted entries Ep[(y, x)] := 1 - Ep[(x, y)] and Vp[(y, x)] := Vp[(x, y)] changes no pair's contribution to `eta_p_dict`. The completed maps still hold every variance that is read. |
| Sparse.PDictCompletion | eta/eta.py:152-155 | Adding the omitted (y, x) entries of Ep and Vp leaves the sums of `eta_p_dict` unchanged. |
| Sparse.PDictMatchesDense | eta/eta.py:181-196 | Dictionaries Ep and Vp give the same sums as `eta_p` over the dense matrices when, for every compared pair, Ep holds the dense entry under (x, y) or 1 - that entry under (y, x) alone, and Vp holds the dense variance under the same key. |
| Doctests.EtaOrdered | eta/eta.py:21-24 | The upper-triangular matrix gives `eta` 1 for [0, 1, 2] and -1 for [2, 1, 0]. |
| Doctests.EtaPOrdered | eta/eta.py:64-67 | The same with zero variances gives `eta_p` 1 and -1. |
| Doctests.EtaNoisy | eta/eta.py:25-26 | The noisy 4 x 4 matrix gives `eta` 2/3 for [2, 1, 3, 0]. |
| Doctests.EtaPNoisy | eta/eta.py:68-69 | The same with zero variances gives `eta_p` 2/3. |
| Doctests.EtaOrderedDict | eta/eta.py:106-109 | The ordered dictionary gives `eta_dict` 1 for a, b, c and -1 for c, b, a. |
| Doctests.EtaPOrderedDict | eta/eta.py:162-165 | The same with zero variances gives `eta_p_dict` 1 and -1. |
| Doctests.NoisyDict | eta/eta.py:110-115 | All three encodings of the noisy matrix give `eta_dict` 2/3 for c, b, d, a. |
| Doctests.EtaPNoisyDict | eta/eta.py:166-171 | All three encodings with zero variances give `eta_p_dict` 2/3. |
| Doctests.EtaOrderedExample | eta/eta.py:21-22 | Calling `Dense.Eta` on the first `eta` example returns 1. |
| Doctests.EtaReversedExample | eta/eta.py:23-24 | Calling `Dense.Eta` on the second `eta` example returns -1. |
| Doctests.EtaNoisyExample | eta/eta.py:25-26 | Calling `Dense.Eta` on the third `eta` example returns 2/3. |
| Doctests.EtaPOrderedExample | eta/eta.py:64-65 | Calling `Dense.EtaP` on the first `eta_p` example returns 1. |
| Doctests.EtaPReversedExample | eta/eta.py:66-67 | Calling `Dense.EtaP` on the second `eta_p` example returns -1. |
| Doctests.EtaPNoisyExample | eta/eta.py:68-69 | Calling `Dense.EtaP` on the third `eta_p` example returns 2/3. |
| Doctests.EtaDictOrderedExample | eta/eta.py:106-107 | Calling `Sparse.EtaDict` on the first `eta_dict` example returns 1. |
| Doctests.EtaDictReversedExample | eta/eta.py:108-109 | Calling `Sparse.EtaDict` on the second `eta_dict` example returns -1. |
| Doctests.EtaDictForwardExample | eta/eta.py:110-111 | Calling `Sparse.EtaDict` on the third `eta_dict` example returns 2/3. |
| Doctests.EtaDictOneFlippedExample | eta/eta.py:112-113 | Calling `Sparse.EtaDict` on the fourth `eta_dict` example returns 2/3. |
| Doctests.EtaDictMixedExample | eta/eta.py:114-115 | Calling `Sparse.EtaDict` on the fifth `eta_dict` example returns 2/3. |
| Doctests.EtaPDictOrderedExample | eta/eta.py:162-163 | Calling `Sparse.EtaPDict` on the first `eta_p_dict` example returns 1. |
| Doctests.EtaPDictReversedExample | eta/eta.py:164-165 | Calling `Sparse.EtaPDict` on the second `eta_p_dict` example returns -1. |
| Doctests.EtaPDictForwardExample | eta/eta.py:166-167 | Calling `Sparse.EtaPDict` on the third `eta_p_dict` example returns 2/3. |
| Doctests.EtaPDictOneFlippedExample | eta/eta.py:168-169 | Calling `Sparse.EtaPDict` on the fourth `eta_p_dict` example returns 2/3. |
| Doctests.EtaPDictMixedExample | eta/eta.py:170-171 | Calling `Sparse.EtaPDict` on the fifth `eta_p_dict` example returns 2/3. |

## Left out

- Floating point: every value is an exact `real`. The rounding of IEEE doubles in the accumulators (eta/eta.py:40-41, 130-137, 187-196) is not modelled; it is why the source prints 0.6666666666666667, one unit in the last place above the double nearest to 2/3, where the model gives exactly 2/3.
- Dense.Eta, Dense.EtaP: an id outside the matrix raises IndexError in Python. Here it is excluded by a precondition on the entries the loop reads, rather than modelled as an exception.
- Sparse.EtaPDict: the docstring (eta/eta.py:154-155) says Vp[(y, x)] may be omitted once Vp[(x, y)] is set. That holds only when Vp stores the same direction as Ep, because the code reads Vp under the key that matched in Ep (eta/eta.py:183, 191). With Ep = {('a', 'b'): 0.8} and Vp = {('b', 'a'): 0.1}, the ranking ['a', 'b'] raises KeyError in Python. The model's precondition, that Vp holds every key matched in Ep, excludes such inputs.
- Dense.EtaP, Sparse.EtaPDict: a negative variance, which the docstrings forbid, is excluded by a precondition. The same applies to a variance key missing from Vp, which raises KeyError in Python. A variance of exactly -1 would also raise ZeroDivisionError inside the loop; the precondition excludes that too.
- The final ZeroDivisionError, when `ideal` is 0, is modelled as the `ZeroDivision` outcome rather than excluded by a precondition, and its exact condition is proved.
- Element types: Python accepts any indexable matrix and any hashable ids. Dense ids here are `nat` indices, which excludes the negative ids from -len to -1 that Python would read from the end of a row rather than reject; sparse ids are values of a generic type with equality.
- Duplicate ids in a ranking are not excluded. Every precondition is stated over the compared positions i < j.
- Antisymmetry (eta/eta.py:14, 54, 98, 151) is required only of the compared pairs, not of the whole matrix. The ordered examples (eta/eta.py:21-24, 64-67) put 1 on the diagonal, which the documented pref[x][x] == 1 - pref[x][x] would forbid; the noisy ones put 0.5, which it allows. The model therefore does not demand antisymmetry of unused entries. The bound 0 <= p <= 1 is never needed.
- The `__main__` doctest runner (eta/eta.py:201-203) is not modelled. Each docstring example is instead a member of `Doctests`.
- setup.py is packaging metadata and is not part of this model.
