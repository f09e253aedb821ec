# Harrell's concordance index for right-censored data

This project models the concordance index engine in `eval/cindex.py`, code taken from scikit-survival. It covers `concordance_index_censored` together with its value checks, the group scan `_get_comparable` and the estimator `_estimate_concordance_index`.

Each sample has three values: an event indicator, an observed time and a risk estimate. After sorting by time, the scan walks the groups of equal times. Every event in a group gets a row, except an event alone at the largest time (the scan stops at n - 1). The row marks the samples it is comparable with: every sample observed later, plus every censored sample observed at the same time. For each row, the estimator scores the comparable estimates against the event's own:

- a risk tie, when the difference is within `tied_tol`;
- concordant, when the estimate is strictly lower;
- discordant, otherwise.

The numerator is the weighted concordant pairs plus half the weighted risk ties. The denominator is the weighted comparable pairs. The index is their quotient.

Modules:

- `Harrell` (harrell.dfy): the reference definitions and the lemmas about them. These cover comparability, the per-row counts, the totals, the numerator and denominator, and division with the zero-denominator outcomes of IEEE 754. Every definition works on the sort positions: `Permuted(xs, order)` is `xs[order]`.
- `ComparablePairs` (comparable.dfy): `_get_comparable` as an imperative scan with loop invariants, plus lemmas about time groups.
- `Concordance` (concordance.dfy): `_estimate_concordance_index` and its accumulation loop.
- `CIndexCensored` (cindex_censored.dfy): the input checks, `concordance_index_censored` with unit weights, and the finding below.
- `WorkedExamples` (worked_example.dfy): four samples, worked through by hand.

Modelling decisions:

- `numpy.argsort(event_time)` becomes a parameter `order`. Its precondition `IsArgsort` asks for a permutation that lists the times in ascending order, with equal times in any order. Every property is proved for every such order.
- numpy's vectorised operations have no loop in the source. They are modelled as functions:
  - `mask.sum()` is `CountTrue`;
  - `estimate[order[mask]]` is `Gather` over the sorted estimates;
  - the tie and concordance tests are `Classify` and `CountClass`.
- The row itself is built in an `array`, as `numpy.zeros` followed by two slice assignments.
- The estimator walks `comparable.items()`. Its keys were inserted in ascending order, so this is a loop over the sort positions that skips positions without a row.
- Times, estimates and weights are exact reals. `w_i * n` is written as `n` additions of `w_i` (`Times`) so that the sums stay linear; `TimesIsProduct` proves this equals the product.
- The division `numerator / denominator` returns a `Ratio` (an exact quotient):
  - `Finite` for a non-zero denominator;
  - `NaN` for 0 / 0;
  - `Infinite` otherwise.

  In the source both operands are numpy floats once a row has been added, so dividing by zero returns a value; it does not raise.
- The message of the guard on `len(comparable)` speaks of comparable pairs, but the guard counts rows. The model follows the code (see Findings).

## Model

| member | source | states |
|---|---|---|
| `ComparablePairs.GetComparable` | eval/cindex.py:86-111 | The keys are exactly the sort positions j with `HasEntry`: an event that is not alone at the largest time, because the scan stops at n - 1. Each row is the comparability row of j (`ComparableMask`). `tied_time` equals `TiedTime`, the sum over events of the censored samples observed at the event's time. |
| `ComparablePairs.RecordGroup` | eval/cindex.py:99-108 | For one maximal time group, every event of the group gets its comparability row. Each event adds the group's censored count to `tied_time`. |
| `ComparablePairs.GroupRow` | eval/cindex.py:103-106 | The row is false before the group, holds the censored flags of the group inside it, and is true after it. |
| `ComparablePairs.GroupIsMaximal` | eval/cindex.py:92-96 | Over ascending times, the run found by the inner `while` holds exactly the sort positions observed at `time_i`. |
| `ComparablePairs.GroupMask` | eval/cindex.py:103-107 | That row marks exactly the samples comparable with the event: later samples, and censored samples at the same time. |
| `ComparablePairs.GroupEntry` | eval/cindex.py:101-107 | Every event of a group that does not start at the last position has an entry, and is recorded with its comparability row. |
| `ComparablePairs.CensoredInGroup` | eval/cindex.py:99-100 | `censored_at_same_time.sum()` counts the censored samples at the group's time, over all samples. |
| `ComparablePairs.GroupTiedStep` | eval/cindex.py:108 | Each event of a group adds the group's censored count to `tied_time`; a censored sample adds nothing. |
| `ComparablePairs.TiedTimeInGroup` | eval/cindex.py:101-108 | Up to any position e in the group, the group has added (#events before e) x (#censored of the group). |
| `ComparablePairs.GroupTiedTime` | eval/cindex.py:101-108 | A time group adds #events x #censored to `tied_time`. |
| `Harrell.Comparable` | eval/cindex.py:91-107 | The comparability rule the scan implements. An event is comparable only with another sample observed no earlier. It is comparable with every sample observed strictly later, and never with another event at its own time. |
| `Harrell.ComparableMask` | eval/cindex.py:103-106 | Position by position, the row of j is the comparability rule. |
| `Harrell.HasEntry` | eval/cindex.py:91-107 | Only events get entries. The only event without one is the last sort position, alone at the largest time, because the scan stops at n - 1. |
| `Harrell.CountTrue` | eval/cindex.py:143 | `mask.sum()` is at most the mask's length. |
| `Harrell.CountTrueNone` | eval/cindex.py:143 | A mask with no true entry sums to 0. |
| `Harrell.Gather` | eval/cindex.py:132 | `estimate[order[mask]]` has at most as many entries as there are samples. |
| `Harrell.GatherLength` | eval/cindex.py:132-147 | `est.size == mask.sum()`. |
| `Harrell.GatherClassified` | eval/cindex.py:132 | When every marked estimate is scored c against the event's estimate, so is every gathered entry. |
| `Harrell.Classify` | eval/cindex.py:136-140 | A risk tie iff the difference is within `tied_tol`. Concordant only for a strictly lower estimate, discordant only for an estimate not lower. Equal estimates tie when `tied_tol >= 0`. |
| `Harrell.CountClass` | eval/cindex.py:137-140 | `ties.sum()` and `con[~ties].sum()` count at most the gathered estimates. |
| `Harrell.CountClassUniform` | eval/cindex.py:137-140 | When every gathered estimate has the same score c, the row counts all of them as c and none as anything else. |
| `Harrell.UniformRows` | eval/cindex.py:127-147 | When every comparable pair has the score c, the total for c is the number of comparable pairs and every other total is 0. |
| `ComparablePairs.CensoredRun` | eval/cindex.py:99-100 | Position by position, `censored_at_same_time`, the negation of `event_indicator[order[i:end]]`. |
| `ComparablePairs.EventRun` | eval/cindex.py:99 | Position by position, `event_at_same_time`: the event flags of the group, which decide which positions add to `tied_time`. |
| `Concordance.EstimateConcordanceIndex` | eval/cindex.py:113-150 | It fails with `NoComparablePair` exactly when no sort position has a row. Otherwise it returns `HarrellEstimate`: the three pair counts, `tied_time`, and `Divide(numerator, denominator)` of the reference sums. |
| `Concordance.SumRows` | eval/cindex.py:122-147 | After the loop over the rows, `concordant`, `discordant` and `tied_risk` are the reference totals. `numerator` is the weighted concordant count plus half the weighted ties. `denominator` is the weighted pair count. |
| `Concordance.AccumulateRow` | eval/cindex.py:136-147 | One row's update keeps the accumulators equal to the reference prefix sums. `n_con + n_ties <= est.size`, so `discordant` never goes below zero. |
| `Concordance.AccumulateNothing` | eval/cindex.py:127 | A sort position without a row contributes nothing to any accumulator. |
| `Concordance.HarrellEstimate` | eval/cindex.py:145-150 | concordant + discordant + tied_risk = the number of comparable pairs. |
| `Harrell.Divide` | eval/cindex.py:149 | The quotient is finite iff the denominator is non-zero, and then quotient x denominator = numerator. It is NaN iff both are zero. |
| `Harrell.ClassPartition` | eval/cindex.py:136-147 | Every gathered estimate is exactly one of concordant, discordant, tied. |
| `Harrell.RowPartition` | eval/cindex.py:136-147 | Within a row, concordant + discordant + tied = the row's comparable pairs. |
| `Harrell.NoPairsWithoutEntry` | eval/cindex.py:91-109 | A position without a row has no comparable sample at all: it is censored, or it is an event alone at the largest time. So all its counts are 0. |
| `Harrell.PairConservation` | eval/cindex.py:145-147 | concordant + discordant + tied_risk = total comparable pairs. |
| `Harrell.CensoredAtWithinRow` | eval/cindex.py:106-108 | An event's row counts at least as many pairs as there are censored samples at the event's time. |
| `Harrell.TiedTimeWithinPairs` | eval/cindex.py:189-190 | `tied_time` counts comparable pairs that share a time, so tied_time <= comparable pairs. |
| `Harrell.UnitWeightTotals` | eval/cindex.py:142-143 | With unit weights the denominator is the number of comparable pairs, and the numerator is concordant + tied_risk / 2. |
| `Harrell.WeightedSumBound` | eval/cindex.py:142-143 | For non-negative weights, 0 <= weighted (a + b / 2) <= weighted pairs whenever a + b <= pairs in each row. |
| `Harrell.NumeratorWithinDenominator` | eval/cindex.py:142-143 | For non-negative weights, 0 <= numerator <= denominator. |
| `Harrell.CIndexInUnitInterval` | eval/cindex.py:149 | For non-negative weights and a positive denominator, the index is finite and lies in [0, 1]. |
| `Harrell.ExtremeRankings` | eval/cindex.py:142-149 | With unit weights and at least one comparable pair, two cases are stated over the estimates. If every comparable sample's estimate is strictly below the event's by more than `tied_tol`, the index is 1. If every comparable sample's estimate is within `tied_tol` of the event's, the index is 1/2. |
| `Harrell.ScaledNumerator` | eval/cindex.py:142 | Scaling every weight by c scales the numerator by c. |
| `Harrell.ScaledDenominator` | eval/cindex.py:143 | Scaling every weight by c scales the denominator by c. |
| `Harrell.DivideScaleInvariant` | eval/cindex.py:149 | A positive common factor leaves the quotient unchanged, including NaN and the infinities. |
| `Harrell.ConstantWeightsNeutral` | eval/cindex.py:142-149 | Any constant positive weight gives the same index as unit weights. |
| `Harrell.ClassifyNegated` | eval/cindex.py:136-140 | For tied_tol >= 0, negating both estimates keeps a tie and swaps concordant with discordant. |
| `Harrell.CountClassNegated` | eval/cindex.py:136-140 | The same, counted over a row's estimates. |
| `Harrell.ClassCountsNegated` | eval/cindex.py:136-146 | Negating every estimate swaps the concordant and discordant counts of every row. |
| `Harrell.NegatedEstimatesComplement` | eval/cindex.py:136-149 | With unit weights and at least one pair, negated estimates give 1 - index. |
| `CIndexCensored.CheckInputs` | eval/cindex.py:67-82 | The checks run in order: inconsistent lengths, then an empty array (refused by `check_array`), then a single sample, then no event. Each error holds iff its own condition holds and the earlier ones pass, and success means all pass. |
| `CIndexCensored.OnesLike` | eval/cindex.py:205 | `numpy.ones_like(estimate)`: one weight per sample, all equal to 1. |
| `CIndexCensored.UnitWeightIndex` | eval/cindex.py:142-149 | With unit weights, the index is NaN iff there is no comparable pair, and it is never infinite. Otherwise it is (concordant + tied_risk / 2) / pairs, which lies in [0, 1]. |
| `CIndexCensored.NoEntryNoPairs` | eval/cindex.py:118-120 | Data the guard refuses has no comparable pair, so the guard never refuses data with a pair. |
| `CIndexCensored.ConcordanceIndexCensored` | eval/cindex.py:152-207 | A failed check is returned as that error. Otherwise the call fails with `NoComparablePair` iff no position has a row, and on success returns `HarrellEstimate` with unit weights. The index is then NaN iff there is no comparable pair, never infinite, and in [0, 1] when finite. |
| `CIndexCensored.TiedEventsOnlyGiveNaN` | eval/cindex.py:118-149 | Two events at the same time pass the checks and the guard, yet have no comparable pair, so the index is NaN. |
| `CIndexCensored.TiedEventsCall` | eval/cindex.py:118-149 | `concordance_index_censored([True, True], [1, 1], [0.3, 0.7])` with the default `tied_tol` succeeds and returns NaN as the index. |
| `CIndexCensored.TiedEventsCallChecked` | eval/cindex.py:118-120 | With the guard on pairs, the same call is refused with `NoComparablePair`. |
| `CIndexCensored.ConcordanceIndexCensoredChecked` | eval/cindex.py:118-120 | With the guard on pairs, the call fails with `NoComparablePair` iff there is no comparable pair. Every index it returns is finite and in [0, 1]. |
| `WorkedExamples.WorkedRows` | eval/cindex.py:86-111 | Events (T, T, F, T) at times (1, 2, 2, 3): the rows are {1, 2, 3} and {2, 3}; the censored sample and the last event, alone at the largest time, have none. |
| `WorkedExamples.WorkedCounts` | eval/cindex.py:127-147 | With estimates (0.9, 0.5, 0.5, 0.1) and the default `tied_tol` of 1e-8, the rows score (3, 1) concordant, (0, 1) tied and no discordant pair, out of (3, 2) pairs. |
| `WorkedExamples.WorkedTiedTime` | eval/cindex.py:108 | Only the second event shares its time with a censored sample. |
| `WorkedExamples.WorkedTotals` | eval/cindex.py:145-150 | concordant = 4, tied_risk = 1, discordant = 0, pairs = 5, tied_time = 1. |
| `WorkedExamples.WorkedIndex` | eval/cindex.py:142-149 | The index is (4 + 1/2) / 5 = 0.9. |
| `WorkedExamples.WorkedChecks` | eval/cindex.py:67-82 | The four samples pass every check, and the scan gives the first event a row. |
| `WorkedExamples.WorkedOrder` | eval/cindex.py:114 | The samples are already in time order, so the identity is a valid argsort. |
| `WorkedExamples.WorkedEstimate` | eval/cindex.py:145-150 | The whole estimate is (0.9, 4, 0, 1, 1). |
| `WorkedExamples.WorkedCall` | eval/cindex.py:152-207 | `concordance_index_censored` on the four samples with the default `tied_tol` returns (0.9, 4, 0, 1, 1). |

## Left out

- `concordance_index` (eval/cindex.py:7-43) is not part of this model. It reshapes model outputs from tensors before calling `concordance_index_censored` with negated predictions. `Harrell.NegatedEstimatesComplement` covers what the negation does to the index.
- Most of `check_array` and `_check_estimate_1d` is left out (lines 69-72): the array coercion, the shape checks and the refusal of NaN or infinite values. The boolean dtype check (lines 73-76) is left out too. The types `seq<bool>` and `seq<real>` give one-dimensional inputs with boolean indicators. Two checks are kept as errors: the length comparison of `check_consistent_length` (`InconsistentLengths`) and the refusal of an empty array by `check_array` (`NoSamples`). Their message texts are not modelled.
- `tied_tol` has no default argument (lines 113, 152). Callers pass it explicitly; `Concordance.DefaultTiedTol` is the default value 1e-8, which the worked example uses.
- `numpy.argsort` is not computed: the model takes any ascending permutation as `order`.
- Floating point is left out. Times, estimates and weights are reals, so rounding, NaN inputs and infinite inputs are not modelled. The index is exact, with only the zero-denominator outcomes of IEEE division kept (`Ratio`).
- Summation order is left out. Summing in dictionary insertion order only matters under rounding, which is not modelled.
- `ComparablePairs.GetComparable`: the keys and rows are indexed by sort position, as in the source. Mapping them back to sample indices through `order` is left to the callers, as the estimator does.
- `ComparablePairs.RecordGroup` and `Concordance.SumRows` are parts of `_get_comparable` and `_estimate_concordance_index` that were made methods of their own to keep each proof small. They change no state beyond their results.

## Findings

| source | as written | input that shows it | evidently intended | confidence | as-written member | corrected member |
|---|---|---|---|---|---|---|
| eval/cindex.py:118 | The guard refuses data only when `comparable` has no row. An event whose only companions are other events at the same time gets a row with no comparable sample. All rows can be empty, the denominator stays 0, and line 149 returns 0 / 0 = NaN instead of raising. | event_indicator = [True, True], event_time = [1, 1], any two estimates | Refuse with `NoComparablePairException`, as its message says, whenever there is no comparable pair | not executed | `CIndexCensored.TiedEventsOnlyGiveNaN` | `CIndexCensored.ConcordanceIndexCensoredChecked` |
