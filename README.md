# VARAHA adaptive-volume sampler, modelled in Dafny

This project models the discrete core of RIFT's adaptive-volume Monte Carlo
integrator, the `MCSampler` of `mcsamplerAdaptiveVolume.py`. That integrator
implements the VARAHA scheme of V. Tiwari.

The integrator keeps a *live set* of sample points whose log-likelihood lies
strictly above a threshold. Each cycle does the following:
- draws a new batch uniformly inside the occupied hyper-rectangular bins;
- admits the batch points that lie above the current threshold;
- raises the threshold (unless the final threshold has been reached) so that
  only a small share of the weight is cut off and at least `nsel + 1` values
  are at or above it (the re-filter is strict, so values tied with the
  threshold are dropped);
- re-filters the live set;
- shrinks the nominal live volume `V` by the surviving fraction `nrec / ninj`;
- re-bins the survivors into finer boxes and splits the next batch evenly
  over the occupied boxes.

The project has six modules:

- `Wrappers` (`wrappers.dfy`): `Option` and `Result`.
- `LikelihoodThreshold` (`threshold.dfy`): `get_likelihood_threshold`.
  - The order-statistic candidate `lkl_stop_thr` and the cumulative-share
    candidate `prob_stop_thr`.
  - The smaller of the two is the new threshold.
  - The truncated probability is the weight share strictly below it.
  - `exp` is an opaque weight function that is positive and strictly
    increasing.
- `Bins` (`bins.dfy`):
  - `sample_from_bins`, where the uniform draw maps variates in `[0, 1)`
    into each bin's box;
  - the bin index `((x - lo) / dx).astype(int)`, with truncation toward
    zero;
  - `np.unique(..., axis = 0)` as a strictly lexicographically sorted list
    of distinct rows;
  - the quotas `n_chunk // nunique + 1`.
- `Params` (`params.dfy`): parameters as `Basic(name) | Group(names)`, and
  `match_params_from_args`.
- `LiveVolume` (`live.dfy`): the live set.
  - Its three aligned columns `allx`, `allloglkl` and `allp`.
  - Selection with `np.where(l > thr)`, and appending.
  - The loop state.
  - Re-thresholding and the volume update.
- `Sampler` (`sampler.dfy`): the registry and the loop.
  - The class `MCSampler` with the fields the source updates in place:
    `params`, `params_ordered`, `llim`, `rlim`, `pdf`, `prior_pdf`,
    `_rvs`, `nbins`, `binunique`, `ninbin`, `my_ranges`, `dx`, `dx0` and
    `cycle`.
  - Its methods `add_parameter`, `clear`, `setup`, `prior_prod` (with its
    loop) and `draw_simple`.
  - One cycle of `integrate_log` and the `while` loop of `integrate_log`.
  - One cycle is the value-level `Update` followed by the in-place re-binning.

The model does not compute a number:
- randomness enters as variates in `[0, 1)`;
- the integrand `lnF`, the priors, `log`, `exp`, the real-power bin count
  (`(1/delta_V)**(1/ndim)`), the `at_final_threshold` rounding test and
  `eff_samp` are function parameters.

Python exceptions are modelled as `Failure` results. These are `np.max` of an
empty array, `[0]` of an empty selection, a missing dictionary key, calling a
`None` prior, and the failed `left < right` assertion.

## Model

All source paths are in `MonteCarloMarginalizeCode/Code/RIFT/integrators/`.

| member | source | states |
|---|---|---|
| LikelihoodThreshold.ThresholdExists | MonteCarloMarginalizeCode/Code/RIFT/integrators/mcsamplerAdaptiveVolume.py:108-126 | a threshold exists exactly when `lkl` is not empty and `discard_prob <= 1`; an empty `lkl` fails as `np.max` does |
| LikelihoodThreshold.ThresholdIsSmallerCandidate | MonteCarloMarginalizeCode/Code/RIFT/integrators/mcsamplerAdaptiveVolume.py:115-122 | the threshold is one of the input values and is at most both `lkl_stop_thr` and `prob_stop_thr` |
| LikelihoodThreshold.ThresholdKeepsNsel | MonteCarloMarginalizeCode/Code/RIFT/integrators/mcsamplerAdaptiveVolume.py:117-122 | with more than `nsel` inputs, at least `nsel + 1` of them are at or above the threshold |
| LikelihoodThreshold.ThresholdIsMinimum | MonteCarloMarginalizeCode/Code/RIFT/integrators/mcsamplerAdaptiveVolume.py:113-122 | when `discard_prob <= 0` or there are at most `nsel` inputs, the threshold is the minimum input |
| LikelihoodThreshold.ThresholdTruncation | MonteCarloMarginalizeCode/Code/RIFT/integrators/mcsamplerAdaptiveVolume.py:122-124 | `truncp` is the weight share strictly below the threshold; it lies in `[0, 1)`, is below `discard_prob` when that is positive, and is 0 when the threshold is the minimum |
| LikelihoodThreshold.ProbStopExists | MonteCarloMarginalizeCode/Code/RIFT/integrators/mcsamplerAdaptiveVolume.py:113-115 | the first value whose ECDF reaches `discard_prob` exists exactly when `lkl` is not empty and `discard_prob <= 1` |
| LikelihoodThreshold.ProbStopMember | MonteCarloMarginalizeCode/Code/RIFT/integrators/mcsamplerAdaptiveVolume.py:115 | `prob_stop_thr` is one of the input values |
| LikelihoodThreshold.ProbStopReaches | MonteCarloMarginalizeCode/Code/RIFT/integrators/mcsamplerAdaptiveVolume.py:111-115 | the weight share at or below `prob_stop_thr` reaches `discard_prob` |
| LikelihoodThreshold.ProbStopFirst | MonteCarloMarginalizeCode/Code/RIFT/integrators/mcsamplerAdaptiveVolume.py:111-115 | for every smaller input value, the share at or below it stays short of `discard_prob` |
| LikelihoodThreshold.ProbStopBelow | MonteCarloMarginalizeCode/Code/RIFT/integrators/mcsamplerAdaptiveVolume.py:111-115 | for a positive `discard_prob`, the share strictly below `prob_stop_thr` is less than `discard_prob` |
| LikelihoodThreshold.ProbStopMinimum | MonteCarloMarginalizeCode/Code/RIFT/integrators/mcsamplerAdaptiveVolume.py:113-115 | for `discard_prob <= 0`, `prob_stop_thr` is the smallest input |
| LikelihoodThreshold.OrderStopMember | MonteCarloMarginalizeCode/Code/RIFT/integrators/mcsamplerAdaptiveVolume.py:117-121 | `lkl_stop_thr` is one of the input values |
| LikelihoodThreshold.OrderStopCounts | MonteCarloMarginalizeCode/Code/RIFT/integrators/mcsamplerAdaptiveVolume.py:117-119 | at index `nsel` of the descending sort, at least `nsel + 1` inputs are at or above the value and at most `nsel` are strictly above it |
| LikelihoodThreshold.OrderStopMinimum | MonteCarloMarginalizeCode/Code/RIFT/integrators/mcsamplerAdaptiveVolume.py:120-121 | with at most `nsel` inputs, `lkl_stop_thr` is the smallest input |
| LikelihoodThreshold.SortAscPermutation | MonteCarloMarginalizeCode/Code/RIFT/integrators/mcsamplerAdaptiveVolume.py:112-117 | the sort is a permutation of its input (same multiset) |
| LikelihoodThreshold.SortAscAscending | MonteCarloMarginalizeCode/Code/RIFT/integrators/mcsamplerAdaptiveVolume.py:112-117 | the sort is ascending |
| LikelihoodThreshold.SortAscMembers | MonteCarloMarginalizeCode/Code/RIFT/integrators/mcsamplerAdaptiveVolume.py:112-117 | the sort has exactly the input's values |
| LikelihoodThreshold.AscendingValuesHaveAscendingWeights | MonteCarloMarginalizeCode/Code/RIFT/integrators/mcsamplerAdaptiveVolume.py:108-112 | sorting by value also sorts by weight, so it is the order of `argsort(prob)` |
| LikelihoodThreshold.TotalSort | MonteCarloMarginalizeCode/Code/RIFT/integrators/mcsamplerAdaptiveVolume.py:110-113 | every weighted sum is unchanged by the sort |
| LikelihoodThreshold.ShareReaches | MonteCarloMarginalizeCode/Code/RIFT/integrators/mcsamplerAdaptiveVolume.py:111-115 | `sumw` is positive for a non-empty input, so `prob = w/sumw` is defined, and a share reaches `d` exactly when the unnormalised sum reaches `d * sumw` |
| LikelihoodThreshold.FirstReachingNone | MonteCarloMarginalizeCode/Code/RIFT/integrators/mcsamplerAdaptiveVolume.py:113-115 | the cumulative scan finds nothing exactly when the whole weight stays short of the target |
| LikelihoodThreshold.FirstReachingReaches | MonteCarloMarginalizeCode/Code/RIFT/integrators/mcsamplerAdaptiveVolume.py:113-115 | over ascending values, the cumulative weight at the found value reaches the target |
| LikelihoodThreshold.FirstReachingFirst | MonteCarloMarginalizeCode/Code/RIFT/integrators/mcsamplerAdaptiveVolume.py:113-115 | no smaller value reaches the target |
| LikelihoodThreshold.ShareMonotone | MonteCarloMarginalizeCode/Code/RIFT/integrators/mcsamplerAdaptiveVolume.py:124 | a share that selects less weight value by value is not larger |
| LikelihoodThreshold.ShareBelowMemberLessThanOne | MonteCarloMarginalizeCode/Code/RIFT/integrators/mcsamplerAdaptiveVolume.py:124 | the share strictly below an input value is less than 1 |
| LikelihoodThreshold.ShareBelowMinimum | MonteCarloMarginalizeCode/Code/RIFT/integrators/mcsamplerAdaptiveVolume.py:124 | the share strictly below the minimum is 0 |
| Bins.SampleFromBins | MonteCarloMarginalizeCode/Code/RIFT/integrators/mcsamplerAdaptiveVolume.py:128-133 | the draw has exactly `sum(ninbin)` rows |
| Bins.SampleFromBinsRowInBox | MonteCarloMarginalizeCode/Code/RIFT/integrators/mcsamplerAdaptiveVolume.py:131-132 | each row of the `k`-th block lies, in every dimension, in `[lo + dx*bu[k], lo + dx*(bu[k]+1))`, a box exactly `dx` wide |
| Bins.RowBin | MonteCarloMarginalizeCode/Code/RIFT/integrators/mcsamplerAdaptiveVolume.py:132 | every row index of the stacked draw falls in some bin's block |
| Bins.DrawBlockInBox | MonteCarloMarginalizeCode/Code/RIFT/integrators/mcsamplerAdaptiveVolume.py:131-132 | every point drawn for a bin lies in that bin's box |
| Bins.UniformInRange | MonteCarloMarginalizeCode/Code/RIFT/integrators/mcsamplerAdaptiveVolume.py:132 | `uniform(lo, hi)` with a variate in `[0, 1)` lies in `[lo, hi)` |
| Bins.SampleAboveLower | MonteCarloMarginalizeCode/Code/RIFT/integrators/mcsamplerAdaptiveVolume.py:131-132 | with non-negative bin indices, every drawn point lies at or above the lower end of each range |
| Bins.Trunc | MonteCarloMarginalizeCode/Code/RIFT/integrators/mcsamplerAdaptiveVolume.py:433 | `astype(int)` truncates toward zero: a non-negative `q` gives `0 <= n <= q < n + 1`, a negative one gives `n - 1 < q <= n <= 0` |
| Bins.BinIndices | MonteCarloMarginalizeCode/Code/RIFT/integrators/mcsamplerAdaptiveVolume.py:433 | one bin index per sample, each of the sample's dimension |
| Bins.SlabOfIndex | MonteCarloMarginalizeCode/Code/RIFT/integrators/mcsamplerAdaptiveVolume.py:433 | a coordinate at or above `lo` gets a non-negative index whose slab `[lo + dx*b, lo + dx*(b+1))` contains it |
| Bins.PointInOwnBin | MonteCarloMarginalizeCode/Code/RIFT/integrators/mcsamplerAdaptiveVolume.py:433 | a point at or above the lower ends gets a non-negative bin index, and the bin's box contains the point |
| Bins.UniqueRows | MonteCarloMarginalizeCode/Code/RIFT/integrators/mcsamplerAdaptiveVolume.py:435 | the unique rows are exactly the input's rows, there are no more of them than input rows, and a non-empty input has at least one |
| Bins.UniqueRowsSorted | MonteCarloMarginalizeCode/Code/RIFT/integrators/mcsamplerAdaptiveVolume.py:435 | the unique rows are in strictly increasing lexicographic order, as `np.unique` returns them |
| Bins.SortedDistinct | MonteCarloMarginalizeCode/Code/RIFT/integrators/mcsamplerAdaptiveVolume.py:435 | strictly sorted rows are pairwise distinct |
| Bins.LexLessTotal | MonteCarloMarginalizeCode/Code/RIFT/integrators/mcsamplerAdaptiveVolume.py:435 | the row order used by `np.unique` is total on distinct rows of equal length |
| Bins.QuotasBounds | MonteCarloMarginalizeCode/Code/RIFT/integrators/mcsamplerAdaptiveVolume.py:436 | every occupied bin gets at least one draw, and the next batch has between `n_chunk + 1` and `n_chunk + nunique` points |
| Params.ArrangementsMembers | MonteCarloMarginalizeCode/Code/RIFT/integrators/mcsamplerAdaptiveVolume.py:164-165 | `itertools.permutations(to_match, i)` yields exactly the duplicate-free sequences of `i` names from `to_match` |
| Params.MatchedMembers | MonteCarloMarginalizeCode/Code/RIFT/integrators/mcsamplerAdaptiveVolume.py:160-165 | a differing group is matched exactly when it consists of two or more different names from the unmatched basic names |
| Params.MatchCharacterization | MonteCarloMarginalizeCode/Code/RIFT/integrators/mcsamplerAdaptiveVolume.py:151-166 | the answer is true exactly when the collections are equal, or some differing entry is a group and every differing group is two or more different names that are themselves differing basic entries |
| Params.MatchIdentical | MonteCarloMarginalizeCode/Code/RIFT/integrators/mcsamplerAdaptiveVolume.py:151-154 | identical collections match |
| Params.MatchOnlyBasicsDiffer | MonteCarloMarginalizeCode/Code/RIFT/integrators/mcsamplerAdaptiveVolume.py:155-158 | different collections whose differing entries are all basic names do not match |
| Params.MatchSingletonGroup | MonteCarloMarginalizeCode/Code/RIFT/integrators/mcsamplerAdaptiveVolume.py:164 | a differing one-name group is never matched, because arrangements start at length 2 |
| Params.ExampleWholeGroup | MonteCarloMarginalizeCode/Code/RIFT/integrators/mcsamplerAdaptiveVolume.py:147 | the group `("a", "b", "c")` matches the names `a`, `b`, `c` |
| Params.ExamplePairAndStray | MonteCarloMarginalizeCode/Code/RIFT/integrators/mcsamplerAdaptiveVolume.py:148 | the code answers true to `(("a", "b"), "d")` against `("a", "b", "c")` |
| Params.ExamplePairAndCommon | MonteCarloMarginalizeCode/Code/RIFT/integrators/mcsamplerAdaptiveVolume.py:149 | the code answers true to `(("a", "b"), "d")` against `("a", "b", "d", "c")` |
| Params.DocstringExamplesAsWritten | MonteCarloMarginalizeCode/Code/RIFT/integrators/mcsamplerAdaptiveVolume.py:145-149 | the code answers true to all four documented examples |
| Params.DocstringExamplesIntended | MonteCarloMarginalizeCode/Code/RIFT/integrators/mcsamplerAdaptiveVolume.py:144-149 | the documented meaning answers true, true, false, false, as documented |
| Params.IntendedMissingName | MonteCarloMarginalizeCode/Code/RIFT/integrators/mcsamplerAdaptiveVolume.py:148 | a name on one side that the other side lacks rules out equivalence (the documented equivalence compares the names each side stands for, in both directions) |
| LiveVolume.Where | MonteCarloMarginalizeCode/Code/RIFT/integrators/mcsamplerAdaptiveVolume.py:398 | `np.where(l > thr)` lists every index whose value is strictly above `thr`, and only such indices |
| LiveVolume.Select | MonteCarloMarginalizeCode/Code/RIFT/integrators/mcsamplerAdaptiveVolume.py:414-417 | selection keeps the columns aligned, never grows them, and keeps only values strictly above the threshold |
| LiveVolume.SelectRows | MonteCarloMarginalizeCode/Code/RIFT/integrators/mcsamplerAdaptiveVolume.py:414-417 | selecting the three columns with one index list keeps exactly the rows above the threshold, in order |
| LiveVolume.FilterRowsAbove | MonteCarloMarginalizeCode/Code/RIFT/integrators/mcsamplerAdaptiveVolume.py:398-417 | a row survives filtering exactly when it is in the input and its log-likelihood is above the threshold |
| LiveVolume.FilterRowsAppend | MonteCarloMarginalizeCode/Code/RIFT/integrators/mcsamplerAdaptiveVolume.py:398-402 | appending the three columns appends the rows, and filtering distributes over that concatenation |
| LiveVolume.FilterRowsTwice | MonteCarloMarginalizeCode/Code/RIFT/integrators/mcsamplerAdaptiveVolume.py:398-417 | filtering at `thr` and then at a threshold at least as high is filtering at the higher one |
| LiveVolume.AdmitThenRefilter | MonteCarloMarginalizeCode/Code/RIFT/integrators/mcsamplerAdaptiveVolume.py:398-417 | admitting a batch above the old threshold and re-filtering at a higher one leaves exactly the old and new rows above the new threshold, in order |
| LiveVolume.InitialLive | MonteCarloMarginalizeCode/Code/RIFT/integrators/mcsamplerAdaptiveVolume.py:356-368 | the loop starts with an empty live set, `V = 1` and cycle 1 |
| LiveVolume.InitialLiveOk | MonteCarloMarginalizeCode/Code/RIFT/integrators/mcsamplerAdaptiveVolume.py:356-368 | the initial state satisfies the loop invariant: `loglkl_thr = -1e15`, `trunc_p = 1e-10` is below `1 - enc_prob`, and `V` is in `(0, 1]` |
| LiveVolume.RethresholdSteps | MonteCarloMarginalizeCode/Code/RIFT/integrators/mcsamplerAdaptiveVolume.py:407-411 | re-thresholding fails only on an empty live set when not at the final threshold. Otherwise the threshold never drops, and when recomputed it is a live value strictly above the old one. `trunc_p` grows by the share cut off and stays below `1 - enc_prob` |
| LiveVolume.ShrinkVolumeBounds | MonteCarloMarginalizeCode/Code/RIFT/integrators/mcsamplerAdaptiveVolume.py:427 | with `1 <= nrec <= ninj`, `V *= nrec/ninj` keeps `V` positive and never increases it |
| Sampler.LimitCheck | MonteCarloMarginalizeCode/Code/RIFT/integrators/mcsamplerAdaptiveVolume.py:230-241 | registration passes exactly when both limits are given and ordered (componentwise for groups); otherwise it fails with the missing-limit or unordered-limit error |
| Sampler.DistinctCardinality | MonteCarloMarginalizeCode/Code/RIFT/integrators/mcsamplerAdaptiveVolume.py:198 | without repeated names, `len(self.params)` equals the number of ordered parameters |
| Sampler.FirstMissing | MonteCarloMarginalizeCode/Code/RIFT/integrators/mcsamplerAdaptiveVolume.py:202 | reports an ordered parameter without both limits exactly when there is one |
| Sampler.FirstVector | MonteCarloMarginalizeCode/Code/RIFT/integrators/mcsamplerAdaptiveVolume.py:202 | reports an ordered parameter with group limits exactly when there is one |
| Sampler.RangesOf | MonteCarloMarginalizeCode/Code/RIFT/integrators/mcsamplerAdaptiveVolume.py:202 | `my_ranges` has one `[llim, rlim]` row per ordered parameter, or names a parameter whose limits are missing or grouped |
| Sampler.RangesNonEmpty | MonteCarloMarginalizeCode/Code/RIFT/integrators/mcsamplerAdaptiveVolume.py:202-203 | ranges built from registered, ordered limits have `lo < hi` |
| Sampler.SetupReady | MonteCarloMarginalizeCode/Code/RIFT/integrators/mcsamplerAdaptiveVolume.py:197-205 | after `setup`, every width `dx` is positive, and the single zero bin with quota `[n_chunk]` is ready to draw |
| Sampler.PriorFactors | MonteCarloMarginalizeCode/Code/RIFT/integrators/mcsamplerAdaptiveVolume.py:263-264 | when every prior is present, there is one factor per ordered parameter |
| Sampler.PriorFactorsSucceed | MonteCarloMarginalizeCode/Code/RIFT/integrators/mcsamplerAdaptiveVolume.py:263-264 | the priors are found exactly when every ordered parameter has a prior that is not `None`, and the factors are those priors in order |
| Sampler.PriorFactorsPrefixFails | MonteCarloMarginalizeCode/Code/RIFT/integrators/mcsamplerAdaptiveVolume.py:263-264 | the first missing or `None` prior decides the error, whatever follows it |
| Sampler.RowPriorAppend | MonteCarloMarginalizeCode/Code/RIFT/integrators/mcsamplerAdaptiveVolume.py:264 | one more loop step multiplies in the next prior at the next column |
| Sampler.RowPriorPositive | MonteCarloMarginalizeCode/Code/RIFT/integrators/mcsamplerAdaptiveVolume.py:261-265 | positive factors give a positive product, so `np.log` in `draw_simple` is finite |
| Sampler.RowPriorZero | MonteCarloMarginalizeCode/Code/RIFT/integrators/mcsamplerAdaptiveVolume.py:261-265 | one vanishing factor makes the product zero |
| Sampler.PriorProduct | MonteCarloMarginalizeCode/Code/RIFT/integrators/mcsamplerAdaptiveVolume.py:257-266 | the product exists exactly when the factors do, with one value per row |
| Sampler.Variates | MonteCarloMarginalizeCode/Code/RIFT/integrators/mcsamplerAdaptiveVolume.py:132 | the RNG of a cycle gives `count` rows of `ndim` variates in `[0, 1)` |
| Sampler.OccupiedBinsMembers | MonteCarloMarginalizeCode/Code/RIFT/integrators/mcsamplerAdaptiveVolume.py:433-435 | the occupied bins are exactly the bins of the live points. They are sorted, distinct and non-negative, non-empty for a non-empty live set, and each live point lies in its own bin |
| Sampler.RebinReady | MonteCarloMarginalizeCode/Code/RIFT/integrators/mcsamplerAdaptiveVolume.py:431-436 | re-binning a non-empty, well-placed live set with a positive bin count gives positive widths and non-empty occupied bins with one quota each, ready for the next draw |
| Sampler.UpdateErrors | MonteCarloMarginalizeCode/Code/RIFT/integrators/mcsamplerAdaptiveVolume.py:398-424 | a cycle fails only when nothing is live. Either the re-filter leaves nothing (`np.max` at :421), or there is nothing to threshold because the live set and the admitted batch are both empty |
| Sampler.UpdateKeepsLive | MonteCarloMarginalizeCode/Code/RIFT/integrators/mcsamplerAdaptiveVolume.py:398-427 | a successful cycle keeps the loop invariant, with a non-empty live set: admission keeps every point of the sampler's dimension at or above the lower ends and every log-likelihood above the old threshold, and the re-filter keeps those points |
| Sampler.UpdateMonotone | MonteCarloMarginalizeCode/Code/RIFT/integrators/mcsamplerAdaptiveVolume.py:372-424 | `ntotal_true` grows by the batch size. The threshold and `trunc_p` never drop, and `trunc_p` stays below `1 - enc_prob`. At the final threshold both are unchanged; otherwise the threshold rises strictly. `eff_samp` is computed from the new live values |
| Sampler.UpdateVolume | MonteCarloMarginalizeCode/Code/RIFT/integrators/mcsamplerAdaptiveVolume.py:427 | a successful cycle keeps `V` positive and never increases it |
| Sampler.UpdateRows | MonteCarloMarginalizeCode/Code/RIFT/integrators/mcsamplerAdaptiveVolume.py:398-427 | the new live set is exactly the rows of the old live set and the batch above the new threshold, in order. `0 < nrec <= ninj`, with `ninj` the whole live set after admission, and `V` shrinks by `nrec / ninj` |
| Sampler.MCSampler.constructor | MonteCarloMarginalizeCode/Code/RIFT/integrators/mcsamplerAdaptiveVolume.py:169-195 | a new sampler has the given `n_chunk`, an empty registry, empty limit, density, prior and cache maps, and satisfies the registry invariant |
| Sampler.MCSampler.AddParameter | MonteCarloMarginalizeCode/Code/RIFT/integrators/mcsamplerAdaptiveVolume.py:222-251 | the name is added to `params` and appended to `params_ordered` before the limits are checked. Only ordered limits record `llim`, `rlim`, `pdf` and `prior_pdf`; a failed check leaves those maps unchanged. The registry invariant is kept |
| Sampler.MCSampler.Clear | MonteCarloMarginalizeCode/Code/RIFT/integrators/mcsamplerAdaptiveVolume.py:208-219 | empties `params`, `params_ordered`, `pdf`, `_rvs`, `llim` and `rlim`, leaves `prior_pdf` unchanged, and keeps the registry invariant |
| Sampler.MCSampler.Prepare | MonteCarloMarginalizeCode/Code/RIFT/integrators/mcsamplerAdaptiveVolume.py:353-354 | `n_chunk := n` then `setup`: the same outcomes, and on success the sampler is ready to draw (positive widths, one non-negative bin with one quota) |
| Sampler.MCSampler.Setup | MonteCarloMarginalizeCode/Code/RIFT/integrators/mcsamplerAdaptiveVolume.py:197-205 | `nbins` is all ones, with one all-zero bin and quota `[n_chunk]`. Then the range error is raised with the range fields untouched; or, with no parameter, `my_ranges` is stored empty and the width step fails (`NoDimensions`, numpy's AxisError at :203) with `dx`, `dx0` and `cycle` untouched; or `my_ranges` is the registered limits, `dx` the widths, `dx0 == dx`, and `cycle == 1`. The registry and `n_chunk` are unchanged |
| Sampler.MCSampler.PriorProd | MonteCarloMarginalizeCode/Code/RIFT/integrators/mcsamplerAdaptiveVolume.py:257-266 | the in-place loop over the ordered parameters computes the row-wise product of the priors, or the first missing or `None` prior's error |
| Sampler.MCSampler.DrawSimple | MonteCarloMarginalizeCode/Code/RIFT/integrators/mcsamplerAdaptiveVolume.py:268-274 | the draw is `sample_from_bins` over the current bins (at least one, as `np.vstack` needs) with `sum(ninbin)` rows and, for each row, `log_p` is the log of its prior product. It fails exactly when the priors do |
| Sampler.MCSampler.Advance | MonteCarloMarginalizeCode/Code/RIFT/integrators/mcsamplerAdaptiveVolume.py:371-427 | draws a batch of `sum(ninbin)` well-placed rows with `loglkl = lnF(x) + log_p`, and gives the cycle's new loop state, or the prior error |
| Sampler.MCSampler.Rebin | MonteCarloMarginalizeCode/Code/RIFT/integrators/mcsamplerAdaptiveVolume.py:431-436 | sets `nbins` to the bin count in every dimension, `dx` to the ranges split by it, `binunique` to the live points' non-empty occupied bins and `ninbin` to the quotas, leaving the sampler ready to draw |
| Sampler.MCSampler.Cycle | MonteCarloMarginalizeCode/Code/RIFT/integrators/mcsamplerAdaptiveVolume.py:369-440 | one loop iteration. On failure the bin fields are untouched. On success: the loop invariant holds and the live set is non-empty; the cycle advances by one; `ntotal_true` grows by the batch; `V` does not grow and the threshold and `trunc_p` do not drop; `nbins` is `binCount(V, nrec)` in every dimension, `dx` the ranges split by it, `binunique` the bins the new live points occupy and `ninbin` their quotas |
| Sampler.MCSampler.RunCycles | MonteCarloMarginalizeCode/Code/RIFT/integrators/mcsamplerAdaptiveVolume.py:369-442 | the `while` loop keeps the invariant and monotonicity, and stops either when `eff_samp >= neff` or `ntotal_true >= nmax`, or after cycle 1000. The bin fields are left as the last completed cycle re-derived them from its live set (kept for the next draw, :370), and untouched when no cycle completed; on failure the last live state reached is reported with the bins that belong to it. Registry, `n_chunk` and `my_ranges` are unchanged |
| Sampler.MCSampler.IntegrateLog | MonteCarloMarginalizeCode/Code/RIFT/integrators/mcsamplerAdaptiveVolume.py:349-442 | sets `n_chunk`, runs `setup` (its range error and the no-parameter error surface unchanged) and the loop from the initial state. It ends in a state satisfying the loop invariant, ready to draw, after at most 1000 cycles and with the loop condition false or the cap reached. When no cycle completed, the bins are `setup`'s (one zero bin, quota `[n]`, `dx` the full widths); otherwise they are re-derived from the last live state reached |

## Left out

- Floating point: every quantity is an exact `real`. `exp` is an opaque, positive, strictly increasing weight function. `log`, the power `(1/delta_V)**(1/ndim)` of :431, `np.round` in the `at_final_threshold` test of :407 and the weights `eff_samp`/`neff_varaha` of :421-424 are function parameters.
- The random values of `np.random.uniform`: the draw uses caller-supplied variates in `[0, 1)`; only box membership and counts are modelled.
- The integrand `lnF` and the prior callbacks are opaque functions. `lnF` takes a whole row, which stands for both the name-protected call and the `no_protect_names` call of :375-380.
- The `statutils` log aggregate (:391-394, :437) and `self.ntotal`, which only serve diagnostics.
- cupy/GPU probing and transfers, the `profile` decorator, `print` output, the verbose flags and the many unused keyword arguments of `integrate_log`.
- The `integrate` wrapper, which only forwards to `integrate_log`.
- The code after the loop (:447-458): filling `_rvs` and the `logsumexp` estimate of the integral, which are floating-point reporting.
- Sampler.MCSampler.Setup: the model reports every group parameter's range as `GroupRange`, whatever numpy makes of it (a regular array of shape `(n, 2, k)` when every group has the same size `k`, a ragged one otherwise); the array shapes themselves are not modelled.
- Bins.SampleFromBins: returns no rows for an empty `ninbin`, where `np.vstack` of an empty list raises; the sampler never draws with one, because its readiness requires at least one bin.
- Sampler.MCSampler.AddParameter: assumes each given limit has the shape of its parameter (a scalar for a name, one value per name for a group). The `None`-limit branches after the assertion are unreachable and are not modelled.
- Sampler.MCSampler.Clear: the attributes `_pdf_norm` and `adaptive`, which nothing in the modelled code reads, are not fields of the model.
- Sampler.MCSampler.IntegrateLog: requires no repeated names in `params_ordered`, so that `len(self.params)` used by `setup` is the number of columns. It does not restate that `my_ranges` and `dx0` come from the registered limits; `Setup` states that.
- Sampler.MCSampler.RunCycles: `nmax` and `neff` are optional, with `None` standing for the infinite default. The default chunk size `min(100000, nmax)` is replaced by the caller's `n`.
- Sampler.MCSampler.Cycle: the bin count `(1/delta_V)**(1/ndim)` with `delta_V = V / sqrt(nrec)` is an opaque positive function of `V` and `nrec`.
- Params.MatchParamsFromArgs is a ghost function, because it quantifies over the arrangements of a set of names; it is not executable in the model.

## Findings

| source | as written | input that shows it | evidently intended | confidence | as-written member | corrected member |
|---|---|---|---|---|---|---|
| MonteCarloMarginalizeCode/Code/RIFT/integrators/mcsamplerAdaptiveVolume.py:148-149 | `match_params_from_args` returns true whenever every differing group is made of two or more differing basic names. A basic name on the other side that is not accounted for (`d`, or `c`) does not make it false | `args = {("a", "b"), "d"}` against `{"a", "b", "c"}`, and against `{"a", "b", "d", "c"}`: both answer true | false for both, as the docstring says: the two collections must stand for the same names, with none repeated | high, not executed | Params.DocstringExamplesAsWritten | Params.DocstringExamplesIntended |
