# Highest-density interval of a posterior sample

This project models `calculate_hdi_range` from best/utils.py in the BEST
package (Bayesian estimation supersedes the t-test). Given the draws of a
posterior sample and a credibility mass, the function returns the shortest
interval whose ends are draws and that holds `floor(cred_mass * n) + 1`
draws. That is one draw more than the mass's share when `cred_mass * n` is
a whole number:

1. It fails when the sample is empty.
2. It takes a sorted copy of the draws.
3. It fixes the window size `k = floor(cred_mass * n)`.
4. It measures every window of `k + 1` consecutive sorted draws, from its
   first draw to its last.
5. It returns the first and last draw of the narrowest window. When
   several windows tie, the leftmost one wins, because `np.argmin` keeps
   the first minimum.

The model is pure, like the source. It has three modules:

- `Sorting` (sorting.dfy) covers the sorted copy as a value. It has an
  insertion sort proved to return a sorted permutation, a proof that the
  sorted permutation of a sample is unique, and `CountIn`, the number of
  draws that lie in a closed range.
- `Utils` (utils.dfy) covers the window size, the widths, the first
  argmin, and `CalculateHdiRange` itself. The two ways the source fails
  are `Err(NoData)` and `Err(NoWindow)` values of a `Result`.
- `HdiProperties` (hdi_properties.dfy) holds what the interval promises
  across calls:
  - it holds at least `k + 1` draws;
  - no range holding as many draws is narrower;
  - it never narrows as the mass grows;
  - it does not depend on the order of the draws;
  - it has known values on a single draw and on a ten-draw sample.

The sample is a Dafny sequence, which is a value. A caller's sample
therefore can never be changed by the call, just as `np.sort` returns a
copy and leaves the caller's array alone.

## Model

| member | source | states |
|---|---|---|
| Sorting.Sort | best/utils.py:7 | the sorted copy is in ascending order, is a permutation of the sample (same multiset) and has the sample's length |
| Sorting.SortKeepsElements | best/utils.py:7 | the sorted copy has the sample's length and holds exactly the sample's values |
| Sorting.SortedUnique | best/utils.py:7 | two sorted sequences holding the same multiset of draws are equal, so the result does not depend on which sort algorithm produced the copy |
| Sorting.SortIsSortedPermutation | best/utils.py:7 | any sorted permutation of the sample is the model's sorted copy |
| Sorting.CountInPermutation | best/utils.py:7 | the number of draws in a closed range is the same in the sample and in any permutation of it, including the sorted copy |
| Sorting.CountInSortedStretch | best/utils.py:14-15 | the range from sorted position i to sorted position i+k holds at least k+1 draws |
| Sorting.CountInHoldsStretch | best/utils.py:10-11 | a closed range holding at least k+1 draws of a sorted sequence contains a whole window of k+1 consecutive positions |
| Utils.WindowSize | best/utils.py:9 | k is the floor of cred_mass·n (k ≤ cred_mass·n < k+1); k ≥ 0 for a non-negative mass; in a non-empty sample, k < n exactly when cred_mass < 1 |
| Utils.FloorBelowCount | best/utils.py:9-13 | for n > 0 and a non-negative mass, floor(cred_mass·n) < n if and only if cred_mass < 1, which decides whether any window exists |
| Utils.Widths | best/utils.py:10-11 | there are n-k widths; width i is sorted[i+k] - sorted[i]; on a sorted sample every width is ≥ 0 |
| Utils.ArgMin | best/utils.py:13 | the index is a least element of the widths, and every earlier element is strictly larger (the first minimum, as np.argmin returns) |
| Utils.HdiStart | best/utils.py:11-13 | the start chosen is a narrowest window, and every window to its left is strictly wider |
| Utils.HdiStartUnique | best/utils.py:13 | at most one window is the leftmost narrowest one, so the choice is determined |
| Utils.CalculateHdiRange | best/utils.py:5-16 | an empty sample fails with NoData; a non-empty sample fails with NoWindow exactly when cred_mass ≥ 1 (no window fits); otherwise low ≤ high, both ends are draws of the sample, and the pair is `Window`, the first and last draw (best/utils.py:14-15) of the leftmost narrowest window of k+1 sorted draws |
| HdiProperties.HdiCoverage | best/utils.py:9-15 | the returned interval holds at least k+1 draws of the sample |
| HdiProperties.HdiIsShortest | best/utils.py:10-15 | no closed range holding at least k+1 draws of the sample is narrower than the returned interval |
| HdiProperties.WindowSizeMonotone | best/utils.py:9 | a larger mass never gives a smaller window size |
| HdiProperties.HdiWidthMonotone | best/utils.py:9-15 | if a mass yields an interval, every smaller non-negative mass yields one too, and that interval is no wider |
| HdiProperties.HdiOfZeroWindow | best/utils.py:9-15 | when cred_mass·n < 1 the interval is the single least draw [min, min] |
| HdiProperties.HdiOfSingleDraw | best/utils.py:5-16 | a one-draw sample [x] with the default mass 0.95 gives (x, x) |
| HdiProperties.HdiIgnoresOrder | best/utils.py:7 | two samples holding the same draws in any order give the same result |
| HdiProperties.HdiOfSingleWindow | best/utils.py:9-15 | when k = n-1 the interval runs from the least draw to the greatest |
| HdiProperties.HdiOfTenDraws | best/utils.py:5-16 | any ordering of the ten draws 98, 99, 99, 100, 100, 100, 101, 101, 102, 103 with the default mass gives (98, 103) |

## Left out

- Utils.CalculateHdiRange: requires cred_mass ≥ 0. With a negative mass, `k` is negative and NumPy's negative-index slicing and broadcasting take over. Depending on n and k, the source then raises an error or returns an unrelated pair, for example hdi_min > hdi_max when k = -1. That behaviour is not modelled.
- Utils.WindowSize: draws and the mass are exact reals. In floating point, `cred_mass * n` can round across an integer, so `floor` may differ by one. NaN draws, which make `np.argmin` stop at the first NaN, are not modelled.
- Utils.Widths / Utils.HdiStart: widths are exact differences of reals. In the source, the subtraction at best/utils.py:11 rounds in floating point and can overflow to inf. Rounding can turn a strictly narrower window into a tie, and `np.argmin` then keeps the left window. For example, with the sample [-1.0, 2^53, 2^54] and cred_mass = 0.5, k = 1. The float widths are both 2^53, because 2^53 + 1 rounds to 2^53, so the source returns (-1.0, 2^53). The exact widths are 2^53 + 1 and 2^53, so the model returns (2^53, 2^54). Two widths that both overflow to inf tie in the same way, for example [-1.7e308, -1e308, 1e308, 1.65e308] with k = 2. Infinite draws, whose difference inf - inf is NaN, are not modelled either.
- The error cases are modelled by kind, not by exception class. An empty sample raises an AssertionError in the source. When k ≥ n, NumPy raises a ValueError: either the argmin of an empty array of widths, or a shape mismatch in the subtraction. Both are `Err(NoWindow)`. When Python runs with assertions disabled, an empty sample reaches the same empty argmin. In the model it is still `Err(NoData)`.
- Sorting.Sort: np.sort's own algorithm is replaced by an insertion sort. By SortedUnique, every correct sort gives the same copy.
- The result type is a tuple of NumPy scalars in the source. Here it is an `Interval` of reals.
- calculate_mode (best/utils.py:19-25) is not part of this model. It evaluates a SciPy kernel density estimate on a grid.
- calculate_statistics (best/utils.py:28-36) is not part of this model. It is a SciPy/KDE summary. Note that it returns `hdi_max` before `hdi_min`, in the opposite order from calculate_hdi_range.
- get_mean_metrics (best/utils.py:39-43) is not part of this model. It reads a PyMC trace.
- best/model.py, best/plot.py, the smart_drug.py demo script and setup.py are not part of this model. They are PyMC model construction, plotting with Matplotlib, a demo script and packaging.
