# Ising lattice engine in Dafny

This project models the simulation core of the `ising` repository: a two-dimensional Ising model on a torus driven by the Metropolis rule, plus the helper that turns a list of energy histograms into a table of count vectors.

- **`Lattice`** (`lattice.dfy`) works on grid values (`seq<seq<int>>`). It covers:
  - the wrapped neighbour coordinates;
  - the cost of flipping one spin;
  - the energy sum exactly as `_observe__energy` computes it: the right-hand neighbour counted twice, and the running total divided by 4 after every row;
  - one Metropolis step, and a run of steps.

  The random numbers of the source are inputs. A `Draw` holds the cell drawn with `np.random.randint` and the outcome of the test `np.random.rand() < exp(-delta_e/beta)`.
- **`IsingModel`** (`ising.dfy`) is the class `Ising` itself.
  - The lattice is an `array2<int>` that `evolve_one` updates in place, and `observables` is a sequence that `evolve` appends to.
  - Every method is proved against the `Lattice` functions. While the model is valid (a lattice is stored and covers height x width), a ghost field `grid` shows the array's top-left height x width window as a grid value.
  - Each record that `evolve` appends holds the lattice array itself, not a copy, as the source does.
- **`Energy`** (`energy.dfy`) sums over the whole lattice. It proves that flipping one spin changes the sum of the site terms by exactly twice `delta_energy`, so `delta_energy` is the change of the bond energy (that sum halved). It also holds the corrected energy (all rows summed, then divided by 4 once) and the comparison with the energy as written.
- **`Cadence`** (`cadence.dfy`) compares the steps after which `evolve` records, as written, with every `observe_interval`-th step, which the interval evidently means.
- **`Distribution`** (`distribution.dfy`) is `_dist_extraction`. It returns the sorted list of every value of every histogram and a table that counts how many histograms share each count vector.

Two quirks of `_observe__energy` are modelled as written:

- Writing `(i, jp1)` twice where `(i, jm1)` is meant does not change the total. `Lattice.RowSumMatchesNeighbours` proves that every row sum equals the sum of the local energies built from `_neighbours`.
- The division by 4 inside the row loop does change the total (see Findings).

`observe_count` is never incremented, so `evolve` records an observation after every step, whatever the interval. `Ising.Sweep` states this, and `Cadence` compares it with the sampling the interval evidently means (see Findings).

## Model

| member | source | states |
|---|---|---|
| Lattice.Wrap | app/utils/model.py:28-31 | Python's `% n` for n > 0 lands in [0, n). It leaves an index in range alone and wraps -1 to n - 1 and n to 0. |
| Lattice.NeighbourCoords | app/utils/model.py:27-32 | There are four neighbour coordinates: up, down, left, right. Each lies on the lattice when (i, j) does. |
| Lattice.NeighbourSymmetric | app/utils/model.py:27-32 | The neighbour relation is symmetric. The cell above (i, j) has (i, j) below it, and likewise for the other three directions. |
| Lattice.NeighbourValues | app/utils/model.py:34-38 | Defines the list `_neighbours` returns: the four spins at the wrapped coordinates up, down, left, right, in that order. |
| Lattice.NeighbourSum | app/utils/model.py:34-38 | The spins `_neighbours` returns sum to up + down + left + right at the wrapped coordinates. |
| Lattice.Delta | app/utils/model.py:49-51 | Defines `delta_energy`: twice the spin at (i, j) times `np.sum` of its four neighbours. |
| Lattice.DeltaIsLocalEnergyChange | app/utils/model.py:40-51 | `delta_energy` equals -2 times the site's local energy (minus the spin times its neighbour sum). |
| Lattice.SiteTerm | app/utils/model.py:122-139 | Defines the term added for (i, j) as written: minus the spin times the sum of the cells at (ip1, j), (i, jp1), (im1, j) and (i, jp1) again. (i, jm1) is never added. |
| Lattice.RowTerms | app/utils/model.py:120-139 | Row i contributes one term per column. |
| Lattice.EnergyUpTo | app/utils/model.py:119-142 | Defines the running total after the first k rows as written: each row's terms are added, and then the whole total so far is divided by 4. |
| Lattice.ObservedEnergy | app/utils/model.py:114-144 | Defines what `_observe__energy` returns: the running total after every row. |
| Lattice.Quarter | app/utils/model.py:142 | The repeated division by 4 yields a positive factor. |
| Lattice.EnergyRowWeights | app/utils/model.py:119-144 | The per-row division in closed form: row r's sum enters the result multiplied by 4^-(h - r), where h is the number of rows. |
| Lattice.RowSumMatchesNeighbours | app/utils/model.py:124-139 | Each row sum with `(i, jp1)` counted twice equals the row's sum of local energies from `_neighbours`. The left-hand products and the right-hand products around a ring have the same sum. |
| Lattice.Negate | app/utils/model.py:65 | Negating every spin keeps the shape and negates every cell. |
| Lattice.EnergyFlipSymmetric | app/utils/model.py:119-144 | Reversing every spin leaves the observed energy unchanged. |
| Lattice.DeltaFlipSymmetric | app/utils/model.py:40-51 | Reversing every spin leaves the cost of every flip unchanged. |
| Lattice.SetCell | app/utils/model.py:69 | Writing one cell changes that cell to the new value and no other cell. |
| Lattice.Accepts | app/utils/model.py:64 | Defines the acceptance rule with `or`'s short circuit: a negative cost, or else the outcome of the random test. |
| Lattice.Step | app/utils/model.py:53-69 | One step keeps the lattice's shape. |
| Lattice.StepChangesOneCell | app/utils/model.py:62-69 | The drawn cell is negated when the flip is accepted and kept otherwise. With a negative cost it is negated whatever the draw says. Every other cell is kept. |
| Lattice.NegativeDeltaIgnoresDraw | app/utils/model.py:64-65 | When `delta_e < 0`, both outcomes of the random test give the same lattice, with the drawn spin negated. |
| Lattice.Run | app/utils/model.py:94-95 | A run of steps keeps the lattice's shape. |
| Lattice.RunCells | app/utils/model.py:94-95 | After a run, every cell holds its old spin or its negation. A cell that no draw names keeps its old spin. |
| Lattice.RunKeepsSpins | app/utils/model.py:11 | If the spin values are closed under negation (as `[-1, 1]` is), a run never leaves them. |
| Lattice.StepLeavesSpins | app/utils/model.py:64-69 | Without that closure the spin values are not kept: when the drawn spin's negation is not a spin value, the cell stays a spin value exactly when the flip is rejected. |
| Lattice.FlipNegatesDelta | app/utils/model.py:40-69 | On a lattice of at least 2 x 2, flipping a spin exactly negates the cost of flipping it back. |
| Energy.RollRows | app/utils/model.py:28-29 | The lattice shifted by one row around the torus: row a becomes row a + 1, wrapped. |
| Energy.TotalEnergy | app/utils/model.py:141-142 | Defines the corrected energy: the sum of all row sums divided by 4 once, after both loops. |
| Energy.BondEnergy | app/utils/model.py:40-51 | Defines the bond energy: the sum of all site terms halved, which counts each bond once. This is the energy whose change `delta_energy` is. |
| Energy.OneRowEnergy | app/utils/model.py:141-142 | With a single row, the observed energy equals the energy divided by 4 once. |
| Energy.TotalEnergyTranslationInvariant | app/utils/model.py:141-142 | The corrected energy (all rows summed, then divided by 4 once) does not change when the lattice is shifted by a row. |
| Energy.ObservedEnergyNotTranslationInvariant | app/utils/model.py:141-142 | As written, the observed energy of [[1, 1], [1, -1]] is 3/4, and the same lattice shifted by a row gives -3/4. |
| Energy.FlipOwnEnergy | app/utils/model.py:40-51 | Flipping (i, j) changes its own local energy by exactly `delta_energy`. |
| Energy.FlipOtherEnergy | app/utils/model.py:24-51 | Flipping (i, j) changes the local energy of any other site (a, b) by 2 x spin(i, j) x spin(a, b) for each side on which (a, b) touches (i, j). |
| Energy.ChangesSum | app/utils/model.py:40-51 | The changes at (i, j) and at its four neighbours add up to twice `delta_energy`. |
| Energy.SpreadSum | app/utils/model.py:40-51 | Spread over the lattice (summed where two neighbours are the same cell), the changes still add up to twice `delta_energy`. |
| Energy.SiteChange | app/utils/model.py:24-69 | After a flip of (i, j), every site's local energy changes by exactly the mass that the five changes (at (i, j) and at each of its neighbours) place on that site. |
| Energy.FlipRowSum | app/utils/model.py:119-139 | A flip changes each row sum that `_observe__energy` forms by that row's share of the spread change. |
| Energy.FlipRowSums | app/utils/model.py:40-69 | A flip changes the sum of all row sums by exactly twice `delta_energy`. |
| Energy.FlipChangesBondEnergy | app/utils/model.py:40-69 | A flip changes the bond energy (the sum of all site terms halved) by exactly `delta_energy`. |
| Energy.FlipChangesTotalEnergy | app/utils/model.py:40-51 | A flip changes the energy divided by 4 once by half of `delta_energy`. |
| Energy.StepBondEnergy | app/utils/model.py:53-69 | One `evolve_one` changes the bond energy by `delta_energy` when the flip is taken, and not at all otherwise. A flip with a negative cost always lowers it. |
| Energy.ColdRunNeverRaisesEnergy | app/utils/model.py:62-69 | A run in which the random test lets through only flips of cost 0 or less never raises the bond energy. This includes the limit of a very small temperature, where a zero-cost flip passes the test and a positive-cost flip fails it. |
| IsingModel.Snapshot | app/utils/model.py:22 | An array window read as a grid has the window's size and the array's cells. |
| IsingModel.TruncDiv | app/utils/model.py:85 | Defines `int(steps / observe_counts)` as the exact quotient truncated toward zero. |
| IsingModel.StepCount | app/utils/model.py:79-94 | Defines how many steps `evolve` runs: 100 when `steps` is None, and none for a negative count, as `range(steps)` gives. |
| IsingModel.ObserveInterval | app/utils/model.py:85-87 | The interval is at least 1. For non-negative steps and positive observe_counts, it is 1 when there are fewer steps than observations, and otherwise the floor of steps / observe_counts. When exactly one of the two is negative, it is 1. |
| IsingModel.DefaultIntervals | app/utils/model.py:80-87 | The defaults (100 steps, 10 observations) give an interval of 10. 5 steps and 10 observations give 1. |
| IsingModel.Trace | app/utils/model.py:92-102 | `evolve` appends one record per step, numbered from 0, each holding the lattice array itself. |
| IsingModel.TraceEnergy | app/utils/model.py:96-99 | Record k holds the observed energy of the lattice right after step k. |
| IsingModel.Ising.constructor | app/utils/model.py:8-13 | Every parameter falls back to its default (20, 20, [-1, 1], 100000, []) when it is absent or falsy. No lattice is stored yet. |
| IsingModel.Ising.Initialize | app/utils/model.py:16-22 | Stores the given lattice, or else the drawn one. When it covers height x width, the model's lattice is that window. |
| IsingModel.Ising.Neighbours | app/utils/model.py:24-38 | Returns the four array cells at the wrapped coordinates, in order, equal to `NeighbourValues` of the lattice. |
| IsingModel.Ising.DeltaEnergy | app/utils/model.py:40-51 | Returns twice the spin times the sum of the four neighbouring array cells, equal to `Delta` of the lattice. |
| IsingModel.Ising.EvolveOne | app/utils/model.py:53-69 | The lattice becomes `Step` of the old one. The drawn cell is negated when accepted and kept otherwise. No other array cell changes. |
| IsingModel.Ising.Evolve | app/utils/model.py:71-102 | Raises ZeroDivisionError exactly when `observe_counts` is 0, and then neither the array nor `observables` changes. Otherwise the lattice is `Run` of the draws, and `observables` gains one record per step after the old ones. In both cases, array cells outside the height x width window keep their values. |
| IsingModel.Ising.Sweep | app/utils/model.py:92-102 | The loop: after n steps the lattice is `Run` of the draws, and the records `Trace` describes follow the earlier ones. Array cells outside the height x width window keep their values. |
| IsingModel.Ising.Record | app/utils/model.py:96-99 | Appends the observation of the current step at the end of `observables`. |
| IsingModel.Ising.Observe | app/utils/model.py:104-112 | The record holds the step, the observed energy of the current lattice, and the lattice array itself. |
| IsingModel.Ising.ObserveEnergy | app/utils/model.py:114-144 | The loops compute `ObservedEnergy`: each row's sum is weighted by 4^-(rows from it to the end). |
| IsingModel.Ising.AddRow | app/utils/model.py:121-139 | The inner loop adds the row sum of `RowTerms` to the running total. |
| IsingModel.Ising.SiteTermOfArray | app/utils/model.py:122-139 | The term read off the array with Python's `%` for the wrapped indices is the row's term for that site. |
| Cadence.RecordedEveryStep | app/utils/model.py:91-99 | As written, the guard holds after every step: the recorded steps are 0, 1, ..., n - 1. |
| Cadence.RecordedSteps | app/utils/model.py:93-97 | Defines the steps recorded as written: a step is recorded when `observe_count % observe_interval == 0`, with `observe_count` fixed at 0. |
| Cadence.TraceFollowsRecordedSteps | app/utils/model.py:92-99 | For every run, record k of `evolve` belongs to step k, as `RecordedSteps` lists, whatever the interval. |
| Cadence.SampledSteps | app/utils/model.py:84-99 | A step is sampled exactly when it is below n and a multiple of the interval. The sampled steps are strictly ascending. |
| Cadence.SampledCount | app/utils/model.py:84-99 | Sampling n = q x interval + r steps (0 <= r < interval) records q steps, plus one when r > 0: the ceiling of n / interval. |
| Cadence.SampledCountDivides | app/utils/model.py:84-99 | When 0 < `observe_counts` <= `steps` and `observe_counts` divides `steps`, sampling records exactly `observe_counts` steps. |
| Cadence.DefaultCadence | app/utils/model.py:79-99 | With the defaults (100 steps, 10 observations) the interval is 10 and sampling records 10 steps, but as written `evolve` records all 100. |
| Distribution.AllKeys | app/distribution.py:13-17 | A value is collected exactly when some histogram has it as a key. |
| Distribution.Least | app/distribution.py:18 | The least element of a non-empty set is in the set and at most every element. |
| Distribution.SortedElements | app/distribution.py:13-18 | The sorted key list is strictly ascending, holds exactly the set's elements and has no repeats. |
| Distribution.Get | app/distribution.py:21 | Defines `i.get(j, 0)`: the count of a value, 0 when it is absent. |
| Distribution.VectorOf | app/distribution.py:21 | Defines one histogram's count vector: one `get` per sorted key, so it has as many entries as there are keys. |
| Distribution.Vectors | app/distribution.py:20-22 | Defines `dist_values`: one count vector per histogram, in the input's order. |
| Distribution.VectorsAgree | app/distribution.py:20-22 | Over keys covering both histograms, two count vectors are equal exactly when the histograms agree on every value (absent counts as 0). |
| Distribution.InVectors | app/distribution.py:20-22 | A vector is among `dist_values` exactly when some histogram yields it. |
| Distribution.Occurrences | app/distribution.py:26 | `list.count` never exceeds the list's length. |
| Distribution.OccurrencesMultiset | app/distribution.py:26 | `list.count` equals the multiplicity in the list's multiset, and it is at least 1 exactly for entries of the list. |
| Distribution.CountVectors | app/distribution.py:24-26 | The table's keys are exactly the vectors of the list, and each maps to its number of occurrences, which is at least 1. |
| Distribution.TotalIsSize | app/distribution.py:24-26 | A table holding the multiplicity of every element of a multiset sums to the multiset's size. |
| Distribution.CountsTotal | app/distribution.py:24-26 | The counts add up to the number of histograms. |
| Distribution.DistExtraction | app/distribution.py:8-33 | `states` is strictly ascending and holds exactly the values of all histograms. `counts` has exactly the histograms' vectors as keys, each with its number of occurrences. The counts add up to the number of histograms. An empty input gives empty results. |

## Left out

- Randomness: `np.random.randint`, `np.random.rand` and `np.random.choice` are not modelled. Their outcomes are inputs: a `Draw` per step, and the `drawn` array of `Initialize`. How the generator's stream is consumed is not modelled.
- Lattice.Step: `np.exp(-delta_e/beta)` and `beta` are replaced by the boolean `accept`, the outcome of the comparison. The model does not say how often a flip is accepted.
- IsingModel.Ising.ObserveEnergy: the energy is exact `real` arithmetic. Python's float division and numpy's int64 spins (and their overflow) are not modelled.
- IsingModel.Ising.Initialize: the source never checks the shape of a lattice it is given. The other methods require one covering height x width with positive dimensions; a negative or zero-size lattice is not modelled.
- IsingModel.Ising.Neighbours: coordinates are taken in range, as `np.random.randint` produces them. numpy's negative indexing of a caller's out-of-range coordinate is not modelled.
- IsingModel.Ising.Evolve: the test `if step > steps: break` never holds inside `range(steps)` (step is always below steps there). It is left out.
- IsingModel.Ising.Evolve: the loop of `evolve`, with `step = 0` and `observe_count = 0` before it, is the separate method `Ising.Sweep`. Float or non-integer `steps` values are not modelled.
- IsingModel.TruncDiv: the quotient is exact. `int(steps / observe_counts)` goes through a float, so above 2^53 it can differ from the exact quotient; that rounding is not modelled.
- IsingModel.Ising.constructor: falsy values are modelled as an absent key, 0 or an empty list. Other falsy Python values (False, 0.0) are not. The model holds `observables` as a value; the source keeps the caller's list itself and appends to it, and that aliasing is not modelled.
- Lattice.RunKeepsSpins: cells keep a value of `states` only when `states` is closed under negation. `evolve_one` writes `-1 *` the spin, so for a set such as [0, 1] the first accepted flip of a 1 writes -1, which is not a spin value (`Lattice.StepLeavesSpins`). The model keeps the source's negation and does not promise the invariant for such sets.
- IsingModel.Ising.ObserveEnergy: the inner loop over the columns is the separate method `Ising.AddRow`.
- Energy.FlipChangesBondEnergy: lattices with a single row or a single column are not covered. There a site is its own neighbour, and a flip does not simply negate `delta_energy`. The same holds for the other flip lemmas of `Energy`.
- Energy.ColdRunNeverRaisesEnergy: runs in which the random test lets through a flip of positive cost are not covered. What the energy then does depends on the random numbers, which the model does not describe.
- Logging, `print` and the `__main__` blocks are not modelled.
- `_calc_ising_distribution` and app/app.py are not part of this model.
- Distribution.DistExtraction: histogram keys and counts are integers. The dictionary's insertion order is not modelled, and `'states'` is a sequence rather than a tuple.

## Findings

| source | as written | input that shows it | evidently intended | confidence | as-written member | corrected member |
|---|---|---|---|---|---|---|
| app/utils/model.py:141-142 | `total_energy = total_energy / 4` is inside the row loop, so row r is divided by 4 once for every row from r to the end | the 2 x 2 lattice [[1, 1], [1, -1]] gives 3/4, and the same lattice shifted by one row gives -3/4 | divide the sum over all rows by 4 once, after both loops; the energy of a torus then does not depend on which row comes first | medium, not executed | Energy.ObservedEnergyNotTranslationInvariant | Energy.TotalEnergyTranslationInvariant |
| app/utils/model.py:91-99 | `observe_count` starts at 0 and is never incremented, so `observe_count % observe_interval == 0` holds after every step | the defaults, 100 steps and 10 observations: the interval is 10, yet all 100 steps are recorded | record after every `observe_interval`-th step (step % observe_interval == 0), giving `observe_counts` records when 0 < `observe_counts` <= `steps` and `observe_counts` divides `steps` | high, not executed | Cadence.DefaultCadence | Cadence.SampledCountDivides |
| app/utils/model.py:129-142 | the comment says every bond is counted four times and the sum is divided by 4, but the site terms count each bond twice, so the result is half the bond energy and a flip changes it by half of `delta_energy` | the 3 x 3 lattice of all +1 spins: flipping (0, 0) has `delta_energy` 8, the site terms rise by 16, and the sum divided by 4 rises by 4 | divide the site sum by 2, so that `delta_energy` is exactly the change of the energy the Metropolis rule compares | medium, not executed | Energy.FlipChangesTotalEnergy | Energy.FlipChangesBondEnergy |

The class keeps the energy and the recording as written (`Ising.ObserveEnergy` computes `ObservedEnergy`, and `Ising.Sweep` records every step). `Energy.TotalEnergy` is the corrected energy. `Energy.OneRowEnergy` shows that the two agree on a single-row lattice. `Cadence.SampledSteps` is the corrected recording schedule.

The comment at app/utils/model.py:141 gives the factor 1/4 for the whole sum. `delta_energy` is instead the change of the sum halved: `Energy.FlipChangesBondEnergy` proves that a flip changes that bond energy by exactly `delta_energy`, and `Energy.FlipChangesTotalEnergy` that it changes the sum divided by 4 by half of it. The model keeps both factors as the code has them.
