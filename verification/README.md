# Euler–Maruyama path sampler: time grid and stepping engine

A Dafny model of the core of `tf_quant_finance/models/euler_sampling.py`,
the Euler–Maruyama sampler of Itô processes in TF Quant Finance. It covers:

- **the time grid** (`_prepare_grid`): the requested observation times are
  merged with the uniform points `0, h, 2h, …` below the last requested
  time, repeats are removed, the values are sorted, every requested time is
  located with a left `searchsorted`, and a keep-mask marks those positions
  (module `TimeGrid`, over the helpers of module `Sequences`);
- **the step count and step lengths** of `_sample` (`dt`, `steps_num`) and
  the `maximum_iterations` cap of the bulk loop (module `EulerSampling`);
- **the draw-source policy** of `_sample`: precomputed draws when the flag is
  set or the generator is SOBOL, HALTON, HALTON_RANDOMIZED, STATELESS or
  STATELESS_ANTITHETIC, otherwise a fresh draw per step (module `Draws`);
- **the stepping drivers**: `_euler_step` with its write cursor, the bulk
  driver `_while_loop`, the sensitivity driver `_for_loop`, and `sample`
  choosing between them (module `EulerSampling`).

Times are exact `real`s. The per-path state is a type parameter `S`; one
Euler increment is an arbitrary function `update(t, dt, state, dw)` of the
time at which drift and volatility are evaluated, the step length, the
current state and the unscaled normal draw `dw` of type `D`. A draw source is
either a precomputed sequence or an indexed source of fresh draws, so
`Precomputed` and `PerStep` mirror "exactly one of `normal_draws` and
`wiener_mean` is set". The central result is `EulerSampling.Sample`: for
every requested time `times[k]`, output slot `k` holds the Euler state
reached at the grid point equal to `times[k]`, whichever driver runs.

Where the code and its comments disagree, the model follows the code:

- The step evaluates drift and volatility at the END of the step,
  `times[i + 1]` (euler_sampling.py:314), not at `t_n` as the formula in the
  docstring (euler_sampling.py:49) says. `Engine.StateAt` passes `grid[n]`
  for the step from `n - 1` to `n`.
- The grid has no repeated values: `tf.unique` removes them
  (euler_sampling.py:361), although the `_prepare_grid` docstring says the
  grid "may contain duplicates" (euler_sampling.py:350-351).
- The same docstring says `mask[0]` is always false. The code makes it true
  when time 0 is requested, and `_while_loop` then writes the initial state
  into slot 0 (euler_sampling.py:254-260). The model admits a requested
  time 0 and proves `keepMask[0]` holds exactly then.
- The iteration cap is `int(1 / time_step) + size(grid)`, a truncation, not
  a ceiling (euler_sampling.py:249-250).

Caller obligations, which the source documents but does not check: at least
one requested time, strictly increasing and not negative (`ValidTimes`), and
a positive `time_step`.

## Model

| member | source | states |
|---|---|---|
| `TimeGrid.Uniform` | tf_quant_finance/models/euler_sampling.py:358 | `tf.range(0, last, h)` holds exactly the multiples `k*h` with `k*h < last`, at index `k`, strictly increasing |
| `TimeGrid.Unique` | tf_quant_finance/models/euler_sampling.py:361 | `tf.unique` leaves no repeated value, keeps exactly the values of its input, and never lengthens it |
| `TimeGrid.UniqueOfDistinct` | tf_quant_finance/models/euler_sampling.py:361 | removing repeats from a sequence without repeats returns it unchanged |
| `TimeGrid.Insert` | tf_quant_finance/models/euler_sampling.py:365-366 | inserting a new value into an ascending sequence keeps it strictly ascending and adds exactly that value |
| `TimeGrid.SortAscending` | tf_quant_finance/models/euler_sampling.py:365-366 | the sort of repeat-free values is strictly ascending, has the same length and the same values |
| `Sequences.SortedByElements` | tf_quant_finance/models/euler_sampling.py:365-366 | two strictly ascending sequences with the same values are equal, so the sorted grid is determined by the values it holds |
| `TimeGrid.SortAscendingOfSorted` | tf_quant_finance/models/euler_sampling.py:365-366 | sorting an ascending sequence returns it unchanged (the sorted result is unique) |
| `TimeGrid.SearchLeft` | tf_quant_finance/models/euler_sampling.py:367 | left `searchsorted` returns the position before which every value is below the key and from which none is |
| `TimeGrid.SearchLeftFinds` | tf_quant_finance/models/euler_sampling.py:367 | on the strictly ascending grid, searching for a value that occurs returns the position of that value |
| `TimeGrid.MergeGrid` | tf_quant_finance/models/euler_sampling.py:358-366 | the merged grid is strictly ascending, holds exactly the requested times and the uniform points, starts at 0 and ends at the last requested time |
| `TimeGrid.TimeIndices` | tf_quant_finance/models/euler_sampling.py:367 | one index per requested time, inside the grid, strictly increasing, and the grid value there is that requested time |
| `TimeGrid.KeepMask` | tf_quant_finance/models/euler_sampling.py:369-374 | the mask has the grid's length, is true exactly at the time indices, has as many trues as requested times, and has exactly `k` trues before the `k`-th time index |
| `TimeGrid.MaskPrefixCount` | tf_quant_finance/models/euler_sampling.py:369-374 | the trues among the first `j` mask entries are exactly the time indices below `j` |
| `TimeGrid.EndpointIndices` | tf_quant_finance/models/euler_sampling.py:352-356 | the last requested time sits at the last grid position, and position 0 is requested exactly when time 0 is |
| `TimeGrid.TimeIndicesEnds` | tf_quant_finance/models/euler_sampling.py:358-367 | on a grid from 0 to the last requested time, the searched index of the last time is the last grid position, and index 0 occurs exactly when time 0 is requested |
| `TimeGrid.PrepareGrid` | tf_quant_finance/models/euler_sampling.py:336-375 | the three outputs have consistent shapes: a non-empty grid, a mask as long as the grid, one index per requested time (the order, index and mask guarantees are the lemmas below and `MergeGrid`) |
| `TimeGrid.PrepareGridIndices` | tf_quant_finance/models/euler_sampling.py:367 | `grid[time_indices[k]] == times[k]`, the indices strictly increase, and the last one is `len(grid) - 1` |
| `TimeGrid.PrepareGridMask` | tf_quant_finance/models/euler_sampling.py:369-374 | the mask is true exactly at the time indices and has `len(times)` trues |
| `TimeGrid.PrepareGridCursor` | tf_quant_finance/models/euler_sampling.py:369-374 | exactly `k` mask entries before the `k`-th time index are true, so the write cursor of the bulk loop is `k` there |
| `TimeGrid.PrepareGridStart` | tf_quant_finance/models/euler_sampling.py:369-374 | `mask[0]` holds exactly when time 0 is requested (the docstring's `mask[0]=False` holds only when it is not) |
| `TimeGrid.PlanSlots` | tf_quant_finance/models/euler_sampling.py:367-374 | each requested time sits at a kept grid point with exactly `k` kept points before it, the last at the end of the grid, and the mask has one true per requested time |
| `TimeGrid.AlignedTimesAddNothing` | tf_quant_finance/models/euler_sampling.py:358-361 | when the requested times lie on the uniform grid, the merged grid is the uniform grid plus the last requested time, with nothing duplicated |
| `Sequences.CountTrueSeparates` | tf_quant_finance/models/euler_sampling.py:326-332 | two different kept grid points get different write-cursor values, so no slot is written twice |
| `Sequences.CountTrueBelowTotal` | tf_quant_finance/models/euler_sampling.py:326-332 | a kept position has fewer kept positions before it than the mask has in all, so the cursor never runs past the buffer |
| `Sequences.SumTelescopes` | tf_quant_finance/models/euler_sampling.py:175 | the step lengths add up to the distance from the start of the grid |
| `EulerSampling.Increments` | tf_quant_finance/models/euler_sampling.py:175-183 | `steps_num = len(grid) - 1` step lengths, each positive on a strictly ascending grid |
| `EulerSampling.IncrementsTelescope` | tf_quant_finance/models/euler_sampling.py:175 | the first `n` step lengths add up to the time of grid point `n` measured from the grid start |
| `EulerSampling.MaxIterations` | tf_quant_finance/models/euler_sampling.py:249-250 | the iteration cap exceeds the step count, so it never truncates the loop |
| `Draws.ConfigureDraws` | tf_quant_finance/models/euler_sampling.py:188-203 | draws are precomputed unless the generator is PSEUDO or PSEUDO_ANTITHETIC with the flag cleared; precomputed draws are one per step |
| `Draws.DrawPolicy` | tf_quant_finance/models/euler_sampling.py:316-321 | step `i` uses the precomputed draw `i` under the policy and a fresh draw otherwise |
| `EulerSampling.MaybeUpdate` | tf_quant_finance/models/euler_sampling.py:326-331 | the buffer keeps its length, only slot `ind` can change, and it changes to the new state exactly when the update flag is set |
| `EulerSampling.EulerStep` | tf_quant_finance/models/euler_sampling.py:309-333 | a step advances the reference path by one grid point, advances the cursor exactly when `mask[i+1]`, writes the new state into slot `written_count` only then, and leaves every other slot unchanged |
| `EulerSampling.SlotsSurviveWrite` | tf_quant_finance/models/euler_sampling.py:326-331 | a write at the cursor leaves every slot already written in place |
| `EulerSampling.SlotsExtend` | tf_quant_finance/models/euler_sampling.py:326-332 | when the next grid point is kept and its state is written at the cursor, the cursor advanced past it numbers the kept points so far |
| `EulerSampling.SlotsAfterWrite` | tf_quant_finance/models/euler_sampling.py:326-332 | after one step every kept grid point so far still sits in the slot numbered by the kept points before it |
| `EulerSampling.WriteKeepsInvariant` | tf_quant_finance/models/euler_sampling.py:309-333 | a step that advances the reference path, writes only at the cursor and moves the cursor exactly on kept points keeps the loop invariant |
| `EulerSampling.CursorInRange` | tf_quant_finance/models/euler_sampling.py:326-332 | while kept points remain, the cursor is inside the `num_requested_times` buffer |
| `EulerSampling.StepKeepsWriteInvariant` | tf_quant_finance/models/euler_sampling.py:326-332 | after each `_euler_step` the cursor equals the number of kept grid points so far, and each kept point's state sits in its slot |
| `EulerSampling.WhileLoop` | tf_quant_finance/models/euler_sampling.py:226-266 | the bulk loop runs exactly `steps_num` iterations, ends with `written_count == num_requested_times`, and the state at every kept grid point is in the slot numbered by the kept points before it |
| `EulerSampling.SensitivityStep` | tf_quant_finance/models/euler_sampling.py:279-298 | the sensitivity driver's step, run on a throw-away cursor and buffer, advances the same reference path |
| `EulerSampling.ForLoopState` | tf_quant_finance/models/euler_sampling.py:279-303 | `n` iterations of the sensitivity step reach the reference state at grid point `n` |
| `EulerSampling.IterNumsAreTimeIndices` | tf_quant_finance/models/euler_sampling.py:274-278 | for a grid from `_prepare_grid`, `iter_nums` (`steps_num` for one requested time, `time_indices` otherwise) is the time indices either way |
| `EulerSampling.ForLoop` | tf_quant_finance/models/euler_sampling.py:299-306 | output `k` of the sensitivity driver is the reference state after `iter_nums[k]` steps |
| `EulerSampling.SlotsFollowTimeIndices` | tf_quant_finance/models/euler_sampling.py:262-266 | the bulk driver's slot numbering puts the state at the `k`-th time index into slot `k` |
| `EulerSampling.RunDriver` | tf_quant_finance/models/euler_sampling.py:204-223 | whichever driver `watch_params` selects, output `k` is the reference state at the `k`-th time index |
| `EulerSampling.Sample` | tf_quant_finance/models/euler_sampling.py:140-223 | for either driver, the output has one slot per requested time, and slot `k` holds the Euler state at the grid point equal to `times[k]` |

## Left out

- Floating point: times, steps and the grid are exact reals. The rounding of
  `tf.range`, and the `float32` cast before `argsort` that can misorder close
  `float64` values (euler_sampling.py:365), do not arise.
- The numerical step: drift and volatility, `sqrt(relu(dt))`, the scaling of
  `dw` and the matrix-vector product (euler_sampling.py:177, 322-325) are
  folded into the abstract `update`; the model fixes only its arguments.
- Random generation: `utils.generate_mc_normal_draws` and
  `random.mv_normal_sample` are not part of this model. Both are indexed
  sources of draws. The seed, `skip` and the hidden state of a stateful
  generator are not modelled. Fresh draws are identified by their step.
- `custom_loops.for_loop` is not part of this model. `ForLoop` assumes it
  returns the state after each iteration count in `num_iterations`. The
  gradient machinery of `watch_params` is not modelled.
- `utils.maybe_update_along_axis` is not part of this model. `MaybeUpdate`
  assumes it replaces slot `ind` when `do_update` holds and otherwise
  returns the buffer unchanged.
- MaxIterations: does not model the `int32` cast of `1 / time_step`, which
  overflows for a time step below about `2^-31`. The proof that the cap never
  truncates the loop holds for unbounded integers only.
- Shapes and plumbing: `dim`, `num_samples`, the broadcast of the initial
  state, `dtype`, `name_scope`, `swap_memory`, static against dynamic
  `steps_num`, and the `expand_dims`/`transpose` of `_for_loop`'s output.
  The state of all sample paths at one time is one value of type `S`.
- The `ValueError` the docstring mentions, for non-constant `times` or
  `time_step` with SOBOL, comes from graph construction and is not raised in
  euler_sampling.py itself. It is not modelled.
- Input validation: the source does not check its inputs. The model states
  the documented requirements as preconditions (`ValidTimes`, a positive
  time step) instead of modelling what TensorFlow does outside them.
- `random_type=None` is treated as `Pseudo`, which is how `_sample` handles
  it: None is not among the five precomputing types.
