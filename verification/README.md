# Bookkeeping core of the CMA-ES pipe-roughness calibration

`opt_CMAES.py` calibrates the roughness of every pipe in a district-heating
network. A separable CMA-ES optimizer proposes candidate roughness
vectors. Each candidate is simulated under every operating scenario by an
external hydraulic solver, and it is scored by the L1 distance between
the simulated terminal pressures and measured target pressures.

This project models, in Dafny, the bookkeeping that sits between the
optimizer and the solver:

- **Task grid and result store** (`TaskGrid`, `TaskKey`, `ResultStore`).
  - Every (scenario, candidate) pair is one task.
  - A task's result is stored under the string key `"<s>_<j>"`, either as a measurement list or as the marker `'dead'`.
  - A batch of tasks is a sequential update of the store.
- **Per-task network description** (`Network`).
  - `simu` copies the base network and writes the scenario's flows into `m`, `m_1` and `m_2`.
  - It writes the candidate's roughness, converted from micrometres to metres, into `roughness`.
  - `get_result_json` flattens the solver's answer into all `p_1` values followed by all `p_2` values.
- **Fitness** (`Fitness`).
  - `read_result_json` concatenates each candidate's per-scenario lists in scenario order.
  - `evaluate` takes the L1 distance of each row to the target, with numpy's broadcasting rules and error cases.
  - `check_result` finds the dead candidates and the repair tasks.
- **One generation** (`Recovery`).
  - `step` evaluates the population.
  - If that raises, it resamples every dead candidate as a whole, re-runs all scenarios for them once, and evaluates again.
  - A second failure propagates.
- **The run loop** (`Driver`).
  - `run` performs `maxiter` generations and records each one with `save`.
  - When the optimizer says it should stop, `run` increments the seed and restarts with twice the population size.

The solver, the optimizer's `ask`/`tell`/`should_stop` and the random
sampler are parameters (function values). The model proves what the
bookkeeping guarantees for every choice of them.

Behaviours of the code that the model keeps:
- Repair is attempted exactly once, not until no candidate is dead.
- A dead candidate has every scenario re-run, not only its dead pairs.

## Model

| member | source | states |
|---|---|---|
| TaskKey.KeyRoundTrip | opt_CMAES.py:49-51 | The key `str(s)+'_'+str(j)` parses back to `(s, j)`: the decimal text of each index round-trips and the first `_` separates them. |
| TaskKey.KeyInjective | opt_CMAES.py:108 | Two keys are equal exactly when their scenario and candidate indices are equal, so the lookups in `read_result_json` and `check_result` hit the slot `simu` wrote for that pair and no other. |
| TaskKey.DigitsValueOfNatStr | opt_CMAES.py:49 | Reading the decimal rendering `str(n)` back as a number gives `n`. |
| TaskGrid.GridCoverage | opt_CMAES.py:185 | The index list has exactly `num * popsize` tasks; task `(i, j)` sits at position `i * popsize + j` (scenario-major); a pair is listed iff `i < num` and `j < popsize`; no pair appears twice. |
| TaskGrid.Pairs | opt_CMAES.py:120 | The pairing of every scenario with every listed candidate has `num * |cols|` tasks, and contains exactly the pairs with scenario below `num` and candidate in `cols`. |
| TaskGrid.PairsIndex | opt_CMAES.py:120 | Scenario-major layout: task `(i, cols[k])` is at position `i * |cols| + k`. |
| TaskGrid.PairsDistinct | opt_CMAES.py:120 | Pairing scenarios with a duplicate-free candidate list lists no task twice. |
| Network.Overwrite | opt_CMAES.py:37-42 | `map` of `{**d, field: v}` over records and values yields as many records as the shorter list; each has `field` set to its value, keeps all its keys, and leaves every other field unchanged. |
| Network.ReadOverwrite | opt_CMAES.py:37-42 | Reading `field` back from the overwritten records returns the written values (the prefix that `map` consumed). |
| Network.Merge | opt_CMAES.py:34-42 | The merged description keeps the other tables; user `m` is the scenario's user flow; heat-source `m_1` and `m_2` both equal the scenario's source flow; pipe `roughness` times 10^6 equals the candidate's value; every other field of every record is unchanged, and each record's keys are its base keys plus the written fields; each table is truncated to the shorter of the table and the values. |
| Network.MergeRecoversInputs | opt_CMAES.py:34-42 | With matching lengths, the scenario flows and the candidate (in metres) can be read back out of the merged description, the second `m_2` write leaving `m_1` intact. |
| Network.ToMetres | opt_CMAES.py:41 | The conversion to metres scales each value so that multiplying back by 10^6 gives the micrometre value. |
| Network.ResultVector | opt_CMAES.py:76-81 | `get_result_json` has length `2n` for `n` users: position `i` is user `i`'s `p_1`, position `n + i` its `p_2`. |
| Network.ResultVectorRoundTrip | opt_CMAES.py:76-81 | Pairing the first half of the measurement vector with its second half gives back the per-user results, so the vector loses nothing. |
| ResultStore.Simulate | opt_CMAES.py:34-51 | `simu` records `'dead'` exactly when the solver's state on the merged description is not 1; otherwise it records a vector with twice as many entries as users, which splits back into the per-user pressures. |
| ResultStore.Dispatch | opt_CMAES.py:58-74 | After a batch the store's keys are the old keys plus the keys of the batch's tasks. |
| ResultStore.DispatchRecords | opt_CMAES.py:49-51 | After a batch every task's key holds the entry that simulating that task records, whatever the order of the tasks. |
| ResultStore.DispatchRecordAt | opt_CMAES.py:49-51 | Task `k`'s key after the batch holds its simulation: a later task with an equal key would be the same task. |
| ResultStore.DispatchKeeps | opt_CMAES.py:49-51 | A batch leaves every key that none of its tasks addresses unchanged. |
| ResultStore.DispatchGridCovers | opt_CMAES.py:185-186 | After the full-grid batch every grid key is present and holds the simulation of that scenario and candidate. |
| Fitness.PresentAliveIsMeasured | opt_CMAES.py:103-110 | When every grid key is present and no candidate is dead, every grid entry is a measurement list. |
| Fitness.RowSlices | opt_CMAES.py:103-110 | When each scenario yields `m` values, a candidate's row has `num * m` values, and scenario `i`'s list is exactly the slice `i*m .. i*m+m` of it. |
| Fitness.ConcatAppend | opt_CMAES.py:108 | Concatenating (`+=`) over two runs of lists is the concatenation of the two partial results. |
| Fitness.SumAbsZero | opt_CMAES.py:126 | A sum of absolute values is non-negative and zero exactly when every term is zero. |
| Fitness.SumAbsResidualIsL1 | opt_CMAES.py:126 | For a row as long as the target, `sum(abs(row - target))` equals the L1 distance summed from the front. |
| Fitness.RowError | opt_CMAES.py:126 | One row's error is non-negative; for a row as long as the target it is the L1 distance, zero exactly when the row equals the target. |
| Fitness.Evaluate | opt_CMAES.py:103-128 | `evaluate` raises a key error when a grid key is missing, and fails when any grid entry is `'dead'`. When every grid entry is a measurement, it succeeds exactly when all rows have one length that numpy can broadcast against the target, and otherwise fails with a shape mismatch. On success there is one non-negative error per candidate. When rows match the target's length, each error is the L1 distance of the candidate's row and is zero exactly when the row equals the target. |
| Fitness.DeadColumns | opt_CMAES.py:113-119 | The dead candidates are strictly increasing, below `popsize`, and contain `j` exactly when some scenario's entry for `j` is `'dead'`. |
| Fitness.CheckResult | opt_CMAES.py:112-122 | `check_result` succeeds exactly when every grid key is present (else a key error); `ind` is strictly increasing, in range and holds exactly the dead candidates; `ind2` pairs every scenario with every dead candidate, scenario-major, with `num * |ind|` tasks. |
| Recovery.Assign | opt_CMAES.py:194 | Fancy assignment from position `k` of `ind` on: rows not listed are unchanged, and for distinct increasing indices row `ind[m]` becomes `draw(m)`. |
| Recovery.Resample | opt_CMAES.py:194 | `pop[ind] = sample`: the population keeps its size, rows outside `ind` are unchanged, and row `ind[m]` becomes the `m`-th sample. |
| Recovery.Repair | opt_CMAES.py:193-195 | Repair raises exactly when a grid key is missing; otherwise it keeps the population size and the store's keys, replaces exactly the dead candidates with samples, the `m`-th dead candidate in increasing order receiving the `m`-th sample, re-simulates every scenario of each dead candidate with its new vector, and leaves live candidates' entries and all non-grid keys unchanged. |
| Recovery.RepairPopulation | opt_CMAES.py:193-194 | After resampling, each dead candidate holds one of the drawn vectors and each live candidate keeps its own. |
| Recovery.RepairEffect | opt_CMAES.py:193-195 | The four effects of resampling followed by the repair batch, stated over `ind` as `check_result` returns it. |
| Recovery.RepairEntryAt | opt_CMAES.py:195 | One grid entry after the repair batch: the simulation of the new vector for a dead candidate, the old entry for a live one. |
| Recovery.FirstPass | opt_CMAES.py:185-186 | After the first batch every grid key holds the simulation of that scenario and the asked candidate. |
| Recovery.Step | opt_CMAES.py:177-200 | `step`: a successful step's errors are exactly what `evaluate` gives for the store it leaves. If the first evaluation succeeds, the population and store are told unchanged. If it fails, a failing repair's error is returned; otherwise the result is the repaired population and store, and a failing second evaluation's error is returned, with no further repair. On success every candidate has a non-negative error, every grid entry is a measurement of the candidate now in the population (so `tell` receives matching pairs, given the `ResultStore.Dispatch` line under "Left out": the batch simulates the population `step` holds), only candidates dead after the first batch were replaced, and the bounds hold whenever they held for the asked population and the sampler. |
| Recovery.RepairedStep | opt_CMAES.py:193-196 | After a successful repair the grid entries are those of the repaired population, and the replacements stay in bounds when the samples do. |
| Recovery.StepGivesUpAfterOneRepair | opt_CMAES.py:187-196 | With a solver that never converges, `step` fails with the dead-entry error rather than looping: the one repair batch is as dead as the first. |
| Recovery.DeadColumnFails | opt_CMAES.py:124-126 | A store holding every grid key cannot be evaluated as soon as any grid entry `"<i>_<j>"` is `'dead'`. |
| Driver.ArgMin | opt_CMAES.py:133 | `np.argmin` returns the first position of a smallest element. |
| Driver.Save | opt_CMAES.py:130-133 | `save` appends the generation's errors, their minimum and the first index attaining it, leaves earlier generations' entries unchanged, and keeps the three lists aligned and well-formed. |
| Driver.EndGeneration | opt_CMAES.py:227-241 | The end of a generation advances `iter`, appends the errors with `save` and the `should_stop` answer to the restart log, and keeps the step's store. On a restart the seed goes up by one and a fresh optimizer starts at the mean drawn for that seed, with step size 1250, the bounds, an empty state and twice the told population. Otherwise the told optimizer and the seed carry on. |
| Driver.HistoryExtended | opt_CMAES.py:202-241 | Appending a generation that ran to the history leaves every earlier generation's record of how it ran intact. |
| Driver.EndGenerationKeepsInvariant | opt_CMAES.py:226-241 | A generation whose `step` succeeded preserves the run invariant: one record entry per generation, non-negative errors, the seed counting restarts, population size `popsize1 * 2^restarts`, and the history of every generation's state, `step` outcome and restart decision. |
| Driver.Run | opt_CMAES.py:202-241 | `run` completes exactly `maxiter` generations unless a `step` raises, and when it stops early the `step` of the current generation has failed. Each generation `g` started from the state recorded in the history (the first from seed 0, the initial mean and `popsize1`). Its `step` on the population asked from that state's optimizer succeeded with the recorded errors. `restarts[g]` is the `should_stop` answer after `tell` with that step's candidates and errors, and the next state is the restart check's result. The record lists are well-formed, the first generation has `popsize1` candidates, each later one the same number or twice as many after a restart, the seed equals the number of restarts, and the current population size is `popsize1 * 2^restarts`. |

## Left out

- The hydraulic solver call through `ctypes`, and the `eval` of its answer (lines 44-46). The solver is a pure function parameter from network descriptions to a state and per-user pressures.
- Exceptions raised inside `simu`, and the pool's error handling in `multi_simu` (lines 62-71). A pure solver never raises, so a task's entry is always written.
  - In the code, a solver exception is not recorded as `'dead'`. It escapes `simu` and ends `pool.map` (line 65), and the `except` of `multi_simu` swallows it. The tasks after it in its chunk write nothing.
  - The store is the `Manager().dict()` created once by `set_config` (line 28). So such a key keeps the entry an earlier generation wrote there, which `evaluate` then uses as if it were current. Only a key that was never written is missing.
  - None of this is modelled.
- ResultStore.Dispatch: the batch simulates `pop[j]`, where `simu` reads `self.nextpop[i_ind]` (line 41). `opt_CMAES.py` never assigns `nextpop`, so the model uses the population `step` builds and repairs (`self.pop`) in its place.
- `multiprocessing.Pool` and the `Manager().dict()` shared store (lines 28, 58-74). A batch is a sequential update of the store in task order. Because task keys are distinct (`TaskGrid.GridCoverage`, `TaskKey.KeyInjective`), the order does not matter.
- SepCMA itself: the mean and covariance update, `ask`, `tell` and `should_stop` are function parameters.
  - `Driver.Run` assumes that `tell` keeps the population size, as SepCMA does.
  - The library's `population_size > 0` requirement becomes the `popsize1 > 0` precondition.
  - The initial optimizer's bounds are `low`/`high` rather than the stacked `bounds` array.
- `np.random` sampling. Resampled vectors come from a `draw` parameter, and restart means from `restartMean`. Bounds are stated as "if the sampler stays in `[low, high]`, so do the replacements".
- CSV input and output: `read_scenario`, `read_target`, `load`, `load_constraint`, and the file writing in `save`. Scenarios, target and bounds are fields of `Config`.
- Printing, timing, `os.mkdir` and the `__main__` block.
- Floating point. Values are exact reals, so the micrometre-to-metre conversion `* 1e-6` is exact division by 10^6.
- Tables other than the users, heat sources and pipes are carried through unchanged as a map. A description lacking one of those three tables (a Python `KeyError`) is not represented.
- The kind of exception when several faults coincide. `Fitness.Evaluate` reports a missing key first, then a `'dead'` entry, then a shape mismatch, matching the order in which `read_result_json` and numpy would raise.
- Fitness.Evaluate: it requires a non-empty population, as every caller has. SepCMA refuses a population size of 0, and numpy's shapes for an empty population are not modelled.
- Fitness.Evaluate: rows of different lengths are a failure, since `np.array` raises on ragged lists (line 110) from numpy 1.24 on. Older numpy builds an object array with a warning instead, which is not modelled.
- Fitness.Evaluate: it states the error as the L1 distance only when every row is as long as the target. For numpy's other broadcast cases (a row or the target of length 1), only non-negativity and the error count are stated.
- Driver.Run: generations whose `step` raises end the loop with `completed` false. The exception that would escape `run` is not modelled further.
