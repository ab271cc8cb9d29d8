# BioSystem: a Dafny model of the simulation core

This project models the core of `pybiosystem_framwork`, a small framework for
building and simulating biological systems described by ordinary differential
equations. A `BioSystem` holds:

- **compositors**: state variables, each with an initial value, a current value
  and a rate formula kept as text;
- **constants**: named numbers, never called `gamma`;
- **parts**: reactions, each contributing rate laws to the compositors it targets.

`determine_rates` folds every part's rate laws onto its targets, in order, into
`0 + (r1) + (r2) + ...`. It then compiles every formula, and a flag keeps it
from folding twice. `changeConstantValue` clears that flag and every formula.

`run` integrates over an evenly spaced time grid. Its sample count is
`max(int(t1 - t0) * 17, 1000)`. `run_pulses` chains one `run` per pair of
consecutive pulses. Before each run it applies the pulse's override, and it
stitches the traces without the first two rows of each. At the end it resets
every value to its initial value.

Two trace helpers complete the core:

- `time_to_index` locates a time in a time list;
- `interpolate_traces` resamples the sparser of two traces onto the denser one's
  x-values, using the chord over a neighbouring pair of grid points.

Everything is modelled functionally. A system is an immutable value, and every
mutating method returns the new system. A Python exception (`KeyError`,
`IndexError`) becomes the `Failure`/`None`/`Aborted` side of a result.

The numerical integrator (`odeint` with the system's ODE function) is a
parameter of type `Integrator`. The model only assumes its shape: one row per
grid point, one column per compositor. Numbers are exact reals.

Files:

| file | module | contents |
|---|---|---|
| `outcomes.dfy` | `Outcomes` | `Option`, `Result` |
| `records.dfy` | `Records` | `Rate`, `Part`, `Pulse` |
| `compositor.dfy` | `Compositors` | the compositor and its rate formula |
| `constant.dfy` | `Constants` | the constant and the reserved name |
| `biosystem.dfy` | `BioSystems` | registries, name indexes, value updates |
| `rates.dfy` | `RateFolding` | `determine_rates`, `reset_rates`, `changeConstantValue` |
| `simulation.dfy` | `Simulation` | sample count, time grid, `run` |
| `pulses.dfy` | `PulseScheduler` | `run_pulses` |
| `traces.dfy` | `Traces` | `time_to_index`, `interpolate_traces` |

## Model

| member | source | states |
|---|---|---|
| `Compositors.New` | Compositor.py:19-29 | A fresh compositor has the formula "0" and no compiled function, and its current value equals its initial value. |
| `Compositors.NewDefault` | Compositor.py:19 | Without an explicit initial value, the initial and current values are 0. |
| `Compositors.AddRatesAppends` | Compositor.py:35-37 | Adding a sequence of rates appends exactly their `" + (r)"` terms in order, and every other field stays unchanged. |
| `Compositors.Compositor.AddRate` | Compositor.py:35-37 | Adding a rate extends the formula: the old formula is a proper prefix of the new one, followed by the term for the rate, and nothing else changes. |
| `Compositors.Compositor.SetInitialValue` | Compositor.py:43-45 | Only the initial value changes; the current value stays as it was. |
| `Compositors.FreshFold` | Compositor.py:21-37 | Folding r1..rn onto a fresh compositor gives `"0 + (r1) + ... + (rn)"` and keeps its value. |
| `Compositors.JoinedAppend` | Compositor.py:35-37 | The terms of two batches of rates, added one after the other, are the terms of the combined batch. |
| `Constants.New` | Const.py:18-26 | Construction fails exactly when the name is `gamma`, and then no constant exists. Otherwise the name and value are stored as given. |
| `Constants.GammaAlwaysRejected` | Const.py:19-20 | `gamma` is rejected whatever the value. |
| `Constants.OnlyExactNameRejected` | Const.py:19-22 | The test is exact string equality, so `Gamma` is accepted. |
| `Constants.NewDefault` | Const.py:18-26 | Without an explicit value the constant's value is 0. |
| `BioSystems.Empty` | Biosystem.py:71-88 | A new system has no entities and only the time symbol, has its rates undetermined, and satisfies the registry invariant. |
| `BioSystems.AddCompositor` | Biosystem.py:98-108 | The compositor is appended, and its name now resolves to the new position. Its symbol follows all earlier ones, and constants, parts and the rate flag are untouched. |
| `BioSystems.AddNewCompositor` | Biosystem.py:98-108 | Adding by name and initial value appends a fresh compositor with that value and keeps the earlier ones. Its symbol follows all earlier ones, the name resolves to the new position, and constants, parts and the rate flag are untouched. |
| `BioSystems.IndexesLastAppend` | Biosystem.py:105-106 | After an append, the name index still maps every name to its last occurrence and nothing else. |
| `BioSystems.CompositorIndex` | Biosystem.py:114-116 | The lookup answers nothing exactly when no compositor has the name. Otherwise it answers the position of the most recently added compositor of that name. |
| `BioSystems.AddPart` | Biosystem.py:122-124 | The part is appended and nothing else changes; in particular the rate flag is unchanged. |
| `BioSystems.AddConstant` | Biosystem.py:134-142 | The constant is appended, and its name now resolves to the new position. Compositors, symbols and the rate flag are untouched. |
| `BioSystems.AddNewConstant` | Biosystem.py:134-142 | Adding by name and value fails exactly for `gamma`. Otherwise it appends that constant, its name resolves to the new position, and compositors, symbols, parts and the rate flag are untouched. |
| `BioSystems.ConstantIndex` | Biosystem.py:185 | Nothing exactly when no constant has the name. Otherwise the most recently added constant of that name. |
| `BioSystems.ChangeInitialValue` | Biosystem.py:195-199 | An unknown name fails. Otherwise only the compositor the name resolves to changes: both its initial and current values become the new value. |
| `BioSystems.ResetStateVariables` | Biosystem.py:204-207 | Every current value returns to that compositor's initial value, and nothing else changes. |
| `BioSystems.ResetStateVariablesIdempotent` | Biosystem.py:204-207 | Resetting twice is the same as resetting once. |
| `RateFolding.FoldPartAt` | Biosystem.py:150-153 | After one part is folded, each compositor's formula gains exactly that part's rates aimed at it, in k order. |
| `RateFolding.FoldPartsAt` | Biosystem.py:149-153 | After all parts are folded, each compositor's formula gains every rate aimed at it, in part-then-k order. |
| `RateFolding.FoldPartsAppends` | Biosystem.py:149-153 | The fold keeps the number of compositors. Every compositor gains precisely its contributions and nothing else. |
| `RateFolding.DetermineRates` | Biosystem.py:147-167 | Once the flag is set, this is a no-op. Otherwise every formula gains all contributions aimed at it, every compositor is compiled, and the flag becomes set. Only compositors and the flag change. |
| `RateFolding.UntouchedKeepsRate` | Biosystem.py:149-153 | A compositor that no part targets keeps its formula. |
| `RateFolding.DetermineRatesIdempotent` | Biosystem.py:147-148 | Determining rates twice is the same as determining them once. |
| `RateFolding.PartAddedAfterFoldIsIgnored` | Biosystem.py:122-124 | Adding a part does not clear the flag, so a part added after the rates were determined is not folded in by a later `determine_rates` until the flag is cleared (see `RateFolding.RefoldAfterConstantChange`). |
| `RateFolding.ResetRates` | Biosystem.py:172-177 | The flag is cleared, every formula goes back to "0", and every compiled function is gone. Nothing else changes. |
| `RateFolding.ChangeConstantValue` | Biosystem.py:184-187 | An unknown name fails and changes nothing. Otherwise only the most recently added constant of that name takes the value, and the rates are reset. |
| `RateFolding.RefoldAfterConstantChange` | Biosystem.py:184-187 | After a constant change, the next determine_rates refolds every part starting from "0". |
| `Simulation.Trunc` | Biosystem.py:219 | Python's `int()` truncates toward zero: the result is the integer part of the length. |
| `Simulation.SampleCount` | Biosystem.py:219 | The sample count is at least 1000 and at least 17 times the truncated length, and it is one of the two. |
| `Simulation.SampleCountTruncates` | Biosystem.py:219 | The length is truncated, not rounded: 59.9 gives 1003 points, 58.99 gives 1000, and a negative span gives 1000. |
| `Simulation.ShortIntervalsGetMinimum` | Biosystem.py:219 | Any span shorter than 59 time units gets exactly 1000 points. |
| `Simulation.Linspace` | Biosystem.py:220 | The grid has the requested number of points and starts and ends at the span's ends. |
| `Simulation.LinspaceStrictlyIncreasing` | Biosystem.py:220 | On a span with `t0 < t1` the grid is strictly increasing. |
| `Simulation.Run` | Biosystem.py:214-236 | The rates are determined first. The run fails exactly when, after that, some compositor has no rate function, which `sys_ode` would call; this happens only when the rates were already determined. Otherwise the grid spans the interval with the sample count's number of points, and the result has one row per grid point and one column per compositor, integrated from the current values. |
| `Simulation.UndeterminedRuns` | Biosystem.py:147-167 | A system whose rates are not yet determined always runs, because the fold compiles every compositor. |
| `Simulation.AddedAfterFoldFails` | Biosystem.py:98-108 | A compositor added after the rates were determined gets no rate function, since the flag stays set, so the next run fails. |
| `PulseScheduler.Drop2` | Biosystem.py:330-334 | Dropping the first two entries leaves the rest in order; shorter sequences give nothing. |
| `PulseScheduler.SubRunSpan` | Biosystem.py:325-337 | Sub-run i spans the gap between pulses i and i+1. It starts at 0 for the first sub-run and at pulse i's time afterwards. |
| `PulseScheduler.TryApplyPulse` | Biosystem.py:321-323 | A pulse is applied exactly when it names no compositor or a known one. It then sets only that compositor's current value, and an unknown name fails. |
| `PulseScheduler.Advance` | Biosystem.py:325-340 | One step of the loop moves the stitched state from i sub-runs to i+1 sub-runs. |
| `PulseScheduler.CarriedValues` | Biosystem.py:339-340 | After each sub-run every compositor's current value equals that sub-run's last row. |
| `PulseScheduler.StopPulseNeverApplied` | Biosystem.py:320-323 | Whether every pulse that is applied names a known compositor does not depend on the stop pulse. |
| `PulseScheduler.SameRunsReached` | Biosystem.py:320-340 | Two schedules with the same times and the same pulses except possibly the last reach the same system, stitched clock, stitched rows and end time after every number of passes. |
| `PulseScheduler.StopPulseIgnored` | Biosystem.py:311-340 | The last pulse is not simulated: replacing it by any pulse at the same time leaves the system, the stitched clock and the stitched rows after every number of passes unchanged. |
| `PulseScheduler.RunnableIgnoresValues` | Biosystem.py:321-323 | Whether a system runs does not depend on its current values, so overriding a value with a pulse never changes it. |
| `PulseScheduler.AppliedFacts` | Biosystem.py:320-327 | After pulse i is applied, the run that follows succeeds exactly when the caller's system is runnable. |
| `PulseScheduler.PassApplies` | Biosystem.py:320-323 | Pulse i applies to the state before sub-run i exactly when it applies to the caller's system: the runs never change the names. |
| `PulseScheduler.PassRuns` | Biosystem.py:320-327 | The run after pulse i fails only on the first pass, when the caller's system lacks a rate function. Otherwise the next pass is ready. |
| `PulseScheduler.PassRunIsSub` | Biosystem.py:320-327 | The run a pass makes after applying pulse i is the reference sub-run i. |
| `PulseScheduler.StepFacts` | Biosystem.py:320-340 | With the loop state equal to the reference after i sub-runs, the next sub-run's results extend it to the reference after i+1. |
| `PulseScheduler.RunSegment` | Biosystem.py:325-340 | Running to the next pulse, stitching and carrying the last row reaches the reference state after i+1 sub-runs. |
| `PulseScheduler.RunPass` | Biosystem.py:320-340 | A pass goes on exactly when pulse i applies and the system is runnable, and it then reaches the reference state after i+1 sub-runs. An unknown name stops it with the current state. A failed run stops the first pass with the pulse applied. |
| `PulseScheduler.RunPulses` | Biosystem.py:311-343 | The schedule completes exactly when every applied pulse is applicable and, if there is a sub-run, the system is runnable. An unknown name aborts at the first inapplicable pulse, in the state reached so far. A missing rate function fails the first sub-run, with its pulse applied. On completion, there are exactly len-1 sub-runs, stitched without their first two rows, and every value is back at its initial value. |
| `Traces.TimeToIndex` | Biosystem.py:351-361 | The answer is the first index holding t, or else the index just before t (-1 when T[0] > t). The scan fails exactly when every entry is below t. When T[0] <= t <= T[last], the answer is an in-range index at or below t. |
| `Traces.TimeToIndexUnique` | Biosystem.py:351-361 | An exact hit and an index just before t exclude each other, so the answer is determined. |
| `Traces.Chord` | Biosystem.py:412-418 | Equal abscissas give slope 0 and output b. At x = a the output is b. |
| `Traces.ChordTwoPoint` | Biosystem.py:412-418 | For distinct abscissas the slope-intercept result is the line through both points, so at x = c it gives d. |
| `Traces.ChordBetween` | Biosystem.py:412-418 | Between its two points the chord's value lies between their values. |
| `Traces.Walk` | Biosystem.py:395-398 | The cursor never moves back and never passes the last pair. It moves right only past points where the next one is strictly closer, and it stops where the next is not closer. |
| `Traces.WalkLoop` | Biosystem.py:395-398 | The loop keeps its running distance equal to the distance to the current point, and it stops where the reference walk stops. |
| `Traces.BracketAsWritten` | Biosystem.py:400-410 | The pair the program uses is the one at the cursor or the one just before it, and it always exists. It differs from the corrected choice exactly when the cursor is at 1 and x lies before X[1]. |
| `Traces.BracketCorrected` | Biosystem.py:364-368 | The corrected choice of the two closest grid points: the pair at the cursor or the one just before it, which always exists. |
| `Traces.AsWrittenExtrapolates` | Biosystem.py:406 | On grid [0, 1, 2] with values [0, 1, 0], x = 0.9 gives 1.1 instead of the interpolated 0.9. |
| `Traces.BracketEncloses` | Biosystem.py:364-368 | On a strictly increasing grid, the corrected pair encloses any in-range x the cursor has not passed. |
| `Traces.WalkOnGrid` | Biosystem.py:395-398 | On a strictly increasing grid, walking toward a grid point stops at that point's position (or the last pair). |
| `Traces.Position` | Biosystem.py:392-398 | The cursor carried from basis point to basis point stays within the grid's pairs. |
| `Traces.ResampledOnChord` | Biosystem.py:400-418 | Under either rule, the program's included, every resampled value is the value at its x of the chord over some neighbouring pair of the sparser trace. |
| `Traces.PositionStaysRight` | Biosystem.py:392-398 | For a sorted basis and a strictly increasing grid, the cursor never passes a grid point that the next basis point does not lie beyond. |
| `Traces.RulesDifferOnlyAtOne` | Biosystem.py:406 | The program's rule and the corrected rule give different values at a basis point only where the walk stopped at 1 with the point before X2[1]. |
| `Traces.ResampledWithin` | Biosystem.py:364-368 | Under the corrected rule, which uses the two closest grid points, a basis point inside the grid's range of sorted traces gets an interpolated value: the chord's pair encloses it. |
| `Traces.ResampledWithinAsWritten` | Biosystem.py:390-418 | Under the program's rule, the same holds except where the walk stopped at 1 with the point before X2[1]. |
| `Traces.ResampledOnOwnGrid` | Biosystem.py:390-418 | Under either rule, the program's included, resampling a strictly increasing trace onto its own grid reproduces each of its values. |
| `Traces.Resample` | Biosystem.py:390-418 | The loop fails exactly when the basis is non-empty and the sparser trace has fewer than 2 points. Otherwise it produces one value per basis point: the chord value over the pair the program's `j > 1` rule picks at the carried cursor. |
| `Traces.ResampleExtrapolates` | Biosystem.py:406 | Resampling grid [0, 1, 2] with values [0, 1, 0] onto the basis [0, 0.9, 1.5, 2] gives 1.1 at 0.9 as written, and 0.9 under the corrected rule. |
| `Traces.ResampleOnChord` | Biosystem.py:390-418 | Under either rule, every value of a resampling lies on a chord of the sparser trace. |
| `Traces.ResampleWithin` | Biosystem.py:364-368 | Under the corrected rule, for sorted traces, every value inside the grid's range is interpolated, never extrapolated. |
| `Traces.ResampleWithinAsWritten` | Biosystem.py:390-418 | Under the program's rule, for sorted traces, every value inside the grid's range is interpolated except where the walk stopped at 1 with the point before X2[1]. |
| `Traces.ResampleOwnGrid` | Biosystem.py:390-418 | Under either rule, resampling onto the trace's own grid returns the trace's values unchanged. |
| `Traces.InterpolateTraces` | Biosystem.py:377-429 | The denser trace is the basis; the second wins a tie. Both traces are returned over the basis x-values in the caller's order, with the sparser one resampled by the program's rule. Identical strictly increasing grids return both traces unchanged. |

## Left out

- Rate formulas are text. Parsing them (`sympify`), substituting constant values and compiling to a function (`lambdify`) are represented only by the compositor's `compiled` marker. The ODE function `sys_ode` is not modelled for the same reason.
- The integrator `odeint` is a parameter. Only its output shape is assumed: one row per grid point and one column per compositor.
- Floating point is modelled as exact reals. `linspace` values and the accumulated `prev_end` are exact, and rounding is not modelled.
- Sympy symbols are represented by their names.
- Python object identity is not modelled. One compositor object added twice, or shared between systems, is a single value here. A part's targets are positions in the system's compositor list; a position outside the list stands for an object outside the system, and its updates are not visible.
- `RateFolding.DetermineRates`, `Simulation.Run` and `PulseScheduler.RunPulses` require every part to have at least as many rates as targets. The Python loop raises `IndexError` otherwise, after folding some of the rates; that partial state is not modelled.
- `addRate` and `addPart` return their receiver for chaining, and `addCompositor` and `addConstant` return the object they added, constructing it first when given a name. The model returns the new system instead.
- `addCompositor` and `addConstant` choose on `init_value == None` between adding an object and constructing one from a name. Each choice is its own function: `AddCompositor`/`AddNewCompositor` and `AddConstant`/`AddNewConstant`.
- `time_to_index` returns its index wrapped in a one-element list; the model returns the index. When t is below `T[0]` the Python code returns `-1`, which Python would read as the last element if used as an index. The model keeps `-1` as a plain number.
- `run_pulses` does not check that pulses are sorted or that there are at least two; the model does not require either. With fewer than two pulses there is no sub-run and the trace is empty.
- A compositor already compiled against another system and then added to this one counts here as having a valid rate function. In Python its function was built over a different symbol list, and `sys_ode` would call it with the wrong number of arguments.
- `Simulation.Run` fails with `MissingRateFunction` where `sys_ode` would raise an exception. If the fold compiled at least one compositor, that compositor's function takes one argument per symbol at fold time, and the first call with the longer argument list raises `TypeError`. If the fold compiled nothing, the new compositor has no `ratef` and the call raises `AttributeError`. `run_pulses` passes that failure up as `Failed`, with the system as it was when the failing run began.
- `run_pulses` raises `KeyError` for an unknown compositor name and leaves the system as it was at that point. The model returns `Aborted` with that state and the pulse's position.
- The duplicated `return` at the end of `interpolate_traces` is unreachable and has no model.
- `Traces.InterpolateTraces` and `Traces.Resample` require each trace's y-list to be as long as its x-list; this is a simplification of the model. The Python code returns the basis trace's y-list as given, without indexing it, and reads the sparser y-list only at the cursor and its neighbours (`j - 1`, `j`, `j + 1`). So it accepts longer y-lists, and a shorter one fails only if one of those positions is out of range.
- The `ignore` parameter of `time_to_index` and `interpolate_traces` is never used and is left out.
- numpy arrays and Python lists are sequences.
- `Part.py`, `Pulse.py` and `Rate.py` are plain records (`Records.Part`, `Records.Pulse`, `Records.Rate`).
- `example.py` and `main.py` are scripts outside the core and are not part of this model.

## Findings

| source | as written | input that shows it | evidently intended | confidence | as-written member | corrected member |
|---|---|---|---|---|---|---|
| Biosystem.py:406 | The step to the left pair is taken only when `j > 1`, so with the cursor at 1 and `x1 < X2[1]` the pair `[X2[1], X2[2]]` is used, which does not enclose `x1`. | `X2 = [0, 1, 2]`, `Y2 = [0, 1, 0]`, basis point `x1 = 0.9`: the walk stops at 1 and the code extrapolates 1.1. | `j > 0`: use the enclosing pair `[X2[0], X2[1]]`, giving 0.9. | high (not executed) | `Traces.ResampleExtrapolates` | `Traces.ResampleWithin` |
