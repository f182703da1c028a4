# Langton's ant simulator, modelled in Dafny

`langton.py` simulates Langton's ant in the terminal. The ant walks on a
`row` × `column` plane that wraps around at the edges (a torus). The plane
starts all white. At each tick the simulator draws the plane and then makes
one step:

- on a white cell, the ant paints it black and its direction index goes
  from d to (d − 1) mod 4;
- on any other cell, the ant paints it white and the index goes to
  (d + 1) mod 4;
- then the ant moves one cell in its new direction (0 North, 1 West,
  2 South, 3 East).

Ticks are paced by a nanosecond clock. The first tick is immediate. After
that, a tick happens only once `toc - tic >= 10**9 // fps`.

The project has three modules:

- `LangtonRules` (`rules.dfy`) holds the simulation as values. A `State`
  holds the size, the plane of `Colour`s, the ant and its direction.
  `Step` and `StepN` are the specification functions, and the lemmas state
  what one step and many steps do.
- `Pacing` (`pacing.dfy`) computes the tick interval with Python's floor
  division. `TicksFrom` is the run loop's tick decision from a given
  reading on, with the time of the last tick; `AfterTick` continues it after
  a tick, when the new tick time is read; `Ticks` is the whole run, given the
  successive readings of the clock. Lemmas about the pacing go with it.
- `Simulation` (`simulator.dfy`) holds the `Simulator` class, as in the
  source. It has a two-dimensional array `plane` that `NextPlane` updates
  in place, the ant's position and direction as mutable fields, and the
  `delta` constant. A ghost field `cells` mirrors the array, and
  `Snapshot()` gives the abstract `State`. Each method is proved against
  the rules:
  - `MoveForward` moves the ant by `Forward`;
  - `NextPlane` performs exactly `Step`;
  - `Run` performs exactly `Ticks(clock, delta)` steps, that is,
    `StepN` of the initial state.

The functions without rows of their own are the definitions those rows are
proved against: `Initial` (langton.py:40-50) and `EmptyPlane`
(langton.py:59) for the constructor and `NewPlane`, `Forward`
(langton.py:61-70) for `MoveForward`, `Step` and `StepN` for `NextPlane` and
`Run`, `Delta` (langton.py:49) for the constructor's `delta`, and
`TicksFrom`, `AfterTick` and `Ticks` (langton.py:116-132) for `Run`.

Cell values are the datatype `Colour = White | Black | Other`. The source
stores the strings `"white"` and `"black"`, and its `_next_plane` treats
every value other than `"white"` like black. `Other` keeps that branch in
the model, and `TwoColoured` states that it never happens from a fresh
plane.

The model follows the code as written:

- **No rule table.** `langton.py` hard-codes the two colours, so the model
  has no rule table, no rule lookup and no rule-table errors.
- **Direction range.** The initial direction is drawn from 0..4 inclusive,
  so 4 is a possible start. It behaves like North (`InitialFourActsAsNorth`).
- **Frame rate.** The only `fps` the code refuses is 0, through a division
  by zero. A negative `fps` gives a negative interval by floor division.
  The constructor therefore requires only `fps != 0`.
- **Turn convention.** The source's comments call the white-cell turn
  "clockwise". The model keeps the index arithmetic exactly as written:
  (d − 1) mod 4 on white and (d + 1) mod 4 otherwise.

## Model

| member | source | states |
|---|---|---|
| Simulation.Simulator.constructor | langton.py:40-50 | the plane is `row` × `column` and all white, the ant and its direction are the given (in the source, randomly drawn) values within the inclusive ranges, and `delta` is `10**9 // fps` with floor division; the result satisfies the class invariant |
| Simulation.NewPlane | langton.py:57-59 | a fresh array of `rows` × `columns` cells, every one white |
| LangtonRules.EmptyPlaneIsBlank | langton.py:57-59 | a new plane has the requested size, holds only white and black, and has no black cell |
| Simulation.Simulator.MoveForward | langton.py:61-70 | only the ant's position changes, and it becomes `Forward` of the old position in the current direction; the class invariant is kept |
| LangtonRules.ForwardIsNeighbour | langton.py:61-70 | from any cell, the `%`-wrapped move equals the neighbouring cell written without `%` (row or column − 1 or + 1, wrapping from 0 to size − 1 and back), so the ant never leaves the plane |
| LangtonRules.ForwardOffset | langton.py:61-70 | the move changes the coordinates by the unit vector of the direction (North row − 1, West column − 1, South row + 1, otherwise column + 1), up to one wrap of the plane's size |
| Simulation.Simulator.NextPlane | langton.py:101-112 | the new abstract state is exactly `Step` of the old one, with the array updated in place; the class invariant is kept |
| LangtonRules.Step | langton.py:101-112 | a step keeps the state valid and the plane's size, and leaves the direction in 0..3 |
| LangtonRules.Flip | langton.py:103-109 | the colour written into the visited cell always differs from the colour read there and is white or black |
| LangtonRules.Turn | langton.py:103-110 | the new direction is always in 0..3 |
| LangtonRules.TurnTable | langton.py:103-110 | the turn as a table for the directions 0..4: on white 3, 0, 1, 2, 3, and otherwise 1, 2, 3, 0, 1 |
| LangtonRules.StepChangesOnlyAntCell | langton.py:101-112 | after a step, the ant's pre-step cell holds the flipped colour and differs from before, and every other cell is unchanged |
| LangtonRules.StepTurnsThenMoves | langton.py:103-112 | on white the cell becomes black and the direction follows the white table; otherwise the cell becomes white and the direction follows the other table; then the ant is on the neighbouring cell in the new direction |
| LangtonRules.InitialFourActsAsNorth | langton.py:46 | a state whose direction is the out-of-range 4 steps exactly as the same state heading North |
| LangtonRules.StepKeepsTwoColours | langton.py:103-110 | a step never writes anything but white or black, so a two-coloured plane stays two-coloured |
| LangtonRules.StepBlackCount | langton.py:103-110 | on a two-coloured plane, a step adds exactly one black cell when the ant stood on white and removes exactly one otherwise |
| LangtonRules.StepNKeepsTwoColours | langton.py:117-132 | any number of steps keeps a two-coloured plane two-coloured |
| LangtonRules.StepNBlackCount | langton.py:117-132 | over n steps from a two-coloured plane, the number of black cells moves by at most n, and its parity changes with every step |
| LangtonRules.InitialBlackCount | langton.py:40-59 | after n steps from the constructed state there are at most n black cells, and their number has the parity of n |
| LangtonRules.StepN | langton.py:117-132 | any number of steps keeps the state valid and the plane's size; after at least one step the direction is in 0..3 |
| LangtonRules.StepNSucc | langton.py:117-132 | one step after n steps is n + 1 steps, which is how the run loop builds up its steps |
| Pacing.FloorDiv | langton.py:49 | the quotient is Python's `//`, the greatest q with q·b ≤ a for b > 0 and the greatest q with q·b ≥ a for b < 0 |
| Pacing.TicksArePaced | langton.py:116-132 | with a monotonic clock and a tick at time `tic` > 0, the ticks `TicksFrom` counts are paced: every later tick comes at least `delta` after the previous one: n further ticks need n·delta nanoseconds up to the last reading |
| Pacing.NoTickBeforeDelta | langton.py:123-125 | once `tic` is non-zero, while every reading is less than `delta` past it, the loop keeps waiting and `TicksFrom` counts no tick, whatever the order of the readings and the sign of `tic` and `delta` |
| Pacing.TickOnceDeltaPassed | langton.py:119-130 | once `tic` is non-zero, a reading at least `delta` past it ends the wait: `TicksFrom` counts at least one tick by that reading, so the loop keeps making progress |
| Pacing.FirstTickImmediate | langton.py:120-122 | the first tick happens at once: two clock readings are enough for one draw and step, whatever `delta` is |
| Simulation.Simulator.Run | langton.py:114-134 | given the clock readings, the loop makes exactly `Ticks(clock, delta)` ticks, and the final state is that many `Step`s from the initial one; the class invariant is kept |

## Left out

- `_draw`, `_erase`, `_erase_one_row` and the three emoji symbols are left out because they are terminal output. Every tick draws the plane before its step, and that ordering has no effect on the state.
- `time.perf_counter_ns` is not called. `Run` receives the successive readings as a sequence, and each reading is used once, in the order the loop makes them.
- `KeyboardInterrupt` is not modelled as such. The run ends when the readings run out, at the point where the loop would read the clock next. An interrupt in the middle of a step is not modelled.
- `random.randint` is replaced by constructor parameters. The preconditions on the ant's position and direction are the ranges the Python program draws them from.
- Simulation.Simulator.constructor: the two construction errors are excluded by preconditions, not modelled as error results. With `row < 1` or `column < 1`, `random.randint` raises `ValueError` on an empty range (langton.py:42-43). With `fps == 0`, `10 ** 9 // fps` raises `ZeroDivisionError` (langton.py:49). The model says nothing about either case.
- The `__main__` block and the arguments it passes (22 × 54, 2 fps) are left out because they are process start-up.
- The constructor's default arguments (`row=16`, `column=32`, `fps=24`) are not modelled: the Dafny constructor takes every value explicitly, together with the ant's position and direction.
- Cells hold `Colour` values rather than arbitrary strings. `Other` stands for every string that is neither `"white"` nor `"black"`. The step (`_next_plane`) compares a cell only with `"white"`, so it treats `Black` and `Other` alike. `_draw` also compares with `"black"` and prints nothing for any other value; it is left out with the rest of the terminal output, and `Colour` keeps `Black` and `Other` apart for it.
- Rows of the plane are not shared objects, so aliasing between rows (which the source's list comprehension does not create anyway) is not modelled.
