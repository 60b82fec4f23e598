# quadfall frame loop, cells and rows, in Dafny

This project models the core of quadfall, a falling-block puzzle prototype built on raylib.

The core is the frame loop of `main()`. It runs game logic at a fixed 600 updates per second and
drawing at a fixed 60 frames per second. Both cadences are driven by one steady clock, and the
loop sleeps until the earlier of the two deadlines. The model also covers the two pieces of game
state that the update changes and the draw shows:

- the cell: a weight (0 is empty) and one of 16 colours, with its table to raylib colours;
- the row: ten cells, and whether all of them are filled.

Layout:

- `cell.dfy`: module `Raylib`, the backend colour names as an abstract datatype. Module `Cells`,
  the colour enumeration, its integer values, the colour table and the cell.
- `tfield.dfy`: module `Field`, the row. The cell array is a sequence whose length is fixed at 10
  by its type.
- `scheduler.dfy`: module `Scheduler`, the loop. The local variables of `main()` (the timepoints,
  the cell timer, `row1`) become the fields of class `Ticker`. Each branch of the loop body is a
  method: the countdown, the catch-up, update, draw and wait. One pass of the loop and the loop
  itself are methods too. The two counting loops are proved equal to closed-form functions.
- `arith.dfy`: module `Arith`, division facts behind those closed forms.

Time is integer nanoseconds of the steady clock. Every clock reading is a method parameter. The
ghost field `clock` holds the latest reading, and every method requires its readings to be at
least `clock`, which is what a monotonic clock guarantees. The random engine is left out. Its
outputs come in as `Pick` values, and the model reduces them modulo 10 and modulo 16 as the
program does.

## Model

| member | source | states |
|---|---|---|
| `Cells.Ordinal` | src/cell.hpp:8-41 | every colour has an integer value below 16, and the value is 0 exactly for QC_BLANK |
| `Cells.FromOrdinal` | src/cell.hpp:8-41 | casting any integer in [0, 16) to the enumeration gives the colour with that value |
| `Cells.OrdinalRoundTrip` | src/cell.hpp:8-41 | the cast undoes the integer value, so the enumeration has exactly these 16 values |
| `Cells.ToRaylibColor` | src/cell.hpp:43-76 | the table maps only QC_BLANK to raylib's Blank, and maps QC_CYAN to SkyBlue |
| `Cells.ToRaylibColorInjective` | src/cell.hpp:43-76 | distinct colours map to distinct raylib colours |
| `Cells.Empty` | src/cell.hpp:82 | a cell is empty iff its weight is 0 (the laws are proved in `Cells.EmptinessLaws`) |
| `Cells.IsEmpty` | src/cell.hpp:91 | the static test agrees with `Empty` on every cell |
| `Cells.IsFilled` | src/cell.hpp:92 | a cell is filled iff it is not empty |
| `Cells.EmptinessLaws` | src/cell.hpp:82-92 | a cell is empty iff its weight is 0, whatever its colour; filled is exactly not empty |
| `Cells.GetColor` | src/cell.hpp:83-84 | the shown colour is QC_BLANK iff the cell is empty; a filled QC_BLANK cell shows QC_WHITE; any other filled cell shows its stored colour |
| `Cells.DrawnBlankIffEmpty` | src/cell.hpp:83-87 | a cell is drawn with raylib's Blank iff it is empty |
| `Cells.DefaultCell` | src/cell.hpp:94 | the default cell has weight 0 and QC_BLANK, so it is empty and shown blank |
| `Cells.NewCell` | src/cell.hpp:95 | the cell keeps the given weight and colour, the colour defaults to QC_WHITE, and it is filled iff the weight is nonzero |
| `Field.AllFilled` | src/tfield.hpp:15 | the left-to-right test over a range of cells holds iff every cell in it is filled |
| `Field.Full` | src/tfield.hpp:15 | a row is full iff all ten cells are filled; one empty cell makes it not full |
| `Field.EmptyRow` | src/tfield.hpp:22-26 | the default row holds ten default cells and is not full |
| `Field.RowOf` | src/tfield.hpp:28-31 | the ten-argument row stores its arguments at indices 0 to 9 in order, and is full iff all ten are filled |
| `Field.SetCell` | src/main.cpp:122-125 | writing one cell of the row changes that cell and no other |
| `Scheduler.TickConstants` | src/main.cpp:56-69 | the periods are 1666666 ns and 16666666 ns, positive, and the truncated quotients of one second by 600 and by 60; a draw period is 6 ns longer than ten update periods |
| `Scheduler.CatchUpCount` | src/main.cpp:137-144 | the catch-up makes k passes, with next + k periods after `now` and next + (k-1) periods not after it; k is 0 iff the deadline is already ahead |
| `Scheduler.CatchUpIsLeast` | src/main.cpp:137-144 | no smaller number of periods takes the deadline past `now` |
| `Scheduler.TogglesDue` | src/main.cpp:117-127 | the countdown loop runs iff the decremented timer is not positive; with delay 0 it runs once; with a positive delay it runs until the timer is positive and not a pass longer |
| `Scheduler.TimerAfter` | src/main.cpp:117-127 | after the countdown the timer is positive when the delay is; it is at most the delay when the loop ran; with delay 0 it is unchanged |
| `Scheduler.TimerStaysInRange` | src/main.cpp:117-127 | with the timer in [1, delay] before an update (it starts at the delay, src/main.cpp:42-43) it stays in [1, delay] after it; at most one toggle happens, exactly when the timer was 1 or the delay is 0 |
| `Scheduler.CellIndex` | src/main.cpp:121 | an engine output modulo 10 is always an index into the row |
| `Scheduler.Toggled` | src/main.cpp:124-125 | toggling makes an empty cell filled and a filled cell empty, sets the weight to 0 or 1, and takes the colour whose value is the engine output modulo 16 |
| `Scheduler.ApplyPick` | src/main.cpp:119-125 | one pass of the countdown toggles the picked cell and leaves the other nine unchanged |
| `Scheduler.ApplyPicks` | src/main.cpp:119-127 | after any number of passes, a cell that no pass picked is unchanged |
| `Scheduler.InitialRow` | src/main.cpp:80-84 | the initial row has its fourth cell empty and is not full |
| `Scheduler.InitialRowOnlyFourthEmpty` | src/main.cpp:80-84 | the fourth cell is the only empty cell of the initial row |
| `Scheduler.InitialRowFilledByOnePick` | src/main.cpp:80-84 | a toggle that picks the fourth cell makes the initial row full |
| `Scheduler.WaitTime` | src/main.cpp:185-202 | the wait runs from the fresh reading to the earlier of the two deadlines |
| `Scheduler.SleepTime` | src/main.cpp:203-209 | the blocking wait is used only for a positive wait and for exactly that long; otherwise nothing sleeps |
| `Scheduler.SleepIffBothAhead` | src/main.cpp:185-209 | the loop sleeps iff both deadlines are ahead of the reading, and never past the update deadline |
| `Scheduler.Ticker.UpdateDue` | src/main.cpp:108 | the update branch runs iff the current time has reached the update deadline |
| `Scheduler.Ticker.DrawDue` | src/main.cpp:157 | the draw branch runs iff the current time has reached the draw deadline |
| `Scheduler.Ticker.constructor` | src/main.cpp:92-93 | one reading is assigned to every timepoint, so update and draw start in phase and both are due on the first pass |
| `Scheduler.Ticker.CountDown` | src/main.cpp:117-127 | the countdown decrements the timer once, makes TogglesDue passes, ends with TimerAfter, and applies exactly those picks to the row |
| `Scheduler.Ticker.CatchUp` | src/main.cpp:136-144 | the catch-up adds CatchUpCount whole periods to the update deadline and counts one skip diagnostic per pass after the first |
| `Scheduler.Ticker.RunUpdate` | src/main.cpp:108-150 | one logic step runs however many periods passed; the deadline grows by (skipped + 1) periods and ends after currentTime, by at most one period; the draw state is unchanged |
| `Scheduler.Ticker.RunDraw` | src/main.cpp:157-179 | the draw deadline is set once, to the post-draw reading plus one draw period; it ends after currentTime and does not move backward; the update state is unchanged |
| `Scheduler.Ticker.Wait` | src/main.cpp:185-210 | the wait is WaitTime from a fresh reading; the sleep is SleepTime of it and never longer than one update period; currentTime becomes the reading taken on waking |
| `Scheduler.Ticker.Iteration` | src/main.cpp:98-216 | update runs iff currentTime >= nextUpdate, then draw runs iff currentTime >= nextDraw; an update sets the timer to TimerAfter and the row to the picks the countdown applied, and a pass without one changes neither; neither deadline moves backward; every draw shows the status of the current row (corrected: the text is kept across passes; see ## Findings) |
| `Scheduler.Ticker.IterationAsWritten` | src/main.cpp:106-179 | as the source declares the text: a draw in a pass whose update did not run reads the text unassigned; an update sets the timer and the row as in `Iteration`, and a pass without one changes neither |
| `Scheduler.Ticker.Run` | src/main.cpp:98-216 | the loop runs until the first pass whose close flag is set; it keeps the invariant; both deadlines never move backward; the update deadline moves by whole periods only (corrected: the text is kept across passes; see ## Findings) |
| `Scheduler.UnassignedTextWitness` | src/main.cpp:106-162 | three concrete passes of the loop as written end in a draw that reads the text unassigned |

## Left out

- The raylib window is left out: creating it, BeginDrawing/EndDrawing, clearing, text and rectangle drawing, `Cell::draw` and `Row::draw`. What a draw shows is modelled only as the row-full status it passes to the text call.
- `PollInputEvents` and the blocking `WaitTime` call are left out; they are backend input and OS sleeping. The model computes the sleep duration, and the reading taken on waking is a free parameter, because the wait may wake late.
- The Mersenne Twister engine and its seeding are left out. Its outputs are the `Pick` inputs.
- All console output is left out. So are the floating-point diagnostics: update and draw durations, the UPS and DPS figures, `deltaTime`, `lastTime` and the actual wait time. The skip diagnostic is kept as the count `skipped`.
- Durations are integer nanoseconds, not doubles, so the test `wtc > 0.0` becomes an integer test `> 0`. Timepoints are unbounded integers; the program's 64-bit nanosecond counts do not overflow in a process lifetime.
- The unused default `row2` of `main()` is not modelled apart from `Field.EmptyRow`.
- The `default` branch of `QcToRaylibColor` is unreachable here: the enumeration is a 16-value datatype, and every cast the program makes is of a value modulo 16.
- The colour enumerators are spelt in Dafny style (`GrayL` is QC_GRAY_L, `GrayD` is QC_GRAY_D, and so on). Raylib colours are abstract names, not RGBA values, and only the names the game uses are listed.
- Scheduler.Ticker.constructor: requires a timer delay of at least 0. With a negative delay the countdown loop never ends; the program always uses 150 (`DefaultTimerDelayFrames`).
- Scheduler.Ticker.Run: runs over a finite sequence of per-pass readings and close flags, and stops when they run out as well as on a close request. Every pass gets at least one pick, which is enough, since at most one toggle happens per update.
- Weights and the timer are unbounded integers rather than 32-bit `int`. Toggling keeps weights at 0 or 1, and the timer stays in [1, 150].

## Findings

| source | as written | input that shows it | evidently intended | confidence | as-written member | corrected member |
|---|---|---|---|---|---|---|
| src/main.cpp:106-162 | The row-full text pointer is declared inside the loop body and only the update branch assigns it. The draw branch passes it to the text call even in a pass where the update did not run, so it reads an uninitialised pointer. | Start the clock at 0. First pass: update reading 0, draw reading 100, wait reading 100, wake at 16666710. Second pass: readings at 16666710, wake at 16666766; the update catches its deadline up to 18333326 and no draw is due. Third pass at 16666766: the draw is due (16666666 + 100) and the update is not. The late wake only shortens the trace. With every wake on time the same happens in steady running: after the tenth update the update deadline moves to 18333326, the draw deadline is still 16666766, and the next wake, at 16666766, draws without updating. Because a draw period is 6 ns longer than ten update periods and the draw deadline is set from the post-draw reading, the draw deadline falls just after an update deadline, so the draws of steady running read the text unassigned. | The text keeps the status from the latest update across passes. The first pass always updates, so every draw shows the current row's status. | high, not executed | Scheduler.UnassignedTextWitness | Scheduler.Ticker.Iteration |
