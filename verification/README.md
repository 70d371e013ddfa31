# Langton's ant (turmite) on a 512×512 grid, in Dafny

This project models `langtonsant.go`, a generalised Langton's ant. A single
ant walks a 512×512 image whose pixels hold one of 256 grey palette colours.
On every step the ant reads the colour under it and recovers its colour index
by reverse palette lookup. It writes back the colour of the next index (modulo
256), turns by the rule bound to the index it read, and moves one pixel. The
loop ends when the ant leaves the image.

The model has four modules, one per component of the program:

- `Headings` (`heading.dfy`): the four headings, the turn primitives
  `turnRight`, `turnLeft`, `turnBack` and `turnNone`, and the turn-rule tag
  `Turn`. A `Turn` stands for one element `turns[i]` of the Go slice of
  `func(int) int`. The slice itself is the `array<Turn>` that
  `Tables.BuildTables` fills.
- `Tables` (`tables.dfy`): the palette size, 8-bit `NRGBA` colours, the
  grey-level and rule formulas, and two imperative routines. `BuildTables` is
  the `init` loop that fills both tables. `FindColorInPalette` is the linear
  search with an early return.
- `Engine` (`engine.dfy`): the simulation as a pure state machine. A `State` is
  the index grid plus the ant's position and heading. `Step` is one step.
  `Walk` repeats `Step` while the ant is in bounds and records the cells it
  stepped on. The lemmas state what a step and a run do to the grid.
- `Simulation` (`simulation.dfy`): `main`'s loop on an `array2<Color>` image.
  `StepImage` is the loop body: it reads the pixel, looks up its index, writes
  the next palette colour, turns and moves. `Run` sets up the image and the ant
  and loops. Both are proved against `Engine`. The invariant `Rendered` says
  that the image shows the index grid: every pixel is the palette colour of the
  pixel's index.

The image stores colours, as in the Go program, and the step recovers the index
with `FindColorInPalette`. Because the palette is injective
(`Tables.PaletteInjective`), that lookup returns exactly the index of the
pure model's grid. `StepImage` proves this on every step.

## Model

| member | source | states |
|---|---|---|
| `Headings.Ordinal` | langtonsant.go:19-24 | each heading has one of the integer codes 0 to 3 of the Go constants up, rt, dn and lt |
| `Headings.OrdinalInjective` | langtonsant.go:19-24 | distinct headings have distinct codes |
| `Headings.TurnRight` | langtonsant.go:26-34 | a right turn is a clockwise quarter turn: the code goes up by one, modulo 4 |
| `Headings.TurnLeft` | langtonsant.go:36-44 | a left turn is a counter-clockwise quarter turn (code plus 3, modulo 4), and a right turn undoes it |
| `Headings.TurnBack` | langtonsant.go:46-54 | a back turn is a half turn (code plus 2, modulo 4) and never keeps the heading |
| `Headings.TurnNone` | langtonsant.go:56 | the no-turn function returns the heading unchanged |
| `Headings.Apply` | langtonsant.go:95 | calling the rule bound to an index rotates the heading by that rule's fixed number of quarter turns: 1 for right, 3 for left, 2 for back, 0 for none |
| `Headings.NoneIsIdentity` | langtonsant.go:56 | the no-turn rule returns the heading unchanged |
| `Headings.LeftRightInverse` | langtonsant.go:26-44 | left after right and right after left are both the identity |
| `Headings.RightFourTimes` | langtonsant.go:26-34 | four right turns are the identity; two right turns never are |
| `Headings.BackIsTwoRights` | langtonsant.go:26-54 | a back turn equals two right turns and is its own inverse |
| `Headings.ApplyInjective` | langtonsant.go:17 | every turn rule maps distinct headings to distinct headings |
| `Tables.Grey` | langtonsant.go:62 | the grey level `0xff - uint8(i*0xff/(paletteSize-1))`, with uint8 truncation and wrap-around, is exactly 255 - i for every index |
| `Tables.PaletteColor` | langtonsant.go:62-63 | the palette entry of index i is opaque grey (r = g = b, alpha 0xff) at level 255 - i |
| `Tables.PaletteInjective` | langtonsant.go:61-63 | two indices with the same palette colour are the same index |
| `Tables.RuleFor` | langtonsant.go:64-68 | the rule `((i+1)/2)%2 == 0 ? turnRight : turnLeft` is always right or left, and is right exactly when i is 0 or 3 modulo 4 |
| `Tables.FirstEightRules` | langtonsant.go:64-68 | the first eight rules are R, L, L, R, R, L, L, R |
| `Tables.RulesPeriodic` | langtonsant.go:64-68 | the rule table repeats with period four |
| `Tables.BuildTables` | langtonsant.go:58-70 | the init loop yields 256 palette entries and 256 rules, entry i being the palette colour and the rule of index i |
| `Tables.FindColorInPalette` | langtonsant.go:72-81 | given a colour the palette contains, returns the least index whose palette entry equals it |
| `Engine.InBounds` | langtonsant.go:91 | the test `pos.In(bounds)`: the point lies in [0, 512) × [0, 512) |
| `Engine.Move` | langtonsant.go:96-101 | the switch on the new heading: up is y − 1, right x + 1, down y + 1, left x − 1 |
| `Engine.MoveIsUnit` | langtonsant.go:96-101 | a move changes one coordinate by exactly one |
| `Engine.MoveBackReturns` | langtonsant.go:96-101 | a move followed by a move in the reversed heading returns to the start |
| `Engine.Initial` | langtonsant.go:84-89 | the start state is an all-index-0 grid, with the ant at the centre (256, 256), inside the bounds, heading left |
| `Engine.Step` | langtonsant.go:92-101 | a step on a well-formed grid keeps the grid well formed: 512×512 cells, every index below 256 |
| `Engine.StepSpec` | langtonsant.go:92-101 | a step advances the current cell's index by one modulo 256 and leaves all other cells as they were. The ant turns right when the index it read is 0 or 3 modulo 4 and left otherwise, then moves one unit in the new heading |
| `Engine.StepCell` | langtonsant.go:92-94 | after a step, each cell holds its old index plus one if the ant stood on it, modulo 256 |
| `Engine.StepInjective` | langtonsant.go:92-101 | the step is reversible: two states that step to the same state are equal |
| `Engine.Walk` | langtonsant.go:91-103 | a run of at most fuel steps stops early only when the ant is out of bounds. Every cell it steps on is in bounds, and the grid stays well formed |
| `Engine.VisitedArePositions` | langtonsant.go:91-103 | the k-th cell a run steps on is the ant's position after k steps |
| `Engine.WalkAdvancesVisitedCells` | langtonsant.go:91-103 | after a run, each cell's index is its start index plus the number of visits to it, modulo 256 |
| `Engine.UnvisitedUnchanged` | langtonsant.go:91-103 | a cell the ant never stepped on keeps its start index |
| `Engine.FullCyclesRestore` | langtonsant.go:94 | a cell visited a multiple of 256 times is back at its start index |
| `Engine.FirstFiveSteps` | langtonsant.go:84-103 | from the start state the ant circles a square back to the centre, heading left. The centre then holds index 1, so the fifth step, taken from the centre, turns left: the ant ends at (256, 257) heading down, with index 2 at the centre and index 1 at (257, 255) |
| `Simulation.StepImage` | langtonsant.go:92-101 | one loop body on the image: the image then shows the grid of `Step`, and position and heading are those of `Step`. The lookup returns the pixel's own index, and only the pixel under the ant changes |
| `Simulation.Run` | langtonsant.go:84-103 | main's loop from the filled image, centre position and left heading ends in the state of `Walk`. The image shows its grid, iter is its number of steps, and unless the step budget ran out the ant is outside the bounds |

## Left out

- PNG encoding, creating and closing the output file, and the fatal errors on
  those paths (langtonsant.go:105-115) are I/O and are not modelled.
- The `log.Println` calls (langtonsant.go:90, 104) are not modelled.
- The `log.Fatalln` in `findColorInPalette` ends the process. The model turns
  it into the precondition that the colour is in the palette. `StepImage`
  discharges that precondition on every step through the `Rendered` invariant.
- The Go `image`, `draw` and `color` libraries are replaced. The image is an
  `array2<Color>` indexed `[x, y]`. `draw.Draw` of `palette[0]` is the array
  initialiser, and `pos.In(bounds)` is `Engine.InBounds`.
- Run: the Go loop has no bound and may run for ever. The model adds a `fuel`
  step budget, and `Run`'s result says that when fewer than `fuel` steps were
  taken, the ant is out of bounds. A run that uses the whole budget may also
  end out of bounds. Halting is not claimed.
- Headings.TurnRight: the Go turn functions take any int. `turnRight`,
  `turnLeft` and `turnBack` return up (0) for any int other than the four
  heading constants, and `turnNone` returns its argument. The move switch
  would leave `pos` unchanged for such a value. The model's `Heading` type has
  only the four headings. The program never produces another value.
- Integers are unbounded. Go's `int` for `iter` (langtonsant.go:89, 102) and
  the coordinates is 32 or 64 bits wide, depending on the platform. The model
  does not capture the overflow of `iter` on a 32-bit platform after 2^31 − 1
  steps. On a 64-bit platform a run would need more than 2^63 − 1 steps to
  overflow it. The coordinates never leave [-1, 512].
- The palette size (256) and the grid size (512×512) are fixed constants, as in
  the source. Other palette sizes and grid sizes are not modelled.
