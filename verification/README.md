# Game of Life engine — Dafny model

This project models the cellular-automaton engine of a browser Game of Life
(`src/canvas.ts`). The model covers:

- the board, a flat row-major array of `0 | 1` cells;
- conversion between a flat index and an `(x, y)` coordinate;
- the Moore neighbourhood of a cell and the sum of its live neighbours;
- the B3/S23 rule and the generation step `update`;
- the run state around the engine: the initial board, manual cell
  activation, the space-bar toggle and the per-frame `isRunning` gate.

The module-level `state` record becomes an immutable `Engine.State` value with
the fields `board`, `generation` and `isRunning`. The grid dimensions `rows`
and `cols` are parameters of type `Board.Pos`, which means positive integers.

Modules, one per part of the engine:

- `Wrappers`: the `Option` type. `None` is the `null` of a dropped neighbour,
  the `undefined` of an out-of-range board read, and the `NaN` that such a
  read makes of the neighbour count.
- `Board`: cells, coordinates, `GetIndex`, `GetCoords` and the all-dead board.
- `Neighbours`: `GetExtendedCoords`, the `filter(Boolean)` step (`Present`),
  the `reduce` step (`Reduce`) and `LiveNeighbourCount`.
- `NeighbourFacts`: what the count means, its bounds, its edge behaviour, and
  a strict non-toroidal reference count (`StrictCount`) to compare it with.
- `Engine`: `CheckLive` and `CheckDead` applied to a cell's count, `NextBoard`
  (the `.map`) and `Update`.
- `Life`: `Setup`, `AwakenCell`, `Toggle`, `Tick`, and `Run`, which delivers
  a sequence of events.

## Boundary behaviour as written

The model follows the code. Conway's rule on a bounded, non-toroidal grid
drops every neighbour past any edge. The code differs from that at the right
and bottom edges:

- The code drops only neighbours past the left or top edge. Its guards `x < cols` and
  `y < rows` always hold for a board index (`NeighbourFacts.EdgeNeighbours`).
- On the last column, the right-hand neighbour is column 0 of the next row.
  The upper-right neighbour is column 0 of the same row
  (`NeighbourFacts.RightEdgeWraps`).
- A neighbour index past the end of the board reads `undefined`. Adding it
  makes the count `NaN`, which is modelled as `None`. Neither rule accepts
  `NaN`.
- The count is `NaN` exactly when `index + cols + 1 >= rows * cols`
  (`NeighbourFacts.CountUndefinedIff`). That covers the whole bottom row. It
  also covers the last cell of the row above it, whose down-right neighbour is
  one past the end. All of these cells are dead after every step
  (`Engine.TailCellsDie`).
- Away from the last column and the last row (`x < cols - 1` and
  `y < rows - 1`), the count equals the strict non-toroidal count. There the
  step is exactly Conway's B3/S23 rule (`NeighbourFacts.InteriorMatchesStrict`,
  `Engine.InteriorFollowsConway`).
- The remaining cells are the last-column cells with `y < rows - 2`. Their
  count is defined, but it also reads the wrapped column-0 cells of the same
  and the next two rows, so it is not the strict count. A cell of that column
  can even read one index twice. With `cols = 2`, the cell at index 1 reads
  index 2 both as its down-left and as its wrapped right neighbour
  (`NeighbourFacts.LastColumnDoubleRead`).
- `awakenCell` has no bounds check, so `Life.AwakenCell` requires an index
  inside the board.

## Model

| member | source | states |
|---|---|---|
| Board.GetCoords | src/canvas.ts:92-97 | the column lies in `[0, cols)`, the row is non-negative, and `getIndex` of the result gives the index back |
| Board.CoordsOfIndex | src/canvas.ts:88-97 | for a column in `[0, cols)` and a non-negative row, `getCoords(getIndex(c)) == c` |
| Board.GetIndexInjective | src/canvas.ts:88-90 | two coordinates with in-range columns and non-negative rows have the same index exactly when they are equal |
| Board.OnGridIndexInRange | src/canvas.ts:88-90 | every on-grid coordinate has an index inside a board of `rows * cols` cells |
| Board.AllDead | src/canvas.ts:30-32 | the initial board has `rows * cols` cells and every cell is 0 |
| Neighbours.GetExtendedCoords | src/canvas.ts:99-123 | for a board index, neighbour `k` is the cell at offset `Offsets[k]` exactly when neither of its coordinates is negative, and is null otherwise; the right and bottom guards never drop a neighbour |
| Neighbours.Present | src/canvas.ts:74 | filtering out the null neighbours never lengthens the list |
| Neighbours.PresentMembers | src/canvas.ts:74 | the filtered list holds exactly the coordinates of the non-null neighbours |
| Neighbours.Lookup | src/canvas.ts:76 | a board read is defined exactly for an index inside the board, and a defined read is the cell at that index, so at most 1 |
| Neighbours.Add | src/canvas.ts:75-77 | the running sum stays defined exactly when both operands are defined, so `NaN` absorbs everything; a defined sum is the sum of the operands |
| NeighbourFacts.ReducePresent | src/canvas.ts:72-77 | filtering and then reducing gives `NaN` exactly when some kept neighbour reads outside the board; otherwise it gives the start value plus the sum of the reads |
| NeighbourFacts.CountSpec | src/canvas.ts:72-77 | a cell's count is the sum of its neighbours' reads when all are defined, and `NaN` otherwise |
| NeighbourFacts.CountBound | src/canvas.ts:72-77 | a defined count is at most the number of non-null neighbours, which is at most 8 |
| NeighbourFacts.CountOnDeadBoard | src/canvas.ts:72-77 | on a board with no live cell, every count is `NaN` or 0 |
| NeighbourFacts.TermSumFrame | src/canvas.ts:72-77 | two boards that agree on every read a neighbourhood makes give the same definedness and the same sum |
| NeighbourFacts.EdgeNeighbours | src/canvas.ts:113-122 | up, upL and upR are null exactly on the top row; left, upL and downL are null exactly on the left column; down, downR and right are never null |
| NeighbourFacts.CornerCount | src/canvas.ts:113-122 | the corner `(0,0)` keeps only down, downR and right, so its defined count is at most 3 |
| NeighbourFacts.NeighbourIndex | src/canvas.ts:113-122 | a kept neighbour's index is the cell's index shifted by `dx + dy * cols` and is never negative |
| NeighbourFacts.CountUndefinedIff | src/canvas.ts:72-123 | on a board of `rows * cols` cells, a cell's count is `NaN` exactly when `index + cols + 1` reaches the board length |
| NeighbourFacts.BottomRowUndefined | src/canvas.ts:117-118 | on the bottom row, the down neighbour's index is at least the board length and the count is `NaN` |
| NeighbourFacts.RightEdgeWraps | src/canvas.ts:116-121 | on the last column, the right neighbour's index is `(y+1)*cols` and the upper-right neighbour's index is `y*cols` |
| NeighbourFacts.LastColumnDoubleRead | src/canvas.ts:119-121 | on a two-column grid, the cell at index 1 reads index 2 both as its down-left and as its wrapped right neighbour |
| NeighbourFacts.InteriorMatchesStrict | src/canvas.ts:99-123 | when `x < cols-1` and `y < rows-1`, the count is defined and equals the strict non-toroidal Moore count |
| Engine.CheckLive | src/canvas.ts:79-81 | given a live cell's count, the result is 1 exactly when the count is defined and is 2 or 3; `NaN` gives 0 |
| Engine.CheckDead | src/canvas.ts:82-84 | given a dead cell's count, the result is 1 exactly when the count is defined and is 3; `NaN` gives 0 |
| Engine.NextBoard | src/canvas.ts:67-69 | the new board has the old length, and each new cell is 1 exactly when B3/S23 holds for the old cell and its defined count, computed from the old board |
| Engine.Update | src/canvas.ts:64-70 | the board length and run flag are kept, `generation` grows by exactly 1, every new cell is 0 or 1 (the `Cell` type), and every cell follows the rule on the old board |
| Engine.NextCellLocal | src/canvas.ts:67-77 | a new cell depends only on the old cell and the old cells at its neighbours' indices |
| Engine.DeadBoardIsFixed | src/canvas.ts:64-84 | a board with no live cell, such as the initial board, is a fixed point of the step |
| Engine.TailCellsDie | src/canvas.ts:72-84 | every cell whose `index + cols + 1` reaches the board length is 0 after a step |
| Engine.BottomRowDies | src/canvas.ts:72-84 | every bottom-row cell is 0 after a step |
| Engine.InteriorFollowsConway | src/canvas.ts:64-123 | when `x < cols-1` and `y < rows-1`, the new cell is 1 exactly when B3/S23 holds for the strict non-toroidal count |
| Life.Setup | src/canvas.ts:10-32 | the initial state has an all-dead board of `rows * cols` cells, generation 0, and is paused |
| Life.AwakenCell | src/canvas.ts:45-48 | activating an in-range coordinate sets that one index to 1 and leaves every other index, the length, the generation and the run flag unchanged |
| Life.Toggle | src/canvas.ts:50-54 | the space bar flips `isRunning` and changes nothing else |
| Life.ToggleTwice | src/canvas.ts:50-54 | two toggles restore the state |
| Life.Tick | src/canvas.ts:138-141 | a running frame applies `update` once, so the generation grows by exactly 1; a paused frame leaves the state unchanged |
| Life.Run | src/canvas.ts:138-145 | any sequence of frames, toggles and in-range activations keeps the board at `rows * cols` cells |
| Life.RunGeneration | src/canvas.ts:138-141 | over any event sequence, the generation grows by the number of frames that arrive while running, and the run flag flips once per toggle |
| Life.SessionGeneration | src/canvas.ts:10-15 | from the initial state, the generation counter equals the number of steps applied |
| Life.DeadBoardStaysDead | src/canvas.ts:138-141 | without activations, an all-dead board stays all-dead through any frames and toggles |

## Left out

- Canvas creation, styling, fonts and `draw` are DOM and graphics calls with no logic to verify.
- Event-listener wiring, `isMouseDown` and the pixel-to-cell mapping in `handleCanvasDrag` depend on browser pointer coordinates. Only `awakenCell` is modelled, with an abstract coordinate.
- `resize`, `window.onresize` and the computation of `rows`/`cols` from the viewport size are host I/O. `rows` and `cols` are given positive integers.
- `requestAnimationFrame` scheduling is host event-loop plumbing. One frame is `Life.Tick`, and a sequence of frames is `Life.Run`.
- Life.AwakenCell: an index outside the board is excluded by a precondition. The source would grow the JavaScript array or add a non-index property there.
- JavaScript numbers are doubles. Every index and count here is a small integer, so it is modelled exactly as an unbounded integer. The only non-integer value that arises, `NaN`, is modelled as `None`.
- Worked patterns such as the 2x2 block still life and the blinker are not stated as concrete lemmas. Evaluating a whole board symbolically is too costly for the verifier. `Engine.InteriorFollowsConway` states the rule they rely on.
