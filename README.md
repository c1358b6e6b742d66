# Game of Life engine: a Dafny model

This project models the simulation engine of a small Game of Life program. The program is one C file, `main.c`. The engine covers:

- a 100×100 boolean grid held in two buffers;
- the wrapped eight-cell neighbour lookup `get_neighbors`;
- the birth/survival rule `new_state` (B3/S23);
- the integer clamp `iclamp`;
- the generation step of the frame loop, which fills the other buffer from the current one and then swaps the two buffer pointers;
- the run state (`RUNNING`/`STOPPED`, toggled by key S);
- the right-click edit, which sets the hovered cell alive only while stopped.

Files and modules:

- `rule.dfy`, module `Rule`:
  - `Neighbors`, the eight flags of the C struct;
  - the live count `CountTrue`, with a proof that it equals the multiplicity of `true`;
  - the exits of `new_state` (`ExitTaken`) and the decision they make (`Decide`, `NextState`);
  - the method `NewState`, which counts with a loop as the C code does.
- `torus.dfy`, module `Torus`:
  - the grid shape (`Width`, `Height` = `GRID_W`, `GRID_H` = 100);
  - the four index formulas of `get_neighbors`, exactly as written;
  - `GetNeighbors` over an `array2<bool>`, read as `g[y, x]` like the program's `grid[y][x]`. Its requires and the index functions' range ensures show that every read stays inside the grid;
  - for the finding below, a corrected toroidal lookup and the lemmas that compare the two.
- `game.dfy`, module `Game`:
  - `RunState` and `Toggled`;
  - `Clamped`/`IClamp`;
  - the class `Simulation`, whose fields are the two buffers (`current`, `other`) and `state`. Its methods are:
    - the constructor (both buffers dead, `STOPPED`);
    - `EditCell`;
    - `ToggleRun`;
    - `Generate`, the outer loop of the step, and `GenerateRow`, its inner loop. Each cell write goes through `ComputeCell`, whose value is specified by `NextCell`;
    - `Swap`, the pointer exchange;
    - `Advance`, the guarded step and swap;
    - `Frame`, one pass of the frame loop without drawing.

The model follows the code as written, including where the code differs from the standard toroidal Life neighbourhood and from what its own names suggest:

- **Top and left neighbours.** The code computes them as `(GRID_H - y) % GRID_H` and `(GRID_W - x) % GRID_W` (main.c:155-161). This mirrors the axis. It is not the wrapped predecessor `(i - 1 + N) % N`, which the names `top_neighbor_y` and `left_neighbor_x` imply. The engine uses the formulas as written; see "## Findings".
- **The edit.** It sets the hovered cell to `true` (main.c:91). It does not toggle it.
- **Commands.** The program has no clear, randomize or speed command. Its only inputs that change the grid or the run state are the right-click edit and key S; the other inputs move the camera (see "## Left out").
- **The time gate.** Its internals are replaced by a boolean input (see "## Left out").

The grid indices and the neighbour count stay in 0..100. The clamp's inputs (`Clamped`, `IClamp`, the `cellX`/`cellY` of `Frame`) are arbitrary integers. `iclamp` only compares them and does no arithmetic, so the C `int` width never matters. C's `%` truncates toward zero and Dafny's is Euclidean. But every `%` that stands for C code has non-negative operands (`TopRow`, `BottomRow`, `RightCol`, `LeftCol`, under their requires), so the two agree. The `%` in the contracts of `WrapCol` and `WrapRow` is a congruence statement of the model, not C code.

## Model

| member | source | states |
|---|---|---|
| `Rule.CountTrue` | main.c:177-179 | the live count lies between 0 and the number of flags. It is 0 exactly when no flag is set, and it is the number of flags exactly when all are set |
| `Rule.CountTrueIsMultiplicity` | main.c:177-179 | the count the loop accumulates equals the number of `true` entries, i.e. the multiplicity of `true` in the flags |
| `Rule.ExitTaken` | main.c:181-198 | which `return` of `new_state` fires, each exit given by its exact condition. The `count > 2` branch fires exactly for an alive cell with more than 3 neighbours |
| `Rule.Decide` | main.c:181-198 | the rule yields alive exactly when the count is 3, or when the cell is alive and the count is 2 (B3/S23); it maps the exit `Rule.ExitTaken` picks to the literal that exit returns, through `Rule.Returns` (main.c:183-198) |
| `Rule.NextState` | main.c:175-199 | the result of `new_state` on a `Rule.Neighbors` value (the struct of main.c:13-15, eight flags) is alive exactly when its live count is 3, or when the cell is alive and the count is 2 |
| `Rule.RuleTable` | main.c:175-199 | the count of a `Neighbors` value is in 0..8. An alive cell survives exactly with 2 or 3 live neighbours, and a dead cell is born exactly with 3 |
| `Rule.NewState` | main.c:175-199 | the loop-computed count with the rule applied equals `NextState`, i.e. count == 3, or alive and count == 2 |
| `Torus.TopRow` | main.c:155-158 | the top row index is in range. It is `H - y` for `y > 0` and 0 for `y == 0`: a mirror, not a predecessor |
| `Torus.BottomRow` | main.c:159 | the bottom row index is in range and is the successor `y + 1`, with the last row wrapping to 0 |
| `Torus.RightCol` | main.c:160 | the right column index is in range and is the successor `x + 1`, with the last column wrapping to 0 |
| `Torus.LeftCol` | main.c:156-161 | the left column index is in range. It is `W - x` for `x > 0` and 0 for `x == 0` |
| `Torus.MirrorIndices` | main.c:155-161 | the top and left formulas are involutions. They fix exactly index 0 and the middle index (50) |
| `Torus.AsWrittenCell` | main.c:155-170 | the (column, row) that flag `k` reads is offset `Offsets[k]` (N, NE, E, SE, S, SW, W, NW) resolved through the four formulas, and it always lies inside the grid |
| `Torus.GetNeighbors` | main.c:151-173 | the eight reads in struct order: flag `k` is the cell `AsWrittenCell(x, y, k)`, so no read is out of bounds |
| `Torus.CornerReadsItself` | main.c:155-170 | as written, the north, west and north-west flags of corner (0, 0) all read the corner cell itself |
| `Torus.LoneCornerSurvivesAsWritten` | main.c:155-170 | as written, a lone live cell at (0, 0) counts 3 live neighbours and survives |
| `Torus.PredRow` | main.c:158 | corrected top row: in range, it is `y - 1` with row 0 wrapping to `H - 1`, and its successor is `y` |
| `Torus.PredCol` | main.c:161 | corrected left column: in range, it is `x - 1` with column 0 wrapping to `W - 1`, and its successor is `x` |
| `Torus.WrapCol` | main.c:160-161 | a corrected column is in range and congruent to `x + dx` modulo `W` |
| `Torus.WrapRow` | main.c:158-159 | a corrected row is in range and congruent to `y + dy` modulo `H` |
| `Torus.WrappedCell` | main.c:155-170 | the corrected cell for flag `k` lies inside the grid |
| `Torus.CorrectedNeighbors` | main.c:151-173 | corrected lookup: flag `k` is the torus cell `WrappedCell(x, y, k)`, in the same order as `get_neighbors` |
| `Torus.WrappedCellsDistinct` | main.c:163-170 | with the corrected lookup, every cell's eight neighbours are pairwise distinct and none is the cell itself |
| `Torus.LoneCornerDiesCorrected` | main.c:155-170 | with the corrected lookup, a lone live cell at (0, 0) has 0 live neighbours and dies |
| `Torus.BlockCornerDiesAsWritten` | main.c:155-170 | as written, cell (11, 11) of a 2×2 block at rows and columns 10-11 counts 0 live neighbours and dies, so the block is not a still life |
| `Torus.BlockCornerSurvivesCorrected` | main.c:155-170 | with the corrected lookup, the same cell counts 3 live neighbours and survives |
| `Game.Toggled` | main.c:96 | key S always changes the run state, a `Game.RunState` (the enum of main.c:38-42) |
| `Game.ToggledTwice` | main.c:94-97 | pressing S twice restores the run state |
| `Game.Clamped` | main.c:201-207 | a value above `max` becomes `max`, and one below `min` (and not above `max`) becomes `min`. With `min <= max` the result lies in `[min, max]`, and a value already in range is unchanged |
| `Game.ClampedIdempotent` | main.c:201-207 | when `min <= max`, clamping twice gives the same value as clamping once |
| `Game.IClamp` | main.c:201-207 | the value written back through the pointer is `Clamped(num, min, max)`, and it lies in `[min, max]` when `min <= max` |
| `Game.NextCell` | main.c:134 | the value the step writes for cell (x, y) is alive exactly when the live count of `get_neighbors(src, x, y)` is 3, or when the cell is alive and the count is 2 |
| `Game.ComputeCell` | main.c:134 | the right-hand side of the step's assignment, computed by `get_neighbors` and the counting `new_state`, equals `NextCell(src, x, y)` |
| `Game.Simulation.constructor` | main.c:10-42 | both buffers are fresh, distinct and 100×100 with every cell dead, and the run state starts `STOPPED` |
| `Game.Simulation.EditCell` | main.c:89-92 | while `STOPPED`, exactly the hovered cell of the current buffer becomes `true` (set, not toggled). Every other cell and the other buffer are unchanged, and while `RUNNING` nothing changes |
| `Game.Simulation.ToggleRun` | main.c:94-97 | the run state flips between `STOPPED` and `RUNNING`, no cell changes and the buffer invariant is kept |
| `Game.Simulation.Generate` | main.c:130-136 | afterwards every cell `other[i, j]` is `new_state(current[i, j], get_neighbors(current, j, i))`, and the current buffer is not modified |
| `Game.Simulation.GenerateRow` | main.c:132-135 | afterwards every cell of row `i` of the other buffer is `NextCell(current, j, i)`, and every other row keeps its cells |
| `Game.Simulation.Swap` | main.c:138-141 | the current and other buffer references are exchanged, with no cell copied |
| `Game.Simulation.Advance` | main.c:128-142 | when `RUNNING` and the gate has elapsed, the former other buffer becomes current and holds the successor of the former current buffer, which becomes other with its cells intact. Otherwise both buffers and all cells are unchanged |
| `Game.Simulation.Frame` | main.c:57-142 | one frame: the hovered cell is clamped into the grid and edited if the state was `STOPPED` and the right button was pressed. Key S then toggles the state, and the step happens exactly when the new state is `RUNNING` and the gate has elapsed. The step's successor is computed from the edited grid |

## Left out

- Rendering and windowing (raylib `InitWindow`, `SetTargetFPS`, `BeginDrawing`, circles, rectangles, grid lines and `EndDrawing`; main.c:35-36, 44-48, 99-126, 144-145): foreign I/O with no effect on the grid.
- The frame loop `while(!WindowShouldClose())` itself (main.c:44): it depends on a foreign query. `Game.Simulation.Frame` models one pass of its body.
- Camera pan and zoom (main.c:60-87): float arithmetic on `Camera2D`, which does not affect the grid.
- The mouse-to-cell mapping (main.c:50-55): it uses screen-to-world conversion and float division. `Frame` takes the resulting integer cell coordinates as inputs and models the `iclamp` calls that follow (main.c:57-58).
- The mouse and key queries (`IsMouseButtonPressed`, `IsKeyPressed`): they become the boolean inputs `rightPressed` and `keySPressed` of `Frame`.
- `time_elapsed` (main.c:209-227): it reads the foreign clock `GetTime()` through function-local `static` state. It becomes the boolean input `elapsed` of `Advance` and `Frame`. As written, `first_call` is never cleared, so the function always returns `true`.
- Game.IClamp: the C function writes through an `int *`. The model passes the value in and returns the new value, which the caller assigns back. Pointer aliasing is not modelled.

## Findings

| source | as written | input that shows it | evidently intended | confidence | as-written member | corrected member |
|---|---|---|---|---|---|---|
| main.c:155-161 | top row `(GRID_H - y) % GRID_H` and left column `(GRID_W - x) % GRID_W`: the mirror index, so row and column 0 map to themselves and `x = 50` maps to 50 | a grid whose only live cell is (0, 0): the north, west and north-west flags all read that cell, so its count is 3 and it survives instead of dying | the wrapped predecessors `(y - 1 + GRID_H) % GRID_H` and `(x - 1 + GRID_W) % GRID_W`, as the names `top_neighbor_y` and `left_neighbor_x` say | high (follows from the formulas; not executed) | `Torus.LoneCornerSurvivesAsWritten` | `Torus.LoneCornerDiesCorrected` |
| main.c:155-161 | the same mirror formulas | a 2×2 block at rows and columns 10-11, all else dead: cell (11, 11) reads row 89 and column 89 as its top and left, counts 0 live neighbours and dies, so the block, a still life of Life, is not still | the wrapped predecessors, under which (11, 11) counts its 3 block neighbours and survives | high (follows from the formulas; not executed) | `Torus.BlockCornerDiesAsWritten` | `Torus.BlockCornerSurvivesCorrected` |

`Torus.CorrectedNeighbors` is the corrected lookup. `Torus.WrappedCellsDistinct` proves that it gives every cell eight distinct neighbours other than itself. The engine in `Game` keeps the as-written `Torus.GetNeighbors`, because it models what the program computes. Switching the engine to the corrected lookup means replacing `GetNeighbors` with `CorrectedNeighbors` in both the `ensures` and the body of `Game.NextCell`, and in the body of `Game.ComputeCell`.
