# Snake on a toroidal LED grid — a Dafny model

This project models the game-state engine of `main.py`, a snake game for a Raspberry Pi Pico
that draws an 8 x 8 field on a NeoPixel strip and steers with an analogue joystick.

- **Geometry** (`geometry.dfy`) covers three things. Cells are `[row, col]` points. The four
  directions are `'up'`, `'down'`, `'left'` and `'right'`. `Snake._check_limit` is the wrap of
  the field. It is an elif chain, so it corrects at most one axis per call. On a point one step
  off the grid it agrees with reduction modulo the size.
- **Board** (`field.dfy`) is the `Field` class.
  - Its grid is a sequence of rows of cell codes: empty, body, head and food.
  - The food scan `get_entity_pos` is specified by `FirstFood`, the first food cell in
    row-major order, or `[-1, -1]`.
  - `add_entity` places food on an arbitrary cell that the snake does not occupy.
  - `snake_coords` is a `CoordList` object, not a value. After the first move it is the same
    list object as `Snake.coords`, so `level_up`'s insertion is visible to the field.
- **Snakes** (`snake.dfy`) is the `Snake` class: a direction and a body list from tail (index 0)
  to head (last).
  - `move` shifts the body and shares it with the field. It stops the game on a self-collision,
    and on reaching the food it grows with `level_up` and places new food.
  - The class invariant keeps every body cell on the grid and keeps consecutive cells
    neighbours on the torus, including across a growth.
- **MainLoop** (`main_loop.dfy`) covers the logic of the main loop without its hardware.
  - The joystick guards turn the snake.
  - Clearing the field and stamping the body and head onto it.
  - One tick put together from these.
  - The start of a game.

The game's terminal `sys.exit()` is the outcome `GameOver` of `Snake.Move`. Where `add_entity`
would retry forever because the body covers every cell, `Move` returns `NoFreeCell`.

Five behaviours of the source are kept as written and stated as lemmas:

1. The first food is placed while `snake_coords` is still empty, so it may lie under the initial
   body: `MainLoop.InitialFoodMayLieUnderBody`. Food under `[0, 2]` or `[0, 3]` is still under
   the body after the first move, so the first redraw erases it (`MainLoop.FoodUnderFirstBodyIsErased`);
   from then on the scan finds no food, the snake never grows and no food is placed again
   (`MainLoop.Tick`, the ensures on a field without food).
2. The direction guards each see the direction set by the guards before them. A tick reverses the
   snake exactly when it heads up, the stick is pushed down and either left or right, or it heads
   down, the stick is pushed up and either left or right: `MainLoop.Steered`, last ensures.
3. `level_up` compares raw coordinates. When the two tail-most cells (indices 0 and 1) straddle
   the seam, the new tail is the cell at index 1 itself, for example `[7, 3]`, `[0, 3]` gives
   `[0, 3]`: `Snakes.GrowthTailAcrossSeam`.
4. When the two tail-most cells (indices 0 and 1) are equal, the new tail repeats them:
   `Snakes.GrowthTailOfRepeat`. In a running game this never happens, since those two cells are
   always neighbours on the torus: `Snakes.LinkedTailCellsDiffer`.
5. The snake starts heading up although its body lies along row 0 to the right. The filter only
   compares against the current direction, so pushing the stick left on the first tick turns the
   head into its own neck and the game ends at once: `MainLoop.FirstTickSideways`.

## Model

| member | source | states |
|---|---|---|
| Geometry.CheckLimit | main.py:110-121 | an in-bounds point is returned unchanged; a point at most one step off the grid on one axis comes back on the grid; only one coordinate is ever changed |
| Geometry.CheckLimitIsModular | main.py:110-121 | on a point at most one step off the grid, the wrap is reduction modulo the size on both axes |
| Geometry.CheckLimitCorrectsOneAxis | main.py:112-119 | the elif chain corrects one axis only: `[-1, -1]` becomes `[size-1, -1]`, still off the grid |
| Geometry.Step | main.py:127-134 | the displacement of the head changes exactly one coordinate, by one |
| Geometry.NextHead | main.py:125-137 | the head after one step in a direction and the wrap is always on the grid |
| Geometry.NextHeadIsModular | main.py:125-137 | the new head is the stepped head reduced modulo the size: the field is a torus |
| Geometry.NextHeadOpposite | main.py:125-137 | a step followed by the opposite step returns to the start, across the seam too |
| Geometry.NextHeadMoves | main.py:125-137 | on a field at least two cells wide, a step never stays on its cell |
| Board.SetCell | main.py:51 | writing one cell changes that cell only and keeps the grid's shape |
| Board.EmptyGrid | main.py:54-55 | a size x size grid of empty cells |
| Board.ScanFrom | main.py:63-69 | the scan from `[i, j]` returns `[-1, -1]` or a food cell at or after `[i, j]`, with no food between `[i, j]` and the result |
| Board.FirstFood | main.py:63-69 | the result is `[-1, -1]` exactly when there is no food; otherwise it is a food cell with no food before it in row-major order |
| Board.FirstFoodIsTheFood | main.py:63-69 | with at most one food cell, the scan returns a cell exactly when that cell holds food |
| Board.FoodOnEmptyGrid | main.py:37-39 | a single food cell on an empty grid is the cell the scan finds and the only food |
| Board.CoordList.constructor | main.py:37 | a list object holding the given coordinates |
| Board.Field.constructor | main.py:29-39 | a valid empty grid with an empty coordinate list and one food cell, which may be on any cell |
| Board.Field.GenerateField | main.py:54-55 | the grid becomes size x size and all empty; the coordinate list is untouched |
| Board.Field.AddEntity | main.py:43-52 | exactly one cell, on the grid and not in `snake_coords`, becomes food; no other cell changes |
| Board.Field.ClearField | main.py:57-58 | the grid stays size x size; body and head cells become empty; empty and food cells are unchanged |
| Board.Field.GetEntityPos | main.py:63-69 | the nested scan with early return computes `FirstFood` |
| Board.Field.IsSnakeEatEntity | main.py:71-74 | true exactly when the food scan's result equals the last element of `snake_coords`; for a head on the grid, exactly when the head cell holds food and no food lies before it |
| Snakes.GrowthTail | main.py:88-102 | the new tail cell is on the grid and is either the old tail or a torus neighbour of it |
| Snakes.GrowthTailContinuesPath | main.py:93-102 | away from the seam, the new tail is one step from the old tail opposite to the step toward the next cell, so it is not that cell |
| Snakes.GrowthTailAcrossSeam | main.py:93-102 | when the two tail-most cells (indices 0 and 1) straddle the seam, the new tail equals the cell at index 1 |
| Snakes.GrowthTailOfRepeat | main.py:93-102 | when the two tail-most cells (indices 0 and 1) are equal, no branch fires and the new tail repeats them |
| Snakes.LinkedTailCellsDiffer | main.py:88-89 | in a connected body on a field at least two wide, the cells at indices 0 and 1 differ, so the repeat case never arises in play |
| Snakes.GrowthTailLinksStep | main.py:93-102 | in both cases the new tail neighbours the old tail |
| Snakes.GrowthTailLinks | main.py:86-103 | for any connected body, the tail `level_up` inserts keeps it connected |
| Snakes.Shifted | main.py:139-140 | deleting the tail and appending the new head keeps the length, keeps the cells after the tail in order, and ends at the new head |
| Snakes.ShiftedStaysLinked | main.py:125-141 | dropping the tail and appending the next head keeps the body on the grid and connected |
| Snakes.PrependStaysLinked | main.py:103 | inserting a neighbouring cell before the tail keeps the body on the grid and connected |
| Snakes.Snake.constructor | main.py:78-83 | the body is `[[0, 1], [0, 2], [0, 3]]`, the direction is up, and the class invariant holds |
| Snakes.Snake.IsAlive | main.py:105-108 | true exactly when the head does not occur among the earlier body cells |
| Snakes.Snake.LevelUp | main.py:86-103 | the body becomes the new tail followed by the whole old body in order; the invariant is kept |
| Snakes.Snake.Move | main.py:123-152 | the body becomes the old body without its tail plus the wrapped new head, and the list is shared with the field. The game ends exactly on a self-collision, before the food check, with the field untouched. Otherwise, when the food scan finds the new head, the body grows by one tail cell in front and new food goes to a cell off the body; when it does not, neither the body nor the field changes further. The invariant is kept |
| MainLoop.Guard | main.py:172 | one guard keeps the direction or, when its threshold is crossed, sets its candidate; it never turns the snake to the opposite of the direction it sees |
| MainLoop.Steered | main.py:172-179 | no input keeps the direction; input on one axis gives that axis's rule; the result is the reverse of the old direction exactly when heading up with y at most 10000 and x past either threshold, or heading down with y at least 56000 and x past either threshold |
| MainLoop.Steer | main.py:172-179 | the guard-by-guard updates of the direction compute `Steered` |
| MainLoop.StampSnake | main.py:187-193 | the head cell is marked head, every other body cell body, and all other cells are unchanged |
| MainLoop.Redraw | main.py:185-193 | after clearing and stamping, exactly the body cells carry body or head marks, with head on the last one; the food cells left are the old ones the body does not cover |
| MainLoop.DrawnBody | main.py:185-193 | clearing followed by stamping draws the body exactly and keeps only the food off the body |
| MainLoop.NewGame | main.py:162-165 | a valid snake heading up on a fresh field of the given size, with a single food cell anywhere on the grid |
| MainLoop.PlacedFoodIsOnlyFoodOffBody | main.py:149-152 | after eating, the old food is under the body, so the newly placed food is the only food off the body |
| MainLoop.FoodOffBodyAfterMove | main.py:143-152 | after a move that goes on, all food off the body is one cell |
| MainLoop.DrawnFoodIsUnique | main.py:185-193 | when all food off the body is one cell, the redrawn field holds at most one food cell |
| MainLoop.RedrawAfterMove | main.py:185-193 | after a move that went on, the redrawn field shows the body exactly and holds at most one food cell; when the snake did not eat, the food cells are the old ones off the body; when it ate, the scan finds food, off the body |
| MainLoop.Advance | main.py:182-193 | the game ends exactly when the shifted body collides with itself; otherwise the body is the shifted body, grown by the `level_up` tail cell exactly when the food scan finds the new head. `NoFreeCell` comes only after eating, with no cell left off the body; so a move that neither collides nor eats goes on. The invariant is kept. When the game goes on, the field shows the body exactly and holds at most one food cell; a field without food stays without food, and after a growth the scan finds food |
| MainLoop.Tick | main.py:168-193 | one loop pass: the direction is `Steered`; with that direction, the game ends exactly on a self-collision of the shifted body, and otherwise the body is the shifted body, grown by the `level_up` tail cell exactly when the scan finds the new head. `NoFreeCell` comes only after eating, with no cell left off the body, so a tick that neither collides nor eats goes on. The invariant is kept. When the game goes on, the field shows the body exactly and holds at most one food cell; a field without food stays without food, so the snake never grows again, and after a growth the scan finds food |
| MainLoop.FirstMoveWraps | main.py:123-145 | from the initial body heading up on the 8 x 8 field, the body becomes `[[0, 2], [0, 3], [7, 3]]`, which does not collide |
| MainLoop.MoveFromStart | main.py:123-152 | the first move from the start position on the 8 x 8 field goes on (neither a collision nor a full board); the body grows by the tail cell `[0, 1]` exactly when the scan finds the food on `[7, 3]` |
| MainLoop.FirstMove | main.py:162-182 | the start of the program and a first tick with the stick at rest, so the filter keeps the direction up: the first field is empty but for one food cell q; the outcome is `Continue`; the body is `[[0, 1], [0, 2], [0, 3], [7, 3]]` when q is `[7, 3]` and `[[0, 2], [0, 3], [7, 3]]` otherwise |
| MainLoop.FirstTickSideways | main.py:172-182 | on the first tick the stick pushed left turns the snake left, because the filter only looks at the direction `up`; the head lands on `[0, 2]`, its own neck, and the game ends; pushed right, the body becomes `[[0, 2], [0, 3], [0, 4]]` and the game goes on |
| MainLoop.FoodUnderFirstBodyIsErased | main.py:37-39 | first food on `[0, 2]` or `[0, 3]` is not eaten by the first move and the redraw after it leaves no food at all, so the scan returns `[-1, -1]` |
| MainLoop.InitialFoodMayLieUnderBody | main.py:37-39 | food may be placed on the initial tail cell `[0, 1]`, since the list it avoids is still empty; the scan then finds it there |

## Left out

- The hardware is not modelled: the NeoPixel strip and the two ADC pins, `read_u16`, the LED writes,
  `show` and `time.sleep`. The joystick readings are parameters of `MainLoop.Tick`.
- The colour constants and the `icons` palette are not modelled. They are rendering data only.
- `randint` is not modelled as a random generator. `add_entity` chooses any free cell
  nondeterministically.
- `in_progress/database.py` is not part of this model. It is persistence that the game never calls.
- `Board.Field.constructor`: requires `size >= 1`. For a smaller size the source fails in
  `randint(0, self.size - 1)` at main.py:46; that failure is not modelled.
- `Board.Field.AddEntity`: requires a free cell. The source's retry loop never ends without one,
  and that non-termination is not modelled.
- `Snakes.Snake.Move`: where the source would enter that endless retry, it returns `NoFreeCell` with
  the field unchanged.
- `sys.exit()` is not modelled as an exit. It becomes the `GameOver` result, and `MainLoop.Tick`
  then skips the redraw that the source never reaches.
- `Snakes.Snake.constructor` takes the field as an argument. This folds `Snake.__init__` together
  with `set_field`, which the program always calls next. The constructor requires a field at least
  4 cells wide, so that the initial body fits.
- `_check_limit` is modelled as a function on values, not as in-place mutation of its argument.
  Every caller passes a fresh copy (`[:]`) and uses only the returned point.
- `Geometry.CheckLimit`: the bounds guarantee is stated only for points at most one step off the
  grid on one axis. Those are the only points `move` and `level_up` produce.
- `MainLoop.Steered`: the contract names the idle case, each single-axis case and exactly when the
  result reverses the snake. Which non-reversing direction other inputs on both axes give is stated
  by the guard chain alone.
- `MainLoop.Advance`: the drawing and single-food guarantees are stated only when the game goes
  on, because the source redraws only then.
- The `name` of the snake is stored and never used.
- The string directions are the datatype `Direction`. A direction string outside the four is never
  assigned by the source.
