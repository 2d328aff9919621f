# Block game board, modelled in Dafny

This is a model of the board of a small falling-block game prototype. The
board has `BoardWidth` (8) columns. Each column has `BoardHeight` (10)
cells, listed top to bottom, so row 0 is the top row. A cell is empty
(`None`) or holds a block (`Some(Block(color))`), and a block's colour is
Blue, Green or Red.

Two operations act on the board:

- **Start-up fill.** `random_board` fills the board column by column, each
  column top to bottom. Each cell is a coloured block or empty. The model
  takes the random draws as inputs (`Game.RandomBoard`).
- **Gravity step.** On every frame, `update` runs `drop_board` once. For
  each column, `drop_board` visits rows from the bottom up. At each empty
  cell it removes the cell (`remove(y)`) and puts a new empty cell on row 0
  (`insert(0, None)`). `Board.DropStep` is one visit, `Board.DropFrom` the
  rest of the loop, and `Board.DropColumn` the whole loop. `Game.MainState.DropBoard`
  runs the same loops on a `seq<seq<Cell>>` field and is proved against
  `DropColumn`. Its inner loop is written as its own method,
  `DropColumnAt`, and `Vec::remove` and `Vec::insert` as the methods
  `RemoveAt` and `InsertEmptyOnTop`, which keeps each proof small.

One call does **not** always settle a column. When the empty cell at row `y`
is removed, the cell from row `y-1` moves into row `y`. The loop then goes
on to row `y-1`, so that cell is never looked at. For example
`[R, ., ., B]` becomes `[., R, ., B]` after one call, and `[., ., R, B]`
only after a second call (`Board.DropSkipsShiftedCell`). A one-shot stable
partition would settle a column in one call and be idempotent; the loop is
neither, and this model follows the loop. What is proved instead:

- One call changes a column exactly when the column is not settled
  (`DropColumnFixedIffSettled`).
- On a column that is not settled, one call strictly reduces the number of
  (block above empty cell) pairs (`DropColumnInversions`).
- So after at most |blocks| × |empty cells| frames, every column is in its
  compacted form (`TicksSettle`), and `MainState.Frames` carries this over
  to n calls of `Update` on the game state.

Modules: `Board` (board.dfy) holds the cells, the column functions and the
lemmas. `Game` (game.dfy) holds the start-up fill and the `MainState` class
that owns the board.

## Model

| member | source | states |
|---|---|---|
| `Board.DropStep` | src/main.rs:98-100 | One visit of row y keeps the column's length. Rows below y are unchanged. A block at row y leaves the column as it is. An empty cell at row y leaves row 0 empty and moves rows 0..y-1 down by one row. |
| `Board.DropFrom` | src/main.rs:97-102 | The rest of the inner loop, with rows k-1 down to 0 still to visit, keeps the column's length. |
| `Board.DropColumn` | src/main.rs:96-103 | One call keeps the column's length, because every `remove(y)` is paired with an `insert(0, None)`. |
| `Board.Ticks` | src/main.rs:116-118 | n frames of the gravity step keep the column's length. |
| `Board.DropStepKeepsBlocks` | src/main.rs:98-100 | One visit keeps the column's blocks, in their top-to-bottom order. |
| `Board.DropStepLowers` | src/main.rs:98-100 | After one visit, the top r rows hold no more blocks than before, for every r. |
| `Board.DropStepInversions` | src/main.rs:98-100 | Moving the empty cell from row y to row 0 removes exactly as many (block above empty) pairs as there are blocks above row y. |
| `Board.DropColumnKeepsBlocks` | src/main.rs:97-102 | One call keeps the sequence of blocks, top to bottom. So it keeps their number, the multiset of their colours and the number of empty cells. |
| `Board.DropColumnLowers` | src/main.rs:97-102 | No block moves upwards: for every r, the top r rows hold no more blocks after the call than before. |
| `Board.DropColumnFixedIffSettled` | src/main.rs:97-102 | A column is left unchanged if and only if it is settled (no block above an empty cell). |
| `Board.DropColumnAllEmpty` | src/main.rs:97-102 | A column of empty cells only is left unchanged. |
| `Board.DropColumnAllFull` | src/main.rs:97-102 | A column of blocks only is left unchanged. |
| `Board.DropColumnInversions` | src/main.rs:97-102 | One call never adds (block above empty) pairs. It removes at least one when the column is not settled. |
| `Board.InversionsBound` | src/main.rs:97-102 | A column has at most (number of blocks) × (number of empty cells) such pairs. |
| `Board.TicksLast` | src/main.rs:116-118 | n + 1 frames are n frames followed by one more gravity step. |
| `Board.TicksSettle` | src/main.rs:116-118 | After any n ≥ (blocks × empty cells) frames, the column equals its compacted form: the same blocks in the same order, stacked on the bottom row. |
| `Board.CompactedIsSettled` | src/main.rs:97-102 | The compacted form, which frames converge to, has the column's length, is settled, and holds the column's blocks in order. |
| `Board.SettledIffCompacted` | src/main.rs:97-102 | A column is settled if and only if it equals its compacted form. |
| `Board.DropOneGap` | src/main.rs:97-102 | `[., R, ., B]` becomes `[., ., R, B]` in one call. |
| `Board.DropSkipsShiftedCell` | src/main.rs:97-102 | `[R, ., ., B]` becomes `[., R, ., B]` in one call, because the shifted cell is skipped. A second call gives `[., ., R, B]`, so one call is not idempotent. |
| `Board.DropSettledExamples` | src/main.rs:97-102 | `[., ., G, R]` and `[., ., ., .]` are left unchanged. |
| `Game.RandomBoard` | src/main.rs:36-52 | Returns exactly `BoardWidth` columns of `BoardHeight` cells each. Cell (x, y) is a block of the drawn colour when its draw says occupied, and empty otherwise. |
| `Game.MainState.constructor` | src/main.rs:87-93 | The new state's board is the start-up fill of the given draws, with the board's dimensions. |
| `Game.MainState.DropBoard` | src/main.rs:95-104 | The loop over columns keeps the dimensions. Each column ends as `DropColumn` of its own old value, so no column affects another. |
| `Game.MainState.DropColumnAt` | src/main.rs:97-102 | The inner loop on column x, with `remove(y)` and `insert(0, None)` on the sequence field, sets column x to `DropColumn` of its old value and changes no other column. The column keeps `BoardHeight` cells throughout, so every `board[x][y]` access stays in bounds. |
| `Game.MainState.RemoveAt` | src/main.rs:99 | `board[x].remove(y)`: column x loses the cell at row y, and no other column changes. |
| `Game.MainState.InsertEmptyOnTop` | src/main.rs:100 | `board[x].insert(0, None)`: column x gains an empty cell at row 0, and no other column changes. |
| `Game.MainState.Update` | src/main.rs:116-119 | Each frame applies the gravity step once, unconditionally, with the same result as `DropBoard`. |
| `Game.MainState.Frames` | src/main.rs:116-118 | After n frames every column is n gravity steps of its old value. Once n reaches the column's blocks × empty cells, the column is in its compacted form. |

## Left out

- Rendering and windowing (`Assets`, `image_from_block_color`, `draw_block`, `draw`, `main`, `timer::yield_now`, src/main.rs:54-79, 107-113, 121-147): these are calls into the graphics framework.
- Pixel geometry (`BLOCK_SIZE`, `Point2` positions): floating point, used only for drawing.
- Randomness (`rand::thread_rng()`, the `empty_chance <= next_f32()` comparison, `choose` in `random_block`, src/main.rs:29-34, 38, 42): each cell's outcome and colour are inputs to `RandomBoard`. A colour input is supplied for every cell, and empty cells ignore it. The source draws a colour only for occupied cells, so the order in which draws are consumed is not modelled.
- `Game.MainState.constructor`: does not model setting the background colour or loading the image assets that `MainState::new` also does.
- `Game.MainState.Update`: the `GameResult` is not modelled; `update` always returns `Ok(())`.
- The fact that every block colour is Blue, Green or Red holds by the `BlockColor` datatype, so no contract states it.
- `Board.DropColumn` runs its loop over the column's own length, while the source loops over `BOARD_HEIGHT`. The two are the same on every column of a valid board, and `DropBoard` loops over `BoardHeight` as the source does.
