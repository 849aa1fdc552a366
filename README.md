# sudokusolv — a Dafny model of the early 9×9 solver

This project models `sudokusolv.cc`, an early revision of a 9×9 Sudoku solver.
The file has two parts:

- **`SudokuBoard`** is a constraint tracker. It holds a 9×9 digit array
  `_board[x][y]` (0 = empty) and three arrays of nine 16-bit masks.
  `_horSet[y]` covers a horizontal line, `_vertSet[x]` a vertical line, and
  `_blockSet[(x/3)+(y/3)*3]` a 3×3 block. Bit `d-1` of a mask records that
  digit `d` is placed in that group.
  - `set(num, x, y)` rejects `num` if its bit is already in one of the
    cell's three masks. Otherwise it writes the cell and sets the bit in the
    three masks.
  - `unset(num, x, y)` writes 0 into the cell and clears bit `num-1` in the
    cell's three masks, whatever the cell held.
  - `operator()(x, y)` reads a cell.
- **`solve`** is row-major backtracking. At every cell holding 0 it tries the
  digits 1..9 in ascending order and recurses after each successful `set`.

Layout:

- `sudoku_spec.dfy`, module `SudokuSpec`: the board as a value
  (`BoardState`), the masks as `bv16`, and `Assign` / `Clear`, the value-level
  meaning of `set` / `unset`. It also defines the tracker's invariant
  `Consistent`: masks mirror the board, no digit twice in a group, no mask bit
  beyond digit 9.
- `sudoku_lemmas.dfy`, module `SudokuLemmas`: what `set` and `unset` preserve
  and undo, and the count of empty cells that makes `solve` terminate.
- `sudokusolv.dfy`, module `Sudokusolv`: the class `SudokuBoard`, with an
  `array2<int>` board and three `array<bv16>` mask arrays updated in place.
  Its `Set` / `Unset` methods are proved equal to `Assign` / `Clear` of the
  old state. The free method `Solve` is the recursive `solve`.

`Solve` follows the code as written, including three quirks:

- It has no base case that returns true. The only `return true` (line 73)
  needs a recursive call to return true, and every loop falls through to
  `return false` (line 80). `Solve` is proved to return false on every board.
- After a rejected `set` it calls `unset` (line 68). That clears a mask bit
  that belongs to another cell. `ClearAfterRejectedAssignBreaksMirrors`
  proves this always breaks the mask invariant.
- When no digit fits a cell, the loops go on to the next cell instead of
  returning.

What `Solve` does keep: it recurses only after a successful `set` on a cell
holding 0, so the number of empty cells strictly decreases. That number is its
termination measure. Every cell holds on return what it held on entry.

This revision has no solution counting, candidate sets, forward checking or
puzzle generator; none is modelled.

## Model

| member | source | states |
|---|---|---|
| `SudokuSpec.Block` | sudokusolv.cc:19 | the block index `(x/3)+(y/3)*3` of a cell with `x, y` in 0..8 lies in 0..8 |
| `SudokuSpec.SameBlockIff` | sudokusolv.cc:19 | two cells get the same block index exactly when they lie in the same third of the board in both directions, i.e. in the same 3×3 block |
| `SudokuSpec.AddHas` | sudokusolv.cc:24-26 | OR-ing `1 << (d-1)` into a mask records digit `d` and leaves every other digit's bit as it was; no bit beyond digit 9 appears |
| `SudokuSpec.RemoveHas` | sudokusolv.cc:32-39 | `m &= ~(1 << (d-1))` forgets digit `d` and leaves every other digit's bit as it was |
| `SudokuSpec.RemoveAdd` | sudokusolv.cc:24-40 | clearing a bit that was absent before it was set gives back the exact prior 16-bit mask |
| `SudokuSpec.Bit` | sudokusolv.cc:9 | the mask `1 << (num - 1)` of a digit; `BitOf` states that distinct digits own distinct bits, none beyond bit 8 |
| `SudokuSpec.BitOf` | sudokusolv.cc:9 | digit `e`'s bit is set in the mask of digit `d` exactly when `e == d`, and that mask stays below bit 9 |
| `SudokuSpec.Add` | sudokusolv.cc:24-26 | the mask after OR-ing in the digit's bit; `AddHas` states its meaning |
| `SudokuSpec.Remove` | sudokusolv.cc:32-39 | the mask after `&=` with the complement of the digit's bit; `RemoveHas` states its meaning |
| `SudokuSpec.Fits` | sudokusolv.cc:11-21 | the three tests of `set`: the digit's bit is in none of `_horSet[y]`, `_vertSet[x]`, `_blockSet[k]`; `FitsIffGroups` states their meaning |
| `SudokuSpec.FitsIffGroups` | sudokusolv.cc:9-21 | the three tests of `set` look at exactly the masks of the three groups that contain `(x, y)` |
| `SudokuSpec.Assign` | sudokusolv.cc:7-29 | the success flag and new state of `set` on a well-formed state, which is again well-formed; `AssignEffect` states its meaning |
| `SudokuSpec.AssignEffect` | sudokusolv.cc:7-29 | `set` succeeds iff `d` is in none of the cell's three masks; on failure nothing changes; on success the cell becomes `d`, exactly the cell's three masks gain `d`, and every other cell and mask is unchanged |
| `SudokuSpec.Clear` | sudokusolv.cc:31-41 | the new state of `unset` on a well-formed state, which is again well-formed; `ClearEffect` states its meaning |
| `SudokuSpec.ClearEffect` | sudokusolv.cc:31-41 | `unset` writes 0 into the cell and removes `d` from exactly the cell's three masks; every other cell and mask is unchanged |
| `SudokuSpec.EmptyBoard` | sudokusolv.cc:48-52 | the all-zero start state satisfies the tracker's invariant and has every cell empty |
| `SudokuLemmas.AssignIffRuleAllows` | sudokusolv.cc:9-21 | when the masks mirror the board, `set` succeeds exactly when `d` is not yet placed in the cell's horizontal line, vertical line or block |
| `SudokuLemmas.AssignKeepsMirrors` | sudokusolv.cc:23-28 | on a cell holding 0, `set` keeps every mask equal to the set of digits placed in its group |
| `SudokuLemmas.AssignKeepsNoDuplicates` | sudokusolv.cc:9-28 | on a cell holding 0 with mirroring masks, `set` never places a digit twice in a line or block |
| `SudokuLemmas.AssignKeepsConsistent` | sudokusolv.cc:7-29 | on a cell holding 0, `set` preserves the whole invariant (masks mirror the board, no duplicates, cells in 0..9, masks below bit 9) |
| `SudokuLemmas.AssignBlocksSameDigit` | sudokusolv.cc:23-28 | after a successful `set(d, x, y)`, any `set(d, …)` on a cell sharing a line or block with `(x, y)` is rejected |
| `SudokuLemmas.ClearKeepsConsistent` | sudokusolv.cc:31-41 | `unset` of the digit a cell actually holds preserves the invariant |
| `SudokuLemmas.AssignClearRestores` | sudokusolv.cc:7-41 | a successful `set` on a cell holding 0 followed by `unset` of the same digit restores the cell and every mask to their exact prior values |
| `SudokuLemmas.ClearAfterRejectedAssignBreaksMirrors` | sudokusolv.cc:66-69 | on a consistent board, the `unset` that `solve` calls after a rejected `set` on an empty cell always leaves some mask missing a digit that is still placed in its group |
| `SudokuLemmas.ZerosIn` | sudokusolv.cc:61-64 | the number of cells holding 0 in one line of the board; it is 0 exactly when no cell of the line holds 0 |
| `SudokuLemmas.Zeros` | sudokusolv.cc:61-64 | the number of cells `solve` does not skip (cells holding 0); it is 0 exactly when every cell holds a non-zero value |
| `SudokuLemmas.ZerosPlace` | sudokusolv.cc:61-75 | writing a digit into a cell holding 0 lowers the number of empty cells by exactly one; writing 0 into a cell holding 0 leaves it unchanged |
| `Sudokusolv.SudokuBoard.constructor` | sudokusolv.cc:48-52 | a fresh board has the all-zero state: every cell empty, every mask 0 |
| `Sudokusolv.SudokuBoard.At` | sudokusolv.cc:43-46 | `operator()(x, y)` returns the digit stored in cell `(x, y)` |
| `Sudokusolv.SudokuBoard.Set` | sudokusolv.cc:7-29 | the result and the new arrays are `Assign` of the old state; on a consistent board and a cell holding 0 the invariant still holds afterwards |
| `Sudokusolv.SudokuBoard.Unset` | sudokusolv.cc:31-41 | the new arrays are `Clear` of the old state; unsetting the digit the cell holds on a consistent board keeps the invariant |
| `Sudokusolv.Solve` | sudokusolv.cc:55-81 | terminates (measure: the number of cells holding 0), returns false on every board, and leaves every cell as it found it |

## Left out

- `main`, the `print` parameter of `solve` and all `std::cout` tracing. This
  includes the unconditional "cont" line at line 62. It is console output
  with no effect on the board or the result.
- The default-constructed `SudokuBoard` of `main` leaves its arrays
  uninitialised, so its start state is undefined. The model gives the class a
  constructor that starts from the all-zero board.
- Arguments out of range are preconditions: `num` in 1..9 (otherwise
  `1 << (num-1)` is undefined or meaningless) and `x, y` in 0..8 (otherwise the
  arrays are indexed out of bounds).
- Cells are modelled as `int`, not `uint8_t`. The class only ever writes 0 or
  a digit 1..9 into a cell, so the 8-bit width never matters.
- `Sudokusolv.Solve`: does not state anything about the masks on return.
  The `unset` after a rejected `set` (line 68) clears bits of other cells;
  `ClearAfterRejectedAssignBreaksMirrors` shows the masks then no longer
  mirror the board.
