# Sliding-tile puzzle board

A Dafny model of the 15-puzzle state machine in `src/main.rs` (the `Model`
struct of the slidingpuzzle program). The board is 16 cells in row-major
order, on a grid of 4 rows and 4 columns. Value 0 is the empty cell. The
board is created solved (`[0, 1, ..., 15]`) and shuffled once at start-up.
After that the only change is `tap(r, c)`. A tap finds the empty cell by a
linear scan. If the tapped cell is orthogonally next to the empty cell, the
tile slides into it. Otherwise nothing happens.

The model has two modules.

- `Board` (board.dfy) describes the board as a value. `EmptyIndex` is the
  scan, `Guard` is the adjacency test exactly as the source writes it, and
  `Step` is the board after a tap. The lemmas prove what a tap does and does
  not do. A reference definition, `Neighbours`, describes grid adjacency
  through row/column distance, and the source's guard is proved equal to it.
- `SlidingPuzzle` (puzzle.dfy) is the object the program mutates. Class
  `Model` holds the board in an `array<nat>` of 16 cells. Its object
  invariant `Valid()` says the board is a permutation of 0..15. The
  constructor fills the array, `FindEmpty` is the scan loop, `Shuffle`
  permutes in place and `Tap` performs the guarded swap. Each method's
  postcondition ties the new array contents to the functions of `Board`.

An out-of-range tap is a silent no-op: the guard forces `r < 4` and
`c < 4` before any cell is indexed (`OutOfRangeIsNoop`).

## Model

| member | source | states |
|---|---|---|
| Board.Identity | src/main.rs:31-34 | the initial board has 16 cells and cell k holds k |
| Board.IdentityCount | src/main.rs:31-34 | each value below n occurs exactly once in the initial board of n cells, and no other value occurs |
| Board.SolvedIsInitial | src/main.rs:31-34 | the initial board is `[0, ..., 15]`, a permutation whose empty cell is index 0 |
| Board.PermutationShape | src/main.rs:13 | a board that is a permutation of 0..15 has 16 cells, all values below 16, and exactly one 0 |
| Board.EmptyIndex | src/main.rs:43 | the scan returns an index in range holding 0, and no earlier cell holds 0 |
| Board.OnlyZeroIsEmpty | src/main.rs:43 | on a board with one empty cell, any cell holding 0 is the one the scan finds |
| Board.Guard | src/main.rs:46-49 | the four clauses of tap's adjacency test, one for one |
| Board.Legal | src/main.rs:43-49 | the guard evaluated at the first empty cell |
| Board.GuardInGrid | src/main.rs:46-53 | whenever the guard holds, r < 4 and c < 4, so i = r*4+c is in bounds and differs from the empty index |
| Board.GuardIsAdjacency | src/main.rs:44-49 | the four-way guard holds exactly when (r, c) is inside the grid and at row+column distance 1 from the empty cell |
| Board.GuardSymmetric | src/main.rs:44-49 | if the guard admits (r, c) next to the empty cell j, it admits j next to an empty cell at (r, c) |
| Board.Step | src/main.rs:41-55 | a tap keeps 16 cells and keeps an empty cell |
| Board.StepSameTiles | src/main.rs:51-53 | a tap only rearranges values: the multiset of cells is unchanged |
| Board.StepKeepsPermutation | src/main.rs:41-55 | a tap on a permutation of 0..15 yields a permutation with exactly one empty cell |
| Board.StepLocality | src/main.rs:46-54 | a legal tap writes 0 at i and the old tile at j and leaves every other cell unchanged; an illegal tap leaves the board unchanged |
| Board.OutOfRangeIsNoop | src/main.rs:42-50 | a tap with r >= 4 or c >= 4 is never legal and leaves the board unchanged |
| Board.StepChangesIffLegal | src/main.rs:46-54 | with one empty cell, a tap changes the board if and only if the guard holds |
| Board.StepChangesIffNeighbours | src/main.rs:43-54 | with one empty cell, a tap changes the board if and only if (r, c) is inside the grid and an orthogonal neighbour of the empty cell |
| Board.StepMovesEmpty | src/main.rs:51-53 | after a legal tap the empty cell is at r*4+c |
| Board.StepReversible | src/main.rs:41-55 | tapping the old empty cell right after a legal tap restores the original board |
| Board.RepeatIllegal | src/main.rs:41-55 | repeating an illegal tap any number of times never changes the board |
| Board.ScenarioSlide | src/main.rs:41-55 | on the solved board, tap(0, 1) gives `[1, 0, 2, ..., 15]` |
| Board.ScenarioSlideBack | src/main.rs:41-55 | on `[1, 0, 2, ..., 15]`, tap(0, 0) gives back the solved board |
| Board.ScenarioIllegalTaps | src/main.rs:44-50 | on the solved board, the diagonal tap(1, 1) and the far tap(3, 3) change nothing |
| SlidingPuzzle.Model.constructor | src/main.rs:31-35 | a fresh 16-cell array holding `[0, ..., 15]`, satisfying the invariant |
| SlidingPuzzle.Model.FindEmpty | src/main.rs:43 | the scan loop returns exactly the index `EmptyIndex` of the board |
| SlidingPuzzle.Model.Shuffle | src/main.rs:37-40 | the new board is a permutation of the old one, and the invariant is kept |
| SlidingPuzzle.Model.Tap | src/main.rs:41-55 | a 0 was present, so the scan's unwrap cannot fail; the new board is `Step` of the old one; it differs from the old board exactly when the tap is legal; the invariant is kept |
| SlidingPuzzle.Start | src/main.rs:74-76 | start-up builds the solved board and shuffles it once, giving a valid board |

## Left out

- Tile textures and image cropping in `Model::new` (src/main.rs:21-30): foreign calls into the graphics and image libraries.
- Window set-up and asset loading in `model` (src/main.rs:62-73): I/O. Only its call of `shuffle` after construction is modelled, by `Start`.
- `mouse_pressed` (src/main.rs:79-83): floating-point conversion of pointer coordinates to a cell. The model starts at `tap(r, c)` with natural-number coordinates, which is what the saturating `as usize` casts produce.
- `view` (src/main.rs:85-110): rendering.
- SlidingPuzzle.Model.Shuffle: promises only that the new board is a permutation of the old one. The random source is the parameter `draws`, one draw per swap of a Fisher-Yates pass, because randomness cannot be modelled. Uniformity of the distribution is not modelled. Whether the shuffled board is solvable is not checked by the program and is not claimed.
- SlidingPuzzle.Model.Tap: requires the object invariant (a permutation of 0..15), while the code only needs some 0 on the board for its `unwrap`. Every `Model` the program builds satisfies the invariant. `Board.Step` and its lemmas describe a tap on any 16-cell board holding a 0.
- Integer width: `r * 4 + c` is computed in `usize` before the guard. For `r` or `c` near the top of the `usize` range it overflows (a panic in a debug build, wrap-around in a release build). The model uses unbounded naturals, so that overflow is not modelled. The guard never admits such an `r` or `c`, so the cells written are the same.
