# 15-puzzle board, in Dafny

This project models the board logic of a 4 x 4 sliding-tile puzzle. The board
keeps its tiles as a row-major sequence of the numbers 1 to 16, where 16 marks
the empty slot, together with its side length and a cached "solved" flag. A
move slides the empty slot one step up, down, left or right. The move swaps it
with that neighbour, or does nothing when the slot is already on that edge.
Every move recomputes the flag. Scrambling resets to the solved layout and
plays up to 20 rounds of random moves. It stops after the first round that
leaves the board unsolved.

Two modules:

- `Puzzle` (puzzle.dfy) is the pure part. It holds:
  - the `Direction` type and the integer-to-direction conversion;
  - the row/column arithmetic for neighbours;
  - the search for the empty slot;
  - one move as a function on sequences (`Slide`), and move sequences (`Play`);
  - the board after each scrambling round (`RoundEnds`), and the round at which scrambling stops (`StopAfter`).
- `Game` (board.dfy) holds the `Board` class. It has an `array<int>` of cells, the side `size` and the `solved` flag. Its methods check the flag, move the empty slot, play one round and scramble. Each method is proved against the `Puzzle` functions.

`Board.Valid()` is the invariant the program relies on: the grid is 4 x 4 and
`solved` agrees with the cells. The constructor, `MoveEmpty` and `Scramble`
establish it. `PlayRound` keeps the flag in step with the cells whenever it
made at least one move.

The random generator is an input. `Scramble` receives the rolls as
`rounds: seq<seq<int>>`, with one inner sequence per round. The length of each
inner sequence is the drawn move count, in [20, 100). Its entries are the drawn
direction numbers, in [0, 4).

On the solved board the empty slot is in the bottom-right corner, so a Down
move changes nothing. Up followed by Down therefore returns to the solved
board, while Down followed by Up does not (`SolvedBoardMoves`).

## Model

| member | source | states |
|---|---|---|
| Puzzle.DirectionFrom | src/main.rs:17-27 | A direction exists exactly for 0..3, and its declaration index is the input; every other integer is the panic case (None). |
| Puzzle.DirectionFromIndex | src/main.rs:10-27 | Converting a direction's index back gives the same direction. |
| Puzzle.NeighborIndex | src/main.rs:142-176 | No neighbour for Up on row 0, Down on the last row, Left on column 0 or Right on the last column; otherwise index - size, index + size, index - 1 or index + 1; a neighbour of an in-grid index is in the grid. |
| Puzzle.NeighborIsAdjacent | src/main.rs:142-176 | The neighbour is one row up or down in the same column, or one column left or right in the same row, as the direction says. |
| Puzzle.NeighborInverse | src/main.rs:142-176 | From the neighbour, the opposite direction leads back to the original index. |
| Puzzle.CornerNeighbors | src/main.rs:142-176 | On the 4 x 4 grid, cells 0 and 15 have only their two inward neighbours (4 and 1, 11 and 14). |
| Puzzle.Position | src/main.rs:139 | None exactly when the value is absent; otherwise the index holds the value and no earlier index does. |
| Puzzle.EmptyIndex | src/main.rs:138-140 | When 16 is present, the result is the first index holding 16. |
| Puzzle.SolvedCells | src/main.rs:74-75 | The reset layout 1..n has length n, is solved, and contains 16 when n >= 16. |
| Puzzle.SolvedIsUnique | src/main.rs:125-136 | A layout is solved exactly when it equals 1, 2, ..., n. |
| Puzzle.SolvedCellsIsPermutation | src/main.rs:74-75 | The reset layout is a permutation of 1..n and its empty slot is at index 15. |
| Puzzle.Swap | src/main.rs:183 | The two cells trade values and every other cell is unchanged. |
| Puzzle.SwapPreservesPermutation | src/main.rs:183 | A swap keeps the cells a permutation of 1..n. |
| Puzzle.SwapTwice | src/main.rs:183 | Swapping the same pair twice restores the cells. |
| Puzzle.Slide | src/main.rs:178-184 | A move keeps the length and keeps the marker 16 on the board. |
| Puzzle.SlideEffect | src/main.rs:178-184 | Against an edge the cells are unchanged. Otherwise exactly the empty index and its neighbour are exchanged, 16 now sits at the neighbour, and on a permutation the next search finds it there. |
| Puzzle.SlideMovesUnlessAtEdge | src/main.rs:180-184 | On a permutation, a move changes the cells if and only if the neighbour exists. |
| Puzzle.SlidePreservesPermutation | src/main.rs:178-184 | A move keeps the cells a permutation of 1..16. |
| Puzzle.SlideUndo | src/main.rs:142-184 | A move that changed the board is undone by the move in the opposite direction. |
| Puzzle.SolvedBoardMoves | src/main.rs:178-187 | From the solved board, Down is a no-op and Up is not; Up then Down returns to solved, and Down then Up does not. |
| Puzzle.Play | src/main.rs:83-85 | A sequence of moves keeps the length and the marker. |
| Puzzle.PlayPreservesPermutation | src/main.rs:83-85 | Any sequence of moves keeps the cells a permutation. |
| Puzzle.PlayAppend | src/main.rs:77-85 | Playing two move sequences in turn is playing their concatenation. |
| Puzzle.ReachableAfterPlay | src/main.rs:72-92 | A layout reachable from the solved one stays reachable after further moves. |
| Puzzle.Decode | src/main.rs:84 | Each roll in [0, 4) becomes the direction the conversion gives for it. |
| Puzzle.RoundEnds | src/main.rs:77-86 | One board per round, each of length 16 and holding 16. |
| Puzzle.RoundEndsStep | src/main.rs:77-86 | Round j starts where round j - 1 ended (round 0 at the start) and plays round j's moves. |
| Puzzle.RoundEndsReachable | src/main.rs:72-92 | From a reachable permutation, every round ends on a reachable permutation. |
| Puzzle.RoundEndsFromSolved | src/main.rs:72-92 | From the reset layout, every round ends on a permutation reachable by moves. |
| Puzzle.StopAfter | src/main.rs:77-91 | Scrambling stops at the first round that ends unsolved, or at the last round; all earlier rounds ended solved. |
| Puzzle.StopAfterUnique | src/main.rs:77-91 | Any round count with only solved rounds before it, and ending unsolved or at the last round, is the stopping round. |
| Game.Board.constructor | src/main.rs:62-70 | Stores cells and size; the flag is set exactly when the cells are 1, 2, ..., n; a 4 x 4 board of 16 cells is valid. |
| Game.Board.CheckSolved | src/main.rs:125-136 | The early-exit scan sets the flag exactly when every cell i holds i + 1. |
| Game.Board.MoveEmpty | src/main.rs:178-187 | The cells become the result of one move, and the flag agrees with them. Against an edge the cells and the flag are unchanged. A permutation stays a permutation. |
| Game.Board.PlayRound | src/main.rs:83-85 | The cells become the result of the round's moves in order, and after at least one move the flag agrees with them. |
| Game.Board.Scramble | src/main.rs:72-92 | Resets to the solved layout. Rounds are played until the first one that ends unsolved, or all 20. The board is the one left by that stopping round, and the flag agrees with it. |

## Left out

- Rendering (`Board::draw`), the colour constants and `MESSAGE_WINDOW_BOUNDS`, the window title text and `main` with its keyboard loop are not modelled. They are graphics and I/O.
- The random generator is not modelled. `Scramble` takes the rolls as a parameter, and `ValidRounds` states the ranges the generator draws from. The parameter has exactly 20 rounds, and rounds after the stopping round are ignored.
- Integer widths are not modelled. The `i32` cells, the `u8` size and the `usize` indices are unbounded integers. On a 4 x 4 board no value comes near a bound.
- Only the 4 x 4 grid is modelled for moves and scrambling. The program marks the empty slot with the literal 16 and only ever builds a size-4 board. So `MoveEmpty`, `PlayRound` and `Scramble` require `size == 4`, and `Slide` uses side 4. `NeighborIndex` keeps the general size.
- The constructor accepts any cells and size, as the program does. It establishes `Valid()` only for size 4 with 16 cells.
- Panics are not modelled as aborts. The panic in the integer-to-direction conversion becomes `None`. The `unwrap` in the empty-slot search becomes the precondition that 16 is on the board.
- Game.Board.Scramble: its contract does not repeat that the final board is a permutation reachable from the solved layout. That follows from its last ensures together with `Puzzle.RoundEndsFromSolved`.
- Game.Board.Scramble: leaves the loop through a `done` flag where the program uses `break`. It plays the same rounds.
- Game.Board.Scramble: does not recompute the flag at the reset. The program does not either. Every round makes at least 20 moves, and each move recomputes the flag, so the flag agrees with the cells when scrambling ends.
- Puzzle.Slide: its own contract only keeps the length and the marker. What a move does is stated by `SlideEffect`, `SlideMovesUnlessAtEdge` and `SlideUndo`.
