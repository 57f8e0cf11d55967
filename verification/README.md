# Sudoku puzzle generator and grid rules, in Dafny

This project models the grid logic of a browser Sudoku game. The game's one
algorithm is `generateSudoku`. It fills an empty 9x9 board by backtracking
search, with the digits 1..9 tried in increasing order in row-major order. It
then makes 40 clearing attempts at random positions; a position may repeat, so
at most 40 cells are cleared. The board it returns is the puzzle.

The React component around it holds three pieces of grid logic, and these are
modelled too:

- the clue mask (a cell is a clue when it is non-zero in the fresh puzzle);
- the cell-edit rule (`handleCellChange`);
- the full-board test behind the game-over flag (`checkGameOver`).

Files:

- `grid.dfy`, module `SudokuGrid`: the board as `seq<seq<int>>` (0 = empty)
  and its rows, columns and 3x3 boxes. It holds the placement test as a
  specification (`CanPlace`) and the "no repeated digit in any unit"
  invariant (`NoConflicts`). It also proves the lemmas the search needs, and
  the pigeonhole fact that a solved board's units are permutations of 1..9.
- `generator.dfy`, module `Generator`: `generateSudoku` in imperative form. The
  board is an `array2<int>` that is changed in place. `IsValid`, `FillBoard`
  (recursive, with undo on backtrack) and the clearing loop `RemoveClues` are
  methods. Each one is proved against a function of the board's contents,
  which the ghost function `Snapshot` takes from the array.
- `game.dfy`, module `Game`: the component's grid logic as pure functions over
  the board value. The component state (board, clue mask, game-over flag) is
  a datatype, and a session of edits is a fold over it.

The random choices of the clearing loop are a parameter: a sequence of
(row, column) pairs, each in 0..8, with 40 of them as in the source. The
search's boolean answer is ignored by the source (src/components/Sudoku.js:54).
Here `GenerateSudoku` returns it as `filled`, along with the ghost board the
search produced (`solution`). Everything proved about success depends on
`filled`.

How the model follows the code at the points where it matters:

- The source makes exactly 40 clearing attempts
  (src/components/Sudoku.js:57), and `GenerateSudoku` requires exactly 40
  positions.
- Each digit whose recursive search fails is undone straight away (line 47),
  and `FillBoard` and `TryDigits` do the same.
- The source returns the board whatever the search answered (lines 54 and 63).
  The model returns the same board, and also returns the answer as `filled`.
- The board starts all zeros (line 5) and the digit order is fixed (line 41).
  So the search always fills in the same grid, `Search(EmptyGrid(), 0, 0)`,
  and only the cleared cells depend on the random positions.
- An edit of a clue cell returns before the board is set (line 80), so the
  board-change effect (lines 75-77) does not run for it. `ApplyEdit` leaves the
  state untouched in that case and runs the game-over check after every other
  edit.

## Model

| member | source | states |
|---|---|---|
| `Generator.IsValid` | src/components/Sudoku.js:7-25 | answers true exactly when `num` occurs nowhere in the cell's row, nowhere in its column, and nowhere in the 3x3 box whose corner is (floor(row/3)*3, floor(col/3)*3) (`CanPlace`) |
| `SudokuGrid.BoxMembership` | src/components/Sudoku.js:14-22 | a value is absent from `Box` exactly when none of the nine cells from the corner (floor(row/3)*3, floor(col/3)*3) holds it, which links the box scan to the box unit |
| `Generator.Search` | src/components/Sudoku.js:27-52 | the value-level search from (row, col): column 9 moves to the first cell of the next row, past the last row it answers true with the board as it is, a non-zero cell is skipped, and an empty cell goes to the digit loop; the board it returns is again 9x9 |
| `Generator.TryDigits` | src/components/Sudoku.js:41-51 | the digit loop in an empty cell: the digits from `num` to 9 are tried in increasing order, the first one that passes the placement test and whose search from the next cell succeeds is kept, a digit whose search fails is dropped before the next one, and when none is left it answers false with the board it was given |
| `Generator.FillBoard` | src/components/Sudoku.js:27-52 | the search on the shared board answers, and leaves the board, exactly as `Search` does from the board's contents at (row, col): row-major order, filled cells skipped, digits 1..9 tried in increasing order, a digit whose search fails undone before the next |
| `Generator.SearchMeetsOutcome` | src/components/Sudoku.js:27-52 | the search from (row, col) leaves earlier cells in row-major order untouched, keeps non-zero cells, writes only digits 1..9, gives the board back unchanged when it answers false, leaves no empty cell from (row, col) on when it answers true, and introduces no repeated digit in any unit |
| `Generator.TryDigitsMeetsOutcome` | src/components/Sudoku.js:41-51 | the digit loop in an empty cell keeps the same promises as the search from that cell |
| `Generator.SearchStepComposes` | src/components/Sudoku.js:37-45 | a skipped filled cell, or a written digit, followed by a successful search from the next cell, is a successful search from this cell |
| `Generator.SearchOutcomeUnchanged` | src/components/Sudoku.js:33-35 | a search that leaves the board alone is a valid failure, and a valid success once past the last cell |
| `SudokuGrid.PlacementKeepsNoConflicts` | src/components/Sudoku.js:42-43 | writing a digit that passes the placement test into an empty cell of a board with no repeated digit in any row, column or box keeps it so |
| `SudokuGrid.PlacementKeepsLinesFree` | src/components/Sudoku.js:42-43 | the same for each row and each column |
| `SudokuGrid.PlacementKeepsBoxFree` | src/components/Sudoku.js:42-43 | the same for each 3x3 box |
| `SudokuGrid.UndoPlacement` | src/components/Sudoku.js:43-47 | writing a cell and then resetting it to its old value (0) gives back the original board |
| `SudokuGrid.SolutionUnitsArePermutations` | src/components/Sudoku.js:27-54 | on a board whose cells are all digits and which has no repeated digit in any unit, every row, every column and every 3x3 box is a permutation of 1..9 |
| `SudokuGrid.NineDistinctDigitsAreAll` | src/components/Sudoku.js:27-54 | nine distinct digits from 1..9 are all nine digits (pigeonhole) |
| `SudokuGrid.EmptyGridHasNoConflicts` | src/components/Sudoku.js:5 | the all-zero board the generator allocates has no repeated digit |
| `Generator.SetBoardCell` | src/components/Sudoku.js:43 | a single cell write changes that cell of the board's contents and no other |
| `Generator.RemoveCells` | src/components/Sudoku.js:57-61 | after the clearing attempts a cell is 0 exactly when some attempt chose it, and keeps its value otherwise; so only zeros are written and values stay in range |
| `Generator.RemoveClues` | src/components/Sudoku.js:57-61 | the clearing loop leaves the board equal to `RemoveCells` of its previous contents |
| `Generator.AtMostOneCellPerAttempt` | src/components/Sudoku.js:57-61 | the clearing attempts change at most as many cells as there are attempts (at most 40) |
| `Generator.RestoreAfterRemoval` | src/components/Sudoku.js:57-61 | putting back the pre-clearing value in every cell that is 0 after clearing gives the pre-clearing board back |
| `Generator.GenerateSudoku` | src/components/Sudoku.js:4-64 | with 40 in-range choices: the search's answer and board are `Search` from the empty board at (0, 0), the same on every call; that board has no repeated digit in any unit; if the search succeeded it is a solved board, otherwise it is all zeros; the returned board is that board cleared at the chosen cells; every returned value is in 0..9 |
| `Game.ClueMask` | src/components/Sudoku.js:72 | the mask has the board's shape and is true exactly at the board's non-zero cells |
| `Game.StartGame` | src/components/Sudoku.js:86-91 | a new game shows the puzzle; its clues are exactly the puzzle's non-zero cells; the game-over flag holds exactly when the puzzle is already full |
| `Game.PuzzleClues` | src/components/Sudoku.js:89 | on a puzzle cleared from a board without empty cells, a cell is a clue exactly when no clearing attempt chose it |
| `Game.CellChange` | src/components/Sudoku.js:79-84 | an edit of a clue cell leaves the board unchanged; otherwise the edited cell becomes 0 for empty input or the typed value, and every other cell is untouched |
| `Game.ApplyEdit` | src/components/Sudoku.js:75-84 | the new board is the `CellChange` of the old one and the mask is kept; an edit of a clue cell changes nothing (not even the flag); after any other edit the flag is up exactly when it was up before or the new board is full |
| `Game.Play` | src/components/Sudoku.js:79-84 | a session of edits keeps the clue mask and the board's shape |
| `Game.PlayKeepsClues` | src/components/Sudoku.js:80 | whatever edits the user makes, every clue cell keeps its starting value, and a raised game-over flag stays raised |
| `Game.NewGameFreezesClues` | src/components/Sudoku.js:72-84 | in a new game, every non-zero cell of the puzzle keeps its value under any session of edits |
| `Game.CheckGameOver` | src/components/Sudoku.js:93-98 | the flag afterwards is raised exactly when it was already raised or every cell is non-zero; the check never lowers it |
| `Game.PuzzleFullIffNoRemovals` | src/components/Sudoku.js:93-98 | a puzzle cleared from a board without empty cells is full, and a new game on it starts over, exactly when no clearing attempt was made |
| `Game.TypingSolutionCompletes` | src/components/Sudoku.js:79-84 | typing a solution's digit into each non-clue cell where the board differs from it turns the board into that solution |
| `Game.SolvingPuzzleEndsGame` | src/components/Sudoku.js:93-98 | on a generated puzzle, typing the solution's digit into every cleared cell gives the solution back and raises the game-over flag |
| `Game.PlayKeepsFlagOnFullBoard` | src/components/Sudoku.js:75-98 | if the flag is up whenever the board is full, it stays so through any session of edits, blocked clue edits included |
| `Game.FullBoardEndsGame` | src/components/Sudoku.js:75-98 | in a new game, after any session of edits, a full board has the game-over flag up |
| `Game.FlagExactlyOnFullBoard` | src/components/Sudoku.js:75-98 | when the flag matches the board at the start and every edit comes while the flag is down (the inputs are disabled once it is up), the flag is up exactly when the board is full after the session |
| `Game.GameOverExactlyWhenFull` | src/components/Sudoku.js:86-113 | in a new game whose edits all come while the inputs are enabled, the game is over exactly when every cell is non-zero |

## Left out

- Rendering, JSX, `useState`/`useEffect` scheduling and the stylesheet import.
  The effects are modelled only by what they compute: the mask is taken from
  the fresh board, and the game-over check runs whenever the board is set
  (a new game, or an edit of a cell that is not a clue).
- The `disabled` attribute on the inputs (line 113) is not part of `Play`,
  which accepts edits in any state. It is modelled as the precondition
  `EditsWhileRunning` of `FlagExactlyOnFullBoard` and `GameOverExactlyWhenFull`,
  which gives the converse "flag up only on a full board". The clue part of
  it is the guard inside `handleCellChange`, modelled by `Game.CellChange`.
- `Math.random()` and the floating-point `Math.floor(Math.random() * 9)`. They
  are replaced by the injected sequence of positions in 0..8.
- `parseInt` on the typed text, including `NaN` for text that is not a number.
  An edit is either empty or an already-parsed integer (`Game.Entry`).
- A proof that the search from the first cell of the empty board succeeds, and
  which grid it produces. The source ignores the answer, and proving it
  amounts to running the search, so every success property depends on
  `filled`; the grid is named only as `Search(EmptyGrid(), 0, 0)`.
- Solution uniqueness, and checking that the user's entries are correct. The
  code does neither.
- Calls with positions outside the board, and an edit before the mount effect
  has set the mask (the source would fail on an undefined row). The model's
  preconditions require a 9x9 mask and in-range positions. `FillBoard` accepts
  every (row, col) pair the source passes.
- JavaScript numbers are doubles. Every value here is a small integer, so no
  rounding or overflow can happen; cells are modelled as unbounded `int`.
- The source's board is an array of nine separate row arrays. It is modelled
  as one `array2<int>`, which has the same cells and no aliasing between rows;
  `generateSudoku` never shares a row array, so nothing is lost.
