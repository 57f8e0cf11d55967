/**
  The grid logic of the Sudoku component: the clue mask computed from a
  freshly generated puzzle, the cell-edit rule (`handleCellChange`), the
  "board is full" test behind the game-over flag (`checkGameOver`), and the
  component state they act on (board, clue mask, game-over flag).
 */
module Game {
  import opened SudokuGrid
  import opened Generator

  /** Per-cell flags; true marks a clue, a cell filled by the generator. */
  type Mask = seq<seq<bool>>

  predicate IsMask(m: Mask) {
    |m| == Size && forall r :: 0 <= r < Size ==> |m[r]| == Size
  }

  /** What an edit puts in a cell: the empty string, or the integer the typed text parses to. */
  datatype Entry = Cleared | Typed(value: int)

  /** The cell value an entry stands for: the empty string becomes 0. */
  function EntryValue(e: Entry): int {
    match e
    case Cleared => 0
    case Typed(v) => v
  }

  /** A user's change to one cell. */
  datatype CellEdit = CellEdit(row: int, col: int, entry: Entry)

  /** The clue mask of a board: true exactly at its non-zero cells. */
  function ClueMask(g: Grid): (m: Mask)
    ensures |m| == |g|
    ensures forall r :: 0 <= r < |g| ==> |m[r]| == |g[r]|
    ensures forall r, c :: 0 <= r < |g| && 0 <= c < |g[r]| ==> (m[r][c] <==> g[r][c] != 0)
  {
    seq(|g|, r requires 0 <= r < |g| => seq(|g[r]|, c requires 0 <= c < |g[r]| => g[r][c] != 0))
  }

  /**
    handleCellChange: a clue cell is left alone; otherwise the result is a
    copy of the board with cell (row, col) replaced by the entry's value.
   */
  function CellChange(board: Grid, clues: Mask, row: int, col: int, e: Entry): (b: Grid)
    requires IsGrid(board) && IsMask(clues) && InBounds(row, col)
    ensures IsGrid(b)
    ensures clues[row][col] ==> b == board
    ensures !clues[row][col] ==> b[row][col] == EntryValue(e)
    ensures forall r, c :: 0 <= r < Size && 0 <= c < Size && (r != row || c != col) ==> b[r][c] == board[r][c]
  {
    if clues[row][col] then board else SetCell(board, row, col, EntryValue(e))
  }

  /** No cell of the board is 0. */
  predicate IsBoardFull(g: Grid) {
    forall r :: 0 <= r < |g| ==> forall c :: 0 <= c < |g[r]| ==> g[r][c] != 0
  }

  /** checkGameOver: the flag is raised when the board is full, and this check never lowers it. */
  function CheckGameOver(board: Grid, over: bool): (r: bool)
    ensures r <==> over || IsBoardFull(board)
  {
    if IsBoardFull(board) then true else over
  }

  /** The component's grid state. */
  datatype GameState = GameState(board: Grid, clues: Mask, over: bool)

  predicate ValidState(s: GameState) {
    IsGrid(s.board) && IsMask(s.clues)
  }

  /**
    A new game (first render or restart) on a freshly generated puzzle: the
    board is the puzzle, the mask is taken from it, the flag is cleared, and
    the check that runs whenever the board is set then applies.
   */
  function StartGame(puzzle: Grid): (s: GameState)
    requires IsGrid(puzzle)
    ensures ValidState(s) && s.board == puzzle
    ensures forall r, c :: 0 <= r < Size && 0 <= c < Size ==> (s.clues[r][c] <==> puzzle[r][c] != 0)
    ensures s.over <==> IsBoardFull(puzzle)
  {
    GameState(puzzle, ClueMask(puzzle), CheckGameOver(puzzle, false))
  }

  /**
    One edit. An edit of a clue cell returns before the board is set, so
    nothing happens; any other edit sets the board, and the game-over check
    that runs because the board changed follows.
   */
  function ApplyEdit(s: GameState, e: CellEdit): (t: GameState)
    requires ValidState(s) && InBounds(e.row, e.col)
    ensures ValidState(t) && t.clues == s.clues
    ensures t.board == CellChange(s.board, s.clues, e.row, e.col, e.entry)
    ensures s.clues[e.row][e.col] ==> t == s
    ensures !s.clues[e.row][e.col] ==> (t.over <==> s.over || IsBoardFull(t.board))
  {
    if s.clues[e.row][e.col] then s
    else
      var b := CellChange(s.board, s.clues, e.row, e.col, e.entry);
      GameState(b, s.clues, CheckGameOver(b, s.over))
  }

  /** Every edit names a cell of the board. */
  predicate EditsInBounds(edits: seq<CellEdit>) {
    forall i :: 0 <= i < |edits| ==> InBounds(edits[i].row, edits[i].col)
  }

  /** A session of edits, applied in order. */
  function Play(s: GameState, edits: seq<CellEdit>): (t: GameState)
    requires ValidState(s) && EditsInBounds(edits)
    ensures ValidState(t) && t.clues == s.clues
    decreases |edits|
  {
    if edits == [] then s else Play(ApplyEdit(s, edits[0]), edits[1..])
  }

  /**
    Clues are frozen: whatever the user types, every cell the mask marks
    keeps the value it had when the game started, and the game-over flag,
    once raised, stays raised.
   */
  lemma {:induction false} PlayKeepsClues(s: GameState, edits: seq<CellEdit>)
    requires ValidState(s) && EditsInBounds(edits)
    ensures forall r, c :: 0 <= r < Size && 0 <= c < Size && s.clues[r][c] ==>
      Play(s, edits).board[r][c] == s.board[r][c]
    ensures s.over ==> Play(s, edits).over
    decreases |edits|
  {
    if edits != [] {
      var s' := ApplyEdit(s, edits[0]);
      PlayKeepsClues(s', edits[1..]);
    }
  }

  /**
    In a new game, the clue cells are exactly the non-empty cells of the
    puzzle, and no edit ever changes them.
   */
  lemma NewGameFreezesClues(puzzle: Grid, edits: seq<CellEdit>)
    requires IsGrid(puzzle) && EditsInBounds(edits)
    ensures forall r, c :: 0 <= r < Size && 0 <= c < Size && puzzle[r][c] != 0 ==>
      Play(StartGame(puzzle), edits).board[r][c] == puzzle[r][c]
  {
    PlayKeepsClues(StartGame(puzzle), edits);
  }

  /**
    The mask of a generated puzzle: starting from a board without empty
    cells, a cell is a clue exactly when no clearing attempt chose it.
   */
  lemma PuzzleClues(s: Grid, picks: seq<Pos>)
    requires IsGrid(s) && IsBoardFull(s) && AllInBounds(picks)
    ensures forall r, c :: 0 <= r < Size && 0 <= c < Size ==>
      (ClueMask(RemoveCells(s, picks))[r][c] <==> (r, c) !in picks)
  {
  }

  /**
    A generated puzzle starts as a finished game exactly when no clearing
    attempt was made (the board had no empty cell to begin with).
   */
  lemma PuzzleFullIffNoRemovals(s: Grid, picks: seq<Pos>)
    requires IsGrid(s) && IsBoardFull(s) && AllInBounds(picks)
    ensures IsBoardFull(RemoveCells(s, picks)) <==> picks == []
    ensures StartGame(RemoveCells(s, picks)).over <==> picks == []
  {
    var p := RemoveCells(s, picks);
    if picks != [] {
      var q := picks[0];
      assert p[q.0][q.1] == 0;
    }
  }

  /** The edits that type the solution's digit into each of the given cells, in order. */
  function SolutionEdits(s: Grid, cells: seq<Pos>): (edits: seq<CellEdit>)
    requires IsGrid(s) && AllInBounds(cells)
    ensures EditsInBounds(edits) && |edits| == |cells|
  {
    seq(|cells|, i requires 0 <= i < |cells| => CellEdit(cells[i].0, cells[i].1, Typed(s[cells[i].0][cells[i].1])))
  }

  /**
    Typing the solution's digits into non-clue cells: a board that agrees with
    `sol` everywhere except in `cells` becomes `sol`.
   */
  lemma {:induction false} TypingSolutionCompletes(st: GameState, sol: Grid, cells: seq<Pos>)
    requires ValidState(st) && IsGrid(sol) && AllInBounds(cells)
    requires forall i :: 0 <= i < |cells| ==> !st.clues[cells[i].0][cells[i].1]
    requires forall r, c :: 0 <= r < Size && 0 <= c < Size && (r, c) !in cells ==> st.board[r][c] == sol[r][c]
    ensures Play(st, SolutionEdits(sol, cells)).board == sol
    decreases |cells|
  {
    var edits := SolutionEdits(sol, cells);
    if cells == [] {
      GridExt(st.board, sol);
    } else {
      var st' := ApplyEdit(st, edits[0]);
      var rest := cells[1..];
      assert SolutionEdits(sol, rest) == edits[1..];
      forall r, c | 0 <= r < Size && 0 <= c < Size && (r, c) !in rest
        ensures st'.board[r][c] == sol[r][c]
      {
        if (r, c) != cells[0] {
          assert (r, c) !in cells;
        }
      }
      TypingSolutionCompletes(st', sol, rest);
    }
  }

  /**
    A generated puzzle can be finished: typing the solution's digit into every
    cleared cell turns the board back into the solution and raises the
    game-over flag.
   */
  lemma SolvingPuzzleEndsGame(sol: Grid, picks: seq<Pos>)
    requires IsSolution(sol) && AllInBounds(picks)
    ensures Play(StartGame(RemoveCells(sol, picks)), SolutionEdits(sol, picks)).board == sol
    ensures Play(StartGame(RemoveCells(sol, picks)), SolutionEdits(sol, picks)).over
  {
    var p := RemoveCells(sol, picks);
    var st := StartGame(p);
    forall i | 0 <= i < |picks|
      ensures !st.clues[picks[i].0][picks[i].1]
    {
      assert p[picks[i].0][picks[i].1] == 0;
    }
    TypingSolutionCompletes(st, sol, picks);
    FullBoardEndsGame(p, SolutionEdits(sol, picks));
  }

  /** The game-over flag is up whenever the board is full. */
  predicate FlagCoversFullBoard(s: GameState) {
    IsBoardFull(s.board) ==> s.over
  }

  /**
    A new game starts with the flag up exactly on a full board, and every
    session of edits keeps it so: a blocked edit changes nothing, and any
    other edit is followed by the check.
   */
  lemma {:induction false} PlayKeepsFlagOnFullBoard(s: GameState, edits: seq<CellEdit>)
    requires ValidState(s) && EditsInBounds(edits)
    ensures FlagCoversFullBoard(s) ==> FlagCoversFullBoard(Play(s, edits))
    decreases |edits|
  {
    if edits != [] {
      PlayKeepsFlagOnFullBoard(ApplyEdit(s, edits[0]), edits[1..]);
    }
  }

  /** In every game, however the user edits, a full board has the flag up. */
  lemma FullBoardEndsGame(puzzle: Grid, edits: seq<CellEdit>)
    requires IsGrid(puzzle) && EditsInBounds(edits)
    ensures IsBoardFull(Play(StartGame(puzzle), edits).board) ==> Play(StartGame(puzzle), edits).over
  {
    PlayKeepsFlagOnFullBoard(StartGame(puzzle), edits);
  }

  /**
    The inputs are disabled while the game-over flag is up, so every edit of
    a session reaches a state whose flag is down.
   */
  predicate EditsWhileRunning(s: GameState, edits: seq<CellEdit>)
    requires ValidState(s) && EditsInBounds(edits)
    decreases |edits|
  {
    edits == [] || (!s.over && EditsWhileRunning(ApplyEdit(s, edits[0]), edits[1..]))
  }

  /**
    With edits accepted only while the game runs, the flag is up exactly when
    the board is full, as long as that held at the start.
   */
  lemma {:induction false} FlagExactlyOnFullBoard(s: GameState, edits: seq<CellEdit>)
    requires ValidState(s) && EditsInBounds(edits) && EditsWhileRunning(s, edits)
    requires s.over <==> IsBoardFull(s.board)
    ensures Play(s, edits).over <==> IsBoardFull(Play(s, edits).board)
    decreases |edits|
  {
    if edits != [] {
      FlagExactlyOnFullBoard(ApplyEdit(s, edits[0]), edits[1..]);
    }
  }

  /** In every game, the game is over exactly when the board is full. */
  lemma GameOverExactlyWhenFull(puzzle: Grid, edits: seq<CellEdit>)
    requires IsGrid(puzzle) && EditsInBounds(edits) && EditsWhileRunning(StartGame(puzzle), edits)
    ensures Play(StartGame(puzzle), edits).over <==> IsBoardFull(Play(StartGame(puzzle), edits).board)
  {
    FlagExactlyOnFullBoard(StartGame(puzzle), edits);
  }
}
