/**
  The puzzle generator (`generateSudoku`): a 9x9 board allocated empty, filled
  by backtracking search in row-major order with the digits 1..9 tried in
  increasing order, after which 40 clearing attempts are made at random
  positions (a position may repeat, so at most 40 cells are cleared).

  The board is the array that the generator's nested helpers share; here it is
  an `array2<int>` passed to each method. The random cell choices are a
  parameter: the sequence of (row, column) pairs the random source produced.
 */
module Generator {
  import opened SudokuGrid

  /** Number of random clearing attempts the generator makes. */
  const RemovalAttempts: int := 40

  /** The board's current contents as a grid value. */
  ghost function Snapshot(board: array2<int>): (g: Grid)
    reads board
    requires board.Length0 == Size && board.Length1 == Size
    ensures IsGrid(g)
    ensures forall r, c :: 0 <= r < Size && 0 <= c < Size ==> g[r][c] == board[r, c]
  {
    seq(Size, r requires 0 <= r < Size reads board =>
      seq(Size, c requires 0 <= c < Size reads board => board[r, c]))
  }

  /** A single cell write, `board[row][col] = v`. */
  method SetBoardCell(board: array2<int>, row: int, col: int, v: int)
    requires board.Length0 == Size && board.Length1 == Size && InBounds(row, col)
    modifies board
    ensures Snapshot(board) == SetCell(old(Snapshot(board)), row, col, v)
  {
    board[row, col] := v;
    GridExt(Snapshot(board), SetCell(old(Snapshot(board)), row, col, v));
  }

  /** Position of cell (r, c) in row-major order. */
  function Linear(r: int, c: int): int {
    r * 9 + c
  }

  /**
    The placement test of the search: scans the row and the column of
    (row, col), then the 3x3 box whose corner is (floor(row/3)*3,
    floor(col/3)*3), and answers whether `num` is absent from all three.
   */
  method IsValid(board: array2<int>, num: int, row: int, col: int) returns (ok: bool)
    requires board.Length0 == Size && board.Length1 == Size
    requires InBounds(row, col)
    ensures ok == CanPlace(Snapshot(board), num, row, col)
  {
    ghost var g := Snapshot(board);
    for x := 0 to Size
      invariant forall y :: 0 <= y < x ==> board[row, y] != num && board[y, col] != num
    {
      if board[row, x] == num || board[x, col] == num {
        assert Row(g, row)[x] == num || Column(g, col)[x] == num;
        return false;
      }
    }
    var boxRow := BoxCorner(row);
    var boxCol := BoxCorner(col);
    BoxMembership(g, row, col, num);
    for i := 0 to 3
      invariant forall p, q :: boxRow <= p < boxRow + i && boxCol <= q < boxCol + 3 ==> g[p][q] != num
    {
      var p := boxRow + i;
      for j := 0 to 3
        invariant forall q :: boxCol <= q < boxCol + j ==> g[p][q] != num
      {
        if board[p, boxCol + j] == num {
          return false;
        }
      }
    }
    return true;
  }

  /** `g` and `h` agree on every cell before position k in row-major order. */
  predicate AgreeBefore(g: Grid, h: Grid, k: int)
    requires IsGrid(g) && IsGrid(h)
  {
    forall r, c :: 0 <= r < Size && 0 <= c < Size && Linear(r, c) < k ==> h[r][c] == g[r][c]
  }

  /** Every non-empty cell of `g` has the same value in `h`. */
  predicate KeepsFilledCells(g: Grid, h: Grid)
    requires IsGrid(g) && IsGrid(h)
  {
    forall r, c :: 0 <= r < Size && 0 <= c < Size && g[r][c] != 0 ==> h[r][c] == g[r][c]
  }

  /** Every cell of `h` either is as in `g` or holds a digit. */
  predicate OnlyWritesDigits(g: Grid, h: Grid)
    requires IsGrid(g) && IsGrid(h)
  {
    forall r, c :: 0 <= r < Size && 0 <= c < Size ==> h[r][c] == g[r][c] || IsDigit(h[r][c])
  }

  /** No cell at or after position k in row-major order is empty. */
  predicate FilledFrom(h: Grid, k: int)
    requires IsGrid(h)
  {
    forall r, c :: 0 <= r < Size && 0 <= c < Size && k <= Linear(r, c) ==> h[r][c] != 0
  }

  /**
    What a search from row-major position k that answers `ok` does to the
    board, taking it from `g` to `h`: cells before k are untouched, non-empty
    cells keep their value, every written value is a digit, a failed search
    restores the board exactly, a successful one leaves no empty cell from k
    on, and no repeated digit is ever introduced.
   */
  predicate SearchOutcome(g: Grid, h: Grid, k: int, ok: bool)
    requires IsGrid(g) && IsGrid(h)
  {
    && AgreeBefore(g, h, k)
    && KeepsFilledCells(g, h)
    && OnlyWritesDigits(g, h)
    && (!ok ==> h == g)
    && (ok ==> FilledFrom(h, k))
    && (NoConflicts(g) ==> NoConflicts(h))
  }

  /** A search that changes nothing: it fails, or it succeeds past the last cell. */
  lemma SearchOutcomeUnchanged(g: Grid, k: int, ok: bool)
    requires IsGrid(g)
    requires ok ==> k >= 81
    ensures SearchOutcome(g, g, k, ok)
  {
  }

  /**
    One step of the search: if `mid` is `g` with the empty or kept cell (r, c)
    now non-empty, and the search from the next cell took `mid` to `h` with a
    success, then the search from (r, c) took `g` to `h` with a success.
   */
  lemma {:induction false} SearchStepComposes(g: Grid, mid: Grid, h: Grid, r: int, c: int)
    requires IsGrid(g) && IsGrid(mid) && IsGrid(h) && InBounds(r, c)
    requires mid == SetCell(g, r, c, mid[r][c]) && mid[r][c] != 0
    requires g[r][c] == 0 ==> IsDigit(mid[r][c])
    requires g[r][c] != 0 ==> mid[r][c] == g[r][c]
    requires NoConflicts(g) ==> NoConflicts(mid)
    requires SearchOutcome(mid, h, Linear(r, c) + 1, true)
    ensures SearchOutcome(g, h, Linear(r, c), true)
  {
    assert h[r][c] == mid[r][c];
    forall i, j | 0 <= i < Size && 0 <= j < Size && (i != r || j != c)
      ensures mid[i][j] == g[i][j]
    {
    }
  }

  /**
    The backtracking search from cell (row, col) onwards, on board values
    (col == 9 stands for the first cell of the next row). Non-empty cells are
    skipped; in an empty cell the digits 1..9 are tried in increasing order
    (`TryDigits`). It answers true, with the board it reached, once past the
    last row, and false, with the board it was given, when no digit works.
   */
  function Search(g: Grid, row: int, col: int): (res: (bool, Grid))
    requires IsGrid(g) && 0 <= row < Size && 0 <= col <= Size
    ensures IsGrid(res.1)
    decreases 81 - Linear(row, col), 1, 0
  {
    var (r, c) := if col == Size then (row + 1, 0) else (row, col);
    if r == Size then (true, g)
    else if g[r][c] != 0 then Search(g, r, c + 1)
    else TryDigits(g, r, c, 1)
  }

  /**
    The digit loop of the search in the empty cell (r, c): the first digit
    from `num` on that passes the placement test and lets the search from the
    next cell succeed is kept; a digit whose search fails is undone and the
    next one is tried.
   */
  function TryDigits(g: Grid, r: int, c: int, num: int): (res: (bool, Grid))
    requires IsGrid(g) && InBounds(r, c) && 1 <= num <= 10
    ensures IsGrid(res.1)
    decreases 81 - Linear(r, c), 0, 10 - num
  {
    if num > 9 then (false, g)
    else if CanPlace(g, num, r, c) then
      var attempt := Search(SetCell(g, r, c, num), r, c + 1);
      if attempt.0 then attempt else TryDigits(g, r, c, num + 1)
    else TryDigits(g, r, c, num + 1)
  }

  /** How the search starts: past the last row, at a filled cell, or at an empty one. */
  lemma SearchUnfold(g: Grid, row: int, col: int, r: int, c: int)
    requires IsGrid(g) && 0 <= row < Size && 0 <= col <= Size
    requires (r, c) == if col == Size then (row + 1, 0) else (row, col)
    ensures r == Size ==> Search(g, row, col) == (true, g)
    ensures r < Size && g[r][c] != 0 ==> Search(g, row, col) == Search(g, r, c + 1)
    ensures r < Size && g[r][c] == 0 ==> Search(g, row, col) == TryDigits(g, r, c, 1)
  {
  }

  /** One round of the digit loop: the digit is kept, or the loop moves on to the next one. */
  lemma TryDigitsUnfold(g: Grid, r: int, c: int, num: int)
    requires IsGrid(g) && InBounds(r, c) && 1 <= num <= 9
    ensures CanPlace(g, num, r, c) && Search(SetCell(g, r, c, num), r, c + 1).0 ==>
      TryDigits(g, r, c, num) == Search(SetCell(g, r, c, num), r, c + 1)
    ensures !(CanPlace(g, num, r, c) && Search(SetCell(g, r, c, num), r, c + 1).0) ==>
      TryDigits(g, r, c, num) == TryDigits(g, r, c, num + 1)
  {
  }

  /**
    What the search promises: cells before (row, col) are untouched, non-empty
    cells keep their value, only digits are written, a failure gives the board
    back unchanged, a success leaves no empty cell from (row, col) on, and no
    repeated digit is introduced.
   */
  lemma {:induction false} SearchMeetsOutcome(g: Grid, row: int, col: int)
    requires IsGrid(g) && 0 <= row < Size && 0 <= col <= Size
    ensures SearchOutcome(g, Search(g, row, col).1, Linear(row, col), Search(g, row, col).0)
    decreases 81 - Linear(row, col), 1, 0
  {
    var (r, c) := if col == Size then (row + 1, 0) else (row, col);
    if r == Size {
      SearchOutcomeUnchanged(g, Linear(row, col), true);
    } else if g[r][c] != 0 {
      var res := Search(g, r, c + 1);
      SearchMeetsOutcome(g, r, c + 1);
      if res.0 {
        GridExt(g, SetCell(g, r, c, g[r][c]));
        SearchStepComposes(g, g, res.1, r, c);
      } else {
        SearchOutcomeUnchanged(g, Linear(row, col), false);
      }
    } else {
      TryDigitsMeetsOutcome(g, r, c, 1);
    }
  }

  /** The digit loop keeps the same promises as the search from its cell. */
  lemma {:induction false} TryDigitsMeetsOutcome(g: Grid, r: int, c: int, num: int)
    requires IsGrid(g) && InBounds(r, c) && g[r][c] == 0 && 1 <= num <= 10
    ensures SearchOutcome(g, TryDigits(g, r, c, num).1, Linear(r, c), TryDigits(g, r, c, num).0)
    decreases 81 - Linear(r, c), 0, 10 - num
  {
    if num > 9 {
      SearchOutcomeUnchanged(g, Linear(r, c), false);
    } else if CanPlace(g, num, r, c) {
      var mid := SetCell(g, r, c, num);
      var attempt := Search(mid, r, c + 1);
      SearchMeetsOutcome(mid, r, c + 1);
      if attempt.0 {
        if NoConflicts(g) {
          PlacementKeepsNoConflicts(g, num, r, c);
        }
        SearchStepComposes(g, mid, attempt.1, r, c);
      } else {
        TryDigitsMeetsOutcome(g, r, c, num + 1);
      }
    } else {
      TryDigitsMeetsOutcome(g, r, c, num + 1);
    }
  }

  /**
    fillBoard on the shared board: it answers what `Search` answers on the
    board's contents and leaves the board as `Search` says, trying the digits
    in increasing order and undoing each digit whose search fails.
   */
  method FillBoard(board: array2<int>, row: int, col: int) returns (ok: bool)
    requires board.Length0 == Size && board.Length1 == Size
    requires 0 <= row < Size && 0 <= col <= Size
    modifies board
    decreases 81 - Linear(row, col)
    ensures (ok, Snapshot(board)) == Search(old(Snapshot(board)), row, col)
  {
    var r, c := row, col;
    if c == Size {
      r, c := r + 1, 0;
    }
    ghost var start := Snapshot(board);
    SearchUnfold(start, row, col, r, c);
    if r == Size {
      return true;
    }
    if board[r, c] != 0 {
      ok := FillBoard(board, r, c + 1);
      return;
    }
    var num := 1;
    while num <= 9
      invariant 1 <= num <= 10
      invariant Snapshot(board) == start
      invariant Search(start, row, col) == TryDigits(start, r, c, num)
    {
      TryDigitsUnfold(start, r, c, num);
      var valid := IsValid(board, num, r, c);
      if valid {
        SetBoardCell(board, r, c, num);
        ghost var mid := Snapshot(board);
        ok := FillBoard(board, r, c + 1);
        if ok {
          return;
        }
        SearchMeetsOutcome(mid, r, c + 1);
        SetBoardCell(board, r, c, 0);
        UndoPlacement(start, r, c, num);
      }
      num := num + 1;
    }
    return false;
  }

  /** Every chosen position names a cell of the board. */
  predicate AllInBounds(picks: seq<Pos>) {
    forall i :: 0 <= i < |picks| ==> InBounds(picks[i].0, picks[i].1)
  }

  /**
    The board after clearing the chosen cells one after the other: a cell is
    empty exactly when it was chosen at least once, and keeps its value
    otherwise.
   */
  function RemoveCells(g: Grid, picks: seq<Pos>): (h: Grid)
    requires IsGrid(g) && AllInBounds(picks)
    ensures IsGrid(h)
    ensures forall r, c :: 0 <= r < Size && 0 <= c < Size ==>
      h[r][c] == if (r, c) in picks then 0 else g[r][c]
    decreases |picks|
  {
    if picks == [] then g
    else
      var p := picks[|picks| - 1];
      var init := picks[..|picks| - 1];
      assert picks == init + [p];
      SetCell(RemoveCells(g, init), p.0, p.1, 0)
  }

  /** The clearing loop: sets each chosen cell to 0, in order. */
  method RemoveClues(board: array2<int>, picks: seq<Pos>)
    requires board.Length0 == Size && board.Length1 == Size
    requires AllInBounds(picks)
    modifies board
    ensures Snapshot(board) == RemoveCells(old(Snapshot(board)), picks)
  {
    ghost var start := Snapshot(board);
    for i := 0 to |picks|
      invariant Snapshot(board) == RemoveCells(start, picks[..i])
    {
      var (row, col) := picks[i];
      SetBoardCell(board, row, col, 0);
      assert picks[..i + 1] == picks[..i] + [picks[i]];
    }
    assert picks[..|picks|] == picks;
  }

  /**
    generateSudoku: allocate an empty board, run the search from the first
    cell, then make the clearing attempts. `solution` is the board as the
    search left it; `filled` is the search's answer, which the generator
    itself ignores. Both are `Search` from the empty board, so every call
    fills in the same grid and only the cleared cells depend on the choices.
   */
  method GenerateSudoku(picks: seq<Pos>) returns (board: array2<int>, filled: bool, ghost solution: Grid)
    requires |picks| == RemovalAttempts && AllInBounds(picks)
    ensures fresh(board) && board.Length0 == Size && board.Length1 == Size
    ensures (filled, solution) == Search(EmptyGrid(), 0, 0)
    ensures IsGrid(solution) && NoConflicts(solution)
    ensures filled ==> IsSolution(solution)
    ensures !filled ==> solution == EmptyGrid()
    ensures Snapshot(board) == RemoveCells(solution, picks)
    ensures forall r, c :: 0 <= r < Size && 0 <= c < Size ==> 0 <= board[r, c] <= 9
  {
    board := new int[Size, Size]((r, c) => 0);
    GridExt(Snapshot(board), EmptyGrid());
    EmptyGridHasNoConflicts();
    filled := FillBoard(board, 0, 0);
    solution := Snapshot(board);
    SearchMeetsOutcome(EmptyGrid(), 0, 0);
    if !filled {
      GridExt(solution, EmptyGrid());
    }
    RemoveClues(board, picks);
  }

  /** Putting back the solution's digit in every empty cell of the puzzle gives the solution back. */
  lemma RestoreAfterRemoval(s: Grid, picks: seq<Pos>)
    requires IsGrid(s) && AllInBounds(picks)
    ensures Restore(RemoveCells(s, picks), s) == s
  {
    GridExt(Restore(RemoveCells(s, picks), s), s);
  }

  /** `p` with each empty cell taken from `s`. */
  function Restore(p: Grid, s: Grid): (h: Grid)
    requires IsGrid(p) && IsGrid(s)
    ensures IsGrid(h)
  {
    seq(Size, r requires 0 <= r < Size =>
      seq(Size, c requires 0 <= c < Size => if p[r][c] == 0 then s[r][c] else p[r][c]))
  }

  /** The cells in which two boards differ. */
  function Changed(g: Grid, h: Grid): set<Pos>
    requires IsGrid(g) && IsGrid(h)
  {
    set r, c | 0 <= r < Size && 0 <= c < Size && g[r][c] != h[r][c] :: (r, c)
  }

  /** A sequence has at least as many entries as it has distinct entries. */
  lemma {:induction false} DistinctEntriesAtMostLength<T>(s: seq<T>)
    ensures |set x | x in s| <= |s|
  {
    if s != [] {
      var init := s[..|s| - 1];
      DistinctEntriesAtMostLength(init);
      assert s == init + [s[|s| - 1]];
      assert (set x | x in s) == (set x | x in init) + {s[|s| - 1]};
    }
  }

  /** Clearing changes at most one cell per attempt. */
  lemma AtMostOneCellPerAttempt(s: Grid, picks: seq<Pos>)
    requires IsGrid(s) && AllInBounds(picks)
    ensures |Changed(s, RemoveCells(s, picks))| <= |picks|
  {
    var changed := Changed(s, RemoveCells(s, picks));
    var chosen := set x | x in picks;
    assert changed <= chosen;
    DistinctEntriesAtMostLength(picks);
    assert chosen == changed + (chosen - changed);
  }
}
