/**
  The Sudoku board and its rules: a 9x9 grid of integers in which 0 means an
  empty cell, the rows, columns and 3x3 boxes ("units") of a cell, the
  placement test that the generator applies before writing a digit, and the
  "no duplicate digit in any unit" invariant the generator preserves.
 */
module SudokuGrid {

  /** A board as the program holds it: rows of cells, 0 meaning empty. */
  type Grid = seq<seq<int>>

  /** A cell position (row, column). */
  type Pos = (int, int)

  const Size: int := 9

  predicate IsGrid(g: Grid) {
    |g| == Size && forall r :: 0 <= r < Size ==> |g[r]| == Size
  }

  predicate InBounds(r: int, c: int) {
    0 <= r < Size && 0 <= c < Size
  }

  predicate IsDigit(v: int) {
    1 <= v <= 9
  }

  /** The board with every cell empty, as the generator allocates it. */
  function EmptyGrid(): (g: Grid)
    ensures IsGrid(g)
    ensures forall r, c :: 0 <= r < Size && 0 <= c < Size ==> g[r][c] == 0
  {
    seq(Size, r => seq(Size, c => 0))
  }

  /** `g` with cell (r, c) replaced by `v`. */
  function SetCell(g: Grid, r: int, c: int, v: int): (h: Grid)
    requires IsGrid(g) && InBounds(r, c)
    ensures IsGrid(h)
    ensures h[r][c] == v
    ensures forall i, j :: InBounds(i, j) && (i != r || j != c) ==> h[i][j] == g[i][j]
  {
    g[r := g[r][c := v]]
  }

  /** Writing a cell and then writing back its old value gives the original grid. */
  lemma UndoPlacement(g: Grid, r: int, c: int, v: int)
    requires IsGrid(g) && InBounds(r, c)
    ensures SetCell(SetCell(g, r, c, v), r, c, g[r][c]) == g
  {
    GridExt(SetCell(SetCell(g, r, c, v), r, c, g[r][c]), g);
  }

  /** Two grids that agree on every cell are the same grid. */
  lemma GridExt(g: Grid, h: Grid)
    requires IsGrid(g) && IsGrid(h)
    requires forall r, c :: 0 <= r < Size && 0 <= c < Size ==> g[r][c] == h[r][c]
    ensures g == h
  {
    forall r | 0 <= r < Size
      ensures g[r] == h[r]
    {
      assert forall c :: 0 <= c < Size ==> g[r][c] == h[r][c];
    }
  }

  /** First row (or column) of the box holding row (or column) x: floor(x / 3) * 3. */
  function BoxCorner(x: int): (b: int)
    requires 0 <= x < Size
    ensures 0 <= b <= x < b + 3 && b <= Size - 3
    ensures b % 3 == 0
  {
    (x / 3) * 3
  }

  /** The nine cells of row r, left to right. */
  function Row(g: Grid, r: int): (s: seq<int>)
    requires IsGrid(g) && 0 <= r < Size
    ensures |s| == Size && forall c :: 0 <= c < Size ==> s[c] == g[r][c]
  {
    g[r]
  }

  /** The nine cells of column c, top to bottom. */
  function Column(g: Grid, c: int): (s: seq<int>)
    requires IsGrid(g) && 0 <= c < Size
    ensures |s| == Size && forall r :: 0 <= r < Size ==> s[r] == g[r][c]
  {
    seq(Size, r requires 0 <= r < Size => g[r][c])
  }

  /** The nine cells of the 3x3 box that holds (r, c), row by row. */
  function Box(g: Grid, r: int, c: int): (s: seq<int>)
    requires IsGrid(g) && InBounds(r, c)
    ensures |s| == Size
    ensures forall k :: 0 <= k < Size ==>
      s[k] == g[BoxCorner(r) + k / 3][BoxCorner(c) + k % 3]
  {
    seq(Size, k requires 0 <= k < Size => g[BoxCorner(r) + k / 3][BoxCorner(c) + k % 3])
  }

  /** Where a cell (i, j) of the box of (r, c) sits in Box(g, r, c). */
  lemma BoxIndex(r: int, c: int, i: int, j: int)
    requires InBounds(r, c) && InBounds(i, j)
    requires BoxCorner(i) == BoxCorner(r) && BoxCorner(j) == BoxCorner(c)
    ensures var k := (i - BoxCorner(r)) * 3 + (j - BoxCorner(c));
      0 <= k < Size && k / 3 == i - BoxCorner(r) && k % 3 == j - BoxCorner(c)
  {
  }

  /** A value is in the box of (row, col) exactly when one of its nine cells holds it. */
  lemma BoxMembership(g: Grid, row: int, col: int, v: int)
    requires IsGrid(g) && InBounds(row, col)
    ensures v !in Box(g, row, col) <==>
      forall p, q :: BoxCorner(row) <= p < BoxCorner(row) + 3 && BoxCorner(col) <= q < BoxCorner(col) + 3 ==> g[p][q] != v
  {
    var s := Box(g, row, col);
    var br, bc := BoxCorner(row), BoxCorner(col);
    if v in s {
      var k :| 0 <= k < |s| && s[k] == v;
      assert g[br + k / 3][bc + k % 3] == v;
    } else {
      forall p, q | br <= p < br + 3 && bc <= q < bc + 3
        ensures g[p][q] != v
      {
        BoxOffsetSplit(p - br, q - bc);
        assert s[(p - br) * 3 + (q - bc)] == g[p][q];
      }
    }
  }

  /**
    The placement test: `num` may go in (row, col) exactly when it occurs
    nowhere in that row, that column, or that cell's 3x3 box.
   */
  predicate CanPlace(g: Grid, num: int, row: int, col: int)
    requires IsGrid(g) && InBounds(row, col)
  {
    num !in Row(g, row) && num !in Column(g, col) && num !in Box(g, row, col)
  }

  /** No non-zero value occurs twice in `s`. */
  predicate NoRepeats(s: seq<int>) {
    forall i, j :: 0 <= i < j < |s| && s[i] != 0 ==> s[i] != s[j]
  }

  /** No row, column or box of `g` holds the same non-zero value twice. */
  predicate NoConflicts(g: Grid)
    requires IsGrid(g)
  {
    && (forall u :: 0 <= u < Size ==> NoRepeats(Row(g, u)) && NoRepeats(Column(g, u)))
    && (forall r, c :: 0 <= r < Size && 0 <= c < Size ==> NoRepeats(Box(g, r, c)))
  }

  /** A solved board: every cell holds a digit 1..9 and no unit repeats one. */
  predicate IsSolution(g: Grid) {
    && IsGrid(g)
    && (forall r, c :: 0 <= r < Size && 0 <= c < Size ==> IsDigit(g[r][c]))
    && NoConflicts(g)
  }

  /** `s` lists the digits 1..9, each exactly once. */
  predicate IsDigitPermutation(s: seq<int>) {
    && |s| == Size
    && (forall i :: 0 <= i < |s| ==> IsDigit(s[i]))
    && NoRepeats(s)
    && (forall d :: 1 <= d <= 9 ==> d in s)
  }

  lemma EmptyGridHasNoConflicts()
    ensures NoConflicts(EmptyGrid())
  {
    var g := EmptyGrid();
    forall u | 0 <= u < Size
      ensures NoRepeats(Row(g, u)) && NoRepeats(Column(g, u))
    {
    }
    forall r, c | InBounds(r, c)
      ensures NoRepeats(Box(g, r, c))
    {
    }
  }

  /** Writing into an empty slot a value that `s` does not contain keeps `s` free of repeats. */
  lemma {:induction false} NoRepeatsUpdate(s: seq<int>, k: int, v: int)
    requires NoRepeats(s) && 0 <= k < |s| && s[k] == 0 && v !in s
    ensures NoRepeats(s[k := v])
  {
    var t := s[k := v];
    forall i, j | 0 <= i < j < |t| && t[i] != 0
      ensures t[i] != t[j]
    {
      if i == k {
        assert t[j] == s[j];
      } else if j == k {
        assert t[i] == s[i];
      } else {
        assert t[i] == s[i] && t[j] == s[j];
      }
    }
  }

  /** The row and the column of (row, col) gain `num` without a repeat; the other rows and columns are untouched. */
  lemma {:induction false} PlacementKeepsLinesFree(g: Grid, num: int, row: int, col: int, u: int)
    requires IsGrid(g) && InBounds(row, col) && 0 <= u < Size
    requires NoConflicts(g) && g[row][col] == 0 && CanPlace(g, num, row, col)
    ensures NoRepeats(Row(SetCell(g, row, col, num), u))
    ensures NoRepeats(Column(SetCell(g, row, col, num), u))
  {
    var h := SetCell(g, row, col, num);
    if u == row {
      assert Row(h, u) == Row(g, u)[col := num];
      NoRepeatsUpdate(Row(g, u), col, num);
    } else {
      assert Row(h, u) == Row(g, u);
    }
    if u == col {
      assert Column(h, u) == Column(g, u)[row := num];
      NoRepeatsUpdate(Column(g, u), row, num);
    } else {
      assert Column(h, u) == Column(g, u);
    }
  }

  /** The k-th cell of a box lies in that box. */
  lemma BoxOffsetStaysInBox(b: int, k: int)
    requires 0 <= b < Size && b % 3 == 0 && 0 <= k < Size
    ensures BoxCorner(b + k / 3) == b && BoxCorner(b + k % 3) == b
  {
  }

  /** Offset (i, j) inside a box is cell i * 3 + j of Box. */
  lemma BoxOffsetSplit(i: int, j: int)
    requires 0 <= i < 3 && 0 <= j < 3
    ensures 0 <= i * 3 + j < Size
    ensures (i * 3 + j) / 3 == i && (i * 3 + j) % 3 == j
  {
  }

  /** Distinct positions in a box are distinct cells. */
  lemma BoxOffsetsDiffer(br: int, bc: int, row: int, col: int, k: int)
    requires 0 <= br <= row < br + 3 && 0 <= bc <= col < bc + 3
    requires 0 <= k < Size && k != (row - br) * 3 + (col - bc)
    ensures br + k / 3 != row || bc + k % 3 != col
  {
  }

  /** Writing a cell of a box changes exactly the matching entry of Box. */
  lemma {:induction false} BoxOfSetCellInside(g: Grid, row: int, col: int, v: int, r: int, c: int)
    requires IsGrid(g) && InBounds(row, col) && InBounds(r, c)
    requires BoxCorner(row) == BoxCorner(r) && BoxCorner(col) == BoxCorner(c)
    ensures 0 <= (row - BoxCorner(r)) * 3 + (col - BoxCorner(c)) < Size
    ensures Box(SetCell(g, row, col, v), r, c) == Box(g, r, c)[(row - BoxCorner(r)) * 3 + (col - BoxCorner(c)) := v]
  {
    var br, bc := BoxCorner(r), BoxCorner(c);
    var k := (row - br) * 3 + (col - bc);
    BoxIndex(r, c, row, col);
    var h := SetCell(g, row, col, v);
    forall k' | 0 <= k' < Size
      ensures Box(h, r, c)[k'] == Box(g, r, c)[k := v][k']
    {
      if k' != k {
        BoxOffsetsDiffer(br, bc, row, col, k');
      }
    }
  }

  /** Writing a cell outside a box leaves Box unchanged. */
  lemma {:induction false} BoxOfSetCellOutside(g: Grid, row: int, col: int, v: int, r: int, c: int)
    requires IsGrid(g) && InBounds(row, col) && InBounds(r, c)
    requires BoxCorner(row) != BoxCorner(r) || BoxCorner(col) != BoxCorner(c)
    ensures Box(SetCell(g, row, col, v), r, c) == Box(g, r, c)
  {
    var h := SetCell(g, row, col, v);
    forall k' | 0 <= k' < Size
      ensures Box(h, r, c)[k'] == Box(g, r, c)[k']
    {
      BoxOffsetStaysInBox(BoxCorner(r), k');
      BoxOffsetStaysInBox(BoxCorner(c), k');
    }
  }

  /** The box of (row, col) gains `num` without a repeat; the other boxes are untouched. */
  lemma {:induction false} PlacementKeepsBoxFree(g: Grid, num: int, row: int, col: int, r: int, c: int)
    requires IsGrid(g) && InBounds(row, col) && InBounds(r, c)
    requires NoRepeats(Box(g, r, c)) && g[row][col] == 0 && num !in Box(g, row, col)
    ensures NoRepeats(Box(SetCell(g, row, col, num), r, c))
  {
    if BoxCorner(row) == BoxCorner(r) && BoxCorner(col) == BoxCorner(c) {
      BoxOfSetCellInside(g, row, col, num, r, c);
      var k := (row - BoxCorner(r)) * 3 + (col - BoxCorner(c));
      BoxIndex(r, c, row, col);
      assert Box(g, r, c) == Box(g, row, col);
      assert Box(g, r, c)[k] == g[row][col];
      NoRepeatsUpdate(Box(g, r, c), k, num);
    } else {
      BoxOfSetCellOutside(g, row, col, num, r, c);
    }
  }

  /**
    Placing a digit that passes CanPlace into an empty cell of a board without
    conflicts yields a board without conflicts.
   */
  lemma PlacementKeepsNoConflicts(g: Grid, num: int, row: int, col: int)
    requires IsGrid(g) && InBounds(row, col)
    requires NoConflicts(g) && g[row][col] == 0 && CanPlace(g, num, row, col)
    ensures NoConflicts(SetCell(g, row, col, num))
  {
    forall u | 0 <= u < Size
      ensures NoRepeats(Row(SetCell(g, row, col, num), u)) && NoRepeats(Column(SetCell(g, row, col, num), u))
    {
      PlacementKeepsLinesFree(g, num, row, col, u);
    }
    forall r, c | InBounds(r, c)
      ensures NoRepeats(Box(SetCell(g, row, col, num), r, c))
    {
      PlacementKeepsBoxFree(g, num, row, col, r, c);
    }
  }

  /** The set of values in `s` has as many elements as `s` when `s` holds distinct digits. */
  lemma {:induction false} DistinctDigitsSetSize(s: seq<int>)
    requires forall i :: 0 <= i < |s| ==> IsDigit(s[i])
    requires NoRepeats(s)
    ensures |set x | x in s| == |s|
  {
    if s != [] {
      var init := s[..|s| - 1];
      var last := s[|s| - 1];
      assert NoRepeats(init) by {
        forall i, j | 0 <= i < j < |init| && init[i] != 0
          ensures init[i] != init[j]
        {
          assert init[i] == s[i] && init[j] == s[j];
        }
      }
      DistinctDigitsSetSize(init);
      assert last !in init by {
        forall i | 0 <= i < |init|
          ensures init[i] != last
        {
          assert init[i] == s[i];
        }
      }
      assert s == init + [last];
      assert (set x | x in s) == (set x | x in init) + {last};
    }
  }

  /** Pigeonhole on sets: nine digits from 1..9 are all of them. */
  lemma NineDigitsAreAll(present: set<int>)
    requires |present| == Size
    requires forall x :: x in present ==> IsDigit(x)
    ensures forall d :: 1 <= d <= 9 ==> d in present
  {
    var digits := {1, 2, 3, 4, 5, 6, 7, 8, 9};
    assert |digits| == 9;
    forall x | x in present
      ensures x in digits
    {
      assert 1 <= x <= 9;
    }
    assert digits * present == present;
    assert |digits - present| == 0;
  }

  /** Pigeonhole: nine distinct digits are all nine digits. */
  lemma NineDistinctDigitsAreAll(s: seq<int>)
    requires |s| == Size
    requires forall i :: 0 <= i < |s| ==> IsDigit(s[i])
    requires NoRepeats(s)
    ensures IsDigitPermutation(s)
  {
    var present := set x | x in s;
    DistinctDigitsSetSize(s);
    NineDigitsAreAll(present);
    forall d | 1 <= d <= 9
      ensures d in s
    {
      assert d in present;
    }
  }

  /**
    Every row, every column and every 3x3 box of a solved board is a
    permutation of the digits 1..9.
   */
  lemma SolutionUnitsArePermutations(g: Grid)
    requires IsSolution(g)
    ensures forall u :: 0 <= u < Size ==> IsDigitPermutation(Row(g, u)) && IsDigitPermutation(Column(g, u))
    ensures forall r, c :: 0 <= r < Size && 0 <= c < Size ==> IsDigitPermutation(Box(g, r, c))
  {
    forall u | 0 <= u < Size
      ensures IsDigitPermutation(Row(g, u)) && IsDigitPermutation(Column(g, u))
    {
      NineDistinctDigitsAreAll(Row(g, u));
      NineDistinctDigitsAreAll(Column(g, u));
    }
    forall r, c | InBounds(r, c)
      ensures IsDigitPermutation(Box(g, r, c))
    {
      NineDistinctDigitsAreAll(Box(g, r, c));
    }
  }
}
