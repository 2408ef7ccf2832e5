/** The puzzle grid: nine rows of nine integer cells, 0 meaning an empty cell.
    The page keeps it as a JavaScript array of arrays; here it is a value
    (`Grid`) and, where the program updates it in place, a 9×9 `array2<int>`
    whose contents `Snapshot` reads back as a `Grid`. */
module Board {

  /** A 9×9 grid of cell values, row by row. */
  type Grid = g: seq<seq<int>> | |g| == 9 && forall r | 0 <= r < 9 :: |g[r]| == 9
    witness seq(9, _ => seq(9, _ => 0))

  /** (row, col) addresses a cell of the grid. */
  predicate InGrid(row: int, col: int) {
    0 <= row < 9 && 0 <= col < 9
  }

  /** Every cell holds 0 (empty) or a digit 1..9. */
  predicate InRange(g: Grid) {
    forall i, j | 0 <= i < 9 && 0 <= j < 9 :: 0 <= g[i][j] <= 9
  }

  /** No cell is empty. */
  predicate NoEmpty(g: Grid) {
    forall i, j | 0 <= i < 9 && 0 <= j < 9 :: g[i][j] != 0
  }

  /** The grid with cell (row, col) set to v and every other cell as before. */
  function Write(g: Grid, row: int, col: int, v: int): (h: Grid)
    requires InGrid(row, col)
    ensures h[row][col] == v
    ensures forall i, j {:trigger h[i][j]} :: InGrid(i, j) && (i != row || j != col) ==> h[i][j] == g[i][j]
  {
    g[row := g[row][col := v]]
  }

  /** The contents of a 9×9 array, as a grid. */
  function Snapshot(a: array2<int>): (g: Grid)
    reads a
    requires a.Length0 == 9 && a.Length1 == 9
    ensures forall i, j :: InGrid(i, j) ==> g[i][j] == a[i, j]
  {
    seq(9, i reads a requires 0 <= i < 9 => seq(9, j reads a requires 0 <= j < 9 => a[i, j]))
  }

  /** Two grids that agree on every cell are equal. */
  lemma GridsEqual(g: Grid, h: Grid)
    requires forall i, j :: InGrid(i, j) ==> g[i][j] == h[i][j]
    ensures g == h
  {
    forall i | 0 <= i < 9 ensures g[i] == h[i] {
      assert forall j :: 0 <= j < 9 ==> g[i][j] == h[i][j];
    }
  }

  /** The first row (or column) of the 3×3 box that holds row (or column) i.
      Written by cases; `BoxStartRemainder` shows it is `i - i % 3`. */
  function BoxStart(i: int): (s: int)
    requires 0 <= i < 9
    ensures (s == 0 || s == 3 || s == 6) && s <= i < s + 3
  {
    if i < 3 then 0 else if i < 6 then 3 else 6
  }

  /** The box start is the index less its remainder modulo 3, as `correctBox` computes it. */
  lemma BoxStartRemainder(i: int)
    requires 0 <= i < 9
    ensures BoxStart(i) == i - i % 3
  {
  }

  /** Two cells lie in the same 3×3 box. */
  predicate SameBox(row: int, col: int, i: int, j: int)
    requires InGrid(row, col) && InGrid(i, j)
  {
    BoxStart(row) == BoxStart(i) && BoxStart(col) == BoxStart(j)
  }

  /** (i, j) is a cell other than (row, col) in its row, its column or its box. */
  predicate Peer(row: int, col: int, i: int, j: int)
    requires InGrid(row, col)
  {
    InGrid(i, j) && (i != row || j != col) && (i == row || j == col || SameBox(row, col, i, j))
  }

  /** Being peers is a symmetric relation. */
  lemma PeerSymmetric(row: int, col: int, i: int, j: int)
    requires InGrid(row, col) && InGrid(i, j)
    ensures Peer(row, col, i, j) <==> Peer(i, j, row, col)
  {
  }

  /** Box membership through the box's first row: for cells of the grid,
      i lies in the box rows of `row` exactly when BoxStart(row) <= i < BoxStart(row) + 3. */
  lemma BoxStartIff(row: int, i: int)
    requires 0 <= row < 9 && 0 <= i < 9
    ensures BoxStart(row) == BoxStart(i) <==> BoxStart(row) <= i < BoxStart(row) + 3
  {
  }

  /** The number of zeros in a sequence of cells. */
  function Zeros(s: seq<int>): nat
  {
    if s == [] then 0 else (if s[0] == 0 then 1 else 0) + Zeros(s[1..])
  }

  /** The number of zeros in a sequence of rows. */
  function RowsZeros(rows: seq<seq<int>>): nat
  {
    if rows == [] then 0 else Zeros(rows[0]) + RowsZeros(rows[1..])
  }

  /** The number of empty cells; the solver's recursion measure. */
  function ZeroCount(g: Grid): nat
  {
    RowsZeros(g)
  }

  /** Replacing a zero of s by a nonzero value removes one zero. */
  lemma {:induction false} ZerosFill(s: seq<int>, k: int, v: int)
    requires 0 <= k < |s| && s[k] == 0 && v != 0
    ensures Zeros(s[k := v]) == Zeros(s) - 1
  {
    if k > 0 {
      assert s[k := v][1..] == s[1..][k - 1 := v];
      ZerosFill(s[1..], k - 1, v);
    }
  }

  /** Replacing row r changes the count by the difference of the two rows' counts. */
  lemma {:induction false} RowsZerosReplace(rows: seq<seq<int>>, r: int, x: seq<int>)
    requires 0 <= r < |rows|
    ensures RowsZeros(rows[r := x]) == RowsZeros(rows) - Zeros(rows[r]) + Zeros(x)
  {
    if r > 0 {
      assert rows[r := x][1..] == rows[1..][r - 1 := x];
      RowsZerosReplace(rows[1..], r - 1, x);
    }
  }

  /** Filling one empty cell with a nonzero value leaves one empty cell fewer. */
  lemma FillOneEmpty(g: Grid, row: int, col: int, v: int)
    requires InGrid(row, col) && g[row][col] == 0 && v != 0
    ensures ZeroCount(Write(g, row, col, v)) == ZeroCount(g) - 1
  {
    ZerosFill(g[row], col, v);
    RowsZerosReplace(g, row, g[row][col := v]);
  }

  /** Writing a cell back to the value it held restores the grid. */
  lemma WriteBack(g: Grid, row: int, col: int, v: int)
    requires InGrid(row, col)
    ensures Write(Write(g, row, col, v), row, col, g[row][col]) == g
  {
    var h := Write(Write(g, row, col, v), row, col, g[row][col]);
    assert h[row] == g[row];
  }
}
