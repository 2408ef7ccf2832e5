/** The constraint checks of sudoku.js: `correctNumber` (row and column),
    `correctBox` (3×3 box), their meaning in terms of peer cells, and the
    whole-board sweep `checkGame`. The checks are read-only scans with an
    early `return false`: each loop is a recursive function over its loop
    index, and a lemma beside it states what the finished scan establishes. */
module Rules {
  import opened Board

  /** The row loop of `correctNumber` from column i on: fails at the first
      column other than `col` whose cell holds v. */
  function RowClear(g: Grid, v: int, row: int, col: int, i: int): bool
    requires 0 <= row < 9 && 0 <= i <= 9
    decreases 9 - i
  {
    if i == 9 then true
    else if i != col && g[row][i] == v then false
    else RowClear(g, v, row, col, i + 1)
  }

  /** The column loop of `correctNumber` from row i on: fails at the first
      row other than `row` whose cell holds v. */
  function ColClear(g: Grid, v: int, row: int, col: int, i: int): bool
    requires 0 <= col < 9 && 0 <= i <= 9
    decreases 9 - i
  {
    if i == 9 then true
    else if i != row && g[i][col] == v then false
    else ColClear(g, v, row, col, i + 1)
  }

  /** `correctNumber(board, v, row, col)`: the row loop, then the column loop. */
  function CorrectNumber(g: Grid, v: int, row: int, col: int): bool
    requires InGrid(row, col)
  {
    RowClear(g, v, row, col, 0) && ColClear(g, v, row, col, 0)
  }

  /** The inner loop of `correctBox` over box row r: columns c .. colEnd - 1. */
  function BoxRowClear(g: Grid, v: int, row: int, col: int, r: int, c: int, colEnd: int): bool
    requires 0 <= r < 9 && 0 <= c <= colEnd <= 9
    decreases colEnd - c
  {
    if c == colEnd then true
    else if g[r][c] == v && r != row && c != col then false
    else BoxRowClear(g, v, row, col, r, c + 1, colEnd)
  }

  /** The outer loop of `correctBox`: box rows r .. rowEnd - 1, each scanned
      over the three columns from colStart. */
  function BoxRowsClear(g: Grid, v: int, row: int, col: int, r: int, rowEnd: int, colStart: int): bool
    requires 0 <= r <= rowEnd <= 9 && 0 <= colStart <= 6
    decreases rowEnd - r
  {
    if r == rowEnd then true
    else BoxRowClear(g, v, row, col, r, colStart, colStart + 3) && BoxRowsClear(g, v, row, col, r + 1, rowEnd, colStart)
  }

  /** `correctBox(board, v, row, col)`: the two loops over the box whose
      top-left corner is (boxRowStart, boxColStart). */
  function CorrectBox(g: Grid, v: int, row: int, col: int): bool
    requires InGrid(row, col)
  {
    var boxRowStart := BoxStart(row);
    var boxColStart := BoxStart(col);
    BoxRowsClear(g, v, row, col, boxRowStart, boxRowStart + 3, boxColStart)
  }

  /** The row loop from column i fails exactly when a later column other than `col` holds v. */
  lemma {:induction false} RowClearMeaning(g: Grid, v: int, row: int, col: int, i: int)
    requires 0 <= row < 9 && 0 <= i <= 9
    decreases 9 - i
    ensures RowClear(g, v, row, col, i) <==> forall j :: i <= j < 9 && j != col ==> g[row][j] != v
  {
    if i < 9 {
      RowClearMeaning(g, v, row, col, i + 1);
    }
  }

  /** The column loop from row i fails exactly when a later row other than `row` holds v. */
  lemma {:induction false} ColClearMeaning(g: Grid, v: int, row: int, col: int, i: int)
    requires 0 <= col < 9 && 0 <= i <= 9
    decreases 9 - i
    ensures ColClear(g, v, row, col, i) <==> forall k :: i <= k < 9 && k != row ==> g[k][col] != v
  {
    if i < 9 {
      ColClearMeaning(g, v, row, col, i + 1);
    }
  }

  /** `correctNumber` is false exactly when some cell of the row other than
      column `col`, or some cell of the column other than row `row`, holds v:
      only the target cell itself is skipped. */
  lemma CorrectNumberMeaning(g: Grid, v: int, row: int, col: int)
    requires InGrid(row, col)
    ensures CorrectNumber(g, v, row, col) <==>
      (forall j :: 0 <= j < 9 && j != col ==> g[row][j] != v) &&
      (forall i :: 0 <= i < 9 && i != row ==> g[i][col] != v)
  {
    RowClearMeaning(g, v, row, col, 0);
    ColClearMeaning(g, v, row, col, 0);
  }

  /** The inner box loop from column c fails exactly when, in a box row other
      than `row`, a later box column other than `col` holds v. */
  lemma {:induction false} BoxRowClearMeaning(g: Grid, v: int, row: int, col: int, r: int, c: int, colEnd: int)
    requires 0 <= r < 9 && 0 <= c <= colEnd <= 9
    decreases colEnd - c
    ensures BoxRowClear(g, v, row, col, r, c, colEnd) <==>
      forall j :: c <= j < colEnd && r != row && j != col ==> g[r][j] != v
  {
    if c < colEnd {
      BoxRowClearMeaning(g, v, row, col, r, c + 1, colEnd);
    }
  }

  /** The outer box loop from row r fails exactly when a box cell in a later
      row, sharing neither the row nor the column of (row, col), holds v. */
  lemma {:induction false} BoxRowsClearMeaning(g: Grid, v: int, row: int, col: int, r: int, rowEnd: int, colStart: int)
    requires 0 <= r <= rowEnd <= 9 && 0 <= colStart <= 6
    decreases rowEnd - r
    ensures BoxRowsClear(g, v, row, col, r, rowEnd, colStart) <==> forall i, j ::
      r <= i < rowEnd && colStart <= j < colStart + 3 && i != row && j != col ==> g[i][j] != v
  {
    if r < rowEnd {
      BoxRowClearMeaning(g, v, row, col, r, colStart, colStart + 3);
      BoxRowsClearMeaning(g, v, row, col, r + 1, rowEnd, colStart);
    }
  }

  /** `correctBox` is false exactly when a cell of the box of (row, col) that
      shares neither its row nor its column holds v: box cells in the same row
      or column are skipped, not only the target cell. */
  lemma CorrectBoxMeaning(g: Grid, v: int, row: int, col: int)
    requires InGrid(row, col)
    ensures CorrectBox(g, v, row, col) <==> forall i, j ::
      InGrid(i, j) && SameBox(row, col, i, j) && i != row && j != col ==> g[i][j] != v
  {
    BoxRowsClearMeaning(g, v, row, col, BoxStart(row), BoxStart(row) + 3, BoxStart(col));
    forall i, j | InGrid(i, j)
      ensures SameBox(row, col, i, j) <==>
        BoxStart(row) <= i < BoxStart(row) + 3 && BoxStart(col) <= j < BoxStart(col) + 3
    {
      BoxStartIff(row, i);
      BoxStartIff(col, j);
    }
  }

  /** Both checks pass: what the solver and `checkGame` require of a value. */
  predicate Placeable(g: Grid, v: int, row: int, col: int)
    requires InGrid(row, col)
  {
    CorrectNumber(g, v, row, col) && CorrectBox(g, v, row, col)
  }

  /** Together the two checks pass exactly when no peer of (row, col) holds v:
      the box's narrower exclusion is made up for by the row and column scan. */
  lemma PlaceableIffNoPeerHolds(g: Grid, v: int, row: int, col: int)
    requires InGrid(row, col)
    ensures Placeable(g, v, row, col) <==> forall i, j :: Peer(row, col, i, j) ==> g[i][j] != v
  {
    CorrectNumberMeaning(g, v, row, col);
    CorrectBoxMeaning(g, v, row, col);
    if Placeable(g, v, row, col) {
      forall i, j | Peer(row, col, i, j) ensures g[i][j] != v {
        if i != row && j != col {
          assert SameBox(row, col, i, j);
        }
      }
    } else if !CorrectNumber(g, v, row, col) {
      if exists j :: 0 <= j < 9 && j != col && g[row][j] == v {
        var j :| 0 <= j < 9 && j != col && g[row][j] == v;
        assert Peer(row, col, row, j);
      } else {
        var i :| 0 <= i < 9 && i != row && g[i][col] == v;
        assert Peer(row, col, i, col);
      }
    } else {
      var i, j :| InGrid(i, j) && SameBox(row, col, i, j) && i != row && j != col && g[i][j] == v;
      assert Peer(row, col, i, j);
    }
  }

  /** `correctNumber` never reads the target cell: its content does not change the verdict. */
  lemma CorrectNumberIgnoresTarget(g: Grid, v: int, row: int, col: int, w: int)
    requires InGrid(row, col)
    ensures CorrectNumber(Write(g, row, col, w), v, row, col) == CorrectNumber(g, v, row, col)
  {
    var h := Write(g, row, col, w);
    CorrectNumberMeaning(g, v, row, col);
    CorrectNumberMeaning(h, v, row, col);
    assert forall j :: 0 <= j < 9 && j != col ==> h[row][j] == g[row][j];
    assert forall i :: 0 <= i < 9 && i != row ==> h[i][col] == g[i][col];
  }

  /** `correctBox` never reads the target cell: its content does not change the verdict. */
  lemma CorrectBoxIgnoresTarget(g: Grid, v: int, row: int, col: int, w: int)
    requires InGrid(row, col)
    ensures CorrectBox(Write(g, row, col, w), v, row, col) == CorrectBox(g, v, row, col)
  {
    var h := Write(g, row, col, w);
    CorrectBoxMeaning(g, v, row, col);
    CorrectBoxMeaning(h, v, row, col);
    assert forall i, j :: InGrid(i, j) && i != row && j != col ==> h[i][j] == g[i][j];
  }

  /** `checkGame` marks cell (r, c) with the error class: it is filled and its
      own value fails one of the two checks. */
  predicate Flagged(g: Grid, r: int, c: int)
    requires InGrid(r, c)
  {
    g[r][c] != 0 && !Placeable(g, g[r][c], r, c)
  }

  /** The cells `checkGame` marks. */
  function ErrorCells(g: Grid): set<(int, int)>
  {
    set r, c | 0 <= r < 9 && 0 <= c < 9 && Flagged(g, r, c) :: (r, c)
  }

  /** No two peer cells hold the same digit. */
  ghost predicate Consistent(g: Grid)
  {
    forall r, c, i, j :: InGrid(r, c) && Peer(r, c, i, j) && g[r][c] != 0 ==> g[i][j] != g[r][c]
  }

  /** Every cell filled and no two peers equal: a finished puzzle. */
  ghost predicate Solved(g: Grid)
  {
    NoEmpty(g) && Consistent(g)
  }

  /** `checkGame` marks nothing exactly when no two peers hold the same digit. */
  lemma ConsistentIffNoErrors(g: Grid)
    ensures Consistent(g) <==> ErrorCells(g) == {}
  {
    if Consistent(g) {
      forall p | p in ErrorCells(g) ensures false {
        var r, c :| 0 <= r < 9 && 0 <= c < 9 && Flagged(g, r, c) && p == (r, c);
        PlaceableIffNoPeerHolds(g, g[r][c], r, c);
      }
    } else {
      var r, c, i, j :| InGrid(r, c) && Peer(r, c, i, j) && g[r][c] != 0 && g[i][j] == g[r][c];
      PlaceableIffNoPeerHolds(g, g[r][c], r, c);
      assert (r, c) in ErrorCells(g);
    }
  }

  /** Placing a value that passes both checks into an empty cell keeps a
      consistent grid consistent. */
  lemma PlacementKeepsConsistent(g: Grid, v: int, row: int, col: int)
    requires InGrid(row, col) && g[row][col] == 0 && v != 0
    requires Consistent(g) && Placeable(g, v, row, col)
    ensures Consistent(Write(g, row, col, v))
  {
    var h := Write(g, row, col, v);
    PlaceableIffNoPeerHolds(g, v, row, col);
    forall r, c, i, j | InGrid(r, c) && Peer(r, c, i, j) && h[r][c] != 0
      ensures h[i][j] != h[r][c]
    {
      if (r, c) == (row, col) {
      } else if (i, j) == (row, col) {
        PeerSymmetric(r, c, i, j);
      } else {
        assert g[r][c] == h[r][c] && g[i][j] == h[i][j];
      }
    }
  }

  /** The cell is filled and not marked: it keeps `checkGame`'s complete flag set. */
  predicate CellCorrect(g: Grid, r: int, c: int)
    requires InGrid(r, c)
  {
    g[r][c] != 0 && !Flagged(g, r, c)
  }

  /** What `checkGame` has found after sweeping the first n cells in
      row-major order: exactly the flagged ones among them are marked, and
      the complete flag says that every one of them is filled and unmarked. */
  ghost predicate Swept(g: Grid, n: int, errors: set<(int, int)>, complete: bool)
  {
    (forall a, b {:trigger (a, b) in errors} :: (a, b) in errors ==> InGrid(a, b) && 9 * a + b < n && Flagged(g, a, b)) &&
    (forall a, b {:trigger Flagged(g, a, b)} :: InGrid(a, b) && 9 * a + b < n && Flagged(g, a, b) ==> (a, b) in errors) &&
    (complete <==> forall a, b {:trigger CellCorrect(g, a, b)} :: InGrid(a, b) && 9 * a + b < n ==> CellCorrect(g, a, b))
  }

  /** Sweeping cell (r, c) marks it when it is flagged and clears the
      complete flag unless it is filled and unmarked. */
  lemma SweepStep(g: Grid, r: int, c: int, errors: set<(int, int)>, complete: bool)
    requires InGrid(r, c) && Swept(g, 9 * r + c, errors, complete)
    ensures Swept(g, 9 * r + c + 1, if Flagged(g, r, c) then errors + {(r, c)} else errors,
                  complete && CellCorrect(g, r, c))
  {
    var errors' := if Flagged(g, r, c) then errors + {(r, c)} else errors;
    forall a, b | (a, b) in errors' ensures InGrid(a, b) && 9 * a + b < 9 * r + c + 1 && Flagged(g, a, b) {
      if (a, b) != (r, c) {
        assert (a, b) in errors;
      }
    }
    forall a, b | InGrid(a, b) && 9 * a + b < 9 * r + c + 1 && Flagged(g, a, b) ensures (a, b) in errors' {
      if 9 * a + b < 9 * r + c {
        assert (a, b) in errors;
      } else {
        assert a == r && b == c;
      }
    }
    if complete && CellCorrect(g, r, c) {
      forall a, b | InGrid(a, b) && 9 * a + b < 9 * r + c + 1 ensures CellCorrect(g, a, b) {
        if 9 * a + b == 9 * r + c {
          assert a == r && b == c;
        }
      }
    }
  }

  /** What the finished sweep of `checkGame` has found, read as the marked
      cells and the solved status of the board. */
  lemma SweepResult(g: Grid, errors: set<(int, int)>, complete: bool)
    requires Swept(g, 81, errors, complete)
    ensures errors == ErrorCells(g)
    ensures complete <==> NoEmpty(g) && errors == {}
    ensures complete <==> Solved(g)
  {
    forall p | p in ErrorCells(g) ensures p in errors {
      var a, b :| 0 <= a < 9 && 0 <= b < 9 && Flagged(g, a, b) && p == (a, b);
    }
    forall p | p in errors ensures p in ErrorCells(g) {
      var (a, b) := p;
      assert (a, b) in errors;
      assert 0 <= a < 9 && 0 <= b < 9 && Flagged(g, a, b);
    }
    if complete {
      forall a, b | 0 <= a < 9 && 0 <= b < 9 ensures g[a][b] != 0 {
        assert CellCorrect(g, a, b);
      }
      forall p | p in errors ensures 0 <= p.0 < 9 && 0 <= p.1 < 9 && !CellCorrect(g, p.0, p.1) {
        var (a, b) := p;
        assert (a, b) in errors;
      }
    } else {
      var a, b :| InGrid(a, b) && !CellCorrect(g, a, b);
      if g[a][b] != 0 {
        assert Flagged(g, a, b);
        assert (a, b) in errors;
      }
    }
    ConsistentIffNoErrors(g);
  }

  /** `checkGame`: sweeps every cell in row-major order, skips empty cells
      (which make the board incomplete), and marks every filled cell whose
      value fails `correctNumber` or `correctBox`. The board is complete when
      no cell is empty and none is marked, that is, when the puzzle is solved. */
  method CheckGame(board: array2<int>) returns (errors: set<(int, int)>, complete: bool)
    requires board.Length0 == 9 && board.Length1 == 9
    ensures errors == ErrorCells(Snapshot(board))
    ensures complete <==> NoEmpty(Snapshot(board)) && errors == {}
    ensures complete <==> Solved(Snapshot(board))
  {
    ghost var g := Snapshot(board);
    complete := true;
    errors := {};
    for r := 0 to 9
      invariant Swept(g, 9 * r, errors, complete)
    {
      for c := 0 to 9
        invariant Swept(g, 9 * r + c, errors, complete)
      {
        SweepStep(g, r, c, errors, complete);
        var currentTile := board[r, c];
        if currentTile == 0 {
          complete := false;
          continue;
        }
        var correctNum := CorrectNumber(Snapshot(board), currentTile, r, c);
        var box := CorrectBox(Snapshot(board), currentTile, r, c);
        assert Flagged(g, r, c) <==> !correctNum || !box;
        if !correctNum || !box {
          complete := false;
          errors := errors + {(r, c)};
        }
      }
    }
    SweepResult(g, errors, complete);
  }
}
