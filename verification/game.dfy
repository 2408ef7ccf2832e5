/** The page state of sudoku.js and the four things a player does to it:
    press "set game", type into an editable tile, press "check" and press
    "solve".
    `original` is `ogBoard`, the puzzle as first shown; `board` is
    `sudokuBoard`, the grid the player's entries go into; `marks` are the
    tiles that carry the `error` class. */
module Game {
  import opened Board
  import opened Rules
  import opened Solver
  import opened Input

  /** The puzzle the page starts with. */
  const Sample: Grid := [
    [3, 0, 6, 5, 0, 8, 4, 0, 0],
    [5, 2, 0, 0, 0, 0, 0, 0, 0],
    [0, 8, 7, 0, 0, 0, 0, 3, 1],
    [0, 0, 3, 0, 1, 0, 0, 8, 0],
    [9, 0, 0, 8, 6, 3, 0, 0, 5],
    [0, 5, 0, 0, 9, 0, 6, 0, 0],
    [1, 3, 0, 0, 0, 0, 2, 5, 0],
    [0, 0, 0, 0, 0, 0, 0, 7, 4],
    [0, 0, 5, 2, 0, 6, 3, 0, 0]]

  /** A fresh 9×9 array holding the grid g. */
  method NewBoard(g: Grid) returns (a: array2<int>)
    ensures fresh(a) && a.Length0 == 9 && a.Length1 == 9
    ensures Snapshot(a) == g
  {
    a := new int[9, 9];
    for i := 0 to 9
      invariant forall r, c :: 0 <= r < i && 0 <= c < 9 ==> a[r, c] == g[r][c]
    {
      for j := 0 to 9
        invariant forall r, c :: 0 <= r < i && 0 <= c < 9 ==> a[r, c] == g[r][c]
        invariant forall c :: 0 <= c < j ==> a[i, c] == g[i][c]
      {
        a[i, j] := g[i][j];
      }
    }
    GridsEqual(Snapshot(a), g);
  }

  /** The deep copy `JSON.parse(JSON.stringify(board))`: a fresh array with the same cells. */
  method CopyBoard(b: array2<int>) returns (a: array2<int>)
    requires b.Length0 == 9 && b.Length1 == 9
    ensures fresh(a) && a.Length0 == 9 && a.Length1 == 9
    ensures Snapshot(a) == Snapshot(b)
  {
    a := NewBoard(Snapshot(b));
  }

  class Game {
    /** `ogBoard`: the puzzle; its nonzero cells are the fixed tiles. */
    const original: Grid
    /** `sudokuBoard`: the puzzle with the player's entries. */
    const board: array2<int>
    /** The tiles marked with the `error` class. */
    var marks: set<(int, int)>

    /** The board keeps every fixed tile of the puzzle, every cell holds 0..9,
        and every marked tile really fails a check. */
    ghost predicate Valid()
      reads this, board
    {
      board.Length0 == 9 && board.Length1 == 9 &&
      InRange(original) && InRange(Snapshot(board)) &&
      (forall i, j :: InGrid(i, j) && original[i][j] != 0 ==> board[i, j] == original[i][j]) &&
      marks <= ErrorCells(Snapshot(board))
    }

    /** The page as loaded: `sudokuBoard` and `ogBoard` both hold the sample
        puzzle, and no tile is marked. */
    constructor ()
      ensures Valid()
      ensures original == Sample && Snapshot(board) == Sample && marks == {}
    {
      var a := NewBoard(Sample);
      original := Sample;
      board := a;
      marks := {};
    }

    /** The set-game button (`setGame`): the board's tiles are built anew, so
        every `error` mark disappears; `sudokuBoard` keeps its values. */
    method SetGame()
      requires Valid()
      modifies this
      ensures Valid()
      ensures marks == {}
      ensures Snapshot(board) == old(Snapshot(board))
    {
      marks := {};
    }

    /** `updateBoard(text, row, col)`, called on an editable tile once the
        error marks are removed: the cell takes the value `Number(text)`, no
        other cell changes, and the invariant is kept. */
    method UpdateBoard(text: string, row: int, col: int)
      requires Valid() && marks == {} && InGrid(row, col) && original[row][col] == 0
      requires IsValidInput(Trim(text)) && |Trim(text)| <= 1
      modifies board
      ensures Valid()
      ensures Snapshot(board) == Write(old(Snapshot(board)), row, col, Number(text))
    {
      ghost var g := Snapshot(board);
      board[row, col] := Number(text);
      GridsEqual(Snapshot(board), Write(g, row, col, Number(text)));
    }

    /** The `input` listener of the editable tile (row, col), fired with the
        text the tile holds: it corrects the tile's text, removes every error
        mark, and stores the value of the corrected text in the cell.
        Returns the text the tile is left showing. */
    method Input(text: string, row: int, col: int) returns (shown: string)
      requires Valid() && InGrid(row, col) && original[row][col] == 0
      modifies this, board
      ensures Valid()
      ensures shown == Sanitize(text)
      ensures marks == {}
      ensures Snapshot(board) == Write(old(Snapshot(board)), row, col, EnteredValue(text))
    {
      var entered := Trim(text);
      shown := text;
      if |entered| > 1 {
        shown := [entered[0]];
      }
      if !IsValidInput(entered) {
        shown := "";
      }
      marks := {};
      SanitizeShows(text);
      EnteredValueMeaning(text);
      UpdateBoard(shown, row, col);
    }

    /** `checkGame`: marks every filled tile whose value fails a check (marks
        already on the page stay) and reports whether the puzzle is solved. */
    method Check() returns (complete: bool)
      requires Valid()
      modifies this
      ensures Valid()
      ensures marks == old(marks) + ErrorCells(Snapshot(board))
      ensures complete <==> NoEmpty(Snapshot(board)) && ErrorCells(Snapshot(board)) == {}
      ensures complete <==> Solved(Snapshot(board))
    {
      var errors;
      errors, complete := CheckGame(board);
      marks := marks + errors;
    }

    /** `solve`: runs the search on a copy of the board, so that neither the
        board nor the marks change; with a marked tile the search stops at
        once, and then the board does have two peers holding the same digit.
        Returns the tile updates the search makes. */
    method Solve() returns (events: seq<Event>)
      requires Valid()
      ensures marks != {} ==> events == [] && !Consistent(Snapshot(board))
      ensures marks == {} ==> events == Search(Snapshot(board)).events
    {
      var newBoard := CopyBoard(board);
      var solved;
      solved, events := SolveSudoku(newBoard, marks != {});
      ConsistentIffNoErrors(Snapshot(board));
    }
  }
}
