/** The backtracking solver `solveSudoku` of sudoku.js, without the page:
    the tile updates it makes while searching are the `Event`s it emits, the
    pacing delays are left out, and the page query `checkForErrors()` is the
    boolean `hasErrors`.

    `Search` is the search as a function of the grid it starts from: its
    solution (if any) and the events in the order the search emits them.
    `SolveSudoku` is the in-place method on a 9×9 array, proved to compute
    exactly what `Search` describes; the lemmas state what `Search` promises. */
module Solver {
  import opened Board
  import opened Rules

  datatype Option<T> = None | Some(value: T)

  /** What the search shows on the page: a digit placed in a tile, or a tile cleared. */
  datatype Event = SetCell(row: int, col: int, value: int) | ClearCell(row: int, col: int)

  /** The result of a search: the solved grid, or None when every candidate
      failed; and the events emitted on the way. */
  datatype Outcome = Outcome(solution: Option<Grid>, events: seq<Event>)

  /** (i, j) comes strictly before (row, col) in row-major order. */
  predicate Before(i: int, j: int, row: int, col: int) {
    i < row || (i == row && j < col)
  }

  /** The scan for the first empty cell at or after (i, j) in row-major order. */
  function FirstEmptyFrom(g: Grid, i: int, j: int): (r: Option<(int, int)>)
    requires 0 <= i <= 9 && 0 <= j <= 9
    decreases 9 - i, 9 - j
    ensures r.Some? ==> InGrid(r.value.0, r.value.1) && g[r.value.0][r.value.1] == 0
  {
    if i == 9 then None
    else if j == 9 then FirstEmptyFrom(g, i + 1, 0)
    else if g[i][j] == 0 then Some((i, j))
    else FirstEmptyFrom(g, i, j + 1)
  }

  /** The first empty cell of the grid in row-major order, if any. */
  function FirstEmpty(g: Grid): Option<(int, int)>
  {
    FirstEmptyFrom(g, 0, 0)
  }

  /** The scan from (i, j) finds nothing exactly when every cell from (i, j)
      on is filled, and otherwise finds an empty cell from (i, j) on with
      every cell between filled. */
  lemma {:induction false} FirstEmptyFromMeaning(g: Grid, i: int, j: int)
    requires 0 <= i <= 9 && 0 <= j <= 9
    decreases 9 - i, 9 - j
    ensures var r := FirstEmptyFrom(g, i, j);
      r.None? <==> forall a, b :: InGrid(a, b) && !Before(a, b, i, j) ==> g[a][b] != 0
    ensures var r := FirstEmptyFrom(g, i, j);
      r.Some? ==>
        InGrid(r.value.0, r.value.1) && !Before(r.value.0, r.value.1, i, j) && g[r.value.0][r.value.1] == 0 &&
        forall a, b :: InGrid(a, b) && !Before(a, b, i, j) && Before(a, b, r.value.0, r.value.1) ==> g[a][b] != 0
  {
    if i == 9 {
    } else if j == 9 {
      FirstEmptyFromMeaning(g, i + 1, 0);
    } else if g[i][j] != 0 {
      FirstEmptyFromMeaning(g, i, j + 1);
    }
  }

  /** The first empty cell, when there is one, is an empty cell with every
      earlier cell filled; when there is none, the grid is full. */
  lemma FirstEmptyMeaning(g: Grid)
    ensures FirstEmpty(g).None? <==> NoEmpty(g)
    ensures FirstEmpty(g).Some? ==>
      var (row, col) := FirstEmpty(g).value;
      InGrid(row, col) && g[row][col] == 0 &&
      forall a, b :: InGrid(a, b) && Before(a, b, row, col) ==> g[a][b] != 0
  {
    FirstEmptyFromMeaning(g, 0, 0);
  }

  /** An empty cell with every earlier cell filled is the first empty cell. */
  lemma FirstEmptyUnique(g: Grid, row: int, col: int)
    requires InGrid(row, col) && g[row][col] == 0
    requires forall a, b :: InGrid(a, b) && Before(a, b, row, col) ==> g[a][b] != 0
    ensures FirstEmpty(g) == Some((row, col))
  {
    FirstEmptyMeaning(g);
    var r := FirstEmpty(g);
    assert r.Some?;
    var (i, j) := r.value;
    assert !Before(i, j, row, col);
    assert !Before(row, col, i, j);
  }

  /** `solveSudoku` from its scan on: complete when there is no empty cell,
      otherwise try the candidates at the first empty cell. */
  function Search(g: Grid): Outcome
    decreases ZeroCount(g), 10
  {
    match FirstEmpty(g)
    case None => Outcome(Some(g), [])
    case Some((row, col)) => TryFrom(g, row, col, 1)
  }

  /** The candidate loop `for (num = ...; num <= 9; num++)` at the empty cell
      (row, col), from candidate num on. A candidate that passes both checks
      is placed and the search recurses; success is passed up with the digit
      left in place, failure clears the cell and moves on. */
  function TryFrom(g: Grid, row: int, col: int, num: int): Outcome
    requires InGrid(row, col) && g[row][col] == 0 && 1 <= num <= 10
    decreases ZeroCount(g), 10 - num
  {
    if num == 10 then Outcome(None, [])
    else if CorrectNumber(g, num, row, col) && CorrectBox(g, num, row, col) then
      FillOneEmpty(g, row, col, num);
      var sub := Search(Write(g, row, col, num));
      if sub.solution.Some? then
        Outcome(sub.solution, [SetCell(row, col, num)] + sub.events)
      else
        var rest := TryFrom(g, row, col, num + 1);
        Outcome(rest.solution, [SetCell(row, col, num)] + sub.events + [ClearCell(row, col)] + rest.events)
    else
      TryFrom(g, row, col, num + 1)
  }

  /** With an empty cell first in row-major order, the search is the
      candidate loop at that cell from digit 1. */
  lemma SearchAt(g: Grid, row: int, col: int)
    requires FirstEmpty(g) == Some((row, col))
    ensures InGrid(row, col) && g[row][col] == 0
    ensures Search(g) == TryFrom(g, row, col, 1)
  {
    FirstEmptyMeaning(g);
  }

  /** The candidate loop after candidates 1 .. num-1: `done` are the events
      emitted so far, and what remains of the loop decides the result. */
  ghost predicate LoopAt(g: Grid, row: int, col: int, num: int, done: seq<Event>)
    requires InGrid(row, col) && g[row][col] == 0 && 1 <= num <= 10
  {
    TryFrom(g, row, col, 1).solution == TryFrom(g, row, col, num).solution &&
    TryFrom(g, row, col, 1).events == done + TryFrom(g, row, col, num).events
  }

  /** Before the first candidate nothing has been emitted. */
  lemma LoopStart(g: Grid, row: int, col: int)
    requires InGrid(row, col) && g[row][col] == 0
    ensures LoopAt(g, row, col, 1, [])
  {
    assert [] + TryFrom(g, row, col, 1).events == TryFrom(g, row, col, 1).events;
  }

  /** After the last candidate the loop has failed, with the events emitted so far. */
  lemma LoopEnd(g: Grid, row: int, col: int, done: seq<Event>)
    requires InGrid(row, col) && g[row][col] == 0
    requires LoopAt(g, row, col, 10, done)
    ensures TryFrom(g, row, col, 1) == Outcome(None, done)
  {
    assert done + [] == done;
  }

  /** A candidate that fails a check moves the loop on to the next
      candidate with no event. */
  lemma CandidateSkipped(g: Grid, row: int, col: int, num: int, done: seq<Event>)
    requires InGrid(row, col) && g[row][col] == 0 && 1 <= num <= 9
    requires LoopAt(g, row, col, num, done)
    requires !Placeable(g, num, row, col)
    ensures LoopAt(g, row, col, num + 1, done)
  {
  }

  /** A candidate whose placement leads to no solution moves the loop on to
      the next candidate; its events are those of the placement, the failed
      search and the clearing. */
  lemma CandidateFails(g: Grid, row: int, col: int, num: int, done: seq<Event>, sub: Outcome)
    requires InGrid(row, col) && g[row][col] == 0 && 1 <= num <= 9
    requires LoopAt(g, row, col, num, done)
    requires Placeable(g, num, row, col)
    requires sub == Search(Write(g, row, col, num)) && sub.solution.None?
    ensures LoopAt(g, row, col, num + 1, done + ([SetCell(row, col, num)] + sub.events + [ClearCell(row, col)]))
  {
    var trace := [SetCell(row, col, num)] + sub.events + [ClearCell(row, col)];
    var rest := TryFrom(g, row, col, num + 1);
    assert done + (trace + rest.events) == (done + trace) + rest.events;
  }

  /** A candidate whose placement leads to a solution ends the loop with
      that solution. */
  lemma CandidateSucceeds(g: Grid, row: int, col: int, num: int, done: seq<Event>, sub: Outcome)
    requires InGrid(row, col) && g[row][col] == 0 && 1 <= num <= 9
    requires LoopAt(g, row, col, num, done)
    requires Placeable(g, num, row, col)
    requires sub == Search(Write(g, row, col, num)) && sub.solution.Some?
    ensures TryFrom(g, row, col, 1) == Outcome(sub.solution, done + ([SetCell(row, col, num)] + sub.events))
  {
  }

  /** The nested scan at the start of `solveSudoku`: row by row, column by
      column, it stops at the first cell holding 0; `isEmpty` stays true when
      there is none (the board is then full). */
  method FindEmpty(board: array2<int>) returns (row: int, col: int, isEmpty: bool)
    requires board.Length0 == 9 && board.Length1 == 9
    ensures isEmpty <==> FirstEmpty(Snapshot(board)).None?
    ensures !isEmpty ==> FirstEmpty(Snapshot(board)) == Some((row, col))
  {
    ghost var g := Snapshot(board);
    row, col := -1, -1;
    isEmpty := true;
    for i := 0 to 9
      invariant isEmpty ==> forall a, b :: InGrid(a, b) && a < i ==> g[a][b] != 0
      invariant !isEmpty ==> FirstEmpty(g) == Some((row, col))
    {
      for j := 0 to 9
        invariant isEmpty ==> forall a, b :: InGrid(a, b) && Before(a, b, i, j) ==> g[a][b] != 0
        invariant !isEmpty ==> FirstEmpty(g) == Some((row, col))
      {
        if board[i, j] == 0 {
          row, col := i, j;
          isEmpty := false;
          FirstEmptyUnique(g, row, col);
          break;
        }
      }
      if !isEmpty {
        break;
      }
    }
    if isEmpty {
      FirstEmptyMeaning(g);
    }
  }

  /** `solveSudoku(board)`. With `hasErrors` it returns at once (the page's
      `undefined`, a false value). Otherwise it finds the first empty cell in
      row-major order, returns true if there is none, and otherwise tries the
      digits there with `TryCandidates`. */
  method SolveSudoku(board: array2<int>, hasErrors: bool) returns (solved: bool, events: seq<Event>)
    requires board.Length0 == 9 && board.Length1 == 9
    modifies board
    ensures hasErrors ==> !solved && events == []
    ensures !hasErrors ==> solved == Search(old(Snapshot(board))).solution.Some?
    ensures !hasErrors ==> events == Search(old(Snapshot(board))).events
    ensures solved ==> Snapshot(board) == Search(old(Snapshot(board))).solution.value
    ensures !solved ==> Snapshot(board) == old(Snapshot(board))
    decreases ZeroCount(Snapshot(board)), 2
  {
    if hasErrors {
      return false, [];
    }
    ghost var g := Snapshot(board);
    var row, col, isEmpty := FindEmpty(board);
    if isEmpty {
      return true, [];
    }
    SearchAt(g, row, col);
    solved, events := TryCandidates(board, row, col, g);
  }

  /** The candidate loop of `solveSudoku` at the empty cell (row, col) of
      the board g: the digits 1..9 in ascending order; each digit that
      passes both checks is placed and searched from by `PlaceAndSearch`,
      and the first that leads to a solution ends the loop. */
  method TryCandidates(board: array2<int>, row: int, col: int, ghost g: Grid) returns (solved: bool, events: seq<Event>)
    requires board.Length0 == 9 && board.Length1 == 9 && Snapshot(board) == g
    requires InGrid(row, col) && g[row][col] == 0
    modifies board
    ensures solved == TryFrom(g, row, col, 1).solution.Some?
    ensures events == TryFrom(g, row, col, 1).events
    ensures solved ==> Snapshot(board) == TryFrom(g, row, col, 1).solution.value
    ensures !solved ==> Snapshot(board) == g
    decreases ZeroCount(g), 1
  {
    events := [];
    LoopStart(g, row, col);
    for num := 1 to 10
      invariant Snapshot(board) == g
      invariant LoopAt(g, row, col, num, events)
    {
      var correctNum := CorrectNumber(Snapshot(board), num, row, col);
      var box := CorrectBox(Snapshot(board), num, row, col);
      if correctNum && box {
        var ok, trace := PlaceAndSearch(board, row, col, num, g);
        ghost var sub := Search(Write(g, row, col, num));
        if ok {
          CandidateSucceeds(g, row, col, num, events, sub);
          return true, events + trace;
        }
        CandidateFails(g, row, col, num, events, sub);
        events := events + trace;
      } else {
        CandidateSkipped(g, row, col, num, events);
      }
    }
    LoopEnd(g, row, col, events);
    solved := false;
  }

  /** The body of the candidate loop for a digit that passed both checks:
      write it into the empty cell, search on (the recursive call finds no
      marked tile, since the search itself never marks one), and on failure
      reset the cell to 0. The events are the placement, the recursive
      search's events and, on failure, the clearing of the cell. */
  method PlaceAndSearch(board: array2<int>, row: int, col: int, num: int, ghost g: Grid) returns (ok: bool, events: seq<Event>)
    requires board.Length0 == 9 && board.Length1 == 9 && Snapshot(board) == g
    requires InGrid(row, col) && g[row][col] == 0 && num != 0
    modifies board
    ensures ok == Search(Write(g, row, col, num)).solution.Some?
    ensures events == [SetCell(row, col, num)] + Search(Write(g, row, col, num)).events +
      (if ok then [] else [ClearCell(row, col)])
    ensures ok ==> Snapshot(board) == Search(Write(g, row, col, num)).solution.value
    ensures !ok ==> Snapshot(board) == g
    decreases ZeroCount(g), 0
  {
    board[row, col] := num;
    GridsEqual(Snapshot(board), Write(g, row, col, num));
    FillOneEmpty(g, row, col, num);
    var sub;
    ok, sub := SolveSudoku(board, false);
    if ok {
      events := [SetCell(row, col, num)] + sub;
    } else {
      board[row, col] := 0;
      GridsEqual(Snapshot(board), g);
      events := [SetCell(row, col, num)] + sub + [ClearCell(row, col)];
    }
  }
}
