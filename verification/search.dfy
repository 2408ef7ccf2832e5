/** What the backtracking search of `solveSudoku` promises, stated about
    `Search`: a solution it returns completes the puzzle and, from a
    consistent puzzle, solves it; it finds a solution whenever one exists;
    its tile updates touch only the empty cells and, played back on the
    tiles, leave them showing the solution, or the puzzle as it was. */
module SearchFacts {
  import opened Board
  import opened Rules
  import opened Solver

  /** s fills in g: it keeps every filled cell of g and holds a digit 1..9
      in every cell that g leaves empty. */
  ghost predicate Completes(g: Grid, s: Grid)
  {
    forall i, j :: InGrid(i, j) ==>
      (g[i][j] != 0 ==> s[i][j] == g[i][j]) && (g[i][j] == 0 ==> 1 <= s[i][j] <= 9)
  }

  /** Completing g after placing a digit 1..9 in one of its empty cells completes g. */
  lemma CompletesAfterPlacement(g: Grid, row: int, col: int, v: int, s: Grid)
    requires InGrid(row, col) && g[row][col] == 0 && 1 <= v <= 9
    requires Completes(Write(g, row, col, v), s)
    ensures Completes(g, s)
  {
    var h := Write(g, row, col, v);
    forall i, j | InGrid(i, j)
      ensures (g[i][j] != 0 ==> s[i][j] == g[i][j]) && (g[i][j] == 0 ==> 1 <= s[i][j] <= 9)
    {
      if (i, j) != (row, col) {
        assert h[i][j] == g[i][j];
      }
    }
  }

  /** r, when present, solves g as far as g allows: it completes g, leaves
      no cell empty and, when g is consistent, is consistent. */
  ghost predicate SolutionOf(g: Grid, r: Option<Grid>)
  {
    r.Some? ==> Completes(g, r.value) && NoEmpty(r.value) && (Consistent(g) ==> Consistent(r.value))
  }

  /** A solution found after a placement that passes both checks is a solution of the grid before it. */
  lemma PlacedSolution(g: Grid, row: int, col: int, num: int, r: Option<Grid>)
    requires InGrid(row, col) && g[row][col] == 0 && 1 <= num <= 9
    requires Placeable(g, num, row, col)
    requires SolutionOf(Write(g, row, col, num), r)
    ensures SolutionOf(g, r)
  {
    if r.Some? {
      CompletesAfterPlacement(g, row, col, num, r.value);
      if Consistent(g) {
        PlacementKeepsConsistent(g, num, row, col);
      }
    }
  }

  /** A solution returned by the search completes the grid it started from,
      leaves no cell empty and, when that grid was consistent, is consistent:
      it solves the puzzle. */
  lemma {:induction false} SearchSound(g: Grid)
    decreases ZeroCount(g), 10
    ensures SolutionOf(g, Search(g).solution)
  {
    FirstEmptyMeaning(g);
    match FirstEmpty(g)
    case None =>
    case Some((row, col)) =>
      TryFromSound(g, row, col, 1);
  }

  /** The candidate loop from digit num on returns only solutions as `SearchSound` describes. */
  lemma {:induction false} TryFromSound(g: Grid, row: int, col: int, num: int)
    requires InGrid(row, col) && g[row][col] == 0 && 1 <= num <= 10
    decreases ZeroCount(g), 10 - num
    ensures SolutionOf(g, TryFrom(g, row, col, num).solution)
  {
    if num < 10 {
      TryFromSound(g, row, col, num + 1);
      if Placeable(g, num, row, col) {
        FillOneEmpty(g, row, col, num);
        var h := Write(g, row, col, num);
        SearchSound(h);
        PlacedSolution(g, row, col, num, Search(h).solution);
      }
    }
  }

  /** In a consistent completion s of g, the digit s puts in an empty cell of
      g passes both checks on g. */
  lemma CompletionPlaceable(g: Grid, s: Grid, row: int, col: int)
    requires Completes(g, s) && Consistent(s)
    requires InGrid(row, col) && g[row][col] == 0
    ensures Placeable(g, s[row][col], row, col)
  {
    var v := s[row][col];
    PlaceableIffNoPeerHolds(g, v, row, col);
    forall i, j | Peer(row, col, i, j) ensures g[i][j] != v {
      assert s[i][j] != v;
    }
  }

  /** A completion of g still completes g with one empty cell filled with the completion's digit. */
  lemma CompletesOwnDigit(g: Grid, s: Grid, row: int, col: int)
    requires Completes(g, s) && InGrid(row, col)
    ensures Completes(Write(g, row, col, s[row][col]), s)
  {
    var h := Write(g, row, col, s[row][col]);
    forall i, j | InGrid(i, j)
      ensures (h[i][j] != 0 ==> s[i][j] == h[i][j]) && (h[i][j] == 0 ==> 1 <= s[i][j] <= 9)
    {
      if (i, j) != (row, col) {
        assert h[i][j] == g[i][j];
      }
    }
  }

  /** Whenever g has a consistent completion, the search finds a solution. */
  lemma {:induction false} SearchComplete(g: Grid, s: Grid)
    requires Completes(g, s) && Consistent(s)
    decreases ZeroCount(g), 10
    ensures Search(g).solution.Some?
  {
    FirstEmptyMeaning(g);
    match FirstEmpty(g)
    case None =>
    case Some((row, col)) =>
      TryFromComplete(g, row, col, 1, s);
  }

  /** The candidate loop from any digit up to the one a consistent completion
      puts in the cell finds a solution. */
  lemma {:induction false} TryFromComplete(g: Grid, row: int, col: int, num: int, s: Grid)
    requires InGrid(row, col) && g[row][col] == 0
    requires Completes(g, s) && Consistent(s)
    requires 1 <= num <= s[row][col]
    decreases ZeroCount(g), 10 - num
    ensures TryFrom(g, row, col, num).solution.Some?
  {
    if num < s[row][col] {
      TryFromComplete(g, row, col, num + 1, s);
    } else {
      CompletionPlaceable(g, s, row, col);
      FillOneEmpty(g, row, col, num);
      CompletesOwnDigit(g, s, row, col);
      SearchComplete(Write(g, row, col, num), s);
    }
  }

  /** From a consistent puzzle, the search fails exactly when the puzzle has
      no solution. */
  lemma SearchFailsIffUnsolvable(g: Grid)
    requires Consistent(g)
    ensures Search(g).solution.None? <==> !exists s :: Completes(g, s) && Solved(s)
  {
    SearchSound(g);
    if exists s :: Completes(g, s) && Solved(s) {
      var s :| Completes(g, s) && Solved(s);
      SearchComplete(g, s);
    }
  }

  /** A consistent puzzle with exactly one solution is solved to that solution. */
  lemma SearchFindsUnique(g: Grid, s: Grid)
    requires Consistent(g) && Completes(g, s) && Solved(s)
    requires forall t :: Completes(g, t) && Solved(t) ==> t == s
    ensures Search(g).solution == Some(s)
  {
    SearchSound(g);
    SearchComplete(g, s);
  }

  /** With no empty cell the search succeeds at once with the grid as it
      is, and makes no tile update. */
  lemma SearchFull(g: Grid)
    requires NoEmpty(g)
    ensures Search(g) == Outcome(Some(g), [])
  {
    FirstEmptyMeaning(g);
  }

  /** From a consistent puzzle, every cell of the solution found is filled
      and passes both checks, so `checkGame` on it would mark nothing and
      report completion. */
  lemma SolutionPassesChecks(g: Grid)
    requires Consistent(g) && Search(g).solution.Some?
    ensures var s := Search(g).solution.value;
      forall i, j :: InGrid(i, j) ==> s[i][j] != 0 && Placeable(s, s[i][j], i, j)
  {
    SearchSound(g);
    var s := Search(g).solution.value;
    ConsistentIffNoErrors(s);
    forall i, j | InGrid(i, j) ensures s[i][j] != 0 && Placeable(s, s[i][j], i, j) {
      assert (i, j) !in ErrorCells(s);
    }
  }

  /** The tiles after one event: a placed digit, or a cleared tile shown as 0. */
  function Apply(g: Grid, e: Event): (h: Grid)
    ensures e.SetCell? && InGrid(e.row, e.col) ==> h[e.row][e.col] == e.value
    ensures e.ClearCell? && InGrid(e.row, e.col) ==> h[e.row][e.col] == 0
  {
    match e
    case SetCell(r, c, v) => if InGrid(r, c) then Write(g, r, c, v) else g
    case ClearCell(r, c) => if InGrid(r, c) then Write(g, r, c, 0) else g
  }

  /** The tiles after a sequence of events, applied in order. */
  function Replay(g: Grid, events: seq<Event>): Grid
    decreases |events|
  {
    if events == [] then g else Replay(Apply(g, events[0]), events[1..])
  }

  /** Replaying two sequences one after the other is replaying their concatenation. */
  lemma {:induction false} ReplayAppend(g: Grid, a: seq<Event>, b: seq<Event>)
    decreases |a|
    ensures Replay(g, a + b) == Replay(Replay(g, a), b)
  {
    if a != [] {
      assert (a + b)[0] == a[0];
      assert (a + b)[1..] == a[1..] + b;
      ReplayAppend(Apply(g, a[0]), a[1..], b);
    } else {
      assert a + b == b;
    }
  }

  /** Placing a digit and then replaying events is replaying them on the grid with the digit placed. */
  lemma ReplayPlacement(g: Grid, row: int, col: int, num: int, events: seq<Event>)
    requires InGrid(row, col)
    ensures Replay(g, [SetCell(row, col, num)] + events) == Replay(Write(g, row, col, num), events)
  {
    var place := [SetCell(row, col, num)];
    assert Replay(g, place) == Write(g, row, col, num);
    ReplayAppend(g, place, events);
  }

  /** A placement in an empty cell, events that come back to the grid with
      the digit placed, and the clearing of the cell leave the grid as it was. */
  lemma ReplayRetraction(g: Grid, row: int, col: int, num: int, events: seq<Event>, rest: seq<Event>)
    requires InGrid(row, col) && g[row][col] == 0
    requires Replay(Write(g, row, col, num), events) == Write(g, row, col, num)
    ensures Replay(g, [SetCell(row, col, num)] + events + [ClearCell(row, col)] + rest) == Replay(g, rest)
  {
    var place := [SetCell(row, col, num)];
    var clear := [ClearCell(row, col)];
    var h := Write(g, row, col, num);
    ReplayPlacement(g, row, col, num, events);
    ReplayAppend(g, place + events, clear);
    assert Replay(h, clear) == g by {
      WriteBack(g, row, col, num);
    }
    ReplayAppend(g, place + events + clear, rest);
  }

  /** Replaying the outcome's events on g leaves its solution, or g itself when there is none. */
  ghost predicate ReplaysTo(g: Grid, o: Outcome)
  {
    Replay(g, o.events) == (if o.solution.Some? then o.solution.value else g)
  }

  /** The tiles the search updates end up showing its solution, or, when it
      fails, the grid it started from: every placement that led nowhere has
      been cleared again. */
  lemma {:induction false} SearchReplay(g: Grid)
    decreases ZeroCount(g), 10, 0
    ensures ReplaysTo(g, Search(g))
  {
    FirstEmptyMeaning(g);
    match FirstEmpty(g)
    case None =>
    case Some((row, col)) =>
      TryFromReplay(g, row, col, 1);
  }

  /** `SearchReplay` for the candidate loop from digit num on. */
  lemma {:induction false} TryFromReplay(g: Grid, row: int, col: int, num: int)
    requires InGrid(row, col) && g[row][col] == 0 && 1 <= num <= 10
    decreases ZeroCount(g), 10 - num, 1
    ensures ReplaysTo(g, TryFrom(g, row, col, num))
  {
    if num < 10 {
      TryFromReplay(g, row, col, num + 1);
      ReplayStep(g, row, col, num);
    }
  }

  /** One digit of the candidate loop, given the replay fact for the digits after it. */
  lemma {:induction false} ReplayStep(g: Grid, row: int, col: int, num: int)
    requires InGrid(row, col) && g[row][col] == 0 && 1 <= num <= 9
    requires ReplaysTo(g, TryFrom(g, row, col, num + 1))
    decreases ZeroCount(g), 10 - num, 0
    ensures ReplaysTo(g, TryFrom(g, row, col, num))
  {
    if Placeable(g, num, row, col) {
      FillOneEmpty(g, row, col, num);
      SearchReplay(Write(g, row, col, num));
      PlacedReplay(g, row, col, num);
    }
  }

  /** One step of `TryFromReplay`: a digit that passes both checks, given
      the replay facts for the search after placing it and for the next digit. */
  lemma PlacedReplay(g: Grid, row: int, col: int, num: int)
    requires InGrid(row, col) && g[row][col] == 0 && 1 <= num <= 9
    requires Placeable(g, num, row, col)
    requires ReplaysTo(Write(g, row, col, num), Search(Write(g, row, col, num)))
    requires ReplaysTo(g, TryFrom(g, row, col, num + 1))
    ensures ReplaysTo(g, TryFrom(g, row, col, num))
  {
    var sub := Search(Write(g, row, col, num));
    ReplayPlacement(g, row, col, num, sub.events);
    if sub.solution.None? {
      ReplayRetraction(g, row, col, num, sub.events, TryFrom(g, row, col, num + 1).events);
    }
  }

  /** Every event addresses a cell that is empty in g, and every placed digit is 1..9. */
  ghost predicate OnEmptyCells(g: Grid, events: seq<Event>)
  {
    forall k :: 0 <= k < |events| ==>
      InGrid(events[k].row, events[k].col) && g[events[k].row][events[k].col] == 0 &&
      (events[k].SetCell? ==> 1 <= events[k].value <= 9)
  }

  lemma OnEmptyCellsAppend(g: Grid, a: seq<Event>, b: seq<Event>)
    requires OnEmptyCells(g, a) && OnEmptyCells(g, b)
    ensures OnEmptyCells(g, a + b)
  {
    forall k | 0 <= k < |a + b|
      ensures InGrid((a + b)[k].row, (a + b)[k].col) && g[(a + b)[k].row][(a + b)[k].col] == 0 &&
        ((a + b)[k].SetCell? ==> 1 <= (a + b)[k].value <= 9)
    {
      if k >= |a| {
        assert (a + b)[k] == b[k - |a|];
      }
    }
  }

  /** Events on the cells left empty after a placement are on cells empty before it. */
  lemma OnEmptyCellsBeforePlacement(g: Grid, row: int, col: int, v: int, events: seq<Event>)
    requires InGrid(row, col) && g[row][col] == 0
    requires OnEmptyCells(Write(g, row, col, v), events)
    ensures OnEmptyCells(g, events)
  {
    var h := Write(g, row, col, v);
    forall k | 0 <= k < |events|
      ensures InGrid(events[k].row, events[k].col) && g[events[k].row][events[k].col] == 0
    {
      var (r, c) := (events[k].row, events[k].col);
      assert h[r][c] == 0;
    }
  }

  /** The search never touches a given digit: it only fills and clears cells
      that are empty in the puzzle, with digits 1..9. */
  lemma {:induction false} SearchOnEmptyCells(g: Grid)
    decreases ZeroCount(g), 10
    ensures OnEmptyCells(g, Search(g).events)
  {
    FirstEmptyMeaning(g);
    match FirstEmpty(g)
    case None =>
    case Some((row, col)) =>
      TryFromOnEmptyCells(g, row, col, 1);
  }

  /** `SearchOnEmptyCells` for the candidate loop from digit num on. */
  lemma {:induction false} TryFromOnEmptyCells(g: Grid, row: int, col: int, num: int)
    requires InGrid(row, col) && g[row][col] == 0 && 1 <= num <= 10
    decreases ZeroCount(g), 10 - num
    ensures OnEmptyCells(g, TryFrom(g, row, col, num).events)
  {
    if num < 10 {
      TryFromOnEmptyCells(g, row, col, num + 1);
      if Placeable(g, num, row, col) {
        FillOneEmpty(g, row, col, num);
        var h := Write(g, row, col, num);
        var sub := Search(h);
        SearchOnEmptyCells(h);
        OnEmptyCellsBeforePlacement(g, row, col, num, sub.events);
        var place := [SetCell(row, col, num)];
        OnEmptyCellsAppend(g, place, sub.events);
        if sub.solution.None? {
          var clear := [ClearCell(row, col)];
          OnEmptyCellsAppend(g, place + sub.events, clear);
          OnEmptyCellsAppend(g, place + sub.events + clear, TryFrom(g, row, col, num + 1).events);
        }
      }
    }
  }
}
