# sudoku.js puzzle engine in Dafny

sudoku.js is a browser Sudoku page. It shows a 9×9 puzzle (`ogBoard`) and keeps
the player's grid in `sudokuBoard`, where 0 means an empty cell. The player can
do four things:

- **Press "set game"** (`setGame`). The tiles are built anew from the puzzle,
  so every error mark disappears; `sudokuBoard` keeps its values.
- **Type into an editable tile.** The `input` listener cuts a trimmed entry longer
  than one character to its first character. It blanks any entry whose trimmed
  form is not all digits, clears every error mark, and stores `Number(text)`
  in the cell (`updateBoard`).
- **Press "check"** (`checkGame`). Every filled cell is checked with
  `correctNumber` (its row and column) and `correctBox` (its 3×3 box). Each
  failing tile gets the `error` class. When no cell is empty and none failed,
  the grid is shown as complete.
- **Press "solve"** (`solve`). The backtracking search `solveSudoku` runs on a
  deep copy of the board:
  - If an error mark is on the page, it stops at once.
  - Otherwise it finds the first empty cell in row-major order and tries the
    digits 1 to 9 in ascending order. Each digit that passes both checks is
    written into the cell and shown in its tile, and the search recurses.
  - When the recursion fails, the cell is reset to 0 and its tile is cleared.

The model is split into six modules:

- **`Board`** (board.dfy):
  - the grid value `Grid`;
  - single-cell update `Write`;
  - `Snapshot`, which reads a 9×9 `array2<int>` as a `Grid`;
  - boxes and peers;
  - the count of empty cells, which is the solver's termination measure.
- **`Rules`** (rules.dfy):
  - the two checks, written as the recursive scans they are;
  - lemmas that state what each scan means;
  - the sweep `CheckGame`, a method with nested loops that reads the array
    and returns the cells to mark and the completion flag.
- **`Solver`** (solver.dfy):
  - `Search`/`TryFrom` state the backtracking search as a function of the grid
    it starts from. The result is the solution, if any, plus the tile updates
    (`Event`s) in the order the page makes them.
  - `SolveSudoku` is the in-place method on the array. It is proved to compute
    exactly what `Search` describes.
- **`SearchFacts`** (search.dfy): what `Search` promises:
  - **soundness:** a returned solution fills in the puzzle and, from a
    consistent puzzle, solves it;
  - **completeness:** it finds a solution whenever one exists;
  - **locality:** only empty cells are touched, and only with digits 1 to 9;
  - **replay:** the tile updates leave the tiles showing the solution, or the
    puzzle unchanged after a failed search.
- **`Input`** (input.dfy): the edit path of a tile:
  - `IsValidInput` (the all-digits test), `Trim` (`String.prototype.trim`),
    `Sanitize` (the listener's corrections to the tile's text), `Number` and
    `EnteredValue` (the value stored in the cell);
  - `SanitizeShows` and `EnteredValueMeaning` state what the corrections
    leave in the tile and what value the cell receives.
- **`Game`** (game.dfy): the page state as a class. `board` is `sudokuBoard`,
  `original` is `ogBoard` and `marks` are the tiles carrying the `error` class.
  Its methods are `SetGame`, `Input` (which calls `UpdateBoard`), `Check` and
  `Solve`, and its invariant is `Valid`:
  - fixed tiles keep their digits;
  - every cell holds 0 to 9;
  - every marked tile really fails a check.

Modelling notes:

- **The board as page state.** `checkForErrors()` asks the page whether any tile
  carries the `error` class. It becomes the boolean `hasErrors`, and
  `Game.Solve` passes `marks != {}`. The search itself never marks a tile, so
  the recursive calls receive `false`. That is what `checkForErrors` answers
  there only when the player does nothing while the search runs (see
  "Left out").
- **The "solve" button.** `solve` searches a copy, so `sudokuBoard` never
  receives the solution: only the tiles show it. The `!solveSudoku(...)` test in
  `solve` tests the Promise that the `async` function returns. A Promise is
  always truthy, so the "No Solution Found" message can never appear, and the
  model does not show it.
- **The input listener.** It judges validity on the whole trimmed entry,
  before the cut to one character. So `"5a"` is blanked rather than becoming
  `"5"`, and `"12"` becomes `"1"`.
  - An entry that needs no correction is left exactly as typed, white space
    included.
  - `Number` then ignores that white space, so `" 7 "` enters 7.
  - `"0"` passes and enters 0, which is an empty cell.

## Model

| member | source | states |
|---|---|---|
| Board.BoxStart | sudoku.js:126-128 | the box start is 0, 3 or 6, and the three rows (or columns) from it hold i |
| Board.BoxStartRemainder | sudoku.js:126-128 | the box start is `i - i % 3`, the index less its remainder modulo 3 |
| Board.FillOneEmpty | sudoku.js:191-200 | placing a nonzero digit in an empty cell leaves exactly one empty cell fewer, so each recursive search starts with fewer empty cells |
| Board.WriteBack | sudoku.js:195-204 | writing a cell and then writing back its previous value (the reset to 0 of an empty cell) restores the grid |
| Rules.RowClear | sudoku.js:111-115 | the row loop of `correctNumber` from a column on, returning false at the first other column holding the value; its meaning is `RowClearMeaning` |
| Rules.ColClear | sudoku.js:117-121 | the column loop of `correctNumber` from a row on, returning false at the first other row holding the value; its meaning is `ColClearMeaning` |
| Rules.CorrectNumber | sudoku.js:110-123 | `correctNumber`: the row loop, then the column loop; its meaning is `CorrectNumberMeaning` |
| Rules.BoxRowClear | sudoku.js:131-135 | the inner loop of `correctBox` over one box row, returning false at a cell outside the target's row and column holding the value; its meaning is `BoxRowClearMeaning` |
| Rules.BoxRowsClear | sudoku.js:130-136 | the outer loop of `correctBox` over the box rows, each scanned over the box's three columns; its meaning is `BoxRowsClearMeaning` |
| Rules.CorrectBox | sudoku.js:125-138 | `correctBox`: both loops over the box whose corner is `BoxStart` of the row and of the column; its meaning is `CorrectBoxMeaning` |
| Rules.RowClearMeaning | sudoku.js:111-115 | the row loop fails exactly when a column other than `col` holds the value |
| Rules.ColClearMeaning | sudoku.js:117-121 | the column loop fails exactly when a row other than `row` holds the value |
| Rules.CorrectNumberMeaning | sudoku.js:110-123 | `correctNumber` is false exactly when another cell of the row or another cell of the column holds the value; only the target cell is skipped |
| Rules.BoxRowClearMeaning | sudoku.js:131-135 | the inner box loop fails exactly when a cell outside the target's row and column holds the value |
| Rules.BoxRowsClearMeaning | sudoku.js:130-136 | the outer box loop fails exactly when a box cell in a later row, sharing neither row nor column with the target, holds the value |
| Rules.CorrectBoxMeaning | sudoku.js:125-138 | `correctBox` is false exactly when a cell of the target's box that shares neither its row nor its column holds the value |
| Rules.PlaceableIffNoPeerHolds | sudoku.js:110-138 | both checks pass exactly when no other cell of the row, column or box holds the value |
| Rules.CorrectNumberIgnoresTarget | sudoku.js:110-123 | `correctNumber` gives the same verdict whatever the target cell holds |
| Rules.CorrectBoxIgnoresTarget | sudoku.js:125-138 | `correctBox` gives the same verdict whatever the target cell holds |
| Rules.Placeable | sudoku.js:192-194 | the `correctNum && box` test: the value passes both checks at the cell; `PlaceableIffNoPeerHolds` gives its meaning |
| Rules.Flagged | sudoku.js:84-94 | a cell `checkGame` marks: filled, with its own value failing `correctNumber` or `correctBox`; `PlaceableIffNoPeerHolds` gives its meaning in terms of peers |
| Rules.ErrorCells | sudoku.js:82-95 | the set of cells `checkGame` marks; `ConsistentIffNoErrors` says it is empty exactly when no two peers share a digit |
| Rules.ConsistentIffNoErrors | sudoku.js:79-100 | the sweep marks no cell exactly when no two peers hold the same digit |
| Rules.PlacementKeepsConsistent | sudoku.js:191-195 | writing a digit that passes both checks into an empty cell keeps a conflict-free grid conflict-free |
| Rules.SweepStep | sudoku.js:82-95 | visiting one more cell marks it exactly when it is filled and fails a check, and keeps `complete` only when it is filled and unmarked |
| Rules.SweepResult | sudoku.js:97-100 | once every cell has been visited, the marked cells are exactly the failing filled cells and `complete` means solved |
| Rules.CheckGame | sudoku.js:79-100 | marks exactly the filled cells that fail `correctNumber` or `correctBox`; `complete` holds exactly when no cell is empty and none is marked, that is, when the grid is solved |
| Solver.FirstEmptyFrom | sudoku.js:173-185 | the nested scan from (i, j) on: the first empty cell at or after it in row-major order, or none; a cell it finds is empty; `FirstEmptyFromMeaning` gives its meaning |
| Solver.FirstEmpty | sudoku.js:170-185 | the first empty cell in row-major order, or none; `FirstEmptyMeaning` gives its meaning and `FindEmpty` is proved to compute it |
| Solver.Search | sudoku.js:166-212 | `solveSudoku` after the error test, as a function of the grid: the solution found, if any, and the tile updates in page order; `SearchSound`, `SearchComplete`, `SearchReplay` and `SearchOnEmptyCells` state what it promises, and `SolveSudoku` is proved to compute it |
| Solver.TryFrom | sudoku.js:191-211 | the candidate loop at an empty cell from one digit on: place a digit passing both checks, recurse, keep the digit on success, clear it and go on on failure; `TryFromSound`, `TryFromComplete` and `TryFromReplay` state what it promises, and `TryCandidates` is proved to compute it |
| Solver.FirstEmptyFromMeaning | sudoku.js:173-185 | the scan from (i, j) finds nothing exactly when every later cell is filled, and otherwise finds an empty cell with every cell between filled |
| Solver.FirstEmptyMeaning | sudoku.js:173-189 | the scan finds nothing exactly when the board is full, and otherwise finds the first empty cell in row-major order |
| Solver.FirstEmptyUnique | sudoku.js:173-185 | an empty cell preceded only by filled cells is the cell the scan finds |
| Solver.SearchAt | sudoku.js:187-191 | with an empty cell found, the search is the candidate loop at that cell starting from digit 1 |
| Solver.LoopStart | sudoku.js:191 | before the first digit the loop has emitted nothing and its result is still that of the whole loop |
| Solver.LoopEnd | sudoku.js:191-211 | after the last digit with no success, the loop has failed with the events emitted so far |
| Solver.CandidateSkipped | sudoku.js:192-194 | a digit that fails a check passes the loop on to the next digit with no event |
| Solver.CandidateFails | sudoku.js:194-210 | a digit whose placement leads to no solution passes the loop on to the next digit, after its placement, the failed search's events and the clearing |
| Solver.CandidateSucceeds | sudoku.js:194-202 | a digit whose placement leads to a solution ends the loop with that solution |
| Solver.FindEmpty | sudoku.js:170-185 | the nested scan reports no empty cell exactly when the board is full, and otherwise the first empty cell in row-major order |
| Solver.SolveSudoku | sudoku.js:166-212 | with `hasErrors` it returns false with no events; otherwise its result and events are those of `Search` on the board as it was on entry; on success the board holds the solution, and on failure it is as on entry |
| Solver.TryCandidates | sudoku.js:191-211 | the candidate loop's result and events are those of the loop specification from digit 1; on success the board holds the solution, and on failure it is as on entry |
| Solver.PlaceAndSearch | sudoku.js:194-208 | writes the digit, searches on, and on failure resets the cell to 0; the events are the placement, the inner search's events and the clearing |
| SearchFacts.CompletesAfterPlacement | sudoku.js:194-197 | a grid that fills in the puzzle with a digit placed also fills in the puzzle itself |
| SearchFacts.PlacedSolution | sudoku.js:194-202 | a solution found after placing a digit that passes both checks is a solution of the grid before the placement |
| SearchFacts.SearchSound | sudoku.js:166-212 | a solution returned keeps every filled cell, puts 1 to 9 in every empty one and leaves none empty, and from a conflict-free puzzle is conflict-free |
| SearchFacts.TryFromSound | sudoku.js:191-211 | the same for the candidate loop from any digit on |
| SearchFacts.CompletionPlaceable | sudoku.js:191-194 | the digit a conflict-free completion puts in an empty cell passes both checks |
| SearchFacts.SearchComplete | sudoku.js:166-212 | whenever the puzzle has a conflict-free completion, the search returns a solution |
| SearchFacts.TryFromComplete | sudoku.js:191-211 | the candidate loop from any digit up to the completion's digit finds a solution |
| SearchFacts.SearchFailsIffUnsolvable | sudoku.js:166-212 | from a conflict-free puzzle, the search fails exactly when the puzzle has no solution |
| SearchFacts.SearchFindsUnique | sudoku.js:166-212 | a conflict-free puzzle with exactly one solution is solved to that solution |
| SearchFacts.SearchFull | sudoku.js:187-189 | with no empty cell, the search succeeds with the grid unchanged and makes no tile update |
| SearchFacts.SolutionPassesChecks | sudoku.js:191-195 | from a conflict-free puzzle, every cell of the solution is filled and passes both checks |
| SearchFacts.Apply | sudoku.js:196-205 | a placement event shows its digit in its tile, and a clearing shows the tile empty |
| SearchFacts.ReplayPlacement | sudoku.js:195-197 | replaying a placement and then further events is replaying those events on the grid with the digit placed |
| SearchFacts.ReplayRetraction | sudoku.js:195-205 | a placement, events that come back to the placed grid, and the clearing leave the tiles as they were |
| SearchFacts.SearchReplay | sudoku.js:191-211 | played back on the tiles, the search's events end showing the solution, or the puzzle as it was when the search fails |
| SearchFacts.TryFromReplay | sudoku.js:191-211 | the same for the candidate loop from any digit on |
| SearchFacts.ReplayStep | sudoku.js:191-210 | the same for one digit of the loop, given it for the digits after it |
| SearchFacts.PlacedReplay | sudoku.js:194-210 | the same for a digit that passes both checks, given it for the search after its placement and for the digits after it |
| SearchFacts.SearchOnEmptyCells | sudoku.js:175-205 | every event addresses a cell that was empty in the puzzle, and every placed digit is 1 to 9, so no given digit is ever overwritten |
| SearchFacts.TryFromOnEmptyCells | sudoku.js:191-210 | the same for the candidate loop from any digit on |
| Input.IsValidInput | sudoku.js:67-70 | `isValidInput`: every character of the text is 0 to 9, the empty text included; `SanitizeShows` states how the listener uses it |
| Input.Trim | sudoku.js:46 | `String.prototype.trim`: the text without leading and trailing white space; `TrimStartMeaning`, `TrimEndMeaning` and `TrimOfPadded` give its meaning |
| Input.Sanitize | sudoku.js:46-58 | the text the listener leaves in the tile; `SanitizeShows` gives its meaning and `SanitizeIdempotent` its stability |
| Input.EnteredValue | sudoku.js:45-60 | the value `updateBoard` stores for the text the tile held; `EnteredValueMeaning` gives its meaning |
| Input.TrimStartMeaning | sudoku.js:46 | leading trimming removes a prefix of white space and only that, leaving a suffix that does not start with white space |
| Input.TrimEndMeaning | sudoku.js:46 | trailing trimming removes a suffix of white space and only that, leaving a prefix that does not end with white space |
| Input.TrimOfPadded | sudoku.js:46 | a core with no white space at its ends, padded with white space, trims to exactly the core |
| Input.TrimIdempotent | sudoku.js:46 | trimming a trimmed entry changes nothing |
| Input.DigitChar | sudoku.js:141 | the character of a value 0 to 9 is a digit whose value is that value |
| Input.Decimal | sudoku.js:141 | the decimal value of a digit string; a single digit has its own value |
| Input.Number | sudoku.js:141 | `Number` of a text that trims to a blank or one digit is 0 for the blank text and that digit's value otherwise |
| Input.SanitizeShows | sudoku.js:45-58 | an entry that is not all digits is blanked, an all-digit entry longer than one character is cut to its first character, and any other entry is left as typed; the tile is left with at most one digit amid white space, the first character of the trimmed entry |
| Input.EnteredValueMeaning | sudoku.js:45-60 | an entry stores the value of the first character of the trimmed entry when that entry is a non-empty string of digits, and 0 otherwise; the value is always 0 to 9 |
| Input.SanitizeIdempotent | sudoku.js:51-58 | the listener's corrections leave a text that another pass would not change |
| Input.TypedDigit | sudoku.js:45-60 | typing one digit shows that digit and stores its value |
| Game.NewBoard | sudoku.js:13 | a fresh 9×9 array holding the given grid |
| Game.CopyBoard | sudoku.js:145 | the deep copy is a fresh array with the same cells |
| Game.Game.constructor | sudoku.js:3-13 | the page starts with the sample puzzle on the board and as the original, with no tile marked, and the invariant holds |
| Game.Game.SetGame | sudoku.js:22-65 | every error mark disappears, the board keeps its values, and the invariant is kept |
| Game.Game.UpdateBoard | sudoku.js:140-142 | on an editable tile with the marks removed, the cell takes the value `Number(text)`, every other cell keeps its value, and the invariant is kept |
| Game.Game.Input | sudoku.js:45-60 | the tile shows the corrected text, every mark is removed, only the edited cell changes, and it changes to the entered value; the invariant is kept |
| Game.Game.Check | sudoku.js:79-100 | adds exactly the failing cells to the marks and reports whether the board is solved; the invariant is kept |
| Game.Game.Solve | sudoku.js:144-150 | the board and the marks do not change; with a mark on the page there are no tile updates and two peers of the board do share a digit, and otherwise the updates are those of `Search` on the board |

## Left out

- **The page itself.** The model has no page tiles, classes or messages: the
  board, the marks and the solver's events stand for them. Left out:
  - the tile texts `setGame` builds: it shows the puzzle's digits and blanks
    every editable tile while `sudokuBoard` keeps the player's entries; the
    model keeps only the board and the clearing of the marks (`Game.SetGame`);
  - `completeGrid`, which restyles tiles once the board is complete;
  - the text of the error title set by `checkForErrors`;
  - the `success` class the solver adds to and removes from a tile.
- **Timing.** `delay`, `setTimeout` and the `async`/`await` plumbing are left
  out. The model performs the search's steps in the same order, without pauses.
- **The speed slider.** It computes a floating-point delay that is formatted as
  a string. It affects timing only.
- **The "No Solution Found" message in `solve`.** It is unreachable, because a
  Promise is always truthy; the model shows no message.
- **`checkForErrors`.** It is modelled only as the flag `hasErrors`, which is
  the test whether any tile is marked.
- `Input.Number`: models JavaScript's `Number` only for texts that trim to a
  blank or a single digit, because those are the only texts the listener
  passes to `updateBoard`; `Game.Game.UpdateBoard` requires the same. Longer
  digit strings, which `Number` rounds to a double above 2^53 and turns into
  Infinity past about 309 digits, and the conversion to NaN are not modelled.
- `Game.Game.UpdateBoard`: requires an editable tile, no marks and a text
  that trims to a blank or one digit, which is how the listener calls it
  (after `removeErrors`); `updateBoard` itself demands none of this, and other
  calls are not modelled.
- `Input.Decimal`: defined for digit strings of any length, but only the
  empty string and single digits reach it, through `Input.Number`; its
  contract speaks only of single digits.
- `Input.Sanitize`: a Dafny `char` is a Unicode scalar value, while the
  listener's `length` and `charAt(0)` count UTF-16 code units. An entry with a
  character outside the Basic Multilingual Plane (such as "𝟙") is one
  character longer in JavaScript than in the model. The corrected text still
  agrees, because such an entry is not all digits and is blanked either way.
- `Input.IsWhiteSpace`: lists the ECMAScript white space and line terminators
  by code point; all of them lie in the Basic Multilingual Plane.
- **Integer width.** Cell values are unbounded integers. All the values that
  occur are 0 to 9.
- `Solver.SolveSudoku`: its body is split over three mutually recursive
  methods. `SolveSudoku` holds the error test and the scan. `TryCandidates`
  holds the candidate loop. `PlaceAndSearch` holds the body of that loop for
  a digit that passes both checks. The recursive call is given `hasErrors = false`.
- **Interleaving with the search.** The model runs the search to its end
  without interruption, as if the solver owned the page until it finished.
  In the page, `solveSudoku` yields at each `await` (sudoku.js:199 and 207).
  - A "check" pressed meanwhile can mark tiles. The next recursive
    `checkForErrors` then answers true, every pending level fails and clears
    its placement, and the run ends without a solution where `Search` finds one.
  - A second "solve", or typing into a tile, interleaves its own updates with
    the running search's.
