# 6x6 Sudoku rule engine in Dafny

This project models the rule engine of a 6x6 Sudoku game with 2x3 boxes and
proves properties of it. The game is a small JavaFX application. Its rules
live in `SudokuModel`, which holds the solution board and the attempt grid.
That class generates a solved board by randomized backtracking and answers
placement and value queries. A few further rules sit in `SudokuController`:
the completion check, the input filter of each cell's text field, the
attempt update on input, and the hint ("help") that reveals a cell.

Boards are `seq<seq<int>>` constrained to six rows of six (0 = empty). The
attempt grid holds `Entry` values, because the Java code stores `Integer`s
there: the initial `0`, or `null` after the player clears a field. The
controller's state is modelled as a `Session`. It holds the solution, the
attempt and the text each field displays. Those texts are separate from the
attempt, because the filter can reject text that is still on screen.

Modules, in dependency order:

- `Grid` (grid.dfy): board geometry, the box origin `(row/2)*2, (col/3)*3`,
  row-major positions, and the Sudoku rules (`IsSolved`).
- `JavaInteger` (java_integer.dfy): `Integer.parseInt` and
  `Integer.toString` in radix 10, and the exceptions the code can throw.
- `Placement` (placement.dfy): `isValidPlacement` as the three scans of the
  source, and `isCorrectValue`.
- `Generation` (generation.dfy): `fillBoard` as two mutually recursive
  functions. `FillBoard` handles one cell. `TryCandidates` is the loop over
  the shuffled candidates.
- `Completeness` (completeness.dfy): soundness and completeness of the
  search. It also gives an explicit solved board, which shows that the
  search from the all-zero board always succeeds.
- `SudokuModel` (sudoku_model.dfy): `generateSudoku`,
  `generateEmptySudoku`, the constructor, and facts about solved boards.
- `SudokuController` (controller.dfy): `isGameOver`, the input filter,
  `handleCellInput`, the key listener and `showHelp`.

Randomness is a parameter. Each `Collections.shuffle` is modelled by an
oracle `sh: nat -> seq<int>`: the k-th shuffle of a search yields `sh(k)`,
and the only requirement is that each `sh(k)` is a permutation of 1..6.
The search threads the count of shuffles drawn so far. The `Random` draws
of `showHelp` are a finite sequence of sampled cells.

Three behaviours of the code shape the model:

- A hint writes the solution value into the attempt of every cell it
  samples, not only the cell it reveals: SudokuController.java:181 is
  outside the `if`. The loop's stop test looks at the displayed text, not
  at the attempt.
- `generateSudoku` ignores the result of `fillBoard(0, 0)`
  (SudokuModel.java:51). The search never fails from the all-zero board
  (`Completeness.FillFromZerosSucceeds`), so this is harmless.
- `showHelp` loops forever once every field shows its solution value. The
  model consumes a finite stream of draws and reports whether a hint was
  given.

## Model

| member | source | states |
|---|---|---|
| `Grid.BoxOrigin` | src/main/java/com/example/sudoku/model/SudokuModel.java:151-152 | the box corner of any on-board cell is a multiple of (2, 3); the 2x3 box it spans lies inside 0..5 and contains the cell |
| `JavaInteger.ParseInt` | src/main/java/com/example/sudoku/controller/SudokuController.java:214 | `Integer.parseInt` succeeds exactly when the text after an optional '+' or '-' is a non-empty string of digits whose signed value fits in 32 bits, and then yields that signed decimal value; every other text fails with NumberFormatException |
| `JavaInteger.ParseIntShortEdges` | src/main/java/com/example/sudoku/controller/SudokuController.java:214 | "", "+", "-" and "1a" fail to parse; "-5" and "+5" parse to -5 and 5 |
| `JavaInteger.ParseIntRangeEdges` | src/main/java/com/example/sudoku/controller/SudokuController.java:214 | "2147483647" and "-2147483648" parse to the 32-bit bounds; "2147483648" and "-2147483649" fail |
| `JavaInteger.NatToString` | src/main/java/com/example/sudoku/controller/SudokuController.java:171 | the text of a number is a non-empty string of digits, without a leading zero, whose decimal value is the number |
| `JavaInteger.ToString` | src/main/java/com/example/sudoku/controller/SudokuController.java:171 | `toString` is non-empty and starts with '-' exactly for negative numbers |
| `JavaInteger.ParseToString` | src/main/java/com/example/sudoku/controller/SudokuController.java:171 | parsing the text `toString` produces gives back every 32-bit integer |
| `JavaInteger.ParseSingleDigit` | src/main/java/com/example/sudoku/controller/SudokuController.java:267 | each one-character input "1".."6" that the filter admits parses to its digit |
| `JavaInteger.ToStringOfDigit` | src/main/java/com/example/sudoku/controller/SudokuController.java:171 | the revealed text of a board digit is that digit's single character |
| `Placement.RowHas` | src/main/java/com/example/sudoku/model/SudokuModel.java:137-141 | the row scan finds `num` exactly when some column of the row holds it |
| `Placement.ColumnHas` | src/main/java/com/example/sudoku/model/SudokuModel.java:144-148 | the column scan finds `num` exactly when some row of the column holds it |
| `Placement.BoxRowHas` | src/main/java/com/example/sudoku/model/SudokuModel.java:154-158 | the inner box loop finds `num` exactly when one of the box's three columns in that row holds it |
| `Placement.BoxHas` | src/main/java/com/example/sudoku/model/SudokuModel.java:153-159 | the nested box loops find `num` exactly when one of the six box cells holds it |
| `Placement.IsValidPlacement` | src/main/java/com/example/sudoku/model/SudokuModel.java:135-162 | true exactly when no cell sharing a row, column or box with (row, col) holds `num`, the cell itself included; the board is not changed |
| `Placement.RejectsRowColumnBox` | src/main/java/com/example/sudoku/model/SudokuModel.java:137-159 | `num` anywhere in the row, anywhere in the column, or anywhere in the 2x3 box makes the placement invalid, each scan on its own |
| `Placement.CheckedValidPlacement` | src/main/java/com/example/sudoku/model/SudokuModel.java:135-148 | a row off the board throws IndexOutOfBounds; a column off the board throws only when the row scan has not already returned false; on the board the result is the placement check |
| `Placement.IsCorrectValue` | src/main/java/com/example/sudoku/model/SudokuModel.java:80-82 | true exactly when the solution holds `num` at (row, col); coordinates off the board throw IndexOutOfBounds |
| `Generation.NextCell` | src/main/java/com/example/sudoku/model/SudokuModel.java:99-100 | the next cell is the following row-major position: its linear index `row*6+col` is one more, its column is in range, and it is at most one row down |
| `Generation.FillBoard` | src/main/java/com/example/sudoku/model/SudokuModel.java:92-123 | the search never changes the cells before (row, col); on success every cell from (row, col) on holds a digit that clashes with no earlier cell of its row, column or box; on failure a board empty from (row, col) on is returned unchanged; the search terminates because the linear index increases |
| `Generation.TryCandidates` | src/main/java/com/example/sudoku/model/SudokuModel.java:109-122 | the candidate loop from candidate i on never changes the cells before (row, col); on success every cell from (row, col) on holds a digit that clashes with no earlier cell; a digit placed before a failed recursion is reset to 0, so a board empty from (row, col) on comes back unchanged on failure. That the loop succeeds whenever a solved extension's value is still among the candidates is `Completeness.TryComplete` |
| `Generation.PlacedCellSound` | src/main/java/com/example/sudoku/model/SudokuModel.java:110-116 | a digit accepted by `isValidPlacement`, followed by a successful search of the rest, leaves the board consistent from the current cell on |
| `Generation.RestoredAfterFailure` | src/main/java/com/example/sudoku/model/SudokuModel.java:118-119 | resetting the cell to 0 after a failed recursion restores the board the loop started from when that board was empty from the cell on |
| `Completeness.ConsistentBoardIsSolved` | src/main/java/com/example/sudoku/model/SudokuModel.java:94-96 | when the search reaches row 6 with every cell filled and no cell clashing with an earlier one, the board is a solved Sudoku |
| `Completeness.FillSound` | src/main/java/com/example/sudoku/model/SudokuModel.java:102-122 | whenever `fillBoard(0, 0)` returns true, every cell holds 1..6 and no row, column or box has a duplicate, for every sequence of shuffles |
| `Completeness.ExtensionValuePlaceable` | src/main/java/com/example/sudoku/model/SudokuModel.java:135-162 | the value a solved extension holds at the current cell passes `isValidPlacement` on the partly filled board |
| `Completeness.FillComplete` | src/main/java/com/example/sudoku/model/SudokuModel.java:92-123 | from a board empty from (row, col) on, whose filled prefix some solved board extends, `fillBoard` succeeds |
| `Completeness.TryComplete` | src/main/java/com/example/sudoku/model/SudokuModel.java:109-122 | the candidate loop succeeds while the extension's value is still among the candidates left to try |
| `Completeness.FillFromZerosSucceeds` | src/main/java/com/example/sudoku/model/SudokuModel.java:44-51 | `fillBoard(0, 0)` on the all-zero board returns true for every sequence of shuffles and leaves a solved board |
| `SudokuModel.GenerateSudoku` | src/main/java/com/example/sudoku/model/SudokuModel.java:43-54 | the generated board is a solved 6x6 Sudoku |
| `SudokuModel.GenerateEmptySudoku` | src/main/java/com/example/sudoku/model/SudokuModel.java:61-69 | the attempt grid starts with 0 in all 36 cells |
| `SudokuModel.NewModel` | src/main/java/com/example/sudoku/model/SudokuModel.java:29-34 | the constructor leaves a solved board and an all-zero attempt |
| `SudokuModel.SolvedRowCovers` | src/main/java/com/example/sudoku/model/SudokuModel.java:43-54 | every row of a solved board, such as the generated one, holds each of 1..6 |
| `SudokuModel.SolvedColumnCovers` | src/main/java/com/example/sudoku/model/SudokuModel.java:43-54 | every column of a solved board holds each of 1..6 |
| `SudokuModel.SolvedBoxCovers` | src/main/java/com/example/sudoku/model/SudokuModel.java:43-54 | every 2x3 box of a solved board holds each of 1..6 |
| `SudokuModel.SolvedBoardRejectsEveryDigit` | src/main/java/com/example/sudoku/model/SudokuModel.java:135-162 | on a full solved board `isValidPlacement` rejects every digit at every cell, because each digit is already in the row |
| `SudokuModel.ClearedCellAcceptsOnlyCorrectValue` | src/main/java/com/example/sudoku/model/SudokuModel.java:80-82 | with one cell of a solved board cleared, a digit passes `isValidPlacement` there exactly when `isCorrectValue` accepts it |
| `SudokuController.NewSession` | src/main/java/com/example/sudoku/controller/SudokuController.java:47-51 | a new game has a solved board, an all-zero attempt and empty text fields |
| `SudokuController.IsGameOver` | src/main/java/com/example/sudoku/controller/SudokuController.java:283-294 | true exactly when every one of the 36 attempt cells is a non-null `Integer` equal to the solution cell |
| `SudokuController.BoardMatchesItself` | src/main/java/com/example/sudoku/controller/SudokuController.java:285-293 | a board compared with itself is complete |
| `SudokuController.EmptyCellMeansNotOver` | src/main/java/com/example/sudoku/controller/SudokuController.java:288 | an attempt cell holding `null` or 0 never equals a solution digit, so the game is not over |
| `SudokuController.ChangedCellMeansNotOver` | src/main/java/com/example/sudoku/controller/SudokuController.java:288 | changing any one cell of a complete attempt makes it incomplete |
| `SudokuController.NewSessionNotOver` | src/main/java/com/example/sudoku/controller/SudokuController.java:47-51 | a freshly started game is not over |
| `SudokuController.AcceptedInputs` | src/main/java/com/example/sudoku/controller/SudokuController.java:267 | the text-field filter admits exactly "", "1", "2", "3", "4", "5" and "6" |
| `SudokuController.HandleCellInput` | src/main/java/com/example/sudoku/controller/SudokuController.java:210-246 | a non-empty value stores its parsed number and an empty one stores `null`, in that cell only; completion is checked only after a non-empty value; a bad row, an unparsable value and a bad column throw in that order without changing the attempt |
| `SudokuController.KeyReleased` | src/main/java/com/example/sudoku/controller/SudokuController.java:263-270 | the field shows the typed text; text the filter rejects leaves the attempt as it was; accepted text always reaches the attempt (the digit, or `null` for ""), never throws, and touches no other cell |
| `SudokuController.HelpStep` | src/main/java/com/example/sudoku/controller/SudokuController.java:166-181 | the sampled cell's attempt becomes the solution value and its field shows the solution's text; the loop stops exactly when the field did not already show that text; no other cell changes |
| `SudokuController.HelpStepKeeps` | src/main/java/com/example/sudoku/controller/SudokuController.java:166-181 | a draw taken while no hint has been given adds its cell to the sampled cells whose attempt holds the solution value, and changes at most that cell's field, and only when it reveals the cell |
| `SudokuController.ShowHelp` | src/main/java/com/example/sudoku/controller/SudokuController.java:160-183 | the loop stops exactly when some drawn cell needs a hint, and at the first such cell; every sampled cell's attempt becomes the solution value; only the stopping cell's field changes |
| `SudokuController.NoHintWhenAllShown` | src/main/java/com/example/sudoku/controller/SudokuController.java:177-179 | once every field shows its solution value, no draw can end the loop |
| `SudokuController.HintTextAgreesWithAttempt` | src/main/java/com/example/sudoku/controller/SudokuController.java:168-181 | the revealed text passes the input filter and parses to the value stored in the attempt, which `isCorrectValue` accepts |

## Left out

- JavaFX presentation: the stage, FXML loading, `main`, the text-field
  lookup (`getTextField`, `setTextFieldValue`), border colours, label and
  button visibility, `removeButtons` and `handleExitButtonStage`. A text
  field is assumed to exist at every cell on the board, so the source's
  `cell != null` checks always pass.
- `startGame` and the difficulty buttons (8, 14 or 20 hints). They only
  call `showHelp` repeatedly; `ShowHelp` models one call.
- `printBoard`, `getBoard` and `getAttempt`: console output and plain
  accessors.
- The interfaces `ISudokuModel` and `ISudokuController`: they declare
  methods and have no behaviour.
- The random sources. Shuffles are an arbitrary permutation oracle and hint
  draws are an arbitrary finite sequence of cells; no probabilities are
  modelled.
- SudokuController.ShowHelp: when the draws run out before a cell needs a
  hint, the model returns with no hint given. The source keeps drawing, and
  loops forever when no cell needs a hint. The loop's termination with
  probability 1 is not modelled.
- JavaInteger.ParseInt: accepts only ASCII digits. Java's `parseInt` also
  accepts other Unicode decimal digits. The input filter admits only '1'..'6',
  so no reachable input is affected.
- Repeated calls to `generateSudoku` on one object append six more rows to
  the board. The constructor calls it once, and the model builds the board
  once.
- Integer width of board cells: cells are unbounded integers. They only ever
  hold 0..6, so 32-bit overflow cannot arise.
