/** The game rules inside `SudokuController`: the completion check, the
    input filter of each cell's text field, the attempt update on input, and
    the effect of a hint on the attempt grid and on the displayed texts.

    The controller's state is the model's solution and attempt grids plus
    the text each cell's field displays. Display and attempt are separate:
    a field can show text the filter rejected, and a hint writes the attempt
    of every cell it samples. */
module SudokuController {
  import opened Grid
  import opened JavaInteger
  import opened Placement
  import opened SudokuModel

  function BlankTexts(): (t: seq<seq<string>>)
    ensures IsSixBySix(t)
  {
    seq(Size, _ => seq(Size, _ => ""))
  }

  type Texts = t: seq<seq<string>> | IsSixBySix(t) witness BlankTexts()

  datatype Session = Session(board: Board, attempt: Attempt, shown: Texts)

  /** A game right after `initializeGame` and the creation of the text
      fields: a solved board, an attempt of zeros, and empty fields. */
  function NewSession(sh: nat -> seq<int>): (s: Session)
    requires Generation.Shuffles(sh)
    ensures IsSolved(s.board)
    ensures forall r, c :: InRange(r, c) ==> s.attempt[r][c] == Num(0) && s.shown[r][c] == ""
  {
    var m := NewModel(sh);
    Session(m.board, m.attempt, BlankTexts())
  }

  // ----- isGameOver -----

  /** The attempt equals the solution in all 36 cells: each attempt cell is
      a non-null `Integer` equal to the solution's value. */
  ghost predicate Matches(board: Board, attempt: Attempt) {
    forall r, c :: InRange(r, c) ==> attempt[r][c] == Num(board[r][c])
  }

  /** `isGameOver(board, attempt)`: scans the rows in order and the columns
      within each row, stopping at the first cell where
      `board[row][col].equals(attempt[row][col])` fails. */
  method IsGameOver(board: Board, attempt: Attempt) returns (over: bool)
    ensures over <==> Matches(board, attempt)
  {
    var row := 0;
    while row < Size
      invariant 0 <= row <= Size
      invariant forall r, c :: 0 <= r < row && 0 <= c < Size ==> attempt[r][c] == Num(board[r][c])
    {
      var col := 0;
      while col < Size
        invariant 0 <= col <= Size
        invariant forall c :: 0 <= c < col ==> attempt[row][c] == Num(board[row][c])
      {
        if attempt[row][col] != Num(board[row][col]) {
          return false;
        }
        col := col + 1;
      }
      row := row + 1;
    }
    return true;
  }

  /** The board compared against itself is complete. */
  lemma BoardMatchesItself(board: Board)
    ensures Matches(board, seq(Size, r requires 0 <= r < Size => seq(Size, c requires 0 <= c < Size => Num(board[r][c]))))
  {
  }

  /** An empty attempt cell (`null`, or the initial 0) never equals a
      solution digit, so the game is not over while one is left. */
  lemma EmptyCellMeansNotOver(board: Board, attempt: Attempt, row: int, col: int)
    requires InRange(row, col) && IsDigit(board[row][col])
    requires attempt[row][col] == Null || attempt[row][col] == Num(0)
    ensures !Matches(board, attempt)
  {
  }

  /** Changing one cell of a complete attempt makes it incomplete. */
  lemma ChangedCellMeansNotOver(board: Board, attempt: Attempt, row: int, col: int, e: Entry)
    requires InRange(row, col) && Matches(board, attempt) && e != attempt[row][col]
    ensures !Matches(board, attempt[row := attempt[row][col := e]])
  {
    assert attempt[row := attempt[row][col := e]][row][col] == e;
  }

  /** A fresh game is never over. */
  lemma NewSessionNotOver(sh: nat -> seq<int>)
    requires Generation.Shuffles(sh)
    ensures !Matches(NewSession(sh).board, NewSession(sh).attempt)
  {
    var s := NewSession(sh);
    EmptyCellMeansNotOver(s.board, s.attempt, 0, 0);
  }

  // ----- Input filter and handleCellInput -----

  /** The text-field filter `input.matches("[1-6]|")`: one character from
      '1' to '6', or nothing. */
  predicate AcceptsInput(text: string) {
    |text| == 0 || (|text| == 1 && '1' <= text[0] <= '6')
  }

  /** The filter admits exactly seven strings. */
  lemma AcceptedInputs(text: string)
    ensures AcceptsInput(text) <==> text in {"", "1", "2", "3", "4", "5", "6"}
  {
    if |text| == 1 {
      assert text == [text[0]];
    }
  }

  /** The attempt after `handleCellInput`, and whether the completion check
      it runs succeeded. */
  datatype InputOutcome = InputOutcome(attempt: Attempt, won: bool)

  /** `handleCellInput(row, col, value)`: a non-empty value is parsed with
      `Integer.parseInt` and stored, an empty one stores `null`; the game is
      checked for completion only after a non-empty value. Java evaluates
      `getAttempt().get(row)` first, then the parsed argument, then `set(col, ...)`,
      so a bad row, a value that does not parse and a bad column throw in that
      order, each before the attempt changes. */
  method HandleCellInput(board: Board, attempt: Attempt, row: int, col: int, value: string)
    returns (outcome: Result<InputOutcome>)
    ensures !(0 <= row < Size) ==> outcome == Err(IndexOutOfBoundsException)
    ensures 0 <= row < Size && value != "" && ParseInt(value).Err? ==> outcome == Err(NumberFormatException)
    ensures 0 <= row < Size && (value == "" || ParseInt(value).Ok?) && !(0 <= col < Size) ==>
      outcome == Err(IndexOutOfBoundsException)
    ensures outcome.Ok? <==> InRange(row, col) && (value == "" || ParseInt(value).Ok?)
    ensures outcome.Ok? && value == "" ==> outcome.value.attempt[row][col] == Null && !outcome.value.won
    ensures outcome.Ok? && value != "" ==>
      outcome.value.attempt[row][col] == Num(ParseInt(value).value) &&
      (outcome.value.won <==> Matches(board, outcome.value.attempt))
    ensures outcome.Ok? ==>
      forall r, c :: InRange(r, c) && (r, c) != (row, col) ==> outcome.value.attempt[r][c] == attempt[r][c]
  {
    if !(0 <= row < Size) {
      return Err(IndexOutOfBoundsException);
    }
    var entry: Entry;
    if value != "" {
      var parsed := ParseInt(value);
      if parsed.Err? {
        return Err(parsed.error);
      }
      entry := Num(parsed.value);
    } else {
      entry := Null;
    }
    if !(0 <= col < Size) {
      return Err(IndexOutOfBoundsException);
    }
    var updated: Attempt := attempt[row := attempt[row][col := entry]];
    if value == "" {
      return Ok(InputOutcome(updated, false));
    }
    var won := IsGameOver(board, updated);
    return Ok(InputOutcome(updated, won));
  }

  /** The key-released listener of the field at (row, col): the field now
      shows `text`; the attempt changes only when the filter accepts it.
      The filter guarantees that `handleCellInput` never throws. */
  method KeyReleased(s: Session, row: int, col: int, text: string) returns (t: Session, won: bool)
    requires InRange(row, col)
    ensures t.board == s.board
    ensures t.shown[row][col] == text
    ensures forall r, c :: InRange(r, c) && (r, c) != (row, col) ==>
      t.shown[r][c] == s.shown[r][c] && t.attempt[r][c] == s.attempt[r][c]
    ensures !AcceptsInput(text) ==> t.attempt == s.attempt && !won
    ensures text == "" ==> t.attempt[row][col] == Null && !won
    ensures AcceptsInput(text) && text != "" ==>
      t.attempt[row][col] == Num(text[0] as int - '0' as int) && (won <==> Matches(t.board, t.attempt))
  {
    var shown: Texts := s.shown[row := s.shown[row][col := text]];
    t := Session(s.board, s.attempt, shown);
    won := false;
    if AcceptsInput(text) {
      if text != "" {
        assert text == [text[0]];
        ParseSingleDigit(text[0]);
      }
      var outcome := HandleCellInput(s.board, s.attempt, row, col, text);
      if outcome.Ok? {
        t := Session(s.board, outcome.value.attempt, shown);
        won := outcome.value.won;
      }
    }
  }

  // ----- showHelp -----

  /** The field at (r, c) does not show the solution's value: it is empty
      or holds other text. */
  predicate NeedsHint(s: Session, r: int, c: int)
    requires InRange(r, c) && IsJavaInt(s.board[r][c])
  {
    s.shown[r][c] == "" || s.shown[r][c] != ToString(s.board[r][c])
  }

  /** The state after one iteration of the `showHelp` loop, and whether that
      iteration revealed a cell (and so ends the loop). */
  datatype HelpOutcome = HelpOutcome(session: Session, given: bool)

  /** One iteration of the `showHelp` loop at the sampled cell (r, c). The
      attempt cell always receives the solution value; the field is
      rewritten, and the loop told to stop, only when it needs a hint. */
  function HelpStep(s: Session, r: int, c: int): (out: HelpOutcome)
    requires InRange(r, c) && IsJavaInt(s.board[r][c])
    ensures out.session.board == s.board
    ensures out.session.attempt[r][c] == Num(s.board[r][c])
    ensures out.session.shown[r][c] == ToString(s.board[r][c])
    ensures out.given <==> s.shown[r][c] != ToString(s.board[r][c])
    ensures !out.given ==> out.session.shown == s.shown
    ensures forall r', c' :: InRange(r', c') && (r', c') != (r, c) ==>
      out.session.attempt[r'][c'] == s.attempt[r'][c'] && out.session.shown[r'][c'] == s.shown[r'][c']
  {
    var number := s.board[r][c];
    var correct := ToString(number);
    var given := NeedsHint(s, r, c);
    var shown: Texts := if given then s.shown[r := s.shown[r][c := correct]] else s.shown;
    var attempt: Attempt := s.attempt[r := s.attempt[r][c := Num(number)]];
    HelpOutcome(Session(s.board, attempt, shown), given)
  }

  /** The cells sampled before the loop stopped, as a set. */
  function Sampled(samples: seq<(int, int)>, used: int): set<(int, int)>
    requires 0 <= used <= |samples|
  {
    set i | 0 <= i < used :: samples[i]
  }

  lemma SampledGrows(samples: seq<(int, int)>, used: int)
    requires 0 <= used < |samples|
    ensures Sampled(samples, used + 1) == Sampled(samples, used) + {samples[used]}
  {
  }

  /** Every sample a valid cell whose solution value `toString` accepts. */
  predicate ValidSamples(s: Session, samples: seq<(int, int)>) {
    forall i :: 0 <= i < |samples| ==>
      InRange(samples[i].0, samples[i].1) && IsJavaInt(s.board[samples[i].0][samples[i].1])
  }

  /** After `used` draws: the sampled cells' attempts hold the solution
      value and the other cells' attempts are those of `s`. */
  ghost predicate AttemptsAfter(s: Session, t: Session, samples: seq<(int, int)>, used: int)
    requires 0 <= used <= |samples|
  {
    forall r, c :: InRange(r, c) ==>
      t.attempt[r][c] == (if (r, c) in Sampled(samples, used) then Num(s.board[r][c]) else s.attempt[r][c])
  }

  /** After `used` draws: the fields are those of `s`, except the last
      sampled cell's when it was revealed. */
  ghost predicate ShownAfter(s: Session, t: Session, samples: seq<(int, int)>, used: int, given: bool)
    requires ValidSamples(s, samples) && 0 <= used <= |samples| && (given ==> 0 < used)
  {
    forall r, c :: InRange(r, c) ==>
      t.shown[r][c] == (if given && (r, c) == samples[used - 1] then ToString(s.board[r][c]) else s.shown[r][c])
  }

  /** One more draw, taken while no hint has been given, keeps both
      descriptions of the state. */
  lemma HelpStepKeeps(s: Session, t: Session, samples: seq<(int, int)>, used: int)
    requires ValidSamples(s, samples) && 0 <= used < |samples|
    requires t.board == s.board && t.shown == s.shown
    requires AttemptsAfter(s, t, samples, used)
    ensures AttemptsAfter(s, HelpStep(t, samples[used].0, samples[used].1).session, samples, used + 1)
    ensures ShownAfter(s, HelpStep(t, samples[used].0, samples[used].1).session, samples, used + 1,
                       HelpStep(t, samples[used].0, samples[used].1).given)
  {
    var (r, c) := samples[used];
    var u := HelpStep(t, r, c).session;
    SampledGrows(samples, used);
    forall r', c' | InRange(r', c')
      ensures u.attempt[r'][c'] ==
        (if (r', c') in Sampled(samples, used + 1) then Num(s.board[r'][c']) else s.attempt[r'][c'])
    {
      if (r', c') != (r, c) {
        assert u.attempt[r'][c'] == t.attempt[r'][c'];
      }
    }
  }

  /** `showHelp()` over a finite stream of random draws: samples cells until
      one needs a hint. It stops exactly when the stream contains a cell
      that needs one, at the first such cell, which then shows the solution
      value; every sampled cell's attempt becomes the solution value, and
      nothing else changes. */
  method ShowHelp(s: Session, samples: seq<(int, int)>) returns (t: Session, given: bool, used: nat)
    requires ValidSamples(s, samples)
    ensures t.board == s.board && used <= |samples|
    ensures given <==> exists i :: 0 <= i < |samples| && NeedsHint(s, samples[i].0, samples[i].1)
    ensures given ==> 0 < used && NeedsHint(s, samples[used - 1].0, samples[used - 1].1)
    ensures given ==> forall i :: 0 <= i < used - 1 ==> !NeedsHint(s, samples[i].0, samples[i].1)
    ensures !given ==> used == |samples| && t.shown == s.shown
    ensures forall r, c :: InRange(r, c) ==>
      t.attempt[r][c] == (if (r, c) in Sampled(samples, used) then Num(s.board[r][c]) else s.attempt[r][c])
    ensures forall r, c :: InRange(r, c) ==>
      t.shown[r][c] == (if given && (r, c) == samples[used - 1] then ToString(s.board[r][c]) else s.shown[r][c])
  {
    t := s;
    given := false;
    used := 0;
    while !given && used < |samples|
      invariant 0 <= used <= |samples|
      invariant t.board == s.board
      invariant !given ==> t.shown == s.shown
      invariant !given ==> forall i :: 0 <= i < used ==> !NeedsHint(s, samples[i].0, samples[i].1)
      invariant given ==> 0 < used && NeedsHint(s, samples[used - 1].0, samples[used - 1].1)
      invariant given ==> forall i :: 0 <= i < used - 1 ==> !NeedsHint(s, samples[i].0, samples[i].1)
      invariant AttemptsAfter(s, t, samples, used)
      invariant ShownAfter(s, t, samples, used, given)
    {
      var (r, c) := samples[used];
      var step := HelpStep(t, r, c);
      assert step.given <==> NeedsHint(s, r, c);
      HelpStepKeeps(s, t, samples, used);
      t := step.session;
      given := step.given;
      used := used + 1;
    }
  }

  /** Once every field shows its solution value, no sampled cell can end
      the `showHelp` loop. */
  lemma NoHintWhenAllShown(s: Session, r: int, c: int)
    requires forall r', c' :: InRange(r', c') ==> IsJavaInt(s.board[r'][c']) && !NeedsHint(s, r', c')
    requires InRange(r, c)
    ensures !HelpStep(s, r, c).given
  {
  }

  /** The text a hint writes passes the input filter and parses back to the
      digit stored in the attempt, so the field and the attempt agree on a
      revealed cell of a solved board. */
  lemma HintTextAgreesWithAttempt(s: Session, r: int, c: int)
    requires InRange(r, c) && IsDigit(s.board[r][c])
    ensures AcceptsInput(HelpStep(s, r, c).session.shown[r][c])
    ensures ParseInt(HelpStep(s, r, c).session.shown[r][c]) == Ok(s.board[r][c])
    ensures IsCorrectValue(s.board, r, c, HelpStep(s, r, c).session.attempt[r][c].value) == Ok(true)
  {
    ToStringOfDigit(s.board[r][c]);
    ParseToString(s.board[r][c]);
  }
}
