/** The closed enumerations and records shared by the evaluator, the catalog
    and the round state machine (types.ts). */
module Types {

  datatype Option<+T> = None | Some(value: T)

  /** The status of one cell of the board. `Correct`, `Present` and `Absent`
      are verdicts on a submitted digit; `Tbd` marks a typed but unsubmitted
      digit and `Empty` a cell with no digit yet. */
  datatype CellStatus = Absent | Present | Correct | Empty | Tbd
  {
    /** True for the three statuses a submitted guess can receive. */
    predicate IsVerdict() {
      Absent? || Present? || Correct?
    }
  }

  /** The outcome of a round. */
  datatype GameStatus = Playing | Won | Lost

  /** Exactly four hints, hint i belonging to row i. */
  type Hints = h: seq<string> | |h| == 4 witness ["", "", "", ""]

  /** A catalog entry. The optional fields are display text only. */
  datatype Puzzle = Puzzle(
    id: string,
    year: string,
    hints: Hints,
    title: Option<string>,
    explanation: Option<string>,
    source: Option<string>)

  /** The snapshot written to the single save slot. */
  datatype GameState = GameState(puzzleId: string, guesses: seq<string>, status: GameStatus)

  predicate IsDigit(c: char) {
    '0' <= c <= '9'
  }

  predicate IsDigitString(s: string) {
    forall i :: 0 <= i < |s| ==> IsDigit(s[i])
  }

  /** A year as the game writes it: exactly four ASCII digits. */
  predicate IsYearString(s: string) {
    |s| == 4 && IsDigitString(s)
  }
}
