/** The round state machine of the game screen (App.tsx): the React state
    of one round, its handlers, the save slot, and the four board rows
    derived from the state. Each handler is one atomic transition. */
module App {
  import opened Types
  import opened Puzzles
  import opened GameLogic

  /** The message shown when Enter is pressed on a short buffer. */
  const LengthMessage := "4 Ziffern nötig!"

  /** What the single save slot may hold once it is non-empty: a value
      that does not parse as a snapshot, or a snapshot. */
  datatype Stored = Unreadable | Readable(state: GameState)

  /** The puzzles `startNewGame` may move to from the puzzle with this id. */
  function Available(id: string): (r: seq<Puzzle>)
    ensures |r| >= 6
    ensures forall p :: p in r ==> p in PUZZLES && p.id != id
  {
    AvailableNonEmpty(id);
    WithoutIdMembers(PUZZLES, id);
    WithoutId(PUZZLES, id)
  }

  // ---------------------------------------------------------------------
  // Reading a year as a number
  // ---------------------------------------------------------------------

  function DigitValue(c: char): (v: nat)
    requires IsDigit(c)
    ensures v < 10
  {
    c as int - '0' as int
  }

  /** The longest prefix of `s` made of ASCII digits. */
  function LeadingDigits(s: string): (r: string)
    ensures |r| <= |s| && r == s[..|r|]
    ensures IsDigitString(r)
    ensures |r| < |s| ==> !IsDigit(s[|r|])
  {
    if s == [] || !IsDigit(s[0]) then ""
    else [s[0]] + LeadingDigits(s[1..])
  }

  /** The value of a string of decimal digits, most significant first. */
  function NumeralValue(s: string): nat
    requires IsDigitString(s)
  {
    if s == [] then 0 else NumeralValue(s[..|s| - 1]) * 10 + DigitValue(s[|s| - 1])
  }

  /** `parseInt` on a string: the value of its leading digits, `None` for
      the NaN it yields when the string does not start with a digit. */
  function ParseInt(s: string): (r: Option<nat>)
    ensures r.None? <==> s == [] || !IsDigit(s[0])
  {
    var digits := LeadingDigits(s);
    if digits == [] then None else Some(NumeralValue(digits))
  }

  /** A string of digits is all leading digits. */
  lemma {:induction false} LeadingDigitsOfDigits(s: string)
    requires IsDigitString(s)
    ensures LeadingDigits(s) == s
  {
    if s != [] {
      assert IsDigitString(s[1..]);
      LeadingDigitsOfDigits(s[1..]);
      assert s == [s[0]] + s[1..];
    }
  }

  /** A non-empty string of digits is read in full. */
  lemma ParseDigitString(s: string)
    requires s != [] && IsDigitString(s)
    ensures ParseInt(s) == Some(NumeralValue(s))
  {
    LeadingDigitsOfDigits(s);
  }

  /** Two digit strings of the same length with the same value are equal. */
  lemma {:induction false} NumeralInjective(a: string, b: string)
    requires IsDigitString(a) && IsDigitString(b) && |a| == |b|
    requires NumeralValue(a) == NumeralValue(b)
    ensures a == b
  {
    if a != [] {
      var n := |a| - 1;
      var pa, pb := a[..n], b[..n];
      var da, db := DigitValue(a[n]), DigitValue(b[n]);
      assert IsDigitString(pa) && IsDigitString(pb);
      assert NumeralValue(pa) * 10 + da == NumeralValue(pb) * 10 + db;
      assert da == db;
      NumeralInjective(pa, pb);
      assert a[n] == b[n];
      assert a == pa + [a[n]] && b == pb + [b[n]];
    }
  }

  // ---------------------------------------------------------------------
  // The board rows
  // ---------------------------------------------------------------------

  /** The arrow shown beside a submitted row: the answer lies `Later` than
      the guess, `Earlier` than it, or it is the year itself. */
  datatype Comparison = Earlier | Later | SameYear

  /** The comparison of a guessed year with the target year. A NaN on
      either side makes both tests false, which leaves `SameYear`. */
  function Compare(guessYear: Option<nat>, targetYear: Option<nat>): (r: Comparison)
    ensures r == Later <==> guessYear.Some? && targetYear.Some? && guessYear.value < targetYear.value
    ensures r == Earlier <==> guessYear.Some? && targetYear.Some? && guessYear.value > targetYear.value
  {
    if guessYear.Some? && targetYear.Some? && guessYear.value < targetYear.value then Later
    else if guessYear.Some? && targetYear.Some? && guessYear.value > targetYear.value then Earlier
    else SameYear
  }

  /** For two four-digit years the arrow is `SameYear` exactly when the
      strings are equal, and `Later` exactly when the guess is the smaller
      number. */
  lemma CompareYears(guess: string, year: string)
    requires IsYearString(guess) && IsYearString(year)
    ensures Compare(ParseInt(guess), ParseInt(year)) == SameYear <==> guess == year
    ensures Compare(ParseInt(guess), ParseInt(year)) == Later <==> NumeralValue(guess) < NumeralValue(year)
    ensures Compare(ParseInt(guess), ParseInt(year)) == Earlier <==> NumeralValue(guess) > NumeralValue(year)
  {
    ParseDigitString(guess);
    ParseDigitString(year);
    if NumeralValue(guess) == NumeralValue(year) {
      NumeralInjective(guess, year);
    }
  }

  /** One row of the board. */
  datatype Row = Row(guess: string, results: seq<CellStatus>, hint: string, comparison: Option<Comparison>)

  /** `s` padded with spaces on the right to at least n characters. */
  function PadEnd(s: string, n: nat): (r: string)
    ensures |r| == (if |s| >= n then |s| else n)
    ensures r[..|s|] == s
    ensures forall k :: |s| <= k < |r| ==> r[k] == ' '
  {
    if |s| >= n then s else s + seq(n - |s|, _ => ' ')
  }

  /** Row i of the board for a state: a submitted guess with its score and
      its arrow; the row being typed, with the typed digits `Tbd` and the
      rest `Empty`; or a blank row. Every row carries hint i. */
  function BoardRow(puzzle: Puzzle, guesses: seq<string>, currentGuess: string, status: GameStatus, i: nat): (r: Row)
    requires i < WordLength
    ensures r.hint == puzzle.hints[i]
    ensures |r.results| == WordLength
  {
    if i < |guesses| then
      Row(guesses[i], Evaluation(guesses[i], puzzle.year), puzzle.hints[i],
          Some(Compare(ParseInt(guesses[i]), ParseInt(puzzle.year))))
    else if i == |guesses| && status == Playing then
      Row(PadEnd(currentGuess, WordLength),
          seq(WordLength, k => if k < |currentGuess| then Tbd else Empty), puzzle.hints[i], None)
    else
      Row("    ", [Empty, Empty, Empty, Empty], puzzle.hints[i], None)
  }

  /** A submitted row of a round played on a four-digit year (every catalog
      year is one) shows the guess, a verdict in every cell with `Correct`
      exactly where it agrees with the year, and the arrow from comparing
      the two as numbers. */
  lemma SubmittedRow(puzzle: Puzzle, guesses: seq<string>, currentGuess: string, status: GameStatus, i: nat)
    requires IsYearString(puzzle.year) && RoundValid(puzzle.year, guesses, status) && i < |guesses|
    ensures BoardRow(puzzle, guesses, currentGuess, status, i).guess == guesses[i]
    ensures forall k :: 0 <= k < WordLength ==>
      && BoardRow(puzzle, guesses, currentGuess, status, i).results[k].IsVerdict()
      && (BoardRow(puzzle, guesses, currentGuess, status, i).results[k] == Correct <==> guesses[i][k] == puzzle.year[k])
    ensures BoardRow(puzzle, guesses, currentGuess, status, i).comparison == Some(SameYear) <==> guesses[i] == puzzle.year
    ensures BoardRow(puzzle, guesses, currentGuess, status, i).comparison == Some(Later)
      <==> NumeralValue(guesses[i]) < NumeralValue(puzzle.year)
    ensures BoardRow(puzzle, guesses, currentGuess, status, i).comparison == Some(Earlier)
      <==> NumeralValue(guesses[i]) > NumeralValue(puzzle.year)
  {
    CompareYears(guesses[i], puzzle.year);
    forall k | 0 <= k < WordLength
      ensures Evaluation(guesses[i], puzzle.year)[k] == Correct <==> guesses[i][k] == puzzle.year[k]
    {
      CorrectIffMatch(guesses[i], puzzle.year, k);
    }
  }

  /** While the round is on, the row after the submitted ones shows the
      typed digits padded to four characters, as many `Tbd` cells as
      digits typed followed by `Empty` cells, and no arrow. */
  lemma TypingRow(puzzle: Puzzle, guesses: seq<string>, currentGuess: string)
    requires RoundValid(puzzle.year, guesses, Playing) && |currentGuess| <= WordLength
    ensures |guesses| < WordLength
    ensures BoardRow(puzzle, guesses, currentGuess, Playing, |guesses|).guess[..|currentGuess|] == currentGuess
    ensures |BoardRow(puzzle, guesses, currentGuess, Playing, |guesses|).guess| == WordLength
    ensures forall k :: 0 <= k < WordLength ==>
      (BoardRow(puzzle, guesses, currentGuess, Playing, |guesses|).results[k] == Tbd <==> k < |currentGuess|)
    ensures forall k :: 0 <= k < WordLength ==>
      (BoardRow(puzzle, guesses, currentGuess, Playing, |guesses|).results[k] == Empty <==> k >= |currentGuess|)
    ensures BoardRow(puzzle, guesses, currentGuess, Playing, |guesses|).comparison == None
  {
    RoundOutcome(puzzle.year, guesses, Playing);
  }

  /** Whether the hint beside row i is shown: while the round is on, those of
      the submitted rows and of the row being typed; once it is over, all. */
  function IsHintVisible(i: int, guessCount: int, status: GameStatus): (visible: bool)
    ensures status == Playing ==> (visible <==> i <= guessCount)
    ensures status != Playing ==> visible
  {
    i <= guessCount || status != Playing
  }

  /** The hints shown always form a prefix of the four rows. */
  lemma HintVisibility(i: nat, guessCount: nat, status: GameStatus)
    requires i < WordLength && guessCount <= WordLength
    ensures IsHintVisible(i, guessCount, status) ==>
      forall j :: 0 <= j <= i ==> IsHintVisible(j, guessCount, status)
  {
  }

  // ---------------------------------------------------------------------
  // The rule of a round
  // ---------------------------------------------------------------------

  /** The outcome rule over a round's history: at most four guesses, none
      but the last equal to the year, won exactly when the last one is the
      year, lost exactly when four guesses missed it. */
  predicate RoundInvariant(year: string, guesses: seq<string>, status: GameStatus) {
    && |guesses| <= 4
    && (forall k :: 0 <= k < |guesses| - 1 ==> guesses[k] != year)
    && (status == Won <==> |guesses| > 0 && guesses[|guesses| - 1] == year)
    && (status == Lost <==> |guesses| == 4 && guesses[3] != year)
  }

  /** A round's history as the handlers build it: the outcome rule holds and
      every guess is four digits. */
  predicate RoundValid(year: string, guesses: seq<string>, status: GameStatus) {
    && RoundInvariant(year, guesses, status)
    && (forall k :: 0 <= k < |guesses| ==> IsYearString(guesses[k]))
  }

  /** What the rule means for the outcome: won exactly when the year was
      guessed, lost exactly when four guesses all missed it, and still
      playing exactly when fewer than four guesses all missed it. */
  lemma RoundOutcome(year: string, guesses: seq<string>, status: GameStatus)
    requires RoundInvariant(year, guesses, status)
    ensures status == Won <==> year in guesses
    ensures status == Lost <==> |guesses| == 4 && year !in guesses
    ensures status == Playing <==> |guesses| < 4 && year !in guesses
  {
    if year in guesses {
      var k :| 0 <= k < |guesses| && guesses[k] == year;
      assert k == |guesses| - 1;
    }
    if |guesses| > 0 && guesses[|guesses| - 1] == year {
      assert year in guesses;
    }
  }

  /** Submitting a four-digit guess in a round still being played keeps
      the rule, with the win check first. */
  lemma SubmitKeepsRound(year: string, guesses: seq<string>, guess: string)
    requires RoundValid(year, guesses, Playing) && IsYearString(guess)
    ensures guess == year ==> RoundValid(year, guesses + [guess], Won)
    ensures guess != year && |guesses| + 1 >= 4 ==> RoundValid(year, guesses + [guess], Lost)
    ensures guess != year && |guesses| + 1 < 4 ==> RoundValid(year, guesses + [guess], Playing)
  {
    var next := guesses + [guess];
    assert forall k :: 0 <= k < |guesses| ==> next[k] == guesses[k];
  }

  /** The screen state every handler keeps once a round has started
      cleanly: a catalog puzzle, a round that follows the rule, and a
      buffer of at most four digits that is empty once the round is over. */
  predicate ScreenValid(puzzle: Puzzle, guesses: seq<string>, currentGuess: string, status: GameStatus) {
    && puzzle in PUZZLES
    && RoundValid(puzzle.year, guesses, status)
    && |currentGuess| <= WordLength
    && IsDigitString(currentGuess)
    && (status != Playing ==> currentGuess == "")
  }

  /** A fresh round on a catalog puzzle is valid. */
  lemma NewRoundValid(puzzle: Puzzle)
    requires puzzle in PUZZLES
    ensures ScreenValid(puzzle, [], "", Playing)
  {
  }

  // ---------------------------------------------------------------------
  // The game screen
  // ---------------------------------------------------------------------

  /** The state of the game screen: the puzzle, the submitted guesses, the
      digits typed so far, the round's status, the toast on display and
      the save slot (`None` while it is empty). */
  class Game {
    var puzzle: Puzzle
    var guesses: seq<string>
    var currentGuess: string
    var status: GameStatus
    var toast: Option<string>
    var saved: Option<Stored>

    /** The state every handler keeps once a round has started cleanly. */
    predicate Valid()
      reads this
    {
      ScreenValid(puzzle, guesses, currentGuess, status)
    }

    /** The save slot holds the snapshot `{puzzleId, guesses, status}` of
        the current state, as the save effect writes it. */
    predicate Persisted()
      reads this
    {
      saved == Some(Readable(GameState(puzzle.id, guesses, status)))
    }

    /** The screen being mounted with the save slot holding `stored`: the
        initial state is the first puzzle with an empty round; a snapshot
        naming a known puzzle is restored as it stands; an empty slot starts
        a new game on puzzle `pick` of the ones available; an unreadable
        snapshot or an unknown id leaves the initial state. The save effect
        then writes the resulting state to the slot. */
    constructor Mount(stored: Option<Stored>, pick: nat)
      requires stored.None? ==> pick < |Available(PUZZLES[0].id)|
      ensures stored.None? ==>
        && puzzle == Available(PUZZLES[0].id)[pick] && puzzle.id != "1"
        && guesses == [] && status == Playing
      ensures stored == Some(Unreadable) ==>
        puzzle == PUZZLES[0] && guesses == [] && status == Playing
      ensures stored.Some? && stored.value.Readable? ==>
        match FindById(PUZZLES, stored.value.state.puzzleId)
        case Some(p) =>
          puzzle == p && guesses == stored.value.state.guesses && status == stored.value.state.status
        case None =>
          puzzle == PUZZLES[0] && guesses == [] && status == Playing
      ensures currentGuess == "" && toast == None
      ensures Persisted()
      ensures RoundValid(puzzle.year, guesses, status) ==> Valid()
    {
      puzzle := PUZZLES[0];
      guesses := [];
      currentGuess := "";
      status := Playing;
      toast := None;
      saved := stored;
      new;
      CatalogIds();
      NewRoundValid(PUZZLES[0]);
      match stored {
        case None =>
          StartNewGame(pick);
        case Some(Unreadable) =>
        case Some(Readable(state)) =>
          var found := FindById(PUZZLES, state.puzzleId);
          if found.Some? {
            puzzle := found.value;
            guesses := state.guesses;
            status := state.status;
          }
      }
      saved := Some(Readable(GameState(puzzle.id, guesses, status)));
    }

    /** Moves to puzzle `pick` among those whose id differs from the
        current one and starts a fresh round. */
    method StartNewGame(pick: nat)
      requires pick < |Available(puzzle.id)|
      modifies this
      ensures puzzle == Available(old(puzzle).id)[pick]
      ensures puzzle.id != old(puzzle).id && puzzle in PUZZLES
      ensures guesses == [] && currentGuess == "" && status == Playing && toast == None
      ensures Persisted()
      ensures Valid()
    {
      var next := Available(puzzle.id)[pick];
      NewRoundValid(next);
      puzzle, guesses, currentGuess, status, toast := next, [], "", Playing, None;
      saved := Some(Readable(GameState(next.id, [], Playing)));
    }

    /** Submits the typed digits. Outside a running round nothing happens;
        a buffer that is not four characters long only raises the toast;
        otherwise the buffer is appended to the guesses, the round is won if
        it is the year, else lost if that was the fourth guess, and the
        buffer is cleared. */
    method OnEnter()
      modifies this
      ensures old(status) != Playing ==> unchanged(this)
      ensures old(status) == Playing && |old(currentGuess)| != WordLength ==>
        && toast == Some(LengthMessage)
        && puzzle == old(puzzle) && guesses == old(guesses) && currentGuess == old(currentGuess)
        && status == old(status) && saved == old(saved)
      ensures old(status) == Playing && |old(currentGuess)| == WordLength ==>
        && guesses == old(guesses) + [old(currentGuess)]
        && currentGuess == ""
        && (old(currentGuess) == puzzle.year ==> status == Won)
        && (old(currentGuess) != puzzle.year && |guesses| >= 4 ==> status == Lost)
        && (old(currentGuess) != puzzle.year && |guesses| < 4 ==> status == Playing)
        && puzzle == old(puzzle) && toast == old(toast)
        && Persisted()
      ensures old(Valid()) ==> Valid()
    {
      if status != Playing {
        return;
      }
      if |currentGuess| != WordLength {
        toast := Some(LengthMessage);
        return;
      }
      ghost var wasValid := Valid();
      var newGuesses := guesses + [currentGuess];
      if wasValid {
        SubmitKeepsRound(puzzle.year, guesses, currentGuess);
      }
      guesses := newGuesses;
      if currentGuess == puzzle.year {
        status := Won;
      } else if |newGuesses| >= 4 {
        status := Lost;
      }
      currentGuess := "";
      saved := Some(Readable(GameState(puzzle.id, guesses, status)));
    }

    /** Drops the last typed digit while the round is on; an empty buffer
        stays empty. */
    method OnDelete()
      modifies this
      ensures old(status) == Playing && old(currentGuess) != "" ==>
        currentGuess == old(currentGuess)[..|old(currentGuess)| - 1]
      ensures old(status) != Playing || old(currentGuess) == "" ==> currentGuess == old(currentGuess)
      ensures puzzle == old(puzzle) && guesses == old(guesses) && status == old(status)
      ensures toast == old(toast) && saved == old(saved)
      ensures old(Valid()) ==> Valid()
    {
      if status != Playing {
        return;
      }
      if currentGuess != "" {
        currentGuess := currentGuess[..|currentGuess| - 1];
      }
    }

    /** Types one digit while the round is on and fewer than four digits
        have been typed. */
    method OnDigit(digit: char)
      requires IsDigit(digit)
      modifies this
      ensures old(status) == Playing && |old(currentGuess)| < WordLength ==>
        currentGuess == old(currentGuess) + [digit]
      ensures old(status) != Playing || |old(currentGuess)| >= WordLength ==>
        currentGuess == old(currentGuess)
      ensures puzzle == old(puzzle) && guesses == old(guesses) && status == old(status)
      ensures toast == old(toast) && saved == old(saved)
      ensures old(Valid()) ==> Valid()
    {
      if status != Playing || |currentGuess| >= WordLength {
        return;
      }
      currentGuess := currentGuess + [digit];
    }

    /** The four rows of the board, built one after the other. */
    method Rows() returns (rows: seq<Row>)
      ensures |rows| == WordLength
      ensures forall i :: 0 <= i < WordLength ==> rows[i] == BoardRow(puzzle, guesses, currentGuess, status, i)
    {
      rows := [];
      var targetYear := ParseInt(puzzle.year);
      for i := 0 to WordLength
        invariant |rows| == i
        invariant forall j :: 0 <= j < i ==> rows[j] == BoardRow(puzzle, guesses, currentGuess, status, j)
      {
        var row: Row;
        if i < |guesses| {
          var guessYear := ParseInt(guesses[i]);
          var results := EvaluateGuess(guesses[i], puzzle.year);
          row := Row(guesses[i], results, puzzle.hints[i], Some(Compare(guessYear, targetYear)));
        } else if i == |guesses| && status == Playing {
          var typed := |currentGuess|;
          var cells := seq(WordLength, k => if k < typed then Tbd else Empty);
          row := Row(PadEnd(currentGuess, WordLength), cells, puzzle.hints[i], None);
        } else {
          row := Row("    ", [Empty, Empty, Empty, Empty], puzzle.hints[i], None);
        }
        rows := rows + [row];
      }
    }
  }

  /** A page reload: a screen mounted on the slot a valid screen has written
      comes back on the same puzzle with the same guesses and status. */
  method Reload(game: Game) returns (reloaded: Game)
    requires game.puzzle in PUZZLES && game.Persisted()
    ensures fresh(reloaded)
    ensures reloaded.puzzle == game.puzzle && reloaded.guesses == game.guesses
    ensures reloaded.status == game.status && reloaded.currentGuess == ""
    ensures reloaded.Persisted()
    ensures game.Valid() ==> reloaded.Valid()
  {
    LookupOwnId(game.puzzle);
    reloaded := new Game.Mount(game.saved, 0);
  }

  /** On a valid screen every submitted row is scored against a four-digit
      year, so a row is all `Correct` exactly when its guess is the year,
      which happens only in the last row of a won round. */
  lemma SubmittedRowScore(year: string, guesses: seq<string>, status: GameStatus, i: nat)
    requires IsYearString(year) && RoundValid(year, guesses, status) && i < |guesses|
    ensures Evaluation(guesses[i], year) == [Correct, Correct, Correct, Correct]
      <==> status == Won && i == |guesses| - 1
  {
    var score := Evaluation(guesses[i], year);
    if score == [Correct, Correct, Correct, Correct] {
      forall k | 0 <= k < WordLength ensures guesses[i][k] == year[k] {
        CorrectIffMatch(guesses[i], year, k);
      }
      assert guesses[i] == year;
    }
    if guesses[i] == year {
      SelfIsAllCorrect(year);
    }
  }
}
