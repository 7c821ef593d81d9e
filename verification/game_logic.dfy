/** The guess evaluator and the daily index (utils/gameLogic.ts).

    A guess is scored against a target with the Wordle rule for repeated
    digits: exact positions first, then the leftover occurrences of each
    character in the target are handed out to the remaining positions of
    the guess from left to right. */
module GameLogic {
  import opened Types

  /** The length of a guess and of a target year. */
  const WordLength := 4

  // ---------------------------------------------------------------------
  // Counting occurrences in the first n positions
  // ---------------------------------------------------------------------

  /** Number of positions j < n at which `s` holds `c`. */
  function Occurrences(s: string, c: char, n: nat): nat
    requires n <= |s|
  {
    if n == 0 then 0 else Occurrences(s, c, n - 1) + (if s[n - 1] == c then 1 else 0)
  }

  /** Number of positions j < n at which guess and target both hold `c`
      (the exact matches of `c`). */
  function Hits(guess: string, target: string, c: char, n: nat): nat
    requires n <= |guess| && n <= |target|
  {
    if n == 0 then 0
    else Hits(guess, target, c, n - 1) + (if guess[n - 1] == c && target[n - 1] == c then 1 else 0)
  }

  /** Number of positions j < n at which the guess holds `c` but the target
      holds something else. */
  function Misses(guess: string, target: string, c: char, n: nat): nat
    requires n <= |guess| && n <= |target|
  {
    if n == 0 then 0
    else Misses(guess, target, c, n - 1) + (if guess[n - 1] == c && target[n - 1] != c then 1 else 0)
  }

  /** Exact matches of `c` never outnumber its occurrences in the target,
      and hits plus misses are all its occurrences in the guess. */
  lemma {:induction false} HitsAndMisses(guess: string, target: string, c: char, n: nat)
    requires n <= |guess| && n <= |target|
    ensures Hits(guess, target, c, n) <= Occurrences(target, c, n)
    ensures Hits(guess, target, c, n) + Misses(guess, target, c, n) == Occurrences(guess, c, n)
  {
    if n > 0 {
      HitsAndMisses(guess, target, c, n - 1);
    }
  }

  /** The occurrences of `c` in the target left over once the exact matches
      have taken theirs: what the first pass leaves in the count map. */
  function Remaining(guess: string, target: string, c: char): nat
    requires |guess| == WordLength && |target| == WordLength
  {
    HitsAndMisses(guess, target, c, WordLength);
    Occurrences(target, c, WordLength) - Hits(guess, target, c, WordLength)
  }

  // ---------------------------------------------------------------------
  // The reference definition of a score
  // ---------------------------------------------------------------------

  /** The verdict for position i: `Correct` on an exact match; otherwise
      `Present` when fewer earlier non-matching positions hold the same
      character than the target has left over for it, else `Absent`. */
  function StatusAt(guess: string, target: string, i: nat): CellStatus
    requires |guess| == WordLength && |target| == WordLength && i < WordLength
  {
    if guess[i] == target[i] then Correct
    else if Misses(guess, target, guess[i], i) < Remaining(guess, target, guess[i]) then Present
    else Absent
  }

  /** The score of a guess: four verdicts, all `Absent` when either string
      is not four characters long. */
  function Evaluation(guess: string, target: string): (r: seq<CellStatus>)
    ensures |r| == WordLength
    ensures forall i :: 0 <= i < |r| ==> r[i].IsVerdict()
  {
    if |guess| != WordLength || |target| != WordLength then seq(WordLength, _ => Absent)
    else seq(WordLength, i requires 0 <= i < WordLength => StatusAt(guess, target, i))
  }

  // ---------------------------------------------------------------------
  // The evaluator as the source runs it
  // ---------------------------------------------------------------------

  /** Value of `counts` at `c`, reading a missing key as 0. */
  function CountOf(counts: map<char, int>, c: char): int {
    if c in counts then counts[c] else 0
  }

  /** What the second pass has left of the count of `c` once it has looked
      at the first i positions. */
  function Unclaimed(guess: string, target: string, c: char, i: nat): nat
    requires |guess| == WordLength && |target| == WordLength && i <= WordLength
  {
    var left := Remaining(guess, target, c);
    var asked := Misses(guess, target, c, i);
    if asked < left then left - asked else 0
  }

  /** A position holding `c` makes `c` occur in the first n positions. */
  lemma OccursAt(s: string, i: nat, n: nat)
    requires i < n <= |s|
    ensures Occurrences(s, s[i], n) > 0
  {
    if i < n - 1 {
      OccursAt(s, i, n - 1);
    }
  }

  /** The count map after the first pass has looked at the first i
      positions: every character of the target is a key, holding its
      occurrences less its exact matches so far. */
  ghost predicate FirstPassCounts(guess: string, target: string, counts: map<char, int>, i: nat)
    requires |guess| == WordLength && |target| == WordLength && i <= WordLength
  {
    && (forall c :: c in counts <==> Occurrences(target, c, WordLength) > 0)
    && (forall c :: c in counts ==> counts[c] == Occurrences(target, c, WordLength) - Hits(guess, target, c, i))
  }

  /** The count map after the second pass has looked at the first i
      positions: the same keys, each holding what is still unclaimed. */
  ghost predicate SecondPassCounts(guess: string, target: string, counts: map<char, int>, i: nat)
    requires |guess| == WordLength && |target| == WordLength && i <= WordLength
  {
    && (forall c :: c in counts <==> Occurrences(target, c, WordLength) > 0)
    && (forall c :: c in counts ==> counts[c] == Unclaimed(guess, target, c, i))
  }

  /** One step of the first pass keeps the count map in step. */
  lemma FirstPassStep(guess: string, target: string, counts: map<char, int>, i: nat)
    requires |guess| == WordLength && |target| == WordLength && i < WordLength
    requires FirstPassCounts(guess, target, counts, i)
    ensures guess[i] == target[i] ==> guess[i] in counts
    ensures guess[i] == target[i] ==>
      FirstPassCounts(guess, target, counts[guess[i] := counts[guess[i]] - 1], i + 1)
    ensures guess[i] != target[i] ==> FirstPassCounts(guess, target, counts, i + 1)
  {
    if guess[i] == target[i] {
      OccursAt(target, i, WordLength);
    }
  }

  /** One step of the second pass: a non-matching position is `Present`
      exactly when its character's count is above zero, and the count map
      stays in step once that count is decremented. */
  lemma SecondPassStep(guess: string, target: string, counts: map<char, int>, i: nat)
    requires |guess| == WordLength && |target| == WordLength && i < WordLength
    requires SecondPassCounts(guess, target, counts, i)
    ensures guess[i] == target[i] ==> SecondPassCounts(guess, target, counts, i + 1)
    ensures guess[i] != target[i] && guess[i] in counts && counts[guess[i]] > 0 ==>
      && StatusAt(guess, target, i) == Present
      && SecondPassCounts(guess, target, counts[guess[i] := counts[guess[i]] - 1], i + 1)
    ensures guess[i] != target[i] && !(guess[i] in counts && counts[guess[i]] > 0) ==>
      && StatusAt(guess, target, i) == Absent
      && SecondPassCounts(guess, target, counts, i + 1)
  {
  }

  /** The count map of `target`: each character that occurs in it, mapped
      to its number of occurrences. */
  method CountCharacters(target: string) returns (targetCounts: map<char, int>)
    ensures forall c :: c in targetCounts <==> Occurrences(target, c, |target|) > 0
    ensures forall c :: c in targetCounts ==> targetCounts[c] == Occurrences(target, c, |target|)
  {
    targetCounts := map[];
    for k := 0 to |target|
      invariant forall c :: c in targetCounts <==> Occurrences(target, c, k) > 0
      invariant forall c :: c in targetCounts ==> targetCounts[c] == Occurrences(target, c, k)
    {
      var ch := target[k];
      targetCounts := targetCounts[ch := CountOf(targetCounts, ch) + 1];
    }
  }

  /** The cells as the first pass leaves them: `Correct` at the exact
      positions, `Absent` elsewhere. */
  function ExactMarks(guess: string, target: string): (r: seq<CellStatus>)
    requires |guess| == WordLength && |target| == WordLength
    ensures |r| == WordLength
  {
    seq(WordLength, k requires 0 <= k < WordLength => if guess[k] == target[k] then Correct else Absent)
  }

  /** The first pass: marks the exact positions `Correct` and takes each
      one out of the count of its character. */
  method MarkExactPositions(guess: string, target: string, cells: array<CellStatus>,
                            counts: map<char, int>) returns (targetCounts: map<char, int>)
    requires |guess| == WordLength && |target| == WordLength && cells.Length == WordLength
    requires forall k :: 0 <= k < WordLength ==> cells[k] == Absent
    requires forall c :: c in counts <==> Occurrences(target, c, WordLength) > 0
    requires forall c :: c in counts ==> counts[c] == Occurrences(target, c, WordLength)
    modifies cells
    ensures forall k :: 0 <= k < WordLength ==> cells[k] == ExactMarks(guess, target)[k]
    ensures SecondPassCounts(guess, target, targetCounts, 0)
    ensures forall c :: c in targetCounts ==> targetCounts[c] >= 0
  {
    targetCounts := counts;
    for i := 0 to WordLength
      invariant forall k :: 0 <= k < WordLength ==>
        cells[k] == (if k < i && guess[k] == target[k] then Correct else Absent)
      invariant FirstPassCounts(guess, target, targetCounts, i)
    {
      ghost var before := cells[..];
      FirstPassStep(guess, target, targetCounts, i);
      if guess[i] == target[i] {
        cells[i] := Correct;
        targetCounts := targetCounts[guess[i] := targetCounts[guess[i]] - 1];
      }
      assert cells[..] == before[i := if guess[i] == target[i] then Correct else Absent];
    }
    assert forall c :: Unclaimed(guess, target, c, 0) == Remaining(guess, target, c);
  }

  /** One step of the second pass, at position i: a cell that is not
      `Correct` becomes `Present` while its character's count is above zero,
      and that count goes down by one. */
  method MarkPresentAt(guess: string, target: string, cells: array<CellStatus>,
                       counts: map<char, int>, i: nat) returns (next: map<char, int>)
    requires |guess| == WordLength && |target| == WordLength && cells.Length == WordLength
    requires i < WordLength
    requires cells[i] == (if guess[i] == target[i] then Correct else Absent)
    requires SecondPassCounts(guess, target, counts, i)
    requires forall c :: c in counts ==> counts[c] >= 0
    modifies cells
    ensures cells[..] == old(cells[..])[i := StatusAt(guess, target, i)]
    ensures SecondPassCounts(guess, target, next, i + 1)
    ensures forall c :: c in next ==> next[c] >= 0
  {
    SecondPassStep(guess, target, counts, i);
    next := counts;
    if cells[i] != Correct {
      var digit := guess[i];
      if digit in counts && counts[digit] > 0 {
        cells[i] := Present;
        next := counts[digit := counts[digit] - 1];
      }
    }
  }

  /** The second pass: left to right, marks each position that is not
      `Correct` as `Present` while its character's count is above zero,
      decrementing the count; the others stay `Absent`. */
  method MarkPresentPositions(guess: string, target: string, cells: array<CellStatus>,
                              counts: map<char, int>)
    requires |guess| == WordLength && |target| == WordLength && cells.Length == WordLength
    requires forall k :: 0 <= k < WordLength ==> cells[k] == ExactMarks(guess, target)[k]
    requires SecondPassCounts(guess, target, counts, 0)
    modifies cells
    ensures forall k :: 0 <= k < WordLength ==> cells[k] == StatusAt(guess, target, k)
  {
    var targetCounts := counts;
    for i := 0 to WordLength
      invariant forall k :: 0 <= k < i ==> cells[k] == StatusAt(guess, target, k)
      invariant forall k :: i <= k < WordLength ==>
        cells[k] == (if guess[k] == target[k] then Correct else Absent)
      invariant SecondPassCounts(guess, target, targetCounts, i)
      invariant forall c :: c in targetCounts ==> targetCounts[c] >= 0
    {
      targetCounts := MarkPresentAt(guess, target, cells, targetCounts, i);
    }
  }

  /** Scores `guess` against `target` as the source does: all `Absent` on a
      length mismatch; otherwise the count map of the target, the first
      pass over exact positions, then the second pass over the rest. */
  method EvaluateGuess(guess: string, target: string) returns (results: seq<CellStatus>)
    ensures results == Evaluation(guess, target)
  {
    if |guess| != WordLength || |target| != WordLength {
      return seq(WordLength, _ => Absent);
    }
    var cells := new CellStatus[WordLength](_ => Absent);
    var targetCounts := CountCharacters(target);
    targetCounts := MarkExactPositions(guess, target, cells, targetCounts);
    MarkPresentPositions(guess, target, cells, targetCounts);
    results := cells[..];
    assert forall k :: 0 <= k < WordLength ==> results[k] == Evaluation(guess, target)[k];
  }

  // ---------------------------------------------------------------------
  // What a score means
  // ---------------------------------------------------------------------

  /** A position is `Correct` exactly when guess and target agree there. */
  lemma CorrectIffMatch(guess: string, target: string, i: nat)
    requires |guess| == WordLength && |target| == WordLength && i < WordLength
    ensures Evaluation(guess, target)[i] == Correct <==> guess[i] == target[i]
  {
  }

  /** When either string has the wrong length, every verdict is `Absent`. */
  lemma FallbackAllAbsent(guess: string, target: string)
    requires |guess| != WordLength || |target| != WordLength
    ensures forall i :: 0 <= i < WordLength ==> Evaluation(guess, target)[i] == Absent
  {
  }

  /** Number of positions j < n at which the guess holds `c` and the score
      is `Correct` or `Present`. */
  function Marked(guess: string, score: seq<CellStatus>, c: char, n: nat): (k: nat)
    requires n <= |guess| && n <= |score|
    ensures k <= Occurrences(guess, c, n)
  {
    if n == 0 then 0
    else
      var here := guess[n - 1] == c && (score[n - 1] == Correct || score[n - 1] == Present);
      Marked(guess, score, c, n - 1) + (if here then 1 else 0)
  }

  function Min(a: int, b: int): int {
    if a <= b then a else b
  }

  /** In the first n positions, `c` is marked once per exact match plus as
      many leftover matches as the target still has for it. */
  lemma {:induction false} MarkedPrefix(guess: string, target: string, c: char, n: nat)
    requires |guess| == WordLength && |target| == WordLength && n <= WordLength
    ensures Marked(guess, Evaluation(guess, target), c, n)
      == Hits(guess, target, c, n) + Min(Remaining(guess, target, c), Misses(guess, target, c, n))
  {
    if n > 0 {
      MarkedPrefix(guess, target, c, n - 1);
    }
    HitsAndMisses(guess, target, c, n);
  }

  /** The Wordle rule: for every character, the positions holding it that
      are marked `Correct` or `Present` number exactly the smaller of its
      count in the guess and its count in the target. */
  lemma MarkedIsMinimum(guess: string, target: string, c: char)
    requires |guess| == WordLength && |target| == WordLength
    ensures Marked(guess, Evaluation(guess, target), c, WordLength)
      == Min(Occurrences(guess, c, WordLength), Occurrences(target, c, WordLength))
  {
    MarkedPrefix(guess, target, c, WordLength);
    HitsAndMisses(guess, target, c, WordLength);
  }

  /** Misses only accumulate from left to right. */
  lemma {:induction false} MissesGrow(guess: string, target: string, c: char, i: nat, j: nat)
    requires i < j <= |guess| && j <= |target|
    requires guess[i] == c && target[i] != c
    ensures Misses(guess, target, c, i) < Misses(guess, target, c, j)
  {
    if j - 1 > i {
      MissesGrow(guess, target, c, i, j - 1);
    }
  }

  /** `Present` goes to the leftmost non-matching positions of a character:
      if a later one is `Present`, so is every earlier one. */
  lemma PresentIsLeftmost(guess: string, target: string, i: nat, j: nat)
    requires |guess| == WordLength && |target| == WordLength && i < j < WordLength
    requires guess[i] == guess[j] && guess[i] != target[i] && guess[j] != target[j]
    requires Evaluation(guess, target)[j] == Present
    ensures Evaluation(guess, target)[i] == Present
  {
    MissesGrow(guess, target, guess[i], i, j);
  }

  /** A character the target does not contain is never marked. */
  lemma AbsentFromTarget(guess: string, target: string, i: nat)
    requires |guess| == WordLength && |target| == WordLength && i < WordLength
    requires Occurrences(target, guess[i], WordLength) == 0
    ensures Evaluation(guess, target)[i] == Absent
  {
    if guess[i] == target[i] {
      OccursAt(target, i, WordLength);
    }
  }

  /** A four-character string scored against itself is all `Correct`. */
  lemma SelfIsAllCorrect(x: string)
    requires |x| == WordLength
    ensures Evaluation(x, x) == [Correct, Correct, Correct, Correct]
  {
  }

  /** A worked example: no position matches and every digit occurs once in
      the target, so every position is `Present`. */
  lemma ReversedYearIsAllPresent()
    ensures Evaluation("4321", "1234") == [Present, Present, Present, Present]
  {
    assert Remaining("4321", "1234", '4') == 1;
    assert Remaining("4321", "1234", '3') == 1;
    assert Remaining("4321", "1234", '2') == 1;
    assert Remaining("4321", "1234", '1') == 1;
  }

  /** A worked example with a repeated digit: the two exact 1s leave two
      1s unclaimed in the target, but the rest of the guess holds 2s. */
  lemma RepeatedDigitExample()
    ensures Evaluation("1122", "1111") == [Correct, Correct, Absent, Absent]
  {
    assert Remaining("1122", "1111", '2') == 0;
  }

  /** A worked example where the leftover count runs out: the target has a
      single 1, so only the leftmost of the guess's two misplaced 1s is
      `Present`. */
  lemma LeftmostTakesTheLastOne()
    ensures Evaluation("1100", "2019") == [Present, Absent, Present, Absent]
  {
    assert Remaining("1100", "2019", '1') == 1;
    assert Misses("1100", "2019", '1', 1) == 1;
    assert Remaining("1100", "2019", '0') == 1;
  }

  // ---------------------------------------------------------------------
  // The daily index
  // ---------------------------------------------------------------------

  /** JavaScript's `%` on integers: the remainder takes the sign of the
      dividend. */
  function JsRemainder(a: int, b: int): (r: int)
    requires b != 0
    ensures a >= 0 ==> 0 <= r < (if b > 0 then b else -b)
    ensures a < 0 ==> -(if b > 0 then b else -b) < r <= 0
    ensures (a - r) % (if b > 0 then b else -b) == 0
  {
    var m := if b > 0 then b else -b;
    if a >= 0 then
      assert a - a % m == m * (a / m);
      MultipleHasNoRemainder(m, a / m);
      a % m
    else
      assert a + (-a) % m == m * -((-a) / m);
      MultipleHasNoRemainder(m, -((-a) / m));
      -((-a) % m)
  }

  /** A multiple of m lying strictly between -m and m is zero. */
  lemma SmallMultipleIsZero(m: int, k: int)
    requires m > 0 && -m < m * k < m
    ensures k == 0
  {
  }

  /** Division by a positive base splits hi * base + lo, for a digit group
      lo in [0, base), back into hi and lo. */
  lemma SplitDigitGroup(hi: int, lo: int, base: int)
    requires base > 0 && 0 <= lo < base
    ensures (hi * base + lo) / base == hi && (hi * base + lo) % base == lo
  {
    var x := hi * base + lo;
    assert base * (hi - x / base) == x % base - lo;
    SmallMultipleIsZero(base, hi - x / base);
  }

  /** Every multiple of a positive m leaves remainder zero. */
  lemma MultipleHasNoRemainder(m: int, q: int)
    requires m > 0
    ensures (m * q) % m == 0
  {
    var x := m * q;
    assert m * (q - x / m) == x % m;
    SmallMultipleIsZero(m, q - x / m);
  }

  /** JavaScript's `%` is symmetric under negation of either operand,
      unlike the Euclidean remainder. */
  lemma JsRemainderSigns(a: int, b: int)
    requires b != 0
    ensures JsRemainder(-a, b) == -JsRemainder(a, b)
    ensures JsRemainder(a, -b) == JsRemainder(a, b)
  {
    var m := if b > 0 then b else -b;
    if a == 0 {
      assert 0 % m == 0;
    }
  }

  /** The date seed: full year, then month (the 0-based month index plus 1),
      then day of the month, as decimal digit groups. */
  function DateSeed(fullYear: int, monthIndex: int, day: int): (s: int)
    ensures 0 <= monthIndex < 12 && 1 <= day <= 31 ==>
      s / 10000 == fullYear && (s % 10000) / 100 == monthIndex + 1 && s % 100 == day
  {
    var seed := fullYear * 10000 + (monthIndex + 1) * 100 + day;
    if 0 <= monthIndex < 12 && 1 <= day <= 31 then
      SplitDigitGroup(fullYear, (monthIndex + 1) * 100 + day, 10000);
      SplitDigitGroup(monthIndex + 1, day, 100);
      SplitDigitGroup(fullYear * 100 + monthIndex + 1, day, 100);
      seed
    else
      seed
  }

  /** The daily puzzle index for the given date; `None` stands for the NaN
      that `%` yields when there are no puzzles. The clock is not read:
      the date is an argument. */
  function DailyPuzzleId(fullYear: int, monthIndex: int, day: int, puzzleCount: int): (r: Option<int>)
    ensures r.Some? <==> puzzleCount != 0
    ensures fullYear >= 0 && 0 <= monthIndex && 1 <= day && puzzleCount > 0
      ==> 0 <= r.value < puzzleCount
    ensures r.Some? ==>
      (DateSeed(fullYear, monthIndex, day) - r.value) % (if puzzleCount > 0 then puzzleCount else -puzzleCount) == 0
  {
    if puzzleCount == 0 then None
    else Some(JsRemainder(DateSeed(fullYear, monthIndex, day), puzzleCount))
  }

  /** Distinct calendar dates give distinct seeds. */
  lemma SeedSeparatesDates(y1: int, m1: int, d1: int, y2: int, m2: int, d2: int)
    requires 0 <= m1 < 12 && 1 <= d1 <= 31 && 0 <= m2 < 12 && 1 <= d2 <= 31
    requires DateSeed(y1, m1, d1) == DateSeed(y2, m2, d2)
    ensures y1 == y2 && m1 == m2 && d1 == d2
  {
    var low1 := (m1 + 1) * 100 + d1;
    var low2 := (m2 + 1) * 100 + d2;
    assert 0 < low1 < 10000 && 0 < low2 < 10000;
  }
}
