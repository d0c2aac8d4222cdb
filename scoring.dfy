/**
 * Letter scoring on the game board: every previous guess is compared with
 * the answer, position by position, and each position gets one of three
 * outcomes. Duplicate letters are shared out: exact matches first, then the
 * answer letters left over are handed to the remaining guess positions from
 * left to right.
 *
 * Positions are read the JavaScript way (`CharAt`): past the end of a word
 * there is no letter, and the pool of left-over answer letters may hold that
 * missing letter as a key of its own.
 */
module Scoring {
  import opened Js
  import opened GameReducer

  datatype Outcome = Exact | Present | Absent

  function Min(a: int, b: int): int {
    if a <= b then a else b
  }

  /** The guess has a letter at `i` and the answer has the same letter there. */
  predicate IsExact(answer: string, guess: string, i: nat) {
    CharAt(guess, i).Some? && CharAt(answer, i) == CharAt(guess, i)
  }

  /** Positions below `n` of the answer that hold `c`. */
  function AnswerCount(answer: string, n: nat, c: Option<char>): nat {
    if n == 0 then 0
    else AnswerCount(answer, n - 1, c) + (if CharAt(answer, n - 1) == c then 1 else 0)
  }

  /** Positions below `n` that are not exact and where the ANSWER holds `c`. */
  function PoolCount(answer: string, guess: string, n: nat, c: Option<char>): nat {
    if n == 0 then 0
    else
      PoolCount(answer, guess, n - 1, c) +
      (if !IsExact(answer, guess, n - 1) && CharAt(answer, n - 1) == c then 1 else 0)
  }

  /** Positions below `n` that are not exact and where the GUESS holds `c`. */
  function GuessCount(answer: string, guess: string, n: nat, c: Option<char>): nat {
    if n == 0 then 0
    else
      GuessCount(answer, guess, n - 1, c) +
      (if !IsExact(answer, guess, n - 1) && CharAt(guess, n - 1) == c then 1 else 0)
  }

  /**
   * The outcome of position `i`, stated without any running state: a
   * position that is not exact is present exactly when fewer earlier
   * non-exact positions of the guess carry its letter than the answer has
   * of that letter outside its exact positions.
   */
  function OutcomeAt(answer: string, guess: string, i: nat): Outcome {
    var c := CharAt(guess, i);
    if IsExact(answer, guess, i) then Exact
    else if GuessCount(answer, guess, i, c) < PoolCount(answer, guess, WordLength, c) then Present
    else Absent
  }

  /** The outcomes of the five positions of `guess` against `answer`. */
  function Score(answer: string, guess: string): (r: seq<Outcome>)
    ensures |r| == WordLength
    ensures forall i :: 0 <= i < WordLength ==> (r[i] == Exact <==> IsExact(answer, guess, i))
  {
    seq(WordLength, i requires 0 <= i < WordLength => OutcomeAt(answer, guess, i))
  }

  /** Positions below `n` whose outcome is `o` and whose guess letter is `c`. */
  function CountOutcome(answer: string, guess: string, n: nat, c: Option<char>, o: Outcome): nat {
    if n == 0 then 0
    else
      CountOutcome(answer, guess, n - 1, c, o) +
      (if OutcomeAt(answer, guess, n - 1) == o && CharAt(guess, n - 1) == c then 1 else 0)
  }

  /** The positions of the guess that are exact. */
  ghost predicate SolvedIndexes(answer: string, guess: string, solved: set<int>) {
    forall j :: j in solved <==> 0 <= j < WordLength && IsExact(answer, guess, j)
  }

  /** The pool holds every letter with a positive count, and that count. */
  ghost predicate PoolAfter(remaining: map<Option<char>, int>, answer: string, guess: string, k: nat) {
    && (forall c :: c in remaining <==>
          GuessCount(answer, guess, k, c) < PoolCount(answer, guess, WordLength, c))
    && (forall c :: c in remaining ==>
          remaining[c] == PoolCount(answer, guess, WordLength, c) - GuessCount(answer, guess, k, c))
  }

  /**
   * Scores one guess in three passes, as the board does: exact positions
   * first, then a pool counting the answer letters at the other positions,
   * then the other positions left to right, each taking one letter from the
   * pool if it can.
   */
  method ScoreGuess(answer: string, guess: string) returns (outcomes: seq<Outcome>)
    ensures outcomes == Score(answer, guess)
  {
    var solved, colors := ExactPass(answer, guess);
    var remaining := RemainingLetters(answer, guess, solved);
    colors := PresentPass(answer, guess, solved, remaining, colors);
    outcomes := seq(WordLength, j requires 0 <= j < WordLength => colors[j]);
  }

  /** First pass: marks the exact positions and records them as solved. */
  method ExactPass(answer: string, guess: string) returns (solved: set<int>, colors: map<int, Outcome>)
    ensures SolvedIndexes(answer, guess, solved)
    ensures forall j :: j in colors <==> j in solved
    ensures forall j :: j in colors ==> colors[j] == Exact
  {
    colors := map[];
    solved := {};
    var k := 0;
    while k < WordLength
      invariant 0 <= k <= WordLength
      invariant forall j :: j in solved <==> 0 <= j < k && IsExact(answer, guess, j)
      invariant forall j :: j in colors <==> j in solved
      invariant forall j :: j in colors ==> colors[j] == Exact
    {
      var correctLetter := CharAt(answer, k);
      var guessedLetter := CharAt(guess, k);
      if guessedLetter.Some? && correctLetter == guessedLetter {
        solved := solved + {k};
        colors := colors[k := Exact];
      }
      k := k + 1;
    }
  }

  /**
   * Second pass: counts the answer letters at the unsolved positions,
   * keeping only letters whose count is positive.
   */
  method RemainingLetters(answer: string, guess: string, solved: set<int>)
    returns (remaining: map<Option<char>, int>)
    requires SolvedIndexes(answer, guess, solved)
    ensures forall c :: c in remaining <==> PoolCount(answer, guess, WordLength, c) > 0
    ensures forall c :: c in remaining ==> remaining[c] == PoolCount(answer, guess, WordLength, c)
  {
    remaining := map[];
    var i := 0;
    while i < WordLength
      invariant 0 <= i <= WordLength
      invariant forall c :: c in remaining <==> PoolCount(answer, guess, i, c) > 0
      invariant forall c :: c in remaining ==> remaining[c] == PoolCount(answer, guess, i, c)
    {
      if i !in solved {
        var c := CharAt(answer, i);
        if c !in remaining {
          remaining := remaining[c := 0];
        }
        var letterCount := remaining[c];
        remaining := remaining[c := letterCount + 1];
      }
      i := i + 1;
    }
  }

  /**
   * Third pass: every unsolved position, left to right, is present if its
   * letter is still in the pool (which then gives up one of it, and drops
   * the letter when none is left), and absent otherwise.
   */
  method PresentPass(answer: string, guess: string, solved: set<int>,
                     remaining0: map<Option<char>, int>, colors0: map<int, Outcome>)
    returns (colors: map<int, Outcome>)
    requires SolvedIndexes(answer, guess, solved)
    requires PoolAfter(remaining0, answer, guess, 0)
    requires forall j :: j in colors0 <==> j in solved
    requires forall j :: j in colors0 ==> colors0[j] == Exact
    ensures forall j :: j in colors <==> 0 <= j < WordLength
    ensures forall j :: 0 <= j < WordLength ==> colors[j] == OutcomeAt(answer, guess, j)
  {
    colors := colors0;
    var remaining := remaining0;
    var k := 0;
    while k < WordLength
      invariant 0 <= k <= WordLength
      invariant PoolAfter(remaining, answer, guess, k)
      invariant MarkedBefore(colors, answer, guess, solved, k)
    {
      remaining, colors := MarkPosition(answer, guess, solved, k, remaining, colors);
      k := k + 1;
    }
  }

  /** Positions below `k`, and the exact ones, carry their outcome; no other does. */
  ghost predicate MarkedBefore(colors: map<int, Outcome>, answer: string, guess: string,
                               solved: set<int>, k: nat) {
    && (forall j :: j in colors <==> 0 <= j < k || j in solved)
    && (forall j :: j in colors ==> 0 <= j && colors[j] == OutcomeAt(answer, guess, j))
  }

  /**
   * One step of the third pass, at position `k`: present and one letter
   * fewer in the pool if the pool has the letter, absent otherwise, and
   * nothing at all at a solved position.
   */
  method MarkPosition(answer: string, guess: string, solved: set<int>, k: nat,
                      remaining0: map<Option<char>, int>, colors0: map<int, Outcome>)
    returns (remaining: map<Option<char>, int>, colors: map<int, Outcome>)
    requires k < WordLength
    requires SolvedIndexes(answer, guess, solved)
    requires PoolAfter(remaining0, answer, guess, k)
    requires MarkedBefore(colors0, answer, guess, solved, k)
    ensures PoolAfter(remaining, answer, guess, k + 1)
    ensures MarkedBefore(colors, answer, guess, solved, k + 1)
  {
    remaining, colors := remaining0, colors0;
    PoolDecides(answer, guess, k, remaining);
    if k in solved {
      KeepPoolStep(answer, guess, k, remaining);
      return;
    }
    var guessedLetter := CharAt(guess, k);
    if guessedLetter in remaining {
      colors := colors[k := Present];
      var left := remaining[guessedLetter] - 1;
      if left <= 0 {
        remaining := remaining - {guessedLetter};
      } else {
        remaining := remaining[guessedLetter := left];
      }
      TakeLetterStep(answer, guess, k, remaining0, remaining);
    } else {
      colors := colors[k := Absent];
      KeepPoolStep(answer, guess, k, remaining);
    }
  }

  /** The pool before position `k` decides the outcome of `k`. */
  lemma PoolDecides(answer: string, guess: string, k: nat, remaining: map<Option<char>, int>)
    requires PoolAfter(remaining, answer, guess, k)
    ensures OutcomeAt(answer, guess, k) ==
              if IsExact(answer, guess, k) then Exact
              else if CharAt(guess, k) in remaining then Present
              else Absent
  {
  }

  /** Passing over an exact position, or over a letter the pool lacks, keeps the pool valid. */
  lemma KeepPoolStep(answer: string, guess: string, k: nat, remaining: map<Option<char>, int>)
    requires k < WordLength
    requires PoolAfter(remaining, answer, guess, k)
    requires !IsExact(answer, guess, k) ==> CharAt(guess, k) !in remaining
    ensures PoolAfter(remaining, answer, guess, k + 1)
  {
  }

  /** Handing one letter from the pool to a non-exact position keeps the pool valid. */
  lemma TakeLetterStep(answer: string, guess: string, k: nat,
                       before: map<Option<char>, int>, after: map<Option<char>, int>)
    requires k < WordLength && !IsExact(answer, guess, k)
    requires PoolAfter(before, answer, guess, k)
    requires CharAt(guess, k) in before
    requires before[CharAt(guess, k)] <= 1 ==> after == before - {CharAt(guess, k)}
    requires before[CharAt(guess, k)] > 1 ==>
               after == before[CharAt(guess, k) := before[CharAt(guess, k)] - 1]
    ensures PoolAfter(after, answer, guess, k + 1)
  {
  }

  /**
   * The colour map of the board for a game: one row of outcomes for each
   * of the first six previous guesses, none for the guess in progress, and
   * no rows at all when the answer is empty.
   */
  method BoardMarks(g: Game) returns (board: map<int, seq<Outcome>>)
    ensures forall row :: row in board <==>
              g.answer != "" && 0 <= row < MaxGuesses && row < |g.previousGuesses| &&
              g.previousGuesses[row] != ""
    ensures forall row :: row in board ==> board[row] == Score(g.answer, g.previousGuesses[row])
  {
    board := map[];
    if g.answer == "" {
      return;
    }
    var prevGuesses := g.previousGuesses;
    var guessKey := 0;
    while guessKey < MaxGuesses
      invariant 0 <= guessKey <= MaxGuesses
      invariant forall row :: row in board <==>
                  0 <= row < guessKey && row < |prevGuesses| && prevGuesses[row] != ""
      invariant forall row :: row in board ==>
                  0 <= row < |prevGuesses| && board[row] == Score(g.answer, prevGuesses[row])
    {
      var guess := if guessKey < |prevGuesses| then prevGuesses[guessKey] else "";
      if guess != "" {
        var marks := ScoreGuess(g.answer, guess);
        board := board[guessKey := marks];
      }
      guessKey := guessKey + 1;
    }
  }

  // Properties of the scoring

  lemma {:induction false} PresentCount(answer: string, guess: string, n: nat, c: Option<char>)
    requires n <= WordLength
    ensures CountOutcome(answer, guess, n, c, Present) ==
              Min(GuessCount(answer, guess, n, c), PoolCount(answer, guess, WordLength, c))
  {
    if n > 0 {
      PresentCount(answer, guess, n - 1, c);
    }
  }

  /** Each answer position holding `c` is either matched exactly or left in the pool. */
  lemma {:induction false} AnswerSplit(answer: string, guess: string, n: nat, c: Option<char>)
    ensures AnswerCount(answer, n, c) ==
              CountOutcome(answer, guess, n, c, Exact) + PoolCount(answer, guess, n, c)
  {
    if n > 0 {
      AnswerSplit(answer, guess, n - 1, c);
    }
  }

  /**
   * For every letter, the positions marked present number the smaller of
   * its non-exact occurrences in the guess and in the answer; exact and
   * present together never outnumber its occurrences in the answer.
   */
  lemma LetterBudget(answer: string, guess: string, c: Option<char>)
    ensures CountOutcome(answer, guess, WordLength, c, Present) ==
              Min(GuessCount(answer, guess, WordLength, c), PoolCount(answer, guess, WordLength, c))
    ensures CountOutcome(answer, guess, WordLength, c, Exact) +
            CountOutcome(answer, guess, WordLength, c, Present) <= AnswerCount(answer, WordLength, c)
  {
    PresentCount(answer, guess, WordLength, c);
    AnswerSplit(answer, guess, WordLength, c);
  }

  /** Counting the positions of a word that hold a letter gives its multiplicity. */
  lemma {:induction false} AnswerCountMultiset(answer: string, n: nat, ch: char)
    requires n <= |answer|
    ensures AnswerCount(answer, n, Some(ch)) == multiset(answer[..n])[ch]
  {
    if n > 0 {
      AnswerCountMultiset(answer, n - 1, ch);
      assert answer[..n] == answer[..n - 1] + [answer[n - 1]];
    }
  }

  /** For a five-letter answer: exact plus present for a letter is at most its multiplicity. */
  lemma LetterBudgetInWord(answer: string, guess: string, ch: char)
    requires |answer| == WordLength
    ensures CountOutcome(answer, guess, WordLength, Some(ch), Exact) +
            CountOutcome(answer, guess, WordLength, Some(ch), Present) <= multiset(answer)[ch]
  {
    LetterBudget(answer, guess, Some(ch));
    AnswerCountMultiset(answer, WordLength, ch);
    assert answer[..WordLength] == answer;
  }

  lemma {:induction false} GuessCountGrows(answer: string, guess: string, i: nat, n: nat)
    requires i < n && !IsExact(answer, guess, i)
    ensures GuessCount(answer, guess, n, CharAt(guess, i)) >=
              GuessCount(answer, guess, i, CharAt(guess, i)) + 1
  {
    if n > i + 1 {
      GuessCountGrows(answer, guess, i, n - 1);
    }
  }

  /**
   * Left-to-right tie-break: when a later non-exact occurrence of a letter
   * is present, so is every earlier non-exact occurrence of it.
   */
  lemma TieBreak(answer: string, guess: string, i: nat, j: nat)
    requires i < j < WordLength
    requires CharAt(guess, i) == CharAt(guess, j)
    requires Score(answer, guess)[i] != Exact
    requires Score(answer, guess)[j] == Present
    ensures Score(answer, guess)[i] == Present
  {
    GuessCountGrows(answer, guess, i, j);
  }

  /** A word scored against itself is exact everywhere. */
  lemma SelfScore(answer: string)
    requires |answer| >= WordLength
    ensures Score(answer, answer) == [Exact, Exact, Exact, Exact, Exact]
  {
  }

  lemma {:induction false} AnswerCountAbsent(answer: string, n: nat, ch: char)
    requires ch !in answer
    ensures AnswerCount(answer, n, Some(ch)) == 0
  {
    if n > 0 {
      AnswerCountAbsent(answer, n - 1, ch);
    }
  }

  /** A letter the answer does not contain is always absent. */
  lemma AbsentLetter(answer: string, guess: string, i: nat)
    requires i < |guess| && i < WordLength
    requires guess[i] !in answer
    ensures Score(answer, guess)[i] == Absent
  {
    AnswerCountAbsent(answer, WordLength, guess[i]);
    AnswerSplit(answer, guess, WordLength, Some(guess[i]));
  }

  /** The duplicate-letter example: "peeps" against "sheep". */
  lemma SheepPeeps()
    ensures Score("sheep", "peeps") == [Present, Present, Exact, Absent, Present]
  {
    // The positions that are exact, then the pool and rank counts that decide
    // the others; the solver does not always find these counts on its own.
    var a, g := "sheep", "peeps";
    assert !IsExact(a, g, 0) && !IsExact(a, g, 1) && IsExact(a, g, 2);
    assert !IsExact(a, g, 3) && !IsExact(a, g, 4);
    var p, e, s := Some('p'), Some('e'), Some('s');
    assert PoolCount(a, g, 5, p) == 1 by {
      assert PoolCount(a, g, 4, p) == 0;
    }
    assert PoolCount(a, g, 5, e) == 1 by {
      assert PoolCount(a, g, 3, e) == 0;
    }
    assert PoolCount(a, g, 5, s) == 1;
    assert GuessCount(a, g, 3, p) == 1;
    assert GuessCount(a, g, 1, e) == 0;
    assert GuessCount(a, g, 4, s) == 0;
  }
}
