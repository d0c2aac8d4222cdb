/**
 * The on-screen keyboard's colouring: three letter sets gathered from the
 * accepted guesses of the current game, and the four key lists filtered
 * from them. The module also relates a key's colour to the outcomes the
 * board gives the same letter.
 */
module Keyboard {
  import opened Js
  import opened GameReducer
  import opened Scoring

  /** The three sets the guesses feed. */
  datatype LetterSet = Perfect | Close | Used

  /**
   * Position `j` of `guess` puts its letter into set `s`: perfect when the
   * answer has the same letter there, close when it does not but has the
   * letter somewhere, and used always.
   */
  predicate MarksAt(s: LetterSet, answer: string, guess: string, j: nat)
    requires j < |guess|
  {
    match s
    case Perfect => CharAt(answer, j) == Some(guess[j])
    case Close => CharAt(answer, j) != Some(guess[j]) && guess[j] in answer
    case Used => true
  }

  /** Some position of `guess` below `n` puts the one-letter key `k` into `s`. */
  ghost predicate InGuess(s: LetterSet, answer: string, guess: string, n: nat, k: string) {
    exists j :: 0 <= j < n && j < |guess| && k == [guess[j]] && MarksAt(s, answer, guess, j)
  }

  /** Some position of some guess puts `k` into `s`. */
  ghost predicate InGuesses(s: LetterSet, answer: string, guesses: seq<string>, k: string) {
    exists gi :: 0 <= gi < |guesses| && InGuess(s, answer, guesses[gi], |guesses[gi]|, k)
  }

  /** The sets hold what the first `gi` guesses and the first `i` letters of `guess` put there. */
  ghost predicate Collected(s: LetterSet, letters: set<string>, answer: string,
                            guesses: seq<string>, gi: nat, i: nat)
    requires gi < |guesses|
  {
    forall k :: k in letters <==>
      InGuesses(s, answer, guesses[..gi], k) || InGuess(s, answer, guesses[gi], i, k)
  }

  lemma InGuessStep(s: LetterSet, answer: string, guess: string, i: nat)
    requires i < |guess|
    ensures forall k :: InGuess(s, answer, guess, i + 1, k) <==>
              InGuess(s, answer, guess, i, k) || (k == [guess[i]] && MarksAt(s, answer, guess, i))
  {
    forall k
      ensures InGuess(s, answer, guess, i + 1, k) <==>
                InGuess(s, answer, guess, i, k) || (k == [guess[i]] && MarksAt(s, answer, guess, i))
    {
      if InGuess(s, answer, guess, i + 1, k) {
        var j :| 0 <= j < i + 1 && j < |guess| && k == [guess[j]] && MarksAt(s, answer, guess, j);
        if j < i {
          assert InGuess(s, answer, guess, i, k);
        }
      }
    }
  }

  lemma InGuessesStep(s: LetterSet, answer: string, guesses: seq<string>, gi: nat)
    requires gi < |guesses|
    ensures forall k :: InGuesses(s, answer, guesses[..gi + 1], k) <==>
              InGuesses(s, answer, guesses[..gi], k) ||
              InGuess(s, answer, guesses[gi], |guesses[gi]|, k)
  {
    forall k
      ensures InGuesses(s, answer, guesses[..gi + 1], k) <==>
                InGuesses(s, answer, guesses[..gi], k) ||
                InGuess(s, answer, guesses[gi], |guesses[gi]|, k)
    {
      InGuessesStepAt(s, answer, guesses, gi, k);
    }
  }

  lemma InGuessesStepAt(s: LetterSet, answer: string, guesses: seq<string>, gi: nat, k: string)
    requires gi < |guesses|
    ensures InGuesses(s, answer, guesses[..gi + 1], k) <==>
              InGuesses(s, answer, guesses[..gi], k) ||
              InGuess(s, answer, guesses[gi], |guesses[gi]|, k)
  {
    var before, after := guesses[..gi], guesses[..gi + 1];
    if InGuesses(s, answer, after, k) {
      var h :| 0 <= h < |after| && InGuess(s, answer, after[h], |after[h]|, k);
      if h < gi {
        assert after[h] == before[h];
      }
    }
    if InGuesses(s, answer, before, k) {
      var h :| 0 <= h < |before| && InGuess(s, answer, before[h], |before[h]|, k);
      assert after[h] == before[h];
    }
    if InGuess(s, answer, guesses[gi], |guesses[gi]|, k) {
      assert after[gi] == guesses[gi];
    }
  }

  /**
   * Walks every letter of every guess: a letter matching the answer at its
   * position is perfect, otherwise one the answer contains is close, and
   * every letter is used. The keyboard is drawn only for a game with a
   * non-empty answer; otherwise nothing is rendered and no set is built.
   */
  method LetterSets(answer: string, guesses: seq<string>)
    returns (perfect: set<string>, close: set<string>, used: set<string>)
    requires answer != ""
    ensures forall k :: k in perfect <==> InGuesses(Perfect, answer, guesses, k)
    ensures forall k :: k in close <==> InGuesses(Close, answer, guesses, k)
    ensures forall k :: k in used <==> InGuesses(Used, answer, guesses, k)
  {
    perfect, close, used := {}, {}, {};
    for gi := 0 to |guesses|
      invariant forall k :: k in perfect <==> InGuesses(Perfect, answer, guesses[..gi], k)
      invariant forall k :: k in close <==> InGuesses(Close, answer, guesses[..gi], k)
      invariant forall k :: k in used <==> InGuesses(Used, answer, guesses[..gi], k)
    {
      var guess := guesses[gi];
      for i := 0 to |guess|
        invariant Collected(Perfect, perfect, answer, guesses, gi, i)
        invariant Collected(Close, close, answer, guesses, gi, i)
        invariant Collected(Used, used, answer, guesses, gi, i)
      {
        var letter := [guess[i]];
        if CharAt(answer, i) == Some(guess[i]) {
          perfect := perfect + {letter};
        } else if guess[i] in answer {
          close := close + {letter};
        }
        used := used + {letter};
        InGuessStep(Perfect, answer, guess, i);
        InGuessStep(Close, answer, guess, i);
        InGuessStep(Used, answer, guess, i);
      }
      InGuessesStep(Perfect, answer, guesses, gi);
      InGuessesStep(Close, answer, guesses, gi);
      InGuessesStep(Used, answer, guesses, gi);
    }
    assert guesses[..|guesses|] == guesses;
  }

  /** Every perfect or close letter is also used. */
  lemma MarkedLettersUsed(answer: string, guesses: seq<string>, k: string)
    ensures InGuesses(Perfect, answer, guesses, k) ==> InGuesses(Used, answer, guesses, k)
    ensures InGuesses(Close, answer, guesses, k) ==> InGuesses(Used, answer, guesses, k)
  {
    if InGuesses(Perfect, answer, guesses, k) || InGuesses(Close, answer, guesses, k) {
      var s := if InGuesses(Perfect, answer, guesses, k) then Perfect else Close;
      var gi :| 0 <= gi < |guesses| && InGuess(s, answer, guesses[gi], |guesses[gi]|, k);
      var g := guesses[gi];
      var j :| 0 <= j < |g| && k == [g[j]] && MarksAt(s, answer, g, j);
      assert MarksAt(Used, answer, g, j);
    }
  }

  /** The letters of the alphabet, one key each. */
  const Alphabet: string := "abcdefghijklmnopqrstuvwxyz"
  /** The one key that is not a letter. */
  const EditKeys: string := "{bksp} {enter}"

  /** A string cut into its one-character strings. */
  function Split(s: string): (r: seq<string>)
    ensures |r| == |s|
    ensures forall i :: 0 <= i < |s| ==> r[i] == [s[i]]
  {
    seq(|s|, i requires 0 <= i < |s| => [s[i]])
  }

  /** Every key of the keyboard, letters first. */
  function AllKeys(): (r: seq<string>)
    ensures |r| == |Alphabet| + 1
    ensures forall c :: [c] in r <==> c in Alphabet
    ensures EditKeys in r
  {
    var r := Split(Alphabet) + [EditKeys];
    assert r[|Alphabet|] == EditKeys;
    forall c | c in Alphabet
      ensures [c] in r
    {
      var i :| 0 <= i < |Alphabet| && Alphabet[i] == c;
      assert r[i] == [c];
    }
    r
  }

  /** The four colours a key can take. */
  datatype KeyClass = PerfectKey | CloseKey | InvalidKey | UnusedKey

  /** The test each key list applies; perfect takes precedence over close. */
  predicate InClass(cls: KeyClass, k: string, perfect: set<string>, close: set<string>, used: set<string>) {
    match cls
    case PerfectKey => k in perfect
    case CloseKey => k !in perfect && k in close
    case InvalidKey => k !in perfect && k !in close && k in used
    case UnusedKey => k !in used
  }

  /** The keys of `keys` in class `cls`, in keyboard order. */
  function KeysIn(keys: seq<string>, cls: KeyClass, perfect: set<string>, close: set<string>,
                  used: set<string>): (r: seq<string>)
    ensures forall k :: k in r <==> k in keys && InClass(cls, k, perfect, close, used)
    ensures forall k :: multiset(r)[k] == if InClass(cls, k, perfect, close, used) then multiset(keys)[k] else 0
    ensures |r| <= |keys|
  {
    if keys == [] then []
    else
      assert keys == [keys[0]] + keys[1..];
      (if InClass(cls, keys[0], perfect, close, used) then [keys[0]] else []) +
      KeysIn(keys[1..], cls, perfect, close, used)
  }

  /**
   * When perfect and close letters are used letters, every key falls in
   * exactly one of the four lists, so together they hold every key once.
   */
  lemma {:induction false} KeyListsPartition(keys: seq<string>, perfect: set<string>,
                                             close: set<string>, used: set<string>)
    requires perfect <= used && close <= used
    ensures |KeysIn(keys, PerfectKey, perfect, close, used)| +
            |KeysIn(keys, CloseKey, perfect, close, used)| +
            |KeysIn(keys, InvalidKey, perfect, close, used)| +
            |KeysIn(keys, UnusedKey, perfect, close, used)| == |keys|
    ensures forall k, c1, c2 ::
              (InClass(c1, k, perfect, close, used) && InClass(c2, k, perfect, close, used)) ==> c1 == c2
  {
    if keys != [] {
      KeyListsPartition(keys[1..], perfect, close, used);
    }
  }

  /** A key coloured invalid is exactly a used letter the answer does not contain. */
  lemma InvalidIsNotInAnswer(answer: string, guesses: seq<string>, c: char)
    ensures (InGuesses(Used, answer, guesses, [c]) &&
             !InGuesses(Perfect, answer, guesses, [c]) &&
             !InGuesses(Close, answer, guesses, [c])) <==>
            (InGuesses(Used, answer, guesses, [c]) && c !in answer)
  {
    if InGuesses(Used, answer, guesses, [c]) {
      var gi :| 0 <= gi < |guesses| && InGuess(Used, answer, guesses[gi], |guesses[gi]|, [c]);
      var g := guesses[gi];
      var j :| 0 <= j < |g| && [c] == [g[j]] && MarksAt(Used, answer, g, j);
      assert g[j] == [c][0] == c;
      if c in answer {
        if CharAt(answer, j) == Some(c) {
          assert MarksAt(Perfect, answer, g, j);
          assert InGuess(Perfect, answer, g, |g|, [c]);
        } else {
          assert MarksAt(Close, answer, g, j);
          assert InGuess(Close, answer, g, |g|, [c]);
        }
      }
    }
  }

  // The keyboard against the board

  /** Some guess shows letter `c` at one of its five positions with outcome `o`. */
  ghost predicate ScoredAs(answer: string, guesses: seq<string>, c: char, o: Outcome) {
    exists gi, i :: 0 <= gi < |guesses| && 0 <= i < WordLength &&
      CharAt(guesses[gi], i) == Some(c) && Score(answer, guesses[gi])[i] == o
  }

  /** A positive count of outcome `o` for letter `c` has a position behind it. */
  lemma {:induction false} CountOutcomeWitness(answer: string, guess: string, n: nat,
                                               c: Option<char>, o: Outcome)
    requires CountOutcome(answer, guess, n, c, o) > 0
    ensures exists i :: 0 <= i < n && OutcomeAt(answer, guess, i) == o && CharAt(guess, i) == c
  {
    if !(OutcomeAt(answer, guess, n - 1) == o && CharAt(guess, n - 1) == c) {
      CountOutcomeWitness(answer, guess, n - 1, c, o);
    }
  }

  /** A letter at one of the first `n` positions of the answer is counted there. */
  lemma {:induction false} AnswerCountHas(answer: string, n: nat, p: nat, c: char)
    requires p < n && CharAt(answer, p) == Some(c)
    ensures AnswerCount(answer, n, Some(c)) >= 1
  {
    if p < n - 1 {
      AnswerCountHas(answer, n - 1, p, c);
    }
  }

  /** A letter left in the pool is a letter of the answer. */
  lemma {:induction false} PoolHasAnswerLetter(answer: string, guess: string, n: nat, c: char)
    requires PoolCount(answer, guess, n, Some(c)) > 0
    ensures c in answer
  {
    if CharAt(answer, n - 1) == Some(c) {
      assert answer[n - 1] == c;
    } else {
      PoolHasAnswerLetter(answer, guess, n - 1, c);
    }
  }

  /** Perfect on the keyboard is exact somewhere on the board. */
  lemma PerfectIsExact(answer: string, guesses: seq<string>, c: char)
    requires forall gi :: 0 <= gi < |guesses| ==> |guesses[gi]| == WordLength
    ensures InGuesses(Perfect, answer, guesses, [c]) <==> ScoredAs(answer, guesses, c, Exact)
  {
    if InGuesses(Perfect, answer, guesses, [c]) {
      var gi :| 0 <= gi < |guesses| && InGuess(Perfect, answer, guesses[gi], |guesses[gi]|, [c]);
      var g := guesses[gi];
      var j :| 0 <= j < |g| && [c] == [g[j]] && MarksAt(Perfect, answer, g, j);
      assert g[j] == [c][0];
      assert Score(answer, g)[j] == Exact;
    }
    if ScoredAs(answer, guesses, c, Exact) {
      var gi, i :| 0 <= gi < |guesses| && 0 <= i < WordLength &&
        CharAt(guesses[gi], i) == Some(c) && Score(answer, guesses[gi])[i] == Exact;
      var g := guesses[gi];
      assert MarksAt(Perfect, answer, g, i) && [c] == [g[i]];
      assert InGuess(Perfect, answer, g, |g|, [c]);
    }
  }

  /** Present somewhere on the board makes the letter close on the keyboard. */
  lemma PresentIsClose(answer: string, guesses: seq<string>, c: char)
    requires forall gi :: 0 <= gi < |guesses| ==> |guesses[gi]| == WordLength
    requires ScoredAs(answer, guesses, c, Present)
    ensures InGuesses(Close, answer, guesses, [c])
  {
    var gi, i :| 0 <= gi < |guesses| && 0 <= i < WordLength &&
      CharAt(guesses[gi], i) == Some(c) && Score(answer, guesses[gi])[i] == Present;
    var g := guesses[gi];
    assert OutcomeAt(answer, g, i) == Present;
    PoolHasAnswerLetter(answer, g, WordLength, c);
    assert MarksAt(Close, answer, g, i) && [c] == [g[i]];
    assert InGuess(Close, answer, g, |g|, [c]);
  }

  /**
   * A letter never exact on the board and close on the keyboard is present
   * somewhere on the board: in the guess that makes it close, none of the
   * answer's copies of the letter is matched exactly, so the pool still
   * holds one for its first non-exact occurrence.
   */
  lemma CloseIsPresent(answer: string, guesses: seq<string>, c: char)
    requires forall gi :: 0 <= gi < |guesses| ==> |guesses[gi]| == WordLength
    requires |answer| <= WordLength
    requires !ScoredAs(answer, guesses, c, Exact)
    requires InGuesses(Close, answer, guesses, [c])
    ensures ScoredAs(answer, guesses, c, Present)
  {
    var gi :| 0 <= gi < |guesses| && InGuess(Close, answer, guesses[gi], |guesses[gi]|, [c]);
    var g := guesses[gi];
    var j :| 0 <= j < |g| && [c] == [g[j]] && MarksAt(Close, answer, g, j);
    assert g[j] == [c][0];
    var some := Some(c);
    if CountOutcome(answer, g, WordLength, some, Exact) > 0 {
      CountOutcomeWitness(answer, g, WordLength, some, Exact);
      assert false;
    }
    var p :| 0 <= p < |answer| && answer[p] == c;
    AnswerCountHas(answer, WordLength, p, c);
    AnswerSplit(answer, g, WordLength, some);
    GuessCountGrows(answer, g, j, WordLength);
    LetterBudget(answer, g, some);
    CountOutcomeWitness(answer, g, WordLength, some, Present);
    var i :| 0 <= i < WordLength && OutcomeAt(answer, g, i) == Present && CharAt(g, i) == some;
    assert Score(answer, g)[i] == Present;
  }

  /** A used letter shows some outcome on the board, and only used letters do. */
  lemma UsedIsScored(answer: string, guesses: seq<string>, c: char)
    requires forall gi :: 0 <= gi < |guesses| ==> |guesses[gi]| == WordLength
    ensures InGuesses(Used, answer, guesses, [c]) <==>
              ScoredAs(answer, guesses, c, Exact) || ScoredAs(answer, guesses, c, Present) ||
              ScoredAs(answer, guesses, c, Absent)
  {
    if InGuesses(Used, answer, guesses, [c]) {
      var gi :| 0 <= gi < |guesses| && InGuess(Used, answer, guesses[gi], |guesses[gi]|, [c]);
      var g := guesses[gi];
      var j :| 0 <= j < |g| && [c] == [g[j]] && MarksAt(Used, answer, g, j);
      assert g[j] == [c][0];
      assert CharAt(g, j) == Some(c);
      var o := Score(answer, g)[j];
      assert ScoredAs(answer, guesses, c, o);
    }
    var scored := ScoredAs(answer, guesses, c, Exact) || ScoredAs(answer, guesses, c, Present) ||
                  ScoredAs(answer, guesses, c, Absent);
    if scored {
      var o := if ScoredAs(answer, guesses, c, Exact) then Exact
               else if ScoredAs(answer, guesses, c, Present) then Present else Absent;
      var gi, i :| 0 <= gi < |guesses| && 0 <= i < WordLength &&
        CharAt(guesses[gi], i) == Some(c) && Score(answer, guesses[gi])[i] == o;
      var g := guesses[gi];
      assert MarksAt(Used, answer, g, i) && [c] == [g[i]];
      assert InGuess(Used, answer, g, |g|, [c]);
    }
  }

  /**
   * For games whose guesses are five-letter words and whose answer has at
   * most five letters, a letter key's colour is the best outcome the board
   * shows for that letter in any guess: perfect for exact, close for
   * present, invalid for absent only, and unused when it was never guessed.
   */
  lemma KeyColourIsBestOutcome(answer: string, guesses: seq<string>, perfect: set<string>,
                               close: set<string>, used: set<string>, c: char)
    requires forall gi :: 0 <= gi < |guesses| ==> |guesses[gi]| == WordLength
    requires |answer| <= WordLength
    requires forall k :: k in perfect <==> InGuesses(Perfect, answer, guesses, k)
    requires forall k :: k in close <==> InGuesses(Close, answer, guesses, k)
    requires forall k :: k in used <==> InGuesses(Used, answer, guesses, k)
    ensures InClass(PerfectKey, [c], perfect, close, used) <==> ScoredAs(answer, guesses, c, Exact)
    ensures InClass(CloseKey, [c], perfect, close, used) <==>
              !ScoredAs(answer, guesses, c, Exact) && ScoredAs(answer, guesses, c, Present)
    ensures InClass(InvalidKey, [c], perfect, close, used) <==>
              !ScoredAs(answer, guesses, c, Exact) && !ScoredAs(answer, guesses, c, Present) &&
              ScoredAs(answer, guesses, c, Absent)
    ensures InClass(UnusedKey, [c], perfect, close, used) <==>
              !ScoredAs(answer, guesses, c, Exact) && !ScoredAs(answer, guesses, c, Present) &&
              !ScoredAs(answer, guesses, c, Absent)
  {
    PerfectIsExact(answer, guesses, c);
    UsedIsScored(answer, guesses, c);
    if ScoredAs(answer, guesses, c, Present) {
      PresentIsClose(answer, guesses, c);
    }
    if !ScoredAs(answer, guesses, c, Exact) && InGuesses(Close, answer, guesses, [c]) {
      CloseIsPresent(answer, guesses, c);
    }
  }

  /**
   * The colour is per letter, not per position: in "peeps" against "sheep"
   * the 'p' at position 3 is absent on the board although that position
   * would make 'p' close, and the key 'p' is close, like the present 'p'
   * at position 0.
   */
  lemma KeyIsNotPosition()
    ensures Score("sheep", "peeps")[3] == Absent
    ensures MarksAt(Close, "sheep", "peeps", 3)
    ensures Score("sheep", "peeps")[0] == Present && "peeps"[0] == "peeps"[3] == 'p'
  {
    SheepPeeps();
  }

  /** Before any guess every key is unused. */
  lemma NoGuessesNoColour(answer: string, perfect: set<string>, close: set<string>,
                          used: set<string>)
    requires forall k :: k in perfect <==> InGuesses(Perfect, answer, [], k)
    requires forall k :: k in close <==> InGuesses(Close, answer, [], k)
    requires forall k :: k in used <==> InGuesses(Used, answer, [], k)
    ensures KeysIn(AllKeys(), UnusedKey, perfect, close, used) == AllKeys()
  {
    KeysInAll(AllKeys(), perfect, close, used);
  }

  lemma {:induction false} KeysInAll(keys: seq<string>, perfect: set<string>, close: set<string>,
                                     used: set<string>)
    requires forall k :: k in keys ==> k !in used
    ensures KeysIn(keys, UnusedKey, perfect, close, used) == keys
  {
    if keys != [] {
      KeysInAll(keys[1..], perfect, close, used);
    }
  }
}
