/**
 * The game slice of the store: one round of the guessing game (`Game`), the
 * queries on it (`Done`, `DidWin`, `CanMakeGuess`, `CurrentGame`) and the
 * player's whole state (`UserState`), whose reducers edit or submit the
 * guess of the last game of the history, append a fresh game, or clear the
 * animation flag.
 */
module GameReducer {
  import opened Js

  /** A game is over after this many accepted guesses. */
  const MaxGuesses: nat := 6
  /** Length of a word, and of the longest in-progress guess. */
  const WordLength: nat := 5

  datatype Game = Game(
    answer: string,
    currentGuess: string,
    isCurrentGuessInvalid: bool,
    previousGuesses: seq<string>)

  /** The last accepted guess is the answer. */
  function DidWin(g: Game): (r: bool)
    ensures r ==> |g.previousGuesses| >= 1 && g.answer in g.previousGuesses
    ensures g.previousGuesses == [] ==> !r
  {
    |g.previousGuesses| > 0 && g.previousGuesses[|g.previousGuesses| - 1] == g.answer
  }

  /** Six guesses have been used up, or the game was won. */
  function Done(g: Game): (r: bool)
    ensures DidWin(g) ==> r
    ensures r ==> |g.previousGuesses| >= 1
    ensures r && !DidWin(g) ==> |g.previousGuesses| >= MaxGuesses
  {
    |g.previousGuesses| >= MaxGuesses || DidWin(g)
  }

  /**
   * The set built from the lines of the word list. The same list serves
   * both as the answers to draw from and as the guesses to accept.
   */
  function WordSet(lines: seq<string>): (r: set<string>)
    ensures forall w :: w in r <==> w in lines
    ensures |r| <= |lines|
  {
    if lines == [] then {} else {lines[0]} + WordSet(lines[1..])
  }

  /** A guess may be made if it is new in this game and a known word. */
  function CanMakeGuess(g: Game, guess: string, words: set<string>): (r: bool)
    ensures r <==> guess in words && forall i :: 0 <= i < |g.previousGuesses| ==> g.previousGuesses[i] != guess
  {
    guess !in g.previousGuesses && guess in words
  }

  /** The current game is the last one of the history, if there is any. */
  function CurrentGame(games: seq<Game>): (r: Option<Game>)
    ensures r.None? <==> games == []
    ensures r.Some? ==> r.value == games[|games| - 1]
  {
    if |games| > 0 then Some(games[|games| - 1]) else None
  }

  /** A game that has only just started. */
  function NewGame(answer: string): (g: Game)
    ensures !Done(g) && !DidWin(g)
    ensures g.answer == answer && g.currentGuess == "" && g.previousGuesses == []
    ensures !g.isCurrentGuessInvalid
  {
    Game(answer, "", false, [])
  }

  /**
   * Replaces the last game of a non-empty history (the pop-then-push of
   * the reducers): the history keeps its length and every earlier game.
   */
  function ReplaceLast(games: seq<Game>, g: Game): (r: seq<Game>)
    requires games != []
    ensures |r| == |games|
    ensures forall i :: 0 <= i < |games| - 1 ==> r[i] == games[i]
    ensures CurrentGame(r) == Some(g)
  {
    games[|games| - 1 := g]
  }

  /**
   * Edits the in-progress guess of a game: `Some(letter)` appends the
   * letter, `None` removes the last character. Nothing changes when the
   * game is over, when there is nothing to remove, or when the guess is
   * already full.
   */
  function AlterGuess(g: Game, letterToAdd: Option<string>): (r: Game)
    ensures r.answer == g.answer && r.previousGuesses == g.previousGuesses
    ensures Done(r) == Done(g)
    ensures Done(g) ==> r == g
    ensures letterToAdd.None? && g.currentGuess == "" ==> r == g
    ensures letterToAdd.Some? && |g.currentGuess| >= WordLength ==> r == g
    ensures !Done(g) && letterToAdd.Some? && |g.currentGuess| < WordLength ==>
              r.currentGuess == g.currentGuess + letterToAdd.value && !r.isCurrentGuessInvalid
    ensures !Done(g) && letterToAdd.None? && g.currentGuess != "" ==>
              r.currentGuess + [g.currentGuess[|g.currentGuess| - 1]] == g.currentGuess &&
              !r.isCurrentGuessInvalid
  {
    var guess := g.currentGuess;
    if Done(g) then g
    else if letterToAdd.None? && |guess| == 0 then g
    else if letterToAdd.Some? && |guess| >= WordLength then g
    else
      var newGuess := if letterToAdd.Some? then guess + letterToAdd.value else guess[..|guess| - 1];
      Game(g.answer, newGuess, false, g.previousGuesses)
  }

  /** The in-progress guess of `g` is accepted when it is submitted. */
  function Accepts(g: Game, words: set<string>): (r: bool)
    ensures r <==> |g.currentGuess| == WordLength && CanMakeGuess(g, g.currentGuess, words)
    ensures r ==> g.currentGuess in words && g.currentGuess !in g.previousGuesses
  {
    g.currentGuess != "" && CanMakeGuess(g, g.currentGuess, words) && |g.currentGuess| == WordLength
  }

  /**
   * Submits the in-progress guess of a game. An empty guess changes
   * nothing; a guess of the wrong length, not in the word set, or made
   * before is rejected by raising the invalid flag; any other guess is
   * appended to the previous guesses. The game being over is not checked.
   */
  function SubmitGuess(g: Game, words: set<string>): (r: Game)
    ensures r.answer == g.answer
    ensures g.currentGuess == "" ==> r == g
    ensures g.currentGuess != "" ==> (r.isCurrentGuessInvalid <==> !Accepts(g, words))
    ensures g.currentGuess != "" && !Accepts(g, words) ==>
              r.currentGuess == g.currentGuess && r.previousGuesses == g.previousGuesses
    ensures Accepts(g, words) ==>
              r.previousGuesses == g.previousGuesses + [g.currentGuess] && r.currentGuess == ""
    ensures Accepts(g, words) ==> (DidWin(r) <==> g.currentGuess == g.answer)
  {
    var guess := g.currentGuess;
    if guess == "" then g
    else if !CanMakeGuess(g, guess, words) || |guess| != WordLength then
      Game(g.answer, guess, true, g.previousGuesses)
    else
      Game(g.answer, "", false, g.previousGuesses + [guess])
  }

  /**
   * What every game reachable from a fresh one satisfies, as long as
   * letters are added one at a time: a guess of at most five letters, at
   * most six distinct accepted guesses, each a five-letter known word, and
   * an empty in-progress guess once the game is over.
   */
  predicate GameInv(g: Game, words: set<string>) {
    && |g.currentGuess| <= WordLength
    && |g.previousGuesses| <= MaxGuesses
    && (forall i, j :: 0 <= i < j < |g.previousGuesses| ==> g.previousGuesses[i] != g.previousGuesses[j])
    && (forall i :: 0 <= i < |g.previousGuesses| ==>
          |g.previousGuesses[i]| == WordLength && g.previousGuesses[i] in words)
    && (Done(g) ==> g.currentGuess == "")
  }

  lemma NewGameInv(answer: string, words: set<string>)
    ensures GameInv(NewGame(answer), words)
  {
  }

  lemma AlterGuessInv(g: Game, letterToAdd: Option<string>, words: set<string>)
    requires GameInv(g, words)
    requires letterToAdd.Some? ==> |letterToAdd.value| == 1
    ensures GameInv(AlterGuess(g, letterToAdd), words)
  {
  }

  lemma SubmitGuessInv(g: Game, words: set<string>)
    requires GameInv(g, words)
    ensures GameInv(SubmitGuess(g, words), words)
  {
    var r := SubmitGuess(g, words);
    if Accepts(g, words) {
      assert !Done(g);
      var pg := g.previousGuesses;
      forall i, j | 0 <= i < j < |r.previousGuesses|
        ensures r.previousGuesses[i] != r.previousGuesses[j]
      {
        if j == |pg| {
          assert r.previousGuesses[i] == pg[i];
        }
      }
    }
  }

  /**
   * Submitting is never guarded by "the game is over"; it is harmless
   * because an over game has an empty guess, so nothing edits it.
   */
  lemma DoneGameFrozen(g: Game, letterToAdd: Option<string>, words: set<string>)
    requires GameInv(g, words) && Done(g)
    ensures SubmitGuess(g, words) == g
    ensures AlterGuess(g, letterToAdd) == g
  {
  }

  /** The player's persisted state; `words` are the lines of the word list. */
  class UserState {
    const words: seq<string>
    var games: seq<Game>
    var shouldAnimateLastGuess: bool

    /** Every game in the history is in a reachable state. */
    ghost predicate Valid()
      reads this
    {
      forall i :: 0 <= i < |games| ==> GameInv(games[i], WordSet(words))
    }

    /**
     * The initial state: one fresh game whose answer is the line at
     * `index`, drawn below the number of distinct words.
     */
    constructor (words: seq<string>, index: nat)
      requires index < |WordSet(words)|
      ensures this.words == words
      ensures games == [NewGame(words[index])]
      ensures !shouldAnimateLastGuess
      ensures Valid()
    {
      this.words := words;
      games := [NewGame(words[index])];
      shouldAnimateLastGuess := false;
      NewGameInv(words[index], WordSet(words));
    }

    /**
     * Appends a fresh game whose answer is the line at `index`, drawn below
     * the number of lines. No answer can be forced, and earlier answers are
     * not excluded.
     */
    method CreateGame(index: nat)
      requires index < |words|
      modifies this
      ensures games == old(games) + [NewGame(words[index])]
      ensures shouldAnimateLastGuess == old(shouldAnimateLastGuess)
      ensures old(Valid()) ==> Valid()
    {
      NewGameInv(words[index], WordSet(words));
      games := games + [NewGame(words[index])];
    }

    method AddLetter(letter: string)
      modifies this
      ensures old(games) == [] ==> games == []
      ensures old(games) != [] ==>
                games == ReplaceLast(old(games), AlterGuess(CurrentGame(old(games)).value, Some(letter)))
      ensures shouldAnimateLastGuess == old(shouldAnimateLastGuess)
      ensures old(games) != [] && Done(CurrentGame(old(games)).value) ==> games == old(games)
      ensures old(Valid()) && |letter| == 1 ==> Valid()
    {
      ghost var valid := Valid();
      var curr := CurrentGame(games);
      if curr.Some? {
        if valid && |letter| == 1 {
          AlterGuessInv(curr.value, Some(letter), WordSet(words));
        }
        games := ReplaceLast(games, AlterGuess(curr.value, Some(letter)));
      }
    }

    method RemoveLetter()
      modifies this
      ensures old(games) == [] ==> games == []
      ensures old(games) != [] ==>
                games == ReplaceLast(old(games), AlterGuess(CurrentGame(old(games)).value, None))
      ensures shouldAnimateLastGuess == old(shouldAnimateLastGuess)
      ensures old(games) != [] && Done(CurrentGame(old(games)).value) ==> games == old(games)
      ensures old(Valid()) ==> Valid()
    {
      ghost var valid := Valid();
      var curr := CurrentGame(games);
      if curr.Some? {
        if valid {
          AlterGuessInv(curr.value, None, WordSet(words));
        }
        games := ReplaceLast(games, AlterGuess(curr.value, None));
      }
    }

    method MakeGuess()
      modifies this
      ensures old(games) == [] ==> games == []
      ensures old(games) != [] ==>
                games == ReplaceLast(old(games), SubmitGuess(CurrentGame(old(games)).value, WordSet(words)))
      ensures shouldAnimateLastGuess ==
                (old(shouldAnimateLastGuess) ||
                 (old(games) != [] && Accepts(CurrentGame(old(games)).value, WordSet(words))))
      ensures old(Valid()) ==> Valid()
      ensures old(Valid()) && old(games) != [] && Done(CurrentGame(old(games)).value) ==>
                games == old(games) && shouldAnimateLastGuess == old(shouldAnimateLastGuess)
    {
      var curr := CurrentGame(games);
      if curr.None? || curr.value.currentGuess == "" {
        return;
      }
      var g := curr.value;
      if Valid() {
        SubmitGuessInv(g, WordSet(words));
        if Done(g) {
          DoneGameFrozen(g, None, WordSet(words));
        }
      }
      games := ReplaceLast(games, SubmitGuess(g, WordSet(words)));
      if Accepts(g, WordSet(words)) {
        shouldAnimateLastGuess := true;
      }
    }

    method SetAnimatedLastGuess()
      modifies this
      ensures games == old(games)
      ensures !shouldAnimateLastGuess
      ensures old(Valid()) ==> Valid()
    {
      shouldAnimateLastGuess := false;
    }
  }
}
