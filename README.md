# Bobble game engine, modelled in Dafny

Bobble is a browser word-guessing game: the player has six tries to
guess a hidden five-letter word. Each accepted guess is shown as a
board row of coloured tiles. Green (exact) means the right letter in the
right place. Yellow (present) means the letter is in the answer
elsewhere. Grey (absent) means no copy of it is left. The on-screen
keyboard colours every letter key from all guesses of the current game.
A statistics dialog shows the number of games played, the percentage of
them won, the current and the longest winning streak, and how many wins
took one to six guesses.

The project models the engine behind these screens:

- `js.dfy` (`Js`): JavaScript's missing value, and string indexing, which
  gives `undefined` past the end of a string (`CharAt`).
- `game_reducer.dfy` (`GameReducer`):
  - the `Game` record and its queries (`Done`, `DidWin`, `CanMakeGuess`,
    `CurrentGame`);
  - the per-game transitions `AlterGuess` and `SubmitGuess`;
  - the invariant `GameInv` that every reachable game keeps;
  - the player's state as the class `UserState`, whose methods are the
    reducers: `addLetter`, `removeLetter` and `makeGuess` replace the last
    game of the history, `createGame` appends a fresh one, and
    `setAnimatedLastGuess` clears the animation flag.
- `scoring.dfy` (`Scoring`):
  - `Score`, a declarative definition of a row's outcomes;
  - the board's three-pass colouring as methods proved equal to it:
    `ExactPass` (exact positions), `RemainingLetters` (the pool of
    unmatched answer letters) and `PresentPass`/`MarkPosition` (left to
    right, each position taking one letter from the pool if it can);
  - `BoardMarks`, the loop over the six rows;
  - the letter-budget and tie-break properties.
- `stats.dfy` (`Stats`):
  - the over/won filters;
  - the streak scan, proved against declarative definitions of the
    current and the longest streak;
  - the win distribution and the whole `ComputeStats` summary.
- `keyboard.dfy` (`Keyboard`):
  - the perfect/close/used letter sets as a nested loop;
  - the four key lists;
  - a proof that a letter key's colour is the best outcome the board
    shows for that letter.

Modelling conventions:

- Strings are `seq<char>`. Keyboard keys and set members are strings, as
  in the source: one-letter strings plus the one key `"{bksp} {enter}"`.
- The pool of remaining answer letters is keyed by `Option<char>`. An
  answer shorter than five letters therefore puts `undefined` in the pool
  exactly as the JavaScript does.
- The word list is the sequence of its lines. `WordSet` is the set built
  from them.
- The random draw of an answer is an index parameter.
- A board row is a sequence of five outcomes keyed by row number. The
  source keys the map by the string "row,column" and stores colour names.

Behaviour of the code worth noting:

- One word list serves both as the answers and as the accepted guesses.
- `createGame` draws any line of the list, including the answers of
  earlier games.
- `makeGuess` does not check that the game is over. `DoneGameFrozen`
  shows this is harmless in every reachable state.
- The initial game draws its index below the number of distinct words
  (`words.size`), not below the number of lines.

## Model

| member | source | states |
|---|---|---|
| GameReducer.DidWin | src/gameReducer.ts:24-27 | a won game has at least one guess and the answer among its guesses; a game without guesses is not won |
| GameReducer.Done | src/gameReducer.ts:19-22 | a won game is over; an over game has at least one guess, and an over game that was not won has used all six guesses |
| GameReducer.CanMakeGuess | src/gameReducer.ts:29-31 | a guess may be made iff it is a known word and differs from every previous guess |
| GameReducer.Accepts | src/gameReducer.ts:117-120 | the in-progress guess is accepted iff it has five letters and may be made, so it is a known word not guessed before |
| GameReducer.WordSet | src/gameReducer.ts:5 | the word set holds exactly the lines of the list and is no larger than the list |
| GameReducer.CurrentGame | src/gameReducer.ts:47-53 | there is no current game iff the history is empty, otherwise it is the last game |
| GameReducer.NewGame | src/gameReducer.ts:107-112 | a fresh game has the given answer, an empty guess, no previous guesses and no invalid flag, and is neither over nor won |
| GameReducer.ReplaceLast | src/gameReducer.ts:91-92 | pop-then-push keeps the history's length and every earlier game and makes the new game current |
| GameReducer.AlterGuess | src/gameReducer.ts:70-94 | an over game, removing from an empty guess and adding to a full guess change nothing; otherwise the letter is appended or the last one removed, the invalid flag cleared, and answer and previous guesses kept |
| GameReducer.SubmitGuess | src/gameReducer.ts:114-145 | an empty guess changes nothing; a repeated, unknown or wrong-length guess raises the invalid flag and keeps everything else; an accepted guess is appended and the guess cleared, and the game is then won iff the guess is the answer |
| GameReducer.NewGameInv | src/gameReducer.ts:104-112 | a fresh game satisfies the reachable-state invariant |
| GameReducer.AlterGuessInv | src/gameReducer.ts:70-94 | adding a single letter or removing one keeps the guess at most five letters and the rest of the invariant |
| GameReducer.SubmitGuessInv | src/gameReducer.ts:114-145 | submitting keeps at most six distinct five-letter known guesses and an empty guess in an over game |
| GameReducer.DoneGameFrozen | src/gameReducer.ts:114-120 | in a reachable over game neither submitting nor editing changes anything, although submitting does not check for it |
| GameReducer.UserState.constructor | src/gameReducer.ts:55-68 | the initial state holds one fresh game with the drawn answer and no pending animation, and is valid |
| GameReducer.UserState.CreateGame | src/gameReducer.ts:100-113 | a fresh game with the drawn answer is appended to the history and validity is kept |
| GameReducer.UserState.AddLetter | src/gameReducer.ts:146-148 | the current game is replaced by `AlterGuess` with the letter, so an over game is left unchanged; validity is kept for one-letter payloads |
| GameReducer.UserState.RemoveLetter | src/gameReducer.ts:149-151 | the current game is replaced by `AlterGuess` with no letter, so an over game is left unchanged; validity is kept |
| GameReducer.UserState.MakeGuess | src/gameReducer.ts:114-145 | the current game is replaced by `SubmitGuess`; the animation flag is raised exactly when a guess is accepted; validity is kept, and in a valid state an over game and the flag are left unchanged |
| GameReducer.UserState.SetAnimatedLastGuess | src/gameReducer.ts:152-155 | the animation flag is cleared and the games are unchanged |
| Scoring.Score | src/GameBoard.tsx:55-109 | a row has five outcomes, and a position is exact iff the guess has a letter there equal to the answer's |
| Scoring.ScoreGuess | src/GameBoard.tsx:63-107 | the three passes give exactly the outcomes of `Score` |
| Scoring.ExactPass | src/GameBoard.tsx:63-76 | the solved positions are exactly the exact positions, each coloured exact and no other coloured |
| Scoring.RemainingLetters | src/GameBoard.tsx:77-88 | the pool holds each letter (or `undefined`) with its count among the non-exact positions of the answer's first five, and no other key |
| Scoring.PresentPass | src/GameBoard.tsx:90-107 | every position ends coloured with its outcome in `Score` |
| Scoring.MarkPosition | src/GameBoard.tsx:91-106 | one position takes a pool letter if one is left, keeping the pool equal to the unmatched letters of the answer's first five positions minus those taken so far |
| Scoring.BoardMarks | src/GameBoard.tsx:55-62 | a row is coloured iff the answer is non-empty and the row is one of the first six previous guesses and non-empty, and its colours are `Score` |
| Scoring.PresentCount | src/GameBoard.tsx:90-107 | among the first n positions, a letter is present as often as the smaller of its non-exact occurrences among those positions of the guess and its non-exact occurrences among the answer's first five positions |
| Scoring.AnswerSplit | src/GameBoard.tsx:77-88 | each copy of a letter among the answer's first n positions is either matched exactly or counted in the pool |
| Scoring.LetterBudget | src/GameBoard.tsx:77-107 | a letter is present min(guess surplus, answer surplus) times, where a surplus counts the letter's non-exact copies among the guess's five positions and among the answer's first five positions; exact plus present never exceed its copies among the answer's first five positions |
| Scoring.LetterBudgetInWord | src/GameBoard.tsx:77-107 | for a five-letter answer, exact plus present for a letter is at most its multiplicity in the answer |
| Scoring.TieBreak | src/GameBoard.tsx:90-103 | when a later non-exact copy of a letter is present, every earlier non-exact copy is present too |
| Scoring.SelfScore | src/GameBoard.tsx:64-75 | for an answer of at least five letters, the answer guessed against itself is exact everywhere |
| Scoring.AbsentLetter | src/GameBoard.tsx:96-106 | a letter the answer lacks is absent |
| Scoring.SheepPeeps | src/GameBoard.tsx:55-109 | "peeps" against "sheep" scores present, present, exact, absent, present |
| Stats.DoneGames | src/StatsDialog.tsx:14 | the over games are exactly the games of the history that are over, and no more than the history |
| Stats.WinningGames | src/StatsDialog.tsx:15 | the won games are exactly the games that were won |
| Stats.FiltersKeepCopies | src/StatsDialog.tsx:14-15 | both filters keep every copy of a kept game and drop every copy of the others |
| Stats.WinsAmongDone | src/StatsDialog.tsx:14-15 | filtering won games out of the over games is the same as filtering them out of the whole history |
| Stats.Streaks | src/StatsDialog.tsx:17-28 | the scan ends with the length of the final run of wins and the length of the longest run of wins |
| Stats.StreakStep | src/StatsDialog.tsx:20-28 | one more over game extends or resets the current streak and keeps the longest streak exact |
| Stats.StreakBounds | src/StatsDialog.tsx:17-28 | current streak <= longest streak <= games won |
| Stats.WinDistribution | src/StatsDialog.tsx:31-37 | buckets 1 to 6 and every other guess count that occurs are present, each holding the number of won games with that many guesses |
| Stats.DistributionTotal | src/StatsDialog.tsx:31-37 | when every win took one to six guesses, the buckets are exactly 1 to 6 and add up to the number of wins |
| Stats.ReachableWinsInRange | src/StatsDialog.tsx:14-15 | in a history of reachable games every won game took one to six guesses |
| Stats.ComputeStats | src/StatsDialog.tsx:14-37 | played, won, both streaks and the distribution are those of the history, and current <= longest <= won <= played |
| Stats.EmptyHistory | src/StatsDialog.tsx:14-37 | an empty history gives zero played and won, zero streaks and six empty buckets |
| Stats.Scenario | src/StatsDialog.tsx:14-37 | a win in three, a loss and a win in five give three played, two won, both streaks one and buckets 3 and 5 holding one game each |
| Keyboard.LetterSets | src/RootComponent.tsx:23-40 | for a game with a non-empty answer (otherwise nothing is rendered), a key is perfect, close or used exactly when some position of some guess puts it there: perfect for a match at that position, close for a letter the answer has elsewhere, used always |
| Keyboard.MarkedLettersUsed | src/RootComponent.tsx:31-39 | every perfect or close letter is also used |
| Keyboard.Split | src/RootComponent.tsx:21 | splitting keeps the length and makes each character a one-letter string |
| Keyboard.AllKeys | src/RootComponent.tsx:21 | the keys are the 26 letters and the edit key, and a one-letter key is present iff it is in the alphabet |
| Keyboard.KeysIn | src/RootComponent.tsx:42-45 | a key list holds exactly the keys passing that list's test, each as many times as in the key list |
| Keyboard.KeyListsPartition | src/RootComponent.tsx:42-45 | each key is in exactly one of the four lists, so their lengths add up to the number of keys |
| Keyboard.InvalidIsNotInAnswer | src/RootComponent.tsx:31-44 | a letter is coloured invalid iff it was used and the answer does not contain it |
| Keyboard.PerfectIsExact | src/RootComponent.tsx:33-35 | for five-letter guesses, a letter is perfect iff the board shows it exact somewhere |
| Keyboard.PresentIsClose | src/RootComponent.tsx:35-37 | for five-letter guesses, a letter the board shows present somewhere is in the close set (its key may still be coloured perfect) |
| Keyboard.CloseIsPresent | src/RootComponent.tsx:35-37 | for five-letter guesses and an answer of at most five letters, a close letter that is never exact on the board is present there somewhere |
| Keyboard.UsedIsScored | src/RootComponent.tsx:38 | for five-letter guesses, a letter is used iff the board shows it with some outcome |
| Keyboard.KeyColourIsBestOutcome | src/RootComponent.tsx:28-45 | a letter key is perfect iff exact somewhere on the board, close iff present but never exact, invalid iff only ever absent, and unused iff never guessed |
| Keyboard.KeyIsNotPosition | src/RootComponent.tsx:33-37 | in "peeps" against "sheep" the 'p' at position 3 is absent on the board although it would make 'p' close, as the 'p' at position 0 does |
| Keyboard.NoGuessesNoColour | src/RootComponent.tsx:28-45 | before any guess every key is in the unused list |

## Left out

- Rendering: React and MUI, dialogs, grid, transitions and theme colours. Outcomes are the enum `Outcome`.
- Timers and event wiring: the reveal animation interval, the `keydown` listener, the delay before a new game and the on-screen keyboard callbacks.
- Redux Toolkit, immer drafts and persistence. The reducers are methods on `UserState`.
- The reducer branch for a store with no `games` field. Every modelled state has a history.
- `Math.random` picks: the answer index is a parameter of the constructor and of `CreateGame`.
- Loading the word list text. The list of lines is a constructor parameter.
- Stats floating point: the rounded win percentage (NaN for no games), `maxWinningCountOccurence` and the bar widths.
- Analytics (`ReactGA`) and `console.log`.
- Preferences (`paletteMode`), which no engine logic reads.
- UTF-16: strings are sequences of characters, so a letter outside the basic plane is one character here but two code units in JavaScript.
- `src/App.tsx`: routing, providers and analytics set-up. It is not part of this model.
- GameReducer.UserState.AddLetter: validity is promised only for one-letter payloads. A longer payload can grow the guess past five letters, and the source does not guard against this.
- Keyboard.KeyColourIsBestOutcome: holds only when every guess has five letters and the answer has at most five. Reachable games guarantee the first; the second depends on the word list.
- The keyboard's early return when there is no current game or its answer is empty: nothing is rendered then, so `Keyboard.LetterSets` is modelled only for a non-empty answer.
- Stats.DoneGames, Stats.WinningGames: that the filters keep the history's order follows from their definitions and is not stated as a separate contract; `Stats.FiltersKeepCopies` states that they keep multiplicity.
