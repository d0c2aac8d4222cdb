/**
 * The statistics shown to the player, computed afresh from the game
 * history: games played (over) and won, the current and the longest
 * winning streak, and how many wins took one to six guesses.
 */
module Stats {
  import opened Js
  import opened GameReducer

  /** The games of the history that are over, in order. */
  function DoneGames(games: seq<Game>): (r: seq<Game>)
    ensures forall g :: g in r <==> g in games && Done(g)
    ensures |r| <= |games|
  {
    if games == [] then []
    else (if Done(games[0]) then [games[0]] else []) + DoneGames(games[1..])
  }

  /** The games of a sequence that were won, in order. */
  function WinningGames(games: seq<Game>): (r: seq<Game>)
    ensures forall g :: g in r <==> g in games && DidWin(g)
    ensures |r| <= |games|
  {
    if games == [] then []
    else (if DidWin(games[0]) then [games[0]] else []) + WinningGames(games[1..])
  }

  /** Filtering the over games first changes nothing, since every won game is over. */
  lemma {:induction false} WinsAmongDone(games: seq<Game>)
    ensures WinningGames(DoneGames(games)) == WinningGames(games)
  {
    if games != [] {
      WinsAmongDone(games[1..]);
      var h := games[0];
      if Done(h) {
        assert DoneGames(games) == [h] + DoneGames(games[1..]);
        assert ([h] + DoneGames(games[1..]))[1..] == DoneGames(games[1..]);
      } else {
        assert !DidWin(h);
        assert DoneGames(games) == DoneGames(games[1..]);
        assert WinningGames(games) == WinningGames(games[1..]);
      }
    }
  }

  /**
   * The filters keep every copy of a kept game and drop every copy of the
   * others, so `played` and `won` count games, not distinct games.
   */
  lemma {:induction false} FiltersKeepCopies(games: seq<Game>)
    ensures forall g :: multiset(DoneGames(games))[g] == if Done(g) then multiset(games)[g] else 0
    ensures forall g :: multiset(WinningGames(games))[g] == if DidWin(g) then multiset(games)[g] else 0
  {
    if games != [] {
      FiltersKeepCopies(games[1..]);
      assert games == [games[0]] + games[1..];
    }
  }

  /** Every game of `s` from position `i` up to (not including) `j` was won. */
  ghost predicate AllWins(s: seq<Game>, i: int, j: int) {
    0 <= i <= j <= |s| && forall k :: i <= k < j ==> DidWin(s[k])
  }

  /** `n` is the length of the longest run of wins that ends the sequence. */
  ghost predicate IsCurrentStreak(s: seq<Game>, n: nat) {
    n <= |s| && AllWins(s, |s| - n, |s|) && (n < |s| ==> !DidWin(s[|s| - n - 1]))
  }

  /** `n` is the length of the longest run of consecutive wins anywhere in the sequence. */
  ghost predicate IsMaxStreak(s: seq<Game>, n: nat) {
    && (exists i, j :: AllWins(s, i, j) && j - i == n)
    && (forall i, j :: AllWins(s, i, j) ==> j - i <= n)
  }

  /**
   * The streak scan over the over games: a win extends the current streak,
   * a loss resets it, and the longest streak is the largest value the
   * current one reaches.
   */
  method Streaks(doneGames: seq<Game>) returns (currentStreak: nat, maxStreak: nat)
    ensures IsCurrentStreak(doneGames, currentStreak)
    ensures IsMaxStreak(doneGames, maxStreak)
  {
    currentStreak, maxStreak := 0, 0;
    assert AllWins(doneGames[..0], 0, 0);
    for i := 0 to |doneGames|
      invariant IsCurrentStreak(doneGames[..i], currentStreak)
      invariant IsMaxStreak(doneGames[..i], maxStreak)
    {
      var game := doneGames[i];
      StreakStep(doneGames[..i], game, currentStreak, maxStreak);
      if DidWin(game) {
        currentStreak := currentStreak + 1;
      } else {
        currentStreak := 0;
      }
      maxStreak := if currentStreak > maxStreak then currentStreak else maxStreak;
      assert doneGames[..i + 1] == doneGames[..i] + [game];
    }
    assert doneGames[..|doneGames|] == doneGames;
  }

  /** One step of the scan keeps both streaks exact. */
  lemma StreakStep(p: seq<Game>, x: Game, cur: nat, max: nat)
    requires IsCurrentStreak(p, cur) && IsMaxStreak(p, max)
    ensures var cur' := if DidWin(x) then cur + 1 else 0;
            IsCurrentStreak(p + [x], cur') &&
            IsMaxStreak(p + [x], if cur' > max then cur' else max)
  {
    var t := p + [x];
    var cur' := if DidWin(x) then cur + 1 else 0;
    var max' := if cur' > max then cur' else max;
    forall i, j | AllWins(p, i, j) ensures AllWins(t, i, j) {
      assert forall k :: i <= k < j ==> t[k] == p[k];
    }
    assert AllWins(t, |t| - cur', |t|) by {
      if DidWin(x) {
        assert AllWins(p, |p| - cur, |p|);
        assert forall k :: |p| - cur <= k < |p| ==> t[k] == p[k];
      }
    }
    assert IsCurrentStreak(t, cur') by {
      if cur' < |t| && DidWin(x) {
        assert t[|t| - cur' - 1] == p[|p| - cur - 1];
      }
    }
    assert exists i, j :: AllWins(t, i, j) && j - i == max' by {
      if cur' > max {
        assert AllWins(t, |t| - cur', |t|);
      } else {
        var i, j :| AllWins(p, i, j) && j - i == max;
        assert AllWins(t, i, j);
      }
    }
    forall i, j | AllWins(t, i, j) ensures j - i <= max' {
      if j <= |p| {
        assert forall k :: i <= k < j ==> t[k] == p[k];
        assert AllWins(p, i, j);
      } else if i < j {
        assert DidWin(t[|p|]);
      }
    }
  }

  lemma {:induction false} RunWithinWins(s: seq<Game>, i: int, j: int)
    requires AllWins(s, i, j)
    ensures j - i <= |WinningGames(s)|
  {
    if i < j {
      var t := s[1..];
      if i > 0 {
        assert AllWins(t, i - 1, j - 1) by {
          assert forall k :: i - 1 <= k < j - 1 ==> t[k] == s[k + 1];
        }
        RunWithinWins(t, i - 1, j - 1);
      } else {
        assert DidWin(s[0]);
        assert AllWins(t, 0, j - 1) by {
          assert forall k :: 0 <= k < j - 1 ==> t[k] == s[k + 1];
        }
        RunWithinWins(t, 0, j - 1);
      }
    }
  }

  /** The current streak never exceeds the longest one, which never exceeds the wins. */
  lemma StreakBounds(s: seq<Game>, cur: nat, max: nat)
    requires IsCurrentStreak(s, cur) && IsMaxStreak(s, max)
    ensures cur <= max <= |WinningGames(s)|
  {
    assert AllWins(s, |s| - cur, |s|);
    var i, j :| AllWins(s, i, j) && j - i == max;
    RunWithinWins(s, i, j);
  }

  /** Of the games `gs`, those that took exactly `n` guesses. */
  function CountWithGuesses(gs: seq<Game>, n: int): nat {
    if gs == [] then 0
    else
      CountWithGuesses(gs[..|gs| - 1], n) +
      (if |gs[|gs| - 1].previousGuesses| == n then 1 else 0)
  }

  /**
   * `counts` is the win distribution of `winningGames`: buckets 1 to 6
   * always, plus any other guess count a game has, each holding how many
   * games took that many guesses.
   */
  ghost predicate IsDistribution(winningGames: seq<Game>, counts: map<int, nat>) {
    && (forall n :: n in counts <==> (1 <= n <= MaxGuesses || CountWithGuesses(winningGames, n) > 0))
    && (forall n :: n in counts ==> counts[n] == CountWithGuesses(winningGames, n))
  }

  /** Buckets 1 to 6 start at zero; each won game adds one to the bucket of its guess count. */
  method WinDistribution(winningGames: seq<Game>) returns (winningCounts: map<int, nat>)
    ensures IsDistribution(winningGames, winningCounts)
  {
    winningCounts := map[];
    for k := 0 to MaxGuesses
      invariant forall n :: n in winningCounts <==> 1 <= n <= k
      invariant forall n :: n in winningCounts ==> winningCounts[n] == 0
    {
      winningCounts := winningCounts[k + 1 := 0];
    }
    for i := 0 to |winningGames|
      invariant IsDistribution(winningGames[..i], winningCounts)
    {
      var g := winningGames[i];
      var guessCount := |g.previousGuesses|;
      var prevCount := if guessCount in winningCounts then Some(winningCounts[guessCount]) else None;
      winningCounts := winningCounts[guessCount := (if prevCount.Some? then prevCount.value else 0) + 1];
      assert winningGames[..i + 1][..i] == winningGames[..i];
    }
    assert winningGames[..|winningGames|] == winningGames;
  }

  /** Buckets 1 to `n` added up. */
  function BucketTotal(counts: map<int, nat>, n: nat): nat {
    if n == 0 then 0
    else BucketTotal(counts, n - 1) + (if n in counts then counts[n] else 0)
  }

  /** Games taking between 1 and `n` guesses, counted bucket by bucket. */
  function CountUpTo(gs: seq<Game>, n: nat): nat {
    if n == 0 then 0 else CountUpTo(gs, n - 1) + CountWithGuesses(gs, n)
  }

  lemma {:induction false} CountUpToLast(gs: seq<Game>, n: nat)
    requires gs != []
    ensures CountUpTo(gs, n) ==
              CountUpTo(gs[..|gs| - 1], n) +
              (if 1 <= |gs[|gs| - 1].previousGuesses| <= n then 1 else 0)
  {
    if n > 0 {
      CountUpToLast(gs, n - 1);
    }
  }

  lemma {:induction false} CountUpToNothing(n: nat)
    ensures CountUpTo([], n) == 0
  {
    if n > 0 {
      CountUpToNothing(n - 1);
    }
  }

  lemma {:induction false} CountUpToAll(gs: seq<Game>, n: nat)
    requires forall g :: g in gs ==> 1 <= |g.previousGuesses| <= n
    ensures CountUpTo(gs, n) == |gs|
  {
    if gs == [] {
      CountUpToNothing(n);
    } else {
      var init := gs[..|gs| - 1];
      assert forall g :: g in init ==> g in gs;
      CountUpToAll(init, n);
      CountUpToLast(gs, n);
      assert gs[|gs| - 1] in gs;
    }
  }

  lemma {:induction false} BucketTotalIsCount(gs: seq<Game>, counts: map<int, nat>, n: nat)
    requires IsDistribution(gs, counts)
    requires n <= MaxGuesses
    ensures BucketTotal(counts, n) == CountUpTo(gs, n)
  {
    if n > 0 {
      BucketTotalIsCount(gs, counts, n - 1);
    }
  }

  /**
   * When every won game took one to six guesses (as in every reachable
   * state), the distribution has exactly the buckets 1 to 6 and they add up
   * to the number of won games.
   */
  lemma DistributionTotal(winningGames: seq<Game>, counts: map<int, nat>)
    requires IsDistribution(winningGames, counts)
    requires forall g :: g in winningGames ==> 1 <= |g.previousGuesses| <= MaxGuesses
    ensures forall n :: n in counts <==> 1 <= n <= MaxGuesses
    ensures BucketTotal(counts, MaxGuesses) == |winningGames|
  {
    forall n | !(1 <= n <= MaxGuesses) ensures CountWithGuesses(winningGames, n) == 0 {
      NoGamesWithCount(winningGames, n);
    }
    BucketTotalIsCount(winningGames, counts, MaxGuesses);
    CountUpToAll(winningGames, MaxGuesses);
  }

  lemma {:induction false} NoGamesWithCount(gs: seq<Game>, n: int)
    requires forall g :: g in gs ==> |g.previousGuesses| != n
    ensures CountWithGuesses(gs, n) == 0
  {
    if gs != [] {
      var init := gs[..|gs| - 1];
      assert forall g :: g in init ==> g in gs;
      NoGamesWithCount(init, n);
    }
  }

  /** In a history of reachable games every won game took one to six guesses. */
  lemma ReachableWinsInRange(games: seq<Game>, words: set<string>)
    requires forall g :: g in games ==> GameInv(g, words)
    ensures forall g :: g in WinningGames(DoneGames(games)) ==>
              1 <= |g.previousGuesses| <= MaxGuesses
  {
  }

  datatype Summary = Summary(
    played: nat,
    won: nat,
    currentStreak: nat,
    maxStreak: nat,
    winningCounts: map<int, nat>)

  /** Everything the statistics dialog shows, apart from the percentage and the bar widths. */
  method ComputeStats(games: seq<Game>) returns (st: Summary)
    ensures st.played == |DoneGames(games)|
    ensures st.won == |WinningGames(games)|
    ensures IsCurrentStreak(DoneGames(games), st.currentStreak)
    ensures IsMaxStreak(DoneGames(games), st.maxStreak)
    ensures IsDistribution(WinningGames(games), st.winningCounts)
    ensures st.currentStreak <= st.maxStreak <= st.won <= st.played
  {
    var doneGames := DoneGames(games);
    var winningGames := WinningGames(doneGames);
    WinsAmongDone(games);
    var currentStreak, maxStreak := Streaks(doneGames);
    StreakBounds(doneGames, currentStreak, maxStreak);
    var winningCounts := WinDistribution(winningGames);
    st := Summary(|doneGames|, |winningGames|, currentStreak, maxStreak, winningCounts);
  }

  /** No history: nothing played or won, no streaks, six empty buckets. */
  lemma EmptyHistory(cur: nat, max: nat, counts: map<int, nat>)
    requires IsCurrentStreak(DoneGames([]), cur)
    requires IsMaxStreak(DoneGames([]), max)
    requires IsDistribution(WinningGames([]), counts)
    ensures |DoneGames([])| == 0 && |WinningGames([])| == 0
    ensures cur == 0 && max == 0
    ensures counts == map[1 := 0, 2 := 0, 3 := 0, 4 := 0, 5 := 0, 6 := 0]
  {
    var i, j :| AllWins([], i, j) && j - i == max;
    var expected := map[1 := 0, 2 := 0, 3 := 0, 4 := 0, 5 := 0, 6 := 0];
    assert WinningGames([]) == [];
    forall n ensures n in counts <==> n in expected {
    }
    assert counts.Keys == expected.Keys;
  }

  /**
   * Three over games, won in three guesses, lost, won in five: three
   * played, two won, both streaks one, buckets 3 and 5 hold one game each.
   */
  lemma Scenario(w3: Game, lost: Game, w5: Game, cur: nat, max: nat, counts: map<int, nat>)
    requires DidWin(w3) && |w3.previousGuesses| == 3
    requires Done(lost) && !DidWin(lost)
    requires DidWin(w5) && |w5.previousGuesses| == 5
    requires IsCurrentStreak(DoneGames([w3, lost, w5]), cur)
    requires IsMaxStreak(DoneGames([w3, lost, w5]), max)
    requires IsDistribution(WinningGames([w3, lost, w5]), counts)
    ensures |DoneGames([w3, lost, w5])| == 3 && |WinningGames([w3, lost, w5])| == 2
    ensures cur == 1 && max == 1
    ensures counts == map[1 := 0, 2 := 0, 3 := 1, 4 := 0, 5 := 1, 6 := 0]
  {
    ScenarioFilters(w3, lost, w5);
    ScenarioStreaks([w3, lost, w5], cur, max);
    ScenarioDistribution(w3, w5, counts);
  }

  lemma ScenarioFilters(w3: Game, lost: Game, w5: Game)
    requires DidWin(w3) && Done(lost) && !DidWin(lost) && DidWin(w5)
    ensures DoneGames([w3, lost, w5]) == [w3, lost, w5]
    ensures WinningGames([w3, lost, w5]) == [w3, w5]
  {
  }

  lemma ScenarioStreaks(s: seq<Game>, cur: nat, max: nat)
    requires |s| == 3 && DidWin(s[0]) && !DidWin(s[1]) && DidWin(s[2])
    requires IsCurrentStreak(s, cur) && IsMaxStreak(s, max)
    ensures cur == 1 && max == 1
  {
  }

  lemma ScenarioDistribution(w3: Game, w5: Game, counts: map<int, nat>)
    requires |w3.previousGuesses| == 3 && |w5.previousGuesses| == 5
    requires IsDistribution([w3, w5], counts)
    ensures counts == map[1 := 0, 2 := 0, 3 := 1, 4 := 0, 5 := 1, 6 := 0]
  {
    var wins := [w3, w5];
    assert wins[..1] == [w3];
    assert [w3][..0] == [];
    var expected := map[1 := 0, 2 := 0, 3 := 1, 4 := 0, 5 := 1, 6 := 0];
    forall n
      ensures n in counts <==> n in expected
      ensures n in counts ==> counts[n] == expected[n]
    {
      assert CountWithGuesses([w3], n) == if n == 3 then 1 else 0;
      assert CountWithGuesses(wins, n) == (if n == 3 then 1 else 0) + (if n == 5 then 1 else 0);
    }
    assert counts.Keys == expected.Keys;
  }
}
